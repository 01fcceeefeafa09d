/** `RunLines` (`actions/actions.go`; `runActionsLines` in `run.go` is the
    same code): for every annotation file name, where its page goes. Every
    threshold compares the entry's ORIGINAL index, which is sound because the
    actions are walked from the highest anchor down. Also the rule `RunFile`
    uses to drop or rename an annotation file. */
module IndexRemap {
  import opened Wrappers
  import opened GoStrings
  import opened Actions
  import opened FileNames
  import ActionOrder

  /** One action's effect on one entry. A delete marks the entries in its
      range and moves the ones above it down; an insert moves the entries
      above its split point up (after page `p`: above `p - 1`; before page
      `p`: above `p - 2`). */
  function StepReplacement(pr: PageReplacement, a: Action): PageReplacement
  {
    match a
    case Delete(c, pageNo) =>
      var p := pageNo - 1;
      if p <= pr.originalIdx < p + c then pr.(deleted := true)
      else if pr.originalIdx >= p + c then pr.(newIdx := pr.newIdx - c)
      else pr
    case Insert(c, pageNo, after) =>
      var p := if after then pageNo - 1 else pageNo - 2;
      if pr.originalIdx > p then pr.(newIdx := pr.newIdx + c) else pr
  }

  /** The entry for original index `i` after the whole descending traversal
      (the first, lowest action is applied last). */
  function Remap(i: int, acts: seq<Action>): PageReplacement
  {
    if |acts| == 0 then PageReplacement(i, i, false)
    else StepReplacement(Remap(i, acts[1..]), acts[0])
  }

  /** `a` is a delete whose range contains the 0-based index `i`. */
  predicate Covers(a: Action, i: int)
  {
    a.Delete? && a.pageNo - 1 <= i < a.pageNo - 1 + a.count
  }

  /** How far one action moves index `i`, judged in original numbering. */
  function ShiftBy(i: int, a: Action): int
  {
    match a
    case Delete(c, pageNo) => if i >= pageNo - 1 + c then -c else 0
    case Insert(c, pageNo, after) => if i > (if after then pageNo - 1 else pageNo - 2) then c else 0
  }

  function TotalShift(i: int, acts: seq<Action>): int
  {
    if |acts| == 0 then 0 else ShiftBy(i, acts[0]) + TotalShift(i, acts[1..])
  }

  /** The original index is never changed; an entry is deleted exactly when
      some delete covers it; and its new index is its original index plus the
      shifts of all actions, each judged against the original index alone. */
  lemma {:induction false} RemapClosedForm(i: int, acts: seq<Action>)
    ensures Remap(i, acts).originalIdx == i
    ensures Remap(i, acts).deleted <==> exists a :: a in acts && Covers(a, i)
    ensures Remap(i, acts).newIdx == i + TotalShift(i, acts)
  {
    if |acts| > 0 {
      RemapClosedForm(i, acts[1..]);
      assert acts == [acts[0]] + acts[1..];
      var pr := Remap(i, acts[1..]);
      assert Remap(i, acts) == StepReplacement(pr, acts[0]);
      assert Remap(i, acts).deleted == (pr.deleted || Covers(acts[0], i));
      if Remap(i, acts[1..]).deleted {
        var a :| a in acts[1..] && Covers(a, i);
        assert a in acts;
      }
      if exists a :: a in acts && Covers(a, i) {
        var a :| a in acts && Covers(a, i);
        if a != acts[0] {
          assert a in acts[1..];
        }
      }
    }
  }

  /** A list of inserts never deletes anything. */
  lemma InsertsNeverDelete(i: int, acts: seq<Action>)
    requires forall a :: a in acts ==> a.Insert?
    ensures !Remap(i, acts).deleted && Remap(i, acts).originalIdx == i
  {
    RemapClosedForm(i, acts);
  }

  // ---------------------------------------------------------------- RunLines

  predicate AllIndicesParse(files: seq<string>)
  {
    forall f :: f in files ==> GetIdxFromFileName(f).Ok?
  }

  /** Why the first file whose index does not parse panics, if one does. */
  function FirstBadIndex(files: seq<string>): (r: Option<Cause>)
    ensures r.None? <==> AllIndicesParse(files)
  {
    if |files| == 0 then None
    else
      assert forall f :: f in files <==> f == files[0] || f in files[1..];
      match GetIdxFromFileName(files[0])
      case Panic(c) => Some(c)
      case Ok(_) => FirstBadIndex(files[1..])
  }

  /** The reported cause is that of a name in the list. */
  lemma {:induction false} FirstBadIndexCause(files: seq<string>)
    requires FirstBadIndex(files).Some?
    ensures exists f :: f in files && GetIdxFromFileName(f) == Panic(FirstBadIndex(files).value)
  {
    if GetIdxFromFileName(files[0]).Ok? {
      FirstBadIndexCause(files[1..]);
      var f :| f in files[1..] && GetIdxFromFileName(f) == Panic(FirstBadIndex(files[1..]).value);
      assert f in files;
    }
  }

  /** One entry per file name, each the remap of the index it encodes. */
  function Remapping(files: seq<string>, acts: seq<Action>): map<string, PageReplacement>
    requires AllIndicesParse(files)
  {
    map f | f in files :: Remap(GetIdxFromFileName(f).value, acts)
  }

  /** What `RunLines` returns, or how it panics. */
  function RunLinesResult(files: seq<string>, acts: seq<Action>): Result<map<string, PageReplacement>>
  {
    match FirstBadIndex(files)
    case Some(c) => Panic(c)
    case None => Ok(Remapping(files, acts))
  }

  /** The inner loop of `RunLines` for one action: rewrites every entry of
      the map. */
  method RemapAll(res: map<string, PageReplacement>, a: Action) returns (out: map<string, PageReplacement>)
    ensures out.Keys == res.Keys
    ensures forall k :: k in res ==> out[k] == StepReplacement(res[k], a)
  {
    out := res;
    var todo := res.Keys;
    while todo != {}
      invariant todo <= res.Keys && PartlyStepped(res, out, todo, a)
      decreases |todo|
    {
      var k :| k in todo;
      var pr := res[k];
      ghost var before := out;
      StepOne(res, before, todo, a, k);
      match a {
        case Delete(c, pageNo) =>
          var pageIdx := pageNo - 1;
          if pr.originalIdx >= pageIdx && pr.originalIdx < pageIdx + c {
            assert pr.(deleted := true) == StepReplacement(res[k], a);
            out := out[k := pr.(deleted := true)];
          } else if pr.originalIdx >= pageIdx + c {
            assert pr.(newIdx := pr.newIdx - c) == StepReplacement(res[k], a);
            out := out[k := pr.(newIdx := pr.newIdx - c)];
          } else {
            assert StepReplacement(res[k], a) == res[k];
          }
        case Insert(c, pageNo, after) =>
          var pageIdx := pageNo - 1;
          if !after {
            pageIdx := pageIdx - 1;
          }
          if pr.originalIdx > pageIdx {
            assert pr.(newIdx := pr.newIdx + c) == StepReplacement(res[k], a);
            out := out[k := pr.(newIdx := pr.newIdx + c)];
          } else {
            assert StepReplacement(res[k], a) == res[k];
          }
      }
      todo := todo - {k};
    }
  }

  /** `out` holds the stepped entry for every key already visited and the
      original entry for the keys in `todo`. */
  predicate PartlyStepped(res: map<string, PageReplacement>, out: map<string, PageReplacement>, todo: set<string>, a: Action)
  {
    && out.Keys == res.Keys
    && forall k :: k in res ==> out[k] == if k in todo then res[k] else StepReplacement(res[k], a)
  }

  /** Visiting one key of `todo`: its entry is stepped, or left alone when the
      step does not change it. */
  lemma StepOne(res: map<string, PageReplacement>, out: map<string, PageReplacement>, todo: set<string>, a: Action, k: string)
    requires PartlyStepped(res, out, todo, a) && k in todo && todo <= res.Keys
    ensures PartlyStepped(res, out[k := StepReplacement(res[k], a)], todo - {k}, a)
    ensures StepReplacement(res[k], a) == res[k] ==> PartlyStepped(res, out, todo - {k}, a)
  {
  }

  /** The first bad name is the first name, past a prefix of good ones,
      whose index does not parse. */
  lemma {:induction false} FirstBadIndexAt(files: seq<string>, j: int)
    requires 0 <= j < |files| && AllIndicesParse(files[..j]) && GetIdxFromFileName(files[j]).Panic?
    ensures FirstBadIndex(files) == Some(GetIdxFromFileName(files[j]).cause)
  {
    if j > 0 {
      assert files[0] in files[..j];
      assert files[1..][..j - 1] == files[..j][1..];
      assert forall f :: f in files[..j][1..] ==> f in files[..j];
      FirstBadIndexAt(files[1..], j - 1);
    }
  }

  /** The first half of `RunLines`: one identity entry per file name,
      panicking at the first name without an index. */
  method IdentityEntries(files: seq<string>) returns (r: Result<map<string, PageReplacement>>)
    ensures r == RunLinesResult(files, [])
  {
    var res: map<string, PageReplacement> := map[];
    var j := 0;
    while j < |files|
      invariant 0 <= j <= |files|
      invariant AllIndicesParse(files[..j])
      invariant forall f :: f in res <==> f in files[..j]
      invariant forall f :: f in res ==> res[f] == Remap(GetIdxFromFileName(f).value, [])
    {
      var idx := GetIdxFromFileName(files[j]);
      if idx.Panic? {
        FirstBadIndexAt(files, j);
        return Panic(idx.cause);
      }
      ExtendParsed(files, j);
      res := res[files[j] := PageReplacement(idx.value, idx.value, false)];
      j := j + 1;
    }
    assert files[..j] == files;
    assert res == Remapping(files, []);
    return Ok(res);
  }

  lemma ExtendParsed(files: seq<string>, j: int)
    requires 0 <= j < |files| && AllIndicesParse(files[..j]) && GetIdxFromFileName(files[j]).Ok?
    ensures AllIndicesParse(files[..j + 1])
    ensures forall f :: f in files[..j + 1] <==> f in files[..j] || f == files[j]
  {
    assert files[..j + 1] == files[..j] + [files[j]];
  }

  /** `RunLines`: sorts the caller's array, builds one identity entry per file
      name (panicking at the first name without an index), then applies the
      actions from the highest anchor down. */
  method RunLines(files: seq<string>, acts: array<Action>) returns (r: Result<map<string, PageReplacement>>)
    modifies acts
    ensures SortedByPage(acts[..]) && multiset(acts[..]) == multiset(old(acts[..]))
    ensures DistinctAnchors(old(acts[..])) ==> acts[..] == ActionOrder.SortByPage(old(acts[..]))
    ensures r == RunLinesResult(files, acts[..])
  {
    ActionOrder.Sort(acts);
    ghost var sorted := acts[..];
    var start := IdentityEntries(files);
    if start.Panic? {
      return Panic(start.cause);
    }
    var res := start.value;
    assert AllIndicesParse(files) && res == Remapping(files, []);
    var i := acts.Length;
    while i > 0
      invariant 0 <= i <= acts.Length && acts[..] == sorted
      invariant forall f :: f in res <==> f in files
      invariant forall f :: f in res ==> res[f] == Remap(GetIdxFromFileName(f).value, acts[i..])
    {
      i := i - 1;
      assert acts[i..][1..] == acts[i + 1..];
      assert acts[i..][0] == acts[i];
      res := RemapAll(res, acts[i]);
    }
    assert acts[0..] == acts[..];
    assert res == Remapping(files, acts[..]);
    return Ok(res);
  }

  /** `RunLines` with the single action `Insert{off, 1, false}` (what the merge
      uses) moves every annotation up by `off` and deletes none. */
  lemma MergeRelabel(files: seq<string>, off: int)
    requires AllIndicesParse(files)
    ensures forall f :: f in files ==>
      var i := GetIdxFromFileName(f).value;
      Remapping(files, [Insert(off, 1, false)])[f] == PageReplacement(i, i + off, false)
  {
    forall f | f in files
      ensures var i := GetIdxFromFileName(f).value;
        Remapping(files, [Insert(off, 1, false)])[f] == PageReplacement(i, i + off, false)
    {
      IndexNonNegative(f);
      var i := GetIdxFromFileName(f).value;
      assert [Insert(off, 1, false)][1..] == [];
      assert Remap(i, [Insert(off, 1, false)]) == StepReplacement(PageReplacement(i, i, false), Insert(off, 1, false));
    }
  }

  // ---------------------------------------------------------------- RunFile's rename rule

  /** The new name of a surviving annotation: every occurrence of the old
      index's decimal text is replaced by the new index's. */
  function RenameWith(name: string, pr: PageReplacement): string
  {
    ReplaceAll(name, Itoa(pr.originalIdx), Itoa(pr.newIdx))
  }

  /** `repl[name]`: Go's zero value for a missing key. */
  function Lookup(repl: map<string, PageReplacement>, name: string): PageReplacement
  {
    if name in repl then repl[name] else PageReplacement(0, 0, false)
  }

  /** The file names `RunFile` writes under `uuidNew/`, in input order:
      deleted annotations are skipped, the others renamed. */
  function Written(uuidNew: string, names: seq<string>, repl: map<string, PageReplacement>): seq<string>
  {
    if |names| == 0 then []
    else
      var n := names[|names| - 1];
      var pr := Lookup(repl, n);
      Written(uuidNew, names[..|names| - 1], repl) + (if pr.deleted then [] else [uuidNew + "/" + RenameWith(n, pr)])
  }

  /** The annotation half of `RunFile`: remaps the inner file names, then
      writes each one that survives under its new name. */
  method RenameAnnotations(uuidNew: string, names: seq<string>, acts: array<Action>) returns (r: Result<seq<string>>)
    modifies acts
    ensures SortedByPage(acts[..]) && multiset(acts[..]) == multiset(old(acts[..]))
    ensures DistinctAnchors(old(acts[..])) ==> acts[..] == ActionOrder.SortByPage(old(acts[..]))
    ensures r == match RunLinesResult(names, acts[..])
                 case Panic(c) => Panic(c)
                 case Ok(repl) => Ok(Written(uuidNew, names, repl))
  {
    var repl := RunLines(names, acts);
    if repl.Panic? {
      return Panic(repl.cause);
    }
    var out := WriteSurvivors(uuidNew, names, repl.value);
    return Ok(out);
  }

  /** The loop of `RunFile` over the inner file names: each survivor is
      written under `uuidNew` with its new name, the others are dropped. */
  method WriteSurvivors(uuidNew: string, names: seq<string>, repl: map<string, PageReplacement>) returns (out: seq<string>)
    ensures out == Written(uuidNew, names, repl)
  {
    out := [];
    var j := 0;
    while j < |names|
      invariant 0 <= j <= |names|
      invariant out == Written(uuidNew, names[..j], repl)
    {
      assert names[..j + 1][..j] == names[..j];
      var pr := Lookup(repl, names[j]);
      if !pr.deleted {
        out := out + [uuidNew + "/" + RenameWith(names[j], pr)];
      }
      j := j + 1;
    }
    assert names[..j] == names;
  }

  /** A name is written exactly when some input name survives and renames to it. */
  lemma {:induction false} WrittenExactly(uuidNew: string, names: seq<string>, repl: map<string, PageReplacement>)
    ensures forall w :: w in Written(uuidNew, names, repl) <==>
      exists n :: n in names && !Lookup(repl, n).deleted && w == uuidNew + "/" + RenameWith(n, Lookup(repl, n))
  {
    if |names| > 0 {
      var init := names[..|names| - 1];
      var n := names[|names| - 1];
      WrittenExactly(uuidNew, init, repl);
      assert names == init + [n];
      forall w ensures w in Written(uuidNew, names, repl) <==>
        exists m :: m in names && !Lookup(repl, m).deleted && w == uuidNew + "/" + RenameWith(m, Lookup(repl, m))
      {
        if exists m :: m in names && !Lookup(repl, m).deleted && w == uuidNew + "/" + RenameWith(m, Lookup(repl, m)) {
          var m :| m in names && !Lookup(repl, m).deleted && w == uuidNew + "/" + RenameWith(m, Lookup(repl, m));
          if m != n {
            assert m in init;
          }
        }
      }
    }
  }

  /** An annotation of an accepted list is written exactly when no delete
      covers its page. */
  lemma AnnotationSurvives(uuidNew: string, names: seq<string>, acts: seq<Action>, n: string)
    requires AllIndicesParse(names) && n in names
    ensures var pr := Remapping(names, acts)[n];
      (uuidNew + "/" + RenameWith(n, pr) in Written(uuidNew, names, Remapping(names, acts)))
        <== !exists a :: a in acts && Covers(a, GetIdxFromFileName(n).value)
    ensures Remapping(names, acts)[n].deleted <==> exists a :: a in acts && Covers(a, GetIdxFromFileName(n).value)
  {
    var repl := Remapping(names, acts);
    var pr := Remap(GetIdxFromFileName(n).value, acts);
    assert repl[n] == pr == Lookup(repl, n);
    RemapClosedForm(GetIdxFromFileName(n).value, acts);
    if !pr.deleted {
      WrittenIncludes(uuidNew, names, repl, n);
    }
  }

  /** A surviving name is written under its new name. */
  lemma {:induction false} WrittenIncludes(uuidNew: string, names: seq<string>, repl: map<string, PageReplacement>, n: string)
    requires n in names && !Lookup(repl, n).deleted
    ensures uuidNew + "/" + RenameWith(n, Lookup(repl, n)) in Written(uuidNew, names, repl)
  {
    var init := names[..|names| - 1];
    var last := names[|names| - 1];
    assert names == init + [last];
    if n != last {
      assert n in init;
      WrittenIncludes(uuidNew, init, repl, n);
    }
  }

  /** When the old index's text occurs only at the front of the name, the
      rename rewrites exactly that prefix. */
  lemma RenamePrefix(i: int, j: int, rest: string, deleted: bool)
    requires !Occurs(Itoa(i), rest)
    ensures RenameWith(Itoa(i) + rest, PageReplacement(i, j, deleted)) == Itoa(j) + rest
  {
    ReplaceAllPrefix(Itoa(i), rest, Itoa(j));
    ReplaceAllAbsent(rest, Itoa(i), Itoa(j));
  }

  /** Otherwise every occurrence is rewritten: a name that repeats the index
      after a digit-free part, such as `1-v1.json` for index 1 moving to 3,
      becomes `3-v3.json`, not `3-v1.json`. */
  lemma RenameRewritesEveryOccurrence(i: int, j: int, mid: string, tail: string, deleted: bool)
    requires i >= 0
    requires forall k :: 0 <= k < |mid| ==> !IsDigit(mid[k])
    requires forall k :: 0 <= k < |tail| ==> !IsDigit(tail[k])
    ensures RenameWith(Itoa(i) + mid + Itoa(i) + tail, PageReplacement(i, j, deleted))
         == Itoa(j) + mid + Itoa(j) + tail
  {
    var pat := Itoa(i);
    ItoaChars(i);
    assert IsDigit(pat[0]);
    ReplaceTwice(pat, mid, tail, Itoa(j));
  }
}
