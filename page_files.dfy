/** `RunContent` and `RunPagedata` (`actions/actions.go`): the two top-level
    archive files whose per-page lists `runSlice` rewrites. New page ids come
    from `uuid.New()`, modelled as `gen`; new pagedata lines are `"Blank"`. */
module PageFiles {
  import opened Wrappers
  import opened GoStrings
  import opened Actions
  import ActionOrder
  import opened SliceEngine
  import opened IndexRemap
  import opened Documents
  import Agreement

  // ---------------------------------------------------------------- RunContent

  /** The page-count loop of `RunContent`: walks the actions from the last
      down, subtracting delete counts and adding insert counts. */
  method CountPages(pageCount: int, acts: array<Action>) returns (r: int)
    ensures r == pageCount + Delta(acts[..])
  {
    r := pageCount;
    var i := acts.Length;
    while i > 0
      invariant 0 <= i <= acts.Length
      invariant r == pageCount + Delta(acts[i..])
    {
      i := i - 1;
      assert acts[i..][1..] == acts[i + 1..];
      assert acts[i..][0] == acts[i];
      match acts[i] {
        case Delete(c, _) => r := r - c;
        case Insert(c, _, _) => r := r + c;
      }
    }
    assert acts[0..] == acts[..];
  }

  /** The first half of `RunContent`: sort the caller's actions, then count
      the new page total on the sorted list. */
  method SortAndCount(pageCount: int, acts: array<Action>) returns (total: int)
    requires NonNegativeCounts(acts[..])
    modifies acts
    ensures SortedByPage(acts[..]) && multiset(acts[..]) == multiset(old(acts[..]))
    ensures NonNegativeCounts(acts[..])
    ensures total == pageCount + Delta(acts[..])
  {
    ActionOrder.Sort(acts);
    ActionOrder.PermutationKeepsCounts(old(acts[..]), acts[..]);
    total := CountPages(pageCount, acts);
  }

  /** What `RunContent` makes of a record, given the sorted actions. */
  function ContentAfter(c: Content, acts: seq<Action>, gen: nat -> string): Result<Content>
    requires NonNegativeCounts(acts)
  {
    match Apply(c.pages, acts, gen)
    case Panic(e) => Panic(e)
    case Ok(pages) => Ok(c.(pageCount := c.pageCount + Delta(acts), pages := pages))
  }

  /** `RunContent` on the decoded record: sorts the caller's actions, counts
      the new page total, and runs `runSlice` over the page ids. */
  method RunContent(c: Content, acts: array<Action>, gen: nat -> string) returns (r: Result<Content>)
    requires NonNegativeCounts(acts[..])
    modifies acts
    ensures SortedByPage(acts[..]) && multiset(acts[..]) == multiset(old(acts[..]))
    ensures NonNegativeCounts(acts[..])
    ensures DistinctAnchors(old(acts[..])) ==> acts[..] == ActionOrder.SortByPage(old(acts[..]))
    ensures r == ContentAfter(c, acts[..], gen)
  {
    var total := SortAndCount(c.pageCount, acts);
    ghost var counted := acts[..];
    var pages := RunSlice(c.pages, acts, gen);
    ActionOrder.ResortFacts(old(acts[..]), counted, acts[..]);
    if pages.Panic? {
      return Panic(pages.cause);
    }
    return Ok(c.(pageCount := total, pages := pages.value));
  }

  /** With no actions the record comes back unchanged. */
  lemma ContentNoActions(c: Content, gen: nat -> string)
    ensures ContentAfter(c, [], gen) == Ok(c)
  {
  }

  /** A record whose count matches its page list still does afterwards, and
      the count moves by exactly the inserted minus the deleted pages. */
  lemma ContentStaysConsistent(c: Content, acts: seq<Action>, gen: nat -> string)
    requires NonNegativeCounts(acts) && Consistent(c) && ContentAfter(c, acts, gen).Ok?
    ensures Consistent(ContentAfter(c, acts, gen).value)
    ensures ContentAfter(c, acts, gen).value.pageCount == c.pageCount + Delta(acts)
    ensures ContentAfter(c, acts, gen).value.fields == c.fields
  {
    LengthLaw(c.pages, acts, gen);
  }

  /** On an accepted action list, sorted as `RunContent` leaves it, the page
      ids move as `RunLines` says: every kept page keeps its id at its new
      index, every other position holds a fresh id, and the other fields are
      untouched. */
  lemma ContentAgrees(c: Content, s: seq<Action>, gen: nat -> string)
    requires Agreement.Accepted(s, |c.pages|) && SortedByPage(s)
    ensures ContentAfter(c, s, gen).Ok?
    ensures var out := ContentAfter(c, s, gen).value;
      && out.fields == c.fields
      && (forall i :: 0 <= i < |c.pages| && !Remap(i, s).deleted ==>
            0 <= Remap(i, s).newIdx < |out.pages| && out.pages[Remap(i, s).newIdx] == c.pages[i])
      && (forall t :: 0 <= t < |out.pages| ==> Agreement.KeptOrFresh(c.pages, s, gen, out.pages, t))
  {
    Agreement.SortedKeptPagesAgree(c.pages, s, gen);
    Agreement.SortedOutputAgrees(c.pages, s, gen);
  }

  // ---------------------------------------------------------------- RunPagedata

  /** The factory `RunPagedata` passes to `runSlice`. */
  function Blank(k: nat): string
  {
    "Blank"
  }

  /** What `RunPagedata` makes of a pagedata file, given the sorted actions:
      every newline-separated piece (including the empty piece after the
      final newline) is one item. */
  function PagedataAfter(pagedata: string, acts: seq<Action>): Result<string>
    requires NonNegativeCounts(acts)
  {
    JoinedAfter(Split(pagedata, '\n'), acts)
  }

  /** The lines after the actions, joined again with newlines. */
  function JoinedAfter(pieces: seq<string>, acts: seq<Action>): Result<string>
    requires NonNegativeCounts(acts)
  {
    match Apply(pieces, acts, Blank)
    case Panic(e) => Panic(e)
    case Ok(lines) => Ok(Join(lines, '\n'))
  }

  /** `RunPagedata`: sorts the caller's actions, splits at newlines, runs
      `runSlice` with `"Blank"` for new pages, and joins the lines again. */
  method RunPagedata(pagedata: string, acts: array<Action>) returns (r: Result<string>)
    requires NonNegativeCounts(acts[..])
    modifies acts
    ensures SortedByPage(acts[..]) && multiset(acts[..]) == multiset(old(acts[..]))
    ensures NonNegativeCounts(acts[..])
    ensures DistinctAnchors(old(acts[..])) ==> acts[..] == ActionOrder.SortByPage(old(acts[..]))
    ensures r == PagedataAfter(pagedata, acts[..])
  {
    ActionOrder.Sort(acts);
    ActionOrder.PermutationKeepsCounts(old(acts[..]), acts[..]);
    var lines := Split(pagedata, '\n');
    var out := RunSlice(lines, acts, Blank);
    if DistinctAnchors(old(acts[..])) {
      ActionOrder.SortedIsSortByPage(old(acts[..]), acts[..]);
    }
    if out.Panic? {
      return Panic(out.cause);
    }
    return Ok(Join(out.value, '\n'));
  }

  /** With no actions the file comes back unchanged. */
  lemma PagedataNoActions(pagedata: string)
    ensures PagedataAfter(pagedata, []) == Ok(pagedata)
  {
    JoinSplit(pagedata, '\n');
  }

  /** No line the transform produces holds a newline. */
  lemma LinesHaveNoNewline(pagedata: string, acts: seq<Action>)
    requires NonNegativeCounts(acts) && Apply(Split(pagedata, '\n'), acts, Blank).Ok?
    ensures var lines := Apply(Split(pagedata, '\n'), acts, Blank).value;
      forall k :: 0 <= k < |lines| ==> '\n' !in lines[k]
  {
    var lines := Apply(Split(pagedata, '\n'), acts, Blank).value;
    Provenance(Split(pagedata, '\n'), acts, Blank);
    forall k | 0 <= k < |lines| ensures '\n' !in lines[k] {
      assert lines[k] in lines;
    }
  }

  /** The written file reads back as exactly the transformed lines, one more
      than it has newlines, as long as at least one line is left. */
  lemma PagedataLines(pagedata: string, acts: seq<Action>)
    requires NonNegativeCounts(acts) && PagedataAfter(pagedata, acts).Ok?
    ensures var lines := Apply(Split(pagedata, '\n'), acts, Blank).value;
      var out := PagedataAfter(pagedata, acts).value;
      && |lines| == CountChar(pagedata, '\n') + 1 + Delta(acts)
      && (|lines| >= 1 ==> Split(out, '\n') == lines)
  {
    var lines := Apply(Split(pagedata, '\n'), acts, Blank).value;
    LengthLaw(Split(pagedata, '\n'), acts, Blank);
    SplitCount(pagedata, '\n');
    LinesHaveNoNewline(pagedata, acts);
    if |lines| >= 1 {
      SplitJoin(lines, '\n');
    }
  }

  /** Each action moves every index at or past the last page of an `n`-page
      list, so the piece after the final newline moves by the full change. */
  lemma {:induction false} LastIndexShift(n: int, acts: seq<Action>)
    requires Agreement.InRange(acts, n)
    ensures TotalShift(n, acts) == Delta(acts)
  {
    if |acts| > 0 {
      assert acts[0] in acts;
      assert forall a :: a in acts[1..] ==> a in acts;
      LastIndexShift(n, acts[1..]);
    }
  }

  /** An `n`-page file that ends in a newline still does after an accepted
      action list, as long as a page is left; with every page deleted the
      result is the empty string, which `getPagedataFromReader` rejects. */
  lemma PagedataKeepsFinalNewline(body: string, s: seq<Action>)
    requires Agreement.Accepted(s, CountChar(body, '\n') + 1) && SortedByPage(s)
    ensures var n := CountChar(body, '\n') + 1;
      var raw := body + "\n";
      && PagedataAfter(raw, s).Ok?
      && (n + Delta(s) >= 1 ==>
            var out := PagedataAfter(raw, s).value;
            |out| > 0 && out[|out| - 1] == '\n')
      && (n + Delta(s) == 0 ==> PagedataAfter(raw, s) == Ok(""))
  {
    TerminatedPieces(body);
    FinalNewline(Split(body + "\n", '\n'), s, CountChar(body, '\n') + 1);
  }

  /** The same for any `n + 1` pieces whose last one is empty. */
  lemma FinalNewline(pieces: seq<string>, s: seq<Action>, n: int)
    requires Agreement.Accepted(s, n) && SortedByPage(s)
    requires n >= 0 && |pieces| == n + 1 && |pieces[n]| == 0
    ensures JoinedAfter(pieces, s).Ok?
    ensures n + Delta(s) >= 1 ==>
      var out := JoinedAfter(pieces, s).value;
      |out| > 0 && out[|out| - 1] == '\n'
    ensures n + Delta(s) == 0 ==> JoinedAfter(pieces, s) == Ok("")
  {
    LastPieceKept(pieces, s, Blank);
    var lines := Apply(pieces, s, Blank).value;
    assert |lines[|lines| - 1]| == 0;
    assert JoinedAfter(pieces, s) == Ok(Join(lines, '\n'));
    JoinEmptyLast(lines);
  }

  /** A file that ends in a newline splits into one piece per line plus an
      empty last piece. */
  lemma TerminatedPieces(body: string)
    ensures var pieces := Split(body + "\n", '\n');
      |pieces| == CountChar(body, '\n') + 2 && |pieces[CountChar(body, '\n') + 1]| == 0
  {
    SplitSnocSep(body, '\n');
    SplitCount(body, '\n');
  }

  /** Joining lines whose last one is empty ends in a newline, unless that is
      the only line. */
  lemma JoinEmptyLast(lines: seq<string>)
    requires |lines| >= 1 && |lines[|lines| - 1]| == 0
    ensures |lines| == 1 ==> Join(lines, '\n') == ""
    ensures |lines| >= 2 ==> |Join(lines, '\n')| > 0 && Join(lines, '\n')[|Join(lines, '\n')| - 1] == '\n'
  {
    if |lines| >= 2 {
      var init := lines[..|lines| - 1];
      assert lines == init + [""];
      JoinSnoc(init, "", '\n');
    }
  }

  /** The piece after the last of `n` pages is never deleted and ends up last. */
  lemma LastPieceKept<T>(pieces: seq<T>, s: seq<Action>, gen: nat -> T)
    requires |pieces| >= 1 && Agreement.Accepted(s, |pieces| - 1) && SortedByPage(s)
    ensures Apply(pieces, s, gen).Ok?
    ensures var lines := Apply(pieces, s, gen).value;
      |lines| == |pieces| + Delta(s) >= 1 && lines[|lines| - 1] == pieces[|pieces| - 1]
  {
    var n := |pieces| - 1;
    assert Agreement.Accepted(s, n + 1) by {
      forall a | a in s ensures Agreement.ActionInRange(a, n + 1) {
        assert Agreement.ActionInRange(a, n);
      }
    }
    assert !exists a :: a in s && Covers(a, n) by {
      forall a | a in s ensures !Covers(a, n) {
        assert Agreement.ActionInRange(a, n);
      }
    }
    LastIndexShift(n, s);
    RemapClosedForm(n, s);
    assert !Remap(n, s).deleted && Remap(n, s).newIdx == n + Delta(s);
    Agreement.SortedKeptPagesAgree(pieces, s, gen);
    LengthLaw(pieces, s, gen);
    var lines := Apply(pieces, s, gen).value;
    var idx := Remap(n, s).newIdx;
    assert lines[idx] == pieces[n];
    assert idx == |lines| - 1;
  }
}
