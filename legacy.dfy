/** `runActionsContent` in `run.go`, the older copy of `RunContent`. It differs
    in one step: before running `runSlice` it overwrites every page id with a
    fresh uuid, so no original id survives. The other copies in `run.go`
    (`runActionsLines`, `runActionsPagedata`, `_runActionsSlice`) are the same
    code as `RunLines`, `RunPagedata` and `runSlice`. */
module Legacy {
  import opened Wrappers
  import opened Actions
  import ActionOrder
  import opened SliceEngine
  import opened Documents
  import PageFiles

  /** The uuid factory after `n` calls have been used. */
  function Shifted(gen: nat -> string, n: nat): nat -> string
  {
    (k: nat) => gen(n + k)
  }

  /** What `runActionsContent` makes of a record, given the sorted actions:
      the ids come from the first `|pages|` calls, new pages from the calls
      after them. */
  function LegacyContentAfter(c: Content, acts: seq<Action>, gen: nat -> string): Result<Content>
    requires NonNegativeCounts(acts)
  {
    var n := |c.pages|;
    match Apply(Fresh(gen, 0, n), acts, Shifted(gen, n))
    case Panic(e) => Panic(e)
    case Ok(pages) => Ok(c.(pageCount := c.pageCount + Delta(acts), pages := pages))
  }

  /** `runActionsContent` on the decoded record. */
  method RunActionsContent(c: Content, acts: array<Action>, gen: nat -> string) returns (r: Result<Content>)
    requires NonNegativeCounts(acts[..])
    modifies acts
    ensures SortedByPage(acts[..]) && multiset(acts[..]) == multiset(old(acts[..]))
    ensures NonNegativeCounts(acts[..])
    ensures DistinctAnchors(old(acts[..])) ==> acts[..] == ActionOrder.SortByPage(old(acts[..]))
    ensures r == LegacyContentAfter(c, acts[..], gen)
  {
    var total := PageFiles.SortAndCount(c.pageCount, acts);
    ghost var counted := acts[..];
    var pages := OverwriteIds(c.pages, gen);
    var out := RunSlice(pages, acts, Shifted(gen, |c.pages|));
    ActionOrder.ResortFacts(old(acts[..]), counted, acts[..]);
    r := if out.Panic? then Panic(out.cause) else Ok(c.(pageCount := total, pages := out.value));
    LegacyUnfold(c, acts[..], gen, out, total);
  }

  /** The method's result, assembled from its pieces, is `LegacyContentAfter`. */
  lemma LegacyUnfold(c: Content, acts: seq<Action>, gen: nat -> string, out: Result<seq<string>>, total: int)
    requires NonNegativeCounts(acts)
    requires out == Apply(Fresh(gen, 0, |c.pages|), acts, Shifted(gen, |c.pages|))
    requires total == c.pageCount + Delta(acts)
    ensures LegacyContentAfter(c, acts, gen)
         == if out.Panic? then Panic(out.cause) else Ok(c.(pageCount := total, pages := out.value))
  {
  }

  /** The loop that gives page `i` the id of factory call `i`. */
  method OverwriteIds(ids: seq<string>, gen: nat -> string) returns (pages: seq<string>)
    ensures pages == Fresh(gen, 0, |ids|)
  {
    pages := ids;
    var i := 0;
    while i < |pages|
      invariant 0 <= i <= |pages| == |ids|
      invariant pages == Fresh(gen, 0, i) + ids[i..]
    {
      pages := pages[i := gen(i)];
      assert Fresh(gen, 0, i + 1) == Fresh(gen, 0, i) + [gen(i)];
      i := i + 1;
    }
  }

  /** Every page id the legacy engine writes is a fresh uuid: one of the first
      `|pages| + Calls(acts)` factory calls. */
  lemma EveryIdIsFresh(c: Content, acts: seq<Action>, gen: nat -> string)
    requires NonNegativeCounts(acts) && LegacyContentAfter(c, acts, gen).Ok?
    ensures forall y :: y in LegacyContentAfter(c, acts, gen).value.pages ==>
      exists k :: 0 <= k < |c.pages| + Calls(acts) && y == gen(k)
  {
    var n := |c.pages|;
    var xs := Fresh(gen, 0, n);
    Provenance(xs, acts, Shifted(gen, n));
    forall y | y in LegacyContentAfter(c, acts, gen).value.pages
      ensures exists k :: 0 <= k < n + Calls(acts) && y == gen(k)
    {
      if y in xs {
        var m :| 0 <= m < n && xs[m] == y;
        assert y == gen(m);
      } else {
        var k :| 0 <= k < Calls(acts) && y == Shifted(gen, n)(k);
        assert y == gen(n + k);
      }
    }
  }

  /** The difference from `RunContent`: with no actions at all, `RunContent`
      returns the record unchanged, while the legacy engine still replaces
      every id. */
  lemma LegacyReplacesIds(c: Content, gen: nat -> string)
    ensures PageFiles.ContentAfter(c, [], gen) == Ok(c)
    ensures LegacyContentAfter(c, [], gen) == Ok(c.(pages := Fresh(gen, 0, |c.pages|)))
  {
  }

  /** Otherwise the two engines agree: the legacy result is `RunContent` run
      on the record with fresh ids, drawing later ids from the calls after
      them. The page count is the same. */
  lemma LegacyIsContentOnFreshIds(c: Content, acts: seq<Action>, gen: nat -> string)
    requires NonNegativeCounts(acts)
    ensures LegacyContentAfter(c, acts, gen)
         == PageFiles.ContentAfter(c.(pages := Fresh(gen, 0, |c.pages|)), acts, Shifted(gen, |c.pages|))
  {
  }
}
