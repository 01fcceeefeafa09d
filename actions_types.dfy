/** The page actions (`actions/types.go`; the same types are repeated in
    `cmdparse.go`). An action is a closed sum of exactly two variants, and
    its anchor, `Page()`, is the page number for both. */
module Actions {

  /** `Delete{Count, PageNo}` removes `count` pages from page `pageNo` (1-based);
      `Insert{Count, PageNo, InsertAfter}` adds `count` fresh pages next to
      page `pageNo`, after it when `insertAfter` holds and before it otherwise. */
  datatype Action =
    | Delete(count: int, pageNo: int)
    | Insert(count: int, pageNo: int, insertAfter: bool)
  {
    /** The anchor used for ordering and for the duplicate check. */
    function Page(): int
    {
      match this
      case Delete(_, p) => p
      case Insert(_, p, _) => p
    }
  }

  /** The fate of one original 0-based page index. */
  datatype PageReplacement = PageReplacement(originalIdx: int, newIdx: int, deleted: bool)

  /** No two actions share an anchor (what `checkActions` insists on). */
  predicate DistinctAnchors(acts: seq<Action>)
  {
    forall i, j :: 0 <= i < j < |acts| ==> acts[i].Page() != acts[j].Page()
  }

  /** Ascending by anchor (what `Sort` establishes). */
  predicate SortedByPage(acts: seq<Action>)
  {
    forall i, j :: 0 <= i < j < |acts| ==> acts[i].Page() <= acts[j].Page()
  }

  /** Every count is non-negative: the parser never builds anything else, and a
      merge's synthetic insert counts pages. */
  predicate NonNegativeCounts(acts: seq<Action>)
  {
    forall a :: a in acts ==> a.count >= 0
  }

  /** No anchor of another action lies strictly inside a delete's page range
      `(pageNo, pageNo + count - 1]`. */
  predicate DeletesAvoidAnchors(acts: seq<Action>)
  {
    forall j, l :: 0 <= j < |acts| && 0 <= l < |acts| && j != l && acts[j].Delete? ==>
      !(acts[j].pageNo < acts[l].Page() < acts[j].pageNo + acts[j].count)
  }

  /** The net change in page count: inserted pages minus deleted pages. */
  function Delta(acts: seq<Action>): int
  {
    if |acts| == 0 then 0
    else
      (match acts[0]
       case Delete(c, _) => -c
       case Insert(c, _, _) => c) + Delta(acts[1..])
  }

  /** The anchor ignores the count and the side: a delete and an insert on the
      same page collide, so no list containing both is accepted. */
  lemma SameAnchorCollides(c1: int, c2: int, p: int, after: bool)
    ensures Delete(c1, p).Page() == Insert(c2, p, after).Page() == p
    ensures !DistinctAnchors([Delete(c1, p), Insert(c2, p, after)])
  {
    var acts := [Delete(c1, p), Insert(c2, p, after)];
    assert acts[0].Page() == acts[1].Page();
  }

  /** Deletes of a single page can never cover another anchor. */
  lemma SinglePageDeletesAvoidAnchors(acts: seq<Action>)
    requires forall a :: a in acts && a.Delete? ==> a.count == 1
    ensures DeletesAvoidAnchors(acts)
  {
    forall j, l | 0 <= j < |acts| && 0 <= l < |acts| && j != l && acts[j].Delete?
      ensures !(acts[j].pageNo < acts[l].Page() < acts[j].pageNo + acts[j].count)
    {
      assert acts[j] in acts;
    }
  }
}
