/** `Sort` (`actions/actions.go`): every engine first sorts the caller's slice
    in place, ascending by anchor, and then walks it from the highest anchor down. */
module ActionOrder {
  import opened Actions

  /** Sorts the caller's array in place, ascending by `Page()`. Go's `sort.Slice`
      is not stable; with distinct anchors the order is forced anyway
      (`SortedPermutationUnique`). */
  method Sort(a: array<Action>)
    modifies a
    ensures SortedByPage(a[..])
    ensures multiset(a[..]) == multiset(old(a[..]))
    ensures DistinctAnchors(old(a[..])) ==> DistinctAnchors(a[..])
    ensures DistinctAnchors(old(a[..])) ==> a[..] == SortByPage(old(a[..]))
  {
    var i := 0;
    while i < a.Length
      invariant 0 <= i <= a.Length
      invariant SortedByPage(a[..i])
      invariant multiset(a[..]) == multiset(old(a[..]))
    {
      SinkLast(a, i);
      i := i + 1;
    }
    assert a[..a.Length] == a[..];
    if DistinctAnchors(old(a[..])) {
      PermutationKeepsShape(old(a[..]), a[..]);
      PermutationKeepsShape(old(a[..]), SortByPage(old(a[..])));
      SortedPermutationUnique(SortByPage(old(a[..])), a[..]);
    }
  }

  /** One insertion-sort pass: moves `a[i]` left until `a[..i + 1]` is ascending. */
  method SinkLast(a: array<Action>, i: int)
    requires 0 <= i < a.Length && SortedByPage(a[..i])
    modifies a
    ensures SortedByPage(a[..i + 1])
    ensures multiset(a[..]) == multiset(old(a[..]))
  {
    var j := i;
    SinkStart(a[..], i);
    while j > 0 && a[j - 1].Page() > a[j].Page()
      invariant 0 <= j <= i
      invariant Sinking(a[..], j, i)
      invariant multiset(a[..]) == multiset(old(a[..]))
    {
      ghost var before := a[..];
      SwapNeighbours(a, j - 1);
      SinkStep(before, a[..], j, i);
      j := j - 1;
    }
    SinkDone(a[..], j, i);
  }

  /** The state of a pass moving the item at `j` down: apart from that item
      `s[..i + 1]` is ascending, and the item is at most everything above it. */
  predicate Sinking(s: seq<Action>, j: int, i: int)
    requires 0 <= j <= i < |s|
  {
    && (forall k, l :: 0 <= k < l <= i && k != j && l != j ==> s[k].Page() <= s[l].Page())
    && (forall l :: j < l <= i ==> s[j].Page() <= s[l].Page())
  }

  lemma SinkStart(s: seq<Action>, i: int)
    requires 0 <= i < |s| && SortedByPage(s[..i])
    ensures Sinking(s, i, i)
  {
    forall k, l | 0 <= k < l <= i && k != i && l != i ensures s[k].Page() <= s[l].Page() {
      assert s[..i][k] == s[k] && s[..i][l] == s[l];
    }
  }

  /** Swapping the item with the larger one below it moves the pass one down. */
  lemma SinkStep(s: seq<Action>, t: seq<Action>, j: int, i: int)
    requires 0 < j <= i < |s| && Sinking(s, j, i) && s[j - 1].Page() > s[j].Page()
    requires |t| == |s| && t[j - 1] == s[j] && t[j] == s[j - 1]
    requires forall m :: 0 <= m < |s| && m != j - 1 && m != j ==> t[m] == s[m]
    ensures Sinking(t, j - 1, i)
  {
    forall k, l | 0 <= k < l <= i && k != j - 1 && l != j - 1 ensures t[k].Page() <= t[l].Page() {
      if l == j {
        assert t[l] == s[j - 1] && t[k] == s[k];
      } else if k == j {
        assert t[k] == s[j - 1] && t[l] == s[l];
      } else {
        assert t[k] == s[k] && t[l] == s[l];
      }
    }
    forall l | j - 1 < l <= i ensures t[j - 1].Page() <= t[l].Page() {
      if l > j {
        assert t[l] == s[l];
      }
    }
  }

  /** A pass that stopped leaves `s[..i + 1]` ascending. */
  lemma SinkDone(s: seq<Action>, j: int, i: int)
    requires 0 <= j <= i < |s| && Sinking(s, j, i)
    requires j == 0 || s[j - 1].Page() <= s[j].Page()
    ensures SortedByPage(s[..i + 1])
  {
    var p := s[..i + 1];
    forall k, l | 0 <= k < l < |p| ensures p[k].Page() <= p[l].Page() {
      if l == j && k < j - 1 {
        assert s[k].Page() <= s[j - 1].Page();
      }
    }
  }

  /** Exchanges `a[k]` and `a[k + 1]`. */
  method SwapNeighbours(a: array<Action>, k: int)
    requires 0 <= k < a.Length - 1
    modifies a
    ensures a[k] == old(a[k + 1]) && a[k + 1] == old(a[k])
    ensures forall m :: 0 <= m < a.Length && m != k && m != k + 1 ==> a[m] == old(a[m])
    ensures multiset(a[..]) == multiset(old(a[..]))
  {
    a[k], a[k + 1] := a[k + 1], a[k];
  }

  /** Two ascending lists with the same elements and distinct anchors are the
      same list: the result of sorting does not depend on the input order. */
  lemma {:induction false} SortedPermutationUnique(x: seq<Action>, y: seq<Action>)
    requires SortedByPage(x) && SortedByPage(y) && DistinctAnchors(x)
    requires multiset(x) == multiset(y)
    ensures x == y
    decreases |x|
  {
    assert |x| == |multiset(x)| == |multiset(y)| == |y|;
    if |x| > 0 {
      SameTails(x, y);
      SortedPermutationUnique(x[1..], y[1..]);
      ConsEqual(x, y);
    }
  }

  /** After equal heads, the tails meet the same conditions. */
  lemma SameTails(x: seq<Action>, y: seq<Action>)
    requires |x| > 0 && |y| > 0
    requires SortedByPage(x) && SortedByPage(y) && DistinctAnchors(x)
    requires multiset(x) == multiset(y)
    ensures x[0] == y[0]
    ensures SortedByPage(x[1..]) && SortedByPage(y[1..]) && DistinctAnchors(x[1..])
    ensures multiset(x[1..]) == multiset(y[1..])
  {
    SameHead(x, y);
    DropHead(x);
    DropHead(y);
  }

  lemma ConsEqual<T>(x: seq<T>, y: seq<T>)
    requires |x| > 0 && |y| > 0 && x[0] == y[0] && x[1..] == y[1..]
    ensures x == y
  {
    assert x == [x[0]] + x[1..] && y == [y[0]] + y[1..];
  }

  lemma SameHead(x: seq<Action>, y: seq<Action>)
    requires |x| > 0 && |y| > 0
    requires SortedByPage(x) && SortedByPage(y) && DistinctAnchors(x)
    requires multiset(x) == multiset(y)
    ensures x[0] == y[0]
  {
    assert x[0] in multiset(y);
    var k :| 0 <= k < |y| && y[k] == x[0];
    assert y[0] in multiset(x);
    var l :| 0 <= l < |x| && x[l] == y[0];
    assert y[0].Page() <= y[k].Page();
    assert x[0].Page() <= x[l].Page();
    assert x[l].Page() == x[0].Page();
    assert l == 0;
  }

  lemma DropHead(x: seq<Action>)
    requires |x| > 0
    ensures SortedByPage(x) ==> SortedByPage(x[1..])
    ensures DistinctAnchors(x) ==> DistinctAnchors(x[1..])
    ensures multiset(x[1..]) == multiset(x) - multiset([x[0]])
  {
    assert x == [x[0]] + x[1..];
    if SortedByPage(x) {
      forall i, j | 0 <= i < j < |x| - 1 ensures x[1..][i].Page() <= x[1..][j].Page() {
        assert x[1..][i] == x[i + 1] && x[1..][j] == x[j + 1];
      }
    }
    if DistinctAnchors(x) {
      forall i, j | 0 <= i < j < |x| - 1 ensures x[1..][i].Page() != x[1..][j].Page() {
        assert x[1..][i] == x[i + 1] && x[1..][j] == x[j + 1];
      }
    }
  }

  /** Reordering keeps every element, hence every count, where it can be seen. */
  lemma PermutationKeepsCounts(x: seq<Action>, y: seq<Action>)
    requires multiset(x) == multiset(y) && NonNegativeCounts(x)
    ensures NonNegativeCounts(y)
  {
    forall a | a in y ensures a.count >= 0 {
      assert a in multiset(y);
    }
  }

  // ---------------------------------------------------------------- the order as a function

  /** Places `a` in front of the first element of `s` whose anchor is not smaller. */
  function InsertByPage(a: Action, s: seq<Action>): (r: seq<Action>)
    ensures multiset(r) == multiset(s) + multiset{a}
  {
    if |s| == 0 then [a]
    else if a.Page() <= s[0].Page() then [a] + s
    else
      assert s == [s[0]] + s[1..];
      [s[0]] + InsertByPage(a, s[1..])
  }

  lemma {:induction false} InsertByPageSorted(a: Action, s: seq<Action>)
    requires SortedByPage(s)
    ensures SortedByPage(InsertByPage(a, s))
  {
    if |s| > 0 && a.Page() > s[0].Page() {
      var rest := InsertByPage(a, s[1..]);
      DropHead(s);
      InsertByPageSorted(a, s[1..]);
      InsertedAbove(a, s);
      ConsSorted(s[0], rest);
    }
  }

  /** Every element of the list `InsertByPage` builds after the head of `s`
      is at or above that head. */
  lemma InsertedAbove(a: Action, s: seq<Action>)
    requires |s| > 0 && SortedByPage(s) && a.Page() > s[0].Page()
    ensures forall x :: x in InsertByPage(a, s[1..]) ==> s[0].Page() <= x.Page()
  {
    var rest := InsertByPage(a, s[1..]);
    forall x | x in rest ensures s[0].Page() <= x.Page() {
      assert x in multiset(rest);
      if x != a {
        assert x in multiset(s[1..]);
        var k :| 0 <= k < |s[1..]| && s[1..][k] == x;
        assert s[k + 1] == x;
      }
    }
  }

  /** A head at or below every element of an ascending list keeps it ascending. */
  lemma ConsSorted(h: Action, rest: seq<Action>)
    requires SortedByPage(rest) && forall x :: x in rest ==> h.Page() <= x.Page()
    ensures SortedByPage([h] + rest)
  {
    var r := [h] + rest;
    forall i, j | 0 <= i < j < |r| ensures r[i].Page() <= r[j].Page() {
      if i == 0 {
        assert r[j] == rest[j - 1] && r[j] in rest;
      } else {
        assert r[i] == rest[i - 1] && r[j] == rest[j - 1];
      }
    }
  }

  /** The ascending order `Sort` produces, as a function of the input list. */
  function SortByPage(acts: seq<Action>): (r: seq<Action>)
    ensures SortedByPage(r) && multiset(r) == multiset(acts)
  {
    if |acts| == 0 then []
    else
      assert acts == [acts[0]] + acts[1..];
      InsertByPageSorted(acts[0], SortByPage(acts[1..]));
      InsertByPage(acts[0], SortByPage(acts[1..]))
  }

  /** With distinct anchors no action occurs twice. */
  lemma {:induction false} AtMostOnce(x: seq<Action>, e: Action)
    requires DistinctAnchors(x)
    ensures multiset(x)[e] <= 1
    decreases |x|
  {
    if |x| > 0 {
      assert x == [x[0]] + x[1..];
      DropHead(x);
      AtMostOnce(x[1..], e);
    }
  }

  /** Two different actions of a list with distinct anchors have different anchors. */
  lemma DistinctMembers(x: seq<Action>, a: Action, b: Action)
    requires DistinctAnchors(x) && a in x && b in x && a != b
    ensures a.Page() != b.Page()
  {
    var i :| 0 <= i < |x| && x[i] == a;
    var j :| 0 <= j < |x| && x[j] == b;
    assert i != j;
    if i < j {
      assert x[i].Page() != x[j].Page();
    } else {
      assert x[j].Page() != x[i].Page();
    }
  }

  /** Reordering keeps the properties the engines and the agreement theorem
      rely on: distinct anchors, non-negative counts, and deletes that cover
      no other anchor. */
  lemma PermutationKeepsShape(x: seq<Action>, y: seq<Action>)
    requires multiset(x) == multiset(y) && DistinctAnchors(x)
    ensures DistinctAnchors(y)
    ensures NonNegativeCounts(x) ==> NonNegativeCounts(y)
    ensures DeletesAvoidAnchors(x) ==> DeletesAvoidAnchors(y)
    ensures forall a :: a in y <==> a in x
  {
    forall a ensures a in y <==> a in x {
      assert a in y <==> a in multiset(y);
    }
    forall i, j | 0 <= i < j < |y| ensures y[i].Page() != y[j].Page() {
      if y[i] == y[j] {
        assert y == y[..j] + y[j..];
        assert y[i] in y[..j] && y[j] in y[j..];
        assert multiset(y)[y[i]] == multiset(y[..j])[y[i]] + multiset(y[j..])[y[i]];
        AtMostOnce(x, y[i]);
      } else {
        DistinctMembers(x, y[i], y[j]);
      }
    }
    if NonNegativeCounts(x) {
      PermutationKeepsCounts(x, y);
    }
    if DeletesAvoidAnchors(x) {
      forall j, l | 0 <= j < |y| && 0 <= l < |y| && j != l && y[j].Delete?
        ensures !(y[j].pageNo < y[l].Page() < y[j].pageNo + y[j].count)
      {
        assert y[j] in y && y[l] in y;
        var j' :| 0 <= j' < |x| && x[j'] == y[j];
        var l' :| 0 <= l' < |x| && x[l'] == y[l];
      }
    }
  }

  /** With distinct anchors, any ascending rearrangement of a list is its
      `SortByPage`: sorting twice, or sorting an already sorted copy, lands on
      the same list. */
  lemma SortedIsSortByPage(x: seq<Action>, y: seq<Action>)
    requires DistinctAnchors(x) && SortedByPage(y) && multiset(y) == multiset(x)
    ensures y == SortByPage(x)
  {
    PermutationKeepsShape(x, SortByPage(x));
    SortedPermutationUnique(SortByPage(x), y);
  }

  /** The page-count change splits over concatenation. */
  lemma {:induction false} DeltaConcat(x: seq<Action>, y: seq<Action>)
    ensures Delta(x + y) == Delta(x) + Delta(y)
  {
    if |x| > 0 {
      assert (x + y)[1..] == x[1..] + y;
      assert (x + y)[0] == x[0];
      DeltaConcat(x[1..], y);
    } else {
      assert x + y == y;
    }
  }

  /** The page-count change does not depend on the order of the actions, so
      counting before or after `Sort` gives the same total. */
  lemma {:induction false} DeltaPermutation(x: seq<Action>, y: seq<Action>)
    requires multiset(x) == multiset(y)
    ensures Delta(x) == Delta(y)
    decreases |x|
  {
    if |x| == 0 {
      assert |y| == |multiset(y)| == 0;
    } else {
      assert x[0] in multiset(y);
      var j :| 0 <= j < |y| && y[j] == x[0];
      var rest := y[..j] + y[j + 1..];
      RemoveMatching(x, y, j);
      DeltaPermutation(x[1..], rest);
      DeltaRemove(y, j);
      assert Delta(x) == Delta([x[0]]) + Delta(x[1..]) by {
        assert x == [x[0]] + x[1..];
        DeltaConcat([x[0]], x[1..]);
      }
    }
  }

  /** Dropping the same element from two permutations of each other leaves
      permutations of each other. */
  lemma RemoveMatching(x: seq<Action>, y: seq<Action>, j: int)
    requires multiset(x) == multiset(y) && |x| > 0 && 0 <= j < |y| && y[j] == x[0]
    ensures multiset(x[1..]) == multiset(y[..j] + y[j + 1..])
  {
    assert x == [x[0]] + x[1..];
    assert y == y[..j] + [y[j]] + y[j + 1..];
    assert multiset(y) == multiset(y[..j]) + multiset{y[j]} + multiset(y[j + 1..]);
    assert multiset(x) == multiset{x[0]} + multiset(x[1..]);
    assert multiset(x[1..]) == multiset(x) - multiset{x[0]};
    assert multiset(y[..j] + y[j + 1..]) == multiset(y[..j]) + multiset(y[j + 1..]);
    assert multiset(y[..j] + y[j + 1..]) == multiset(y) - multiset{y[j]};
  }

  /** The change of a list is that of one element plus that of the rest. */
  lemma {:induction false} DeltaRemove(y: seq<Action>, j: int)
    requires 0 <= j < |y|
    ensures Delta(y) == Delta([y[j]]) + Delta(y[..j] + y[j + 1..])
  {
    var rest := y[..j] + y[j + 1..];
    assert [y[j]][1..] == [];
    if j == 0 {
      assert rest == y[1..];
    } else {
      var t := y[1..];
      assert t[j - 1] == y[j];
      DeltaRemove(t, j - 1);
      assert rest[0] == y[0];
      assert rest[1..] == t[..j - 1] + t[j..];
    }
  }



  /** What an engine that sorts, counts on the sorted list, and lets
      `runSlice` sort again may rely on: the count is that of the final
      order, and with distinct anchors the final order is `SortByPage`. */
  lemma ResortFacts(orig: seq<Action>, counted: seq<Action>, final: seq<Action>)
    requires multiset(counted) == multiset(orig) && multiset(final) == multiset(orig)
    requires SortedByPage(final)
    ensures Delta(counted) == Delta(final)
    ensures DistinctAnchors(orig) ==> final == SortByPage(orig)
  {
    DeltaPermutation(counted, final);
    if DistinctAnchors(orig) {
      SortedIsSortByPage(orig, final);
    }
  }
}
