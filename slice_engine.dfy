/** `runSlice` (`actions/util.go`; `_runActionsSlice` in `run.go` is the same
    code): applies a sorted action list, highest anchor first, to a list of
    opaque items. The factory `defaultCreator` is modelled as `gen`, where
    `gen(k)` is the value the `k`-th call returns (calls are numbered from 0
    across the whole run). */
module SliceEngine {
  import opened Wrappers
  import opened Actions
  import ActionOrder

  /** The values of `n` consecutive factory calls, starting at call `start`. */
  function Fresh<T>(gen: nat -> T, start: nat, n: nat): (r: seq<T>)
    ensures |r| == n
    ensures forall m :: 0 <= m < n ==> r[m] == gen(start + m)
  {
    if n == 0 then [] else Fresh(gen, start, n - 1) + [gen(start + n - 1)]
  }

  /** How many factory calls one action makes. */
  function CallsOf(a: Action): int
  {
    if a.Insert? then a.count else 0
  }

  /** How many factory calls a list of actions makes in total. */
  function Calls(acts: seq<Action>): nat
    requires NonNegativeCounts(acts)
  {
    if |acts| == 0 then 0
    else
      assert forall a :: a in acts[1..] ==> a in acts;
      CallsOf(acts[0]) as nat + Calls(acts[1..])
  }

  /** One loop iteration of `runSlice`, with its panics as Go raises them.
      A delete's two slice bounds must lie in the list. An insert first makes
      `arrPre` of length `p + 1`, which panics in `make` when `p + 1 < 0`;
      it then builds the after-shape `arr[:p+1]`/`arr[p+1:]`, so it needs
      `p + 1 <= len(arr)` even when it then inserts before; an insert before
      page 0 then fails making `arrPre` again with length `p = -1`. The new
      items are the factory calls `k, k+1, ...`. */
  function Step<T>(xs: seq<T>, a: Action, gen: nat -> T, k: nat): Result<seq<T>>
    requires a.count >= 0
  {
    var p := a.pageNo - 1;
    match a
    case Delete(c, _) =>
      if 0 <= p && p + c <= |xs| then Ok(xs[..p] + xs[p + c..]) else Panic(IndexOutOfRange)
    case Insert(c, _, after) =>
      if p + 1 < 0 then Panic(LengthOutOfRange)
      else if p + 1 > |xs| then Panic(IndexOutOfRange)
      else if after then Ok(xs[..p + 1] + Fresh(gen, k, c) + xs[p + 1..])
      else if p < 0 then Panic(LengthOutOfRange)
      else Ok(xs[..p] + Fresh(gen, k, c) + xs[p..])
  }

  lemma TailCounts(acts: seq<Action>)
    requires |acts| > 0 && NonNegativeCounts(acts)
    ensures NonNegativeCounts(acts[1..]) && acts[0].count >= 0
  {
    assert acts[0] in acts;
    assert forall a :: a in acts[1..] ==> a in acts;
  }

  /** The whole descending traversal: the actions after the first are applied
      first, and the first action (the lowest anchor) last. */
  function Apply<T>(xs: seq<T>, acts: seq<Action>, gen: nat -> T): Result<seq<T>>
    requires NonNegativeCounts(acts)
  {
    if |acts| == 0 then Ok(xs)
    else
      TailCounts(acts);
      match Apply(xs, acts[1..], gen)
      case Panic(c) => Panic(c)
      case Ok(ys) => Step(ys, acts[0], gen, Calls(acts[1..]))
  }

  lemma SortedCounts(acts: seq<Action>)
    requires NonNegativeCounts(acts)
    ensures NonNegativeCounts(ActionOrder.SortByPage(acts))
  {
    ActionOrder.PermutationKeepsCounts(acts, ActionOrder.SortByPage(acts));
  }

  /** What `runSlice(arr, acts, gen)` returns for actions with distinct
      anchors (any other list is rejected by the parser). */
  function Transform<T>(xs: seq<T>, acts: seq<Action>, gen: nat -> T): Result<seq<T>>
    requires NonNegativeCounts(acts)
  {
    SortedCounts(acts);
    Apply(xs, ActionOrder.SortByPage(acts), gen)
  }

  /** A panic at one step of the traversal ends the run with that panic. */
  lemma {:induction false} PanicPropagates<T>(xs: seq<T>, acts: seq<Action>, gen: nat -> T, i: int)
    requires NonNegativeCounts(acts) && 0 <= i <= |acts|
    requires forall a :: a in acts[i..] ==> a in acts
    requires Apply(xs, acts[i..], gen).Panic?
    ensures Apply(xs, acts, gen) == Apply(xs, acts[i..], gen)
    decreases i
  {
    if i > 0 {
      assert acts[i - 1..][1..] == acts[i..];
      assert forall a :: a in acts[i - 1..] ==> a in acts;
      PanicPropagates(xs, acts, gen, i - 1);
    }
  }

  lemma SuffixCounts(acts: seq<Action>, i: int)
    requires NonNegativeCounts(acts) && 0 <= i <= |acts|
    ensures NonNegativeCounts(acts[i..]) && forall a :: a in acts[i..] ==> a in acts
  {
  }

  /** `runSlice`: sorts the caller's array in place, then walks it from the
      highest anchor down; each insert fills `arrMid` with `count` factory
      calls. */
  method RunSlice<T>(arr: seq<T>, acts: array<Action>, gen: nat -> T) returns (r: Result<seq<T>>)
    requires NonNegativeCounts(acts[..])
    modifies acts
    ensures SortedByPage(acts[..]) && multiset(acts[..]) == multiset(old(acts[..]))
    ensures NonNegativeCounts(acts[..])
    ensures DistinctAnchors(old(acts[..])) ==> acts[..] == ActionOrder.SortByPage(old(acts[..]))
    ensures r == Apply(arr, acts[..], gen)
  {
    ActionOrder.Sort(acts);
    ActionOrder.PermutationKeepsCounts(old(acts[..]), acts[..]);
    ghost var sorted := acts[..];
    var xs := arr;
    var k: nat := 0;
    var i := acts.Length;
    SuffixCounts(sorted, i);
    while i > 0
      invariant 0 <= i <= acts.Length && acts[..] == sorted
      invariant NonNegativeCounts(sorted[i..])
      invariant Apply(arr, sorted[i..], gen) == Ok(xs)
      invariant k == Calls(sorted[i..])
    {
      i := i - 1;
      PeelStep(arr, sorted, i, gen);
      assert acts[i] == sorted[i];
      var next := RunStep(xs, acts[i], gen, k);
      if next.Panic? {
        PanicPropagates(arr, sorted, gen, i);
        return next;
      }
      xs := next.value;
      k := k + CallsOf(acts[i]);
    }
    assert sorted[0..] == sorted;
    return Ok(xs);
  }

  /** The traversal from position `i` is the step at `i` after the traversal
      from `i + 1`. */
  lemma PeelStep<T>(xs: seq<T>, acts: seq<Action>, i: int, gen: nat -> T)
    requires NonNegativeCounts(acts) && 0 <= i < |acts|
    ensures acts[i].count >= 0 && NonNegativeCounts(acts[i..]) && NonNegativeCounts(acts[i + 1..])
    ensures forall a :: a in acts[i..] ==> a in acts
    ensures Calls(acts[i..]) == CallsOf(acts[i]) + Calls(acts[i + 1..])
    ensures Apply(xs, acts[i..], gen) == match Apply(xs, acts[i + 1..], gen)
                                        case Panic(c) => Panic(c)
                                        case Ok(ys) => Step(ys, acts[i], gen, Calls(acts[i + 1..]))
  {
    SuffixCounts(acts, i);
    SuffixCounts(acts, i + 1);
    assert acts[i] in acts;
    assert acts[i..][1..] == acts[i + 1..];
    assert acts[i..][0] == acts[i];
  }

  /** The body of `runSlice`'s loop for one action. */
  method RunStep<T>(xs: seq<T>, a: Action, gen: nat -> T, k: nat) returns (r: Result<seq<T>>)
    requires a.count >= 0
    ensures r == Step(xs, a, gen, k)
  {
    var p := a.pageNo - 1;
    match a
    case Delete(c, _) =>
      if !(0 <= p && p + c <= |xs|) {
        return Panic(IndexOutOfRange);
      }
      return Ok(xs[..p] + xs[p + c..]);
    case Insert(c, _, after) =>
      if p + 1 < 0 {
        return Panic(LengthOutOfRange);
      }
      if p + 1 > |xs| {
        return Panic(IndexOutOfRange);
      }
      var pre, post := xs[..p + 1], xs[p + 1..];
      if !after {
        if p < 0 {
          return Panic(LengthOutOfRange);
        }
        pre, post := xs[..p], xs[p..];
      }
      var mid: seq<T> := [];
      var m := 0;
      while m < c
        invariant 0 <= m <= c
        invariant mid == Fresh(gen, k, m)
      {
        mid := mid + [gen(k + m)];
        m := m + 1;
      }
      return Ok(pre + mid + post);
  }

  // ---------------------------------------------------------------- properties

  /** The length law: output length is input length plus inserted pages minus
      deleted pages. */
  lemma {:induction false} LengthLaw<T>(xs: seq<T>, acts: seq<Action>, gen: nat -> T)
    requires NonNegativeCounts(acts) && Apply(xs, acts, gen).Ok?
    ensures |Apply(xs, acts, gen).value| == |xs| + Delta(acts)
  {
    if |acts| > 0 {
      TailCounts(acts);
      LengthLaw(xs, acts[1..], gen);
    }
  }

  /** A delete succeeds exactly when its range `[pageNo-1, pageNo-1+count)`
      lies within the list, and otherwise panics on the slice bounds; it
      removes exactly that range and keeps every other item, in order. */
  lemma DeletePlacement<T>(xs: seq<T>, c: int, pageNo: int, gen: nat -> T, k: nat)
    requires c >= 0
    ensures var p := pageNo - 1;
      Step(xs, Delete(c, pageNo), gen, k).Ok? <==> 0 <= p && p + c <= |xs|
    ensures Step(xs, Delete(c, pageNo), gen, k).Panic? ==> Step(xs, Delete(c, pageNo), gen, k).cause == IndexOutOfRange
    ensures var p := pageNo - 1;
      var r := Step(xs, Delete(c, pageNo), gen, k);
      r.Ok? ==>
        && |r.value| == |xs| - c
        && (forall t :: 0 <= t < p ==> r.value[t] == xs[t])
        && (forall t :: p <= t < |xs| - c ==> r.value[t] == xs[t + c])
  {
  }

  /** An insert-after puts `count` items made by the calls `k, k+1, ...` right
      after position `pageNo-1`; everything else keeps its order around them.
      Below page 0 it panics in `make`, past the end on the slice bounds. */
  lemma InsertAfterPlacement<T>(xs: seq<T>, c: int, pageNo: int, gen: nat -> T, k: nat)
    requires c >= 0
    ensures var p := pageNo - 1;
      Step(xs, Insert(c, pageNo, true), gen, k).Ok? <==> 0 <= p + 1 <= |xs|
    ensures var p := pageNo - 1;
      && (p + 1 < 0 ==> Step(xs, Insert(c, pageNo, true), gen, k) == Panic(LengthOutOfRange))
      && (p + 1 > |xs| ==> Step(xs, Insert(c, pageNo, true), gen, k) == Panic(IndexOutOfRange))
    ensures var p := pageNo - 1;
      var r := Step(xs, Insert(c, pageNo, true), gen, k);
      r.Ok? ==>
        && |r.value| == |xs| + c
        && (forall t :: 0 <= t <= p ==> r.value[t] == xs[t])
        && (forall t :: p < t <= p + c ==> r.value[t] == gen(k + (t - p - 1)))
        && (forall t :: p < t < |xs| ==> r.value[t + c] == xs[t])
  {
    var p := pageNo - 1;
    var r := Step(xs, Insert(c, pageNo, true), gen, k);
    if r.Ok? {
      var f := Fresh(gen, k, c);
      assert r.value == xs[..p + 1] + f + xs[p + 1..];
      forall t | p < t <= p + c ensures r.value[t] == gen(k + (t - p - 1)) {
        assert r.value[t] == f[t - p - 1];
      }
    }
  }

  /** An insert-before puts `count` new items right before position
      `pageNo-1`; it needs `1 <= pageNo <= len` (one less than the after
      case allows at the top, a quirk of the shared bounds check). Before
      page 0 or below it panics in `make`, past the end on the slice bounds. */
  lemma InsertBeforePlacement<T>(xs: seq<T>, c: int, pageNo: int, gen: nat -> T, k: nat)
    requires c >= 0
    ensures var p := pageNo - 1;
      Step(xs, Insert(c, pageNo, false), gen, k).Ok? <==> 0 <= p && p + 1 <= |xs|
    ensures var p := pageNo - 1;
      && (p < 0 ==> Step(xs, Insert(c, pageNo, false), gen, k) == Panic(LengthOutOfRange))
      && (p >= 0 && p + 1 > |xs| ==> Step(xs, Insert(c, pageNo, false), gen, k) == Panic(IndexOutOfRange))
    ensures var p := pageNo - 1;
      var r := Step(xs, Insert(c, pageNo, false), gen, k);
      r.Ok? ==>
        && |r.value| == |xs| + c
        && (forall t :: 0 <= t < p ==> r.value[t] == xs[t])
        && (forall t :: p <= t < p + c ==> r.value[t] == gen(k + (t - p)))
        && (forall t :: p <= t < |xs| ==> r.value[t + c] == xs[t])
  {
    var p := pageNo - 1;
    var r := Step(xs, Insert(c, pageNo, false), gen, k);
    if r.Ok? {
      var f := Fresh(gen, k, c);
      assert r.value == xs[..p] + f + xs[p..];
      forall t | p <= t < p + c ensures r.value[t] == gen(k + (t - p)) {
        assert r.value[t] == f[t - p];
      }
    }
  }

  /** Every output item is an input item or the value of one of the first
      `Calls(acts)` factory calls. */
  lemma {:induction false} Provenance<T>(xs: seq<T>, acts: seq<Action>, gen: nat -> T)
    requires NonNegativeCounts(acts) && Apply(xs, acts, gen).Ok?
    ensures forall y :: y in Apply(xs, acts, gen).value ==>
      y in xs || exists k :: 0 <= k < Calls(acts) && y == gen(k)
  {
    if |acts| > 0 {
      TailCounts(acts);
      Provenance(xs, acts[1..], gen);
      var ys := Apply(xs, acts[1..], gen).value;
      var k0 := Calls(acts[1..]);
      assert Apply(xs, acts, gen) == Step(ys, acts[0], gen, k0);
      StepProvenance(ys, acts[0], gen, k0);
      forall y | y in Apply(xs, acts, gen).value
        ensures y in xs || exists k :: 0 <= k < Calls(acts) && y == gen(k)
      {
        if y !in ys {
          var f := Fresh(gen, k0, acts[0].count);
          var m :| 0 <= m < |f| && f[m] == y;
          assert y == gen(k0 + m) && 0 <= k0 + m < Calls(acts);
        }
      }
    }
  }

  /** What one step outputs is an item it was given or one of the values of
      the calls it makes. */
  lemma StepProvenance<T>(ys: seq<T>, a: Action, gen: nat -> T, k0: nat)
    requires a.count >= 0 && Step(ys, a, gen, k0).Ok?
    ensures forall y :: y in Step(ys, a, gen, k0).value ==>
      y in ys || (a.Insert? && y in Fresh(gen, k0, a.count))
  {
    var p := a.pageNo - 1;
    var f := Fresh(gen, k0, a.count);
    var out := Step(ys, a, gen, k0).value;
    forall y | y in out
      ensures y in ys || (a.Insert? && y in f)
    {
      var j :| 0 <= j < |out| && out[j] == y;
      match a
      case Delete(c, _) =>
        assert out == ys[..p] + ys[p + c..];
        assert out[j] == if j < p then ys[j] else ys[j + c];
      case Insert(c, _, after) =>
        var q := if after then p + 1 else p;
        assert out == ys[..q] + f + ys[q..];
        if j < q {
          assert out[j] == ys[j];
        } else if j < q + c {
          assert out[j] == f[j - q];
        } else {
          assert out[j] == ys[j - c];
        }
    }
  }

  /** Applying `f` to every item commutes with the transform, provided the
      factories are related by `f` too. */
  function MapSeq<A, B>(f: A -> B, xs: seq<A>): (r: seq<B>)
    ensures |r| == |xs| && forall i :: 0 <= i < |xs| ==> r[i] == f(xs[i])
  {
    if |xs| == 0 then [] else MapSeq(f, xs[..|xs| - 1]) + [f(xs[|xs| - 1])]
  }

  /** A list that holds `f` of each item of `xs`, position by position, is
      `MapSeq(f, xs)`. */
  lemma MapSeqPointwise<A, B>(f: A -> B, xs: seq<A>, ys: seq<B>)
    requires |ys| == |xs| && forall t :: 0 <= t < |xs| ==> ys[t] == f(xs[t])
    ensures ys == MapSeq(f, xs)
  {
  }

  lemma DeleteNatural<A, B>(xs: seq<A>, c: int, pageNo: int, f: A -> B, genA: nat -> A, genB: nat -> B, k: nat)
    requires c >= 0
    ensures Step(MapSeq(f, xs), Delete(c, pageNo), genB, k).Ok? == Step(xs, Delete(c, pageNo), genA, k).Ok?
    ensures Step(xs, Delete(c, pageNo), genA, k).Ok? ==>
      Step(MapSeq(f, xs), Delete(c, pageNo), genB, k).value == MapSeq(f, Step(xs, Delete(c, pageNo), genA, k).value)
  {
    var p := pageNo - 1;
    var ms := MapSeq(f, xs);
    if 0 <= p && p + c <= |xs| {
      var zs := xs[..p] + xs[p + c..];
      var ws := ms[..p] + ms[p + c..];
      forall t | 0 <= t < |zs| ensures ws[t] == f(zs[t]) {
        if t < p {
          assert ws[t] == ms[t] && zs[t] == xs[t];
        } else {
          assert ws[t] == ms[t + c] && zs[t] == xs[t + c];
        }
      }
      MapSeqPointwise(f, zs, ws);
    }
  }

  lemma InsertNatural<A, B>(xs: seq<A>, c: int, pageNo: int, after: bool, f: A -> B, genA: nat -> A, genB: nat -> B, k: nat)
    requires c >= 0
    requires forall j :: genB(j) == f(genA(j))
    ensures Step(MapSeq(f, xs), Insert(c, pageNo, after), genB, k).Ok? == Step(xs, Insert(c, pageNo, after), genA, k).Ok?
    ensures Step(xs, Insert(c, pageNo, after), genA, k).Ok? ==>
      Step(MapSeq(f, xs), Insert(c, pageNo, after), genB, k).value == MapSeq(f, Step(xs, Insert(c, pageNo, after), genA, k).value)
  {
    var p := pageNo - 1;
    var q := if after then p + 1 else p;
    var ms := MapSeq(f, xs);
    if Step(xs, Insert(c, pageNo, after), genA, k).Ok? {
      var fa, fb := Fresh(genA, k, c), Fresh(genB, k, c);
      var zs := xs[..q] + fa + xs[q..];
      var ws := ms[..q] + fb + ms[q..];
      assert Step(xs, Insert(c, pageNo, after), genA, k).value == zs;
      assert Step(ms, Insert(c, pageNo, after), genB, k).value == ws;
      forall t | 0 <= t < |zs| ensures ws[t] == f(zs[t]) {
        if t < q {
          assert ws[t] == ms[t] && zs[t] == xs[t];
        } else if t < q + c {
          assert ws[t] == fb[t - q] && zs[t] == fa[t - q];
        } else {
          assert ws[t] == ms[t - c] && zs[t] == xs[t - c];
        }
      }
      MapSeqPointwise(f, zs, ws);
    }
  }

  lemma StepNatural<A, B>(xs: seq<A>, a: Action, f: A -> B, genA: nat -> A, genB: nat -> B, k: nat)
    requires a.count >= 0
    requires forall j :: genB(j) == f(genA(j))
    ensures Step(MapSeq(f, xs), a, genB, k).Ok? == Step(xs, a, genA, k).Ok?
    ensures Step(xs, a, genA, k).Ok? ==>
      Step(MapSeq(f, xs), a, genB, k).value == MapSeq(f, Step(xs, a, genA, k).value)
  {
    match a
    case Delete(c, pageNo) => DeleteNatural(xs, c, pageNo, f, genA, genB, k);
    case Insert(c, pageNo, after) => InsertNatural(xs, c, pageNo, after, f, genA, genB, k);
  }

  lemma {:induction false} ApplyNatural<A, B>(xs: seq<A>, acts: seq<Action>, f: A -> B, genA: nat -> A, genB: nat -> B)
    requires NonNegativeCounts(acts)
    requires forall j :: genB(j) == f(genA(j))
    ensures Apply(MapSeq(f, xs), acts, genB).Ok? == Apply(xs, acts, genA).Ok?
    ensures Apply(xs, acts, genA).Ok? ==>
      Apply(MapSeq(f, xs), acts, genB).value == MapSeq(f, Apply(xs, acts, genA).value)
  {
    if |acts| > 0 {
      TailCounts(acts);
      ApplyNatural(xs, acts[1..], f, genA, genB);
      if Apply(xs, acts[1..], genA).Ok? {
        StepNatural(Apply(xs, acts[1..], genA).value, acts[0], f, genA, genB, Calls(acts[1..]));
      }
    }
  }
}
