/** The agreement between the two engines: for an accepted action list,
    `RunLines` predicts exactly where `runSlice` puts every original page and
    exactly which pages it removes. The proof runs `runSlice` on tagged slots
    (`Orig(i)` for original page `i`, `New(k)` for the `k`-th factory call)
    and carries the result over to any item type by `ApplyNatural`. */
module Agreement {
  import opened Wrappers
  import opened Actions
  import ActionOrder
  import opened SliceEngine
  import opened IndexRemap

  datatype Slot = Orig(i: int) | New(k: nat)

  function NewSlot(k: nat): Slot
  {
    New(k)
  }

  /** The pages of an `n`-page document, as tagged slots. */
  function Originals(n: nat): (r: seq<Slot>)
    ensures |r| == n && forall i :: 0 <= i < n ==> r[i] == Orig(i)
  {
    if n == 0 then [] else Originals(n - 1) + [Orig(n - 1)]
  }

  /** The action's bounds hold against the original page count `n`. */
  predicate ActionInRange(a: Action, n: int)
  {
    match a
    case Delete(c, pageNo) => 1 <= pageNo && pageNo - 1 + c <= n
    case Insert(_, pageNo, after) => (if after then 0 else 1) <= pageNo <= n
  }

  predicate InRange(acts: seq<Action>, n: int)
  {
    forall a :: a in acts ==> ActionInRange(a, n)
  }

  /** The precondition of the agreement theorem, as the parser delivers it
      (distinct anchors, non-negative counts, no anchor inside a delete's
      range) plus indices in range. */
  predicate Accepted(acts: seq<Action>, n: int)
  {
    DistinctAnchors(acts) && NonNegativeCounts(acts) && DeletesAvoidAnchors(acts) && InRange(acts, n)
  }

  /** The invariant of the descending traversal once the actions `rest` have
      run: slots below `low` (the lowest anchor seen so far, 0-based) are
      still the original prefix, every original slot sits where `Remap` says,
      and every page `Remap` keeps is there. */
  predicate Tracks(n: nat, xs: seq<Slot>, rest: seq<Action>, low: int)
  {
    && low <= |xs|
    && (forall t :: 0 <= t < low ==> xs[t] == Orig(t))
    && (forall t :: 0 <= t < |xs| && xs[t].Orig? ==>
          0 <= xs[t].i < n && !Remap(xs[t].i, rest).deleted && Remap(xs[t].i, rest).newIdx == t)
    && (forall i :: 0 <= i < n && !Remap(i, rest).deleted ==>
          0 <= Remap(i, rest).newIdx < |xs| && xs[Remap(i, rest).newIdx] == Orig(i))
  }

  /** Below `low` nothing has moved; above it nothing kept has moved below it. */
  lemma TracksFacts(n: nat, xs: seq<Slot>, rest: seq<Action>, low: int)
    requires Tracks(n, xs, rest, low)
    ensures low <= n
    ensures forall t :: 0 <= t < low ==> Remap(t, rest) == PageReplacement(t, t, false)
    ensures forall i :: 0 <= i < n && i >= low && !Remap(i, rest).deleted ==> Remap(i, rest).newIdx >= low
  {
    if low > 0 {
      assert xs[low - 1] == Orig(low - 1);
    }
    forall t | 0 <= t < low ensures Remap(t, rest) == PageReplacement(t, t, false) {
      assert xs[t] == Orig(t);
      RemapClosedForm(t, rest);
    }
    forall i | 0 <= i < n && i >= low && !Remap(i, rest).deleted ensures Remap(i, rest).newIdx >= low {
      var idx := Remap(i, rest).newIdx;
      assert xs[idx] == Orig(i);
    }
  }

  /** The remap of one index through one more (lower) action. */
  lemma RemapCons(i: int, a: Action, rest: seq<Action>)
    ensures Remap(i, [a] + rest) == StepReplacement(Remap(i, rest), a)
    ensures Remap(i, rest).originalIdx == i
  {
    assert ([a] + rest)[1..] == rest;
    RemapClosedForm(i, rest);
  }

  /** After a delete below `low`, every original slot left is still where the
      remap says. */
  lemma DeleteSlots(n: nat, xs: seq<Slot>, rest: seq<Action>, low: int, c: int, pageNo: int)
    requires Tracks(n, xs, rest, low)
    requires c >= 0 && 1 <= pageNo && pageNo - 1 + c <= low
    ensures var ys := xs[..pageNo - 1] + xs[pageNo - 1 + c..];
      forall t :: 0 <= t < |ys| && ys[t].Orig? ==>
        0 <= ys[t].i < n && !Remap(ys[t].i, [Delete(c, pageNo)] + rest).deleted
        && Remap(ys[t].i, [Delete(c, pageNo)] + rest).newIdx == t
  {
    var p := pageNo - 1;
    var ys := xs[..p] + xs[p + c..];
    TracksFacts(n, xs, rest, low);
    forall t | 0 <= t < |ys| && ys[t].Orig?
      ensures 0 <= ys[t].i < n && !Remap(ys[t].i, [Delete(c, pageNo)] + rest).deleted
        && Remap(ys[t].i, [Delete(c, pageNo)] + rest).newIdx == t
    {
      var u := if t < p then t else t + c;
      assert ys[t] == xs[u];
      RemapCons(ys[t].i, Delete(c, pageNo), rest);
    }
  }

  /** After a delete below `low`, every original page the remap keeps is
      found at its new index. */
  lemma DeletePages(n: nat, xs: seq<Slot>, rest: seq<Action>, low: int, c: int, pageNo: int)
    requires Tracks(n, xs, rest, low)
    requires c >= 0 && 1 <= pageNo && pageNo - 1 + c <= low
    ensures var ys := xs[..pageNo - 1] + xs[pageNo - 1 + c..];
      forall i :: 0 <= i < n && !Remap(i, [Delete(c, pageNo)] + rest).deleted ==>
        0 <= Remap(i, [Delete(c, pageNo)] + rest).newIdx < |ys|
        && ys[Remap(i, [Delete(c, pageNo)] + rest).newIdx] == Orig(i)
  {
    var p := pageNo - 1;
    var ys := xs[..p] + xs[p + c..];
    TracksFacts(n, xs, rest, low);
    forall i | 0 <= i < n && !Remap(i, [Delete(c, pageNo)] + rest).deleted
      ensures 0 <= Remap(i, [Delete(c, pageNo)] + rest).newIdx < |ys|
        && ys[Remap(i, [Delete(c, pageNo)] + rest).newIdx] == Orig(i)
    {
      RemapCons(i, Delete(c, pageNo), rest);
      var idx := Remap(i, rest).newIdx;
      if i < p {
        assert Remap(i, rest) == PageReplacement(i, i, false);
        assert ys[i] == xs[i];
      } else {
        assert i >= p + c;
        assert idx >= p + c;
        assert Remap(i, [Delete(c, pageNo)] + rest).newIdx == idx - c;
        assert ys[idx - c] == xs[idx];
      }
    }
  }

  lemma DeleteTracks(n: nat, xs: seq<Slot>, rest: seq<Action>, low: int, c: int, pageNo: int, k: nat)
    requires Tracks(n, xs, rest, low)
    requires c >= 0 && 1 <= pageNo && pageNo - 1 + c <= low
    ensures Step(xs, Delete(c, pageNo), NewSlot, k).Ok?
    ensures Tracks(n, Step(xs, Delete(c, pageNo), NewSlot, k).value, [Delete(c, pageNo)] + rest, pageNo - 1)
  {
    var p := pageNo - 1;
    var ys := xs[..p] + xs[p + c..];
    assert Step(xs, Delete(c, pageNo), NewSlot, k) == Ok(ys);
    assert p <= |ys| && forall t :: 0 <= t < p ==> ys[t] == Orig(t) by {
      forall t | 0 <= t < p ensures ys[t] == Orig(t) {
        assert ys[t] == xs[t];
      }
    }
    DeleteSlots(n, xs, rest, low, c, pageNo);
    DeletePages(n, xs, rest, low, c, pageNo);
    TracksIntro(n, ys, [Delete(c, pageNo)] + rest, p);
  }

  /** `Tracks`, from its conjuncts. */
  lemma TracksIntro(n: nat, ys: seq<Slot>, acts: seq<Action>, low: int)
    requires low <= |ys| && forall t :: 0 <= t < low ==> ys[t] == Orig(t)
    requires forall t :: 0 <= t < |ys| && ys[t].Orig? ==>
      0 <= ys[t].i < n && !Remap(ys[t].i, acts).deleted && Remap(ys[t].i, acts).newIdx == t
    requires forall i :: 0 <= i < n && !Remap(i, acts).deleted ==>
      0 <= Remap(i, acts).newIdx < |ys| && ys[Remap(i, acts).newIdx] == Orig(i)
    ensures Tracks(n, ys, acts, low)
  {
  }

  /** Where an insert splits the list: after page `pageNo`, or before it. */
  function SplitAt(pageNo: int, after: bool): int
  {
    if after then pageNo else pageNo - 1
  }

  /** An original slot the insert leaves in place, or shifts past the new
      slots, stays where `Remap` says. */
  lemma InsertSlot(n: nat, xs: seq<Slot>, rest: seq<Action>, low: int, c: int, pageNo: int, after: bool, k: nat,
                   ys: seq<Slot>, t: int)
    requires Tracks(n, xs, rest, low)
    requires c >= 0 && (if after then 0 else 1) <= pageNo <= low
    requires var q := SplitAt(pageNo, after); ys == xs[..q] + Fresh(NewSlot, k, c) + xs[q..]
    requires 0 <= t < |ys| && ys[t].Orig?
    ensures 0 <= ys[t].i < n
    ensures !Remap(ys[t].i, [Insert(c, pageNo, after)] + rest).deleted
    ensures Remap(ys[t].i, [Insert(c, pageNo, after)] + rest).newIdx == t
  {
    var q := SplitAt(pageNo, after);
    var acts := [Insert(c, pageNo, after)] + rest;
    assert acts[1..] == rest;
    TracksFacts(n, xs, rest, low);
    var i := ys[t].i;
    RemapClosedForm(i, rest);
    assert Remap(i, acts) == StepReplacement(Remap(i, rest), acts[0]);
    if t < q {
      assert ys[t] == xs[t] == Orig(t);
    } else if t >= q + c {
      assert ys[t] == xs[t - c];
      assert Remap(i, rest).newIdx == t - c >= q;
      assert i < low ==> Remap(i, rest) == PageReplacement(i, i, false);
      assert i >= q;
    }
  }

  /** A page `Remap` keeps after the insert is at its new index. */
  lemma InsertPage(n: nat, xs: seq<Slot>, rest: seq<Action>, low: int, c: int, pageNo: int, after: bool, k: nat,
                   ys: seq<Slot>, i: int)
    requires Tracks(n, xs, rest, low)
    requires c >= 0 && (if after then 0 else 1) <= pageNo <= low
    requires var q := SplitAt(pageNo, after); ys == xs[..q] + Fresh(NewSlot, k, c) + xs[q..]
    requires 0 <= i < n && !Remap(i, [Insert(c, pageNo, after)] + rest).deleted
    ensures 0 <= Remap(i, [Insert(c, pageNo, after)] + rest).newIdx < |ys|
    ensures ys[Remap(i, [Insert(c, pageNo, after)] + rest).newIdx] == Orig(i)
  {
    KeptPosition(n, xs, rest, low, i);
    ShiftedPage(xs, rest, low, c, pageNo, after, k, ys, i);
  }

  /** The index arithmetic of `InsertPage`, from where page `i` sat before. */
  lemma ShiftedPage(xs: seq<Slot>, rest: seq<Action>, low: int, c: int, pageNo: int, after: bool, k: nat,
                    ys: seq<Slot>, i: int)
    requires c >= 0 && (if after then 0 else 1) <= pageNo <= low <= |xs|
    requires var q := SplitAt(pageNo, after); ys == xs[..q] + Fresh(NewSlot, k, c) + xs[q..]
    requires 0 <= Remap(i, rest).newIdx < |xs| && xs[Remap(i, rest).newIdx] == Orig(i)
    requires i < low ==> Remap(i, rest).newIdx == i
    requires i >= low ==> Remap(i, rest).newIdx >= low
    ensures 0 <= Remap(i, [Insert(c, pageNo, after)] + rest).newIdx < |ys|
    ensures ys[Remap(i, [Insert(c, pageNo, after)] + rest).newIdx] == Orig(i)
  {
    var q := SplitAt(pageNo, after);
    RemapCons(i, Insert(c, pageNo, after), rest);
    var idx := Remap(i, rest).newIdx;
    SpliceIndex(xs, q, Fresh(NewSlot, k, c), ys, idx);
    if i < q {
      assert Remap(i, [Insert(c, pageNo, after)] + rest).newIdx == idx < q;
    } else {
      assert Remap(i, [Insert(c, pageNo, after)] + rest).newIdx == idx + c && idx >= q;
    }
  }

  /** Where `Tracks` puts a page `Remap` keeps, relative to `low`. */
  lemma KeptPosition(n: nat, xs: seq<Slot>, rest: seq<Action>, low: int, i: int)
    requires Tracks(n, xs, rest, low)
    requires 0 <= i < n && !Remap(i, rest).deleted
    ensures 0 <= Remap(i, rest).newIdx < |xs| && xs[Remap(i, rest).newIdx] == Orig(i)
    ensures i < low ==> Remap(i, rest).newIdx == i
    ensures i >= low ==> Remap(i, rest).newIdx >= low
  {
    TracksFacts(n, xs, rest, low);
  }

  /** Indexing into a list with `mid` spliced in at `q`. */
  lemma SpliceIndex<T>(xs: seq<T>, q: int, mid: seq<T>, ys: seq<T>, t: int)
    requires 0 <= q <= |xs| && ys == xs[..q] + mid + xs[q..] && 0 <= t < |xs|
    ensures |ys| == |xs| + |mid|
    ensures t < q ==> ys[t] == xs[t]
    ensures t >= q ==> ys[t + |mid|] == xs[t]
  {
    if t >= q {
      assert ys[t + |mid|] == xs[q..][t - q];
    }
  }

  lemma InsertTracks(n: nat, xs: seq<Slot>, rest: seq<Action>, low: int, c: int, pageNo: int, after: bool, k: nat)
    requires Tracks(n, xs, rest, low)
    requires c >= 0 && (if after then 0 else 1) <= pageNo <= low
    ensures Step(xs, Insert(c, pageNo, after), NewSlot, k).Ok?
    ensures Tracks(n, Step(xs, Insert(c, pageNo, after), NewSlot, k).value, [Insert(c, pageNo, after)] + rest, pageNo - 1)
  {
    var a := Insert(c, pageNo, after);
    var q := SplitAt(pageNo, after);
    var ys := xs[..q] + Fresh(NewSlot, k, c) + xs[q..];
    assert Step(xs, a, NewSlot, k) == Ok(ys);
    var acts := [a] + rest;
    forall t | 0 <= t < pageNo - 1 ensures ys[t] == Orig(t) {
      assert ys[t] == xs[t];
    }
    forall t | 0 <= t < |ys| && ys[t].Orig?
      ensures 0 <= ys[t].i < n && !Remap(ys[t].i, acts).deleted && Remap(ys[t].i, acts).newIdx == t
    {
      InsertSlot(n, xs, rest, low, c, pageNo, after, k, ys, t);
    }
    forall i | 0 <= i < n && !Remap(i, acts).deleted
      ensures 0 <= Remap(i, acts).newIdx < |ys| && ys[Remap(i, acts).newIdx] == Orig(i)
    {
      InsertPage(n, xs, rest, low, c, pageNo, after, k, ys, i);
    }
    TracksIntro(n, ys, acts, pageNo - 1);
  }

  /** The lowest anchor, 0-based, or `n` once no action is left. */
  function Low(n: int, acts: seq<Action>): int
  {
    if |acts| == 0 then n else acts[0].Page() - 1
  }

  lemma TailAccepted(acts: seq<Action>, n: int)
    requires |acts| > 0 && Accepted(acts, n) && SortedByPage(acts)
    ensures Accepted(acts[1..], n) && SortedByPage(acts[1..])
    ensures acts[0] in acts && ActionInRange(acts[0], n) && acts[0].count >= 0
    ensures |acts| > 1 ==> acts[0].Page() < acts[1].Page()
    ensures |acts| > 1 && acts[0].Delete? ==> acts[1].Page() >= acts[0].pageNo + acts[0].count
  {
    ActionOrder.DropHead(acts);
    assert forall a :: a in acts[1..] ==> a in acts;
    AvoidTail(acts);
  }

  /** Dropping the lowest action keeps deletes clear of anchors, and the
      next anchor is clear of the lowest action's range. */
  lemma AvoidTail(acts: seq<Action>)
    requires |acts| > 0 && DeletesAvoidAnchors(acts)
    ensures DeletesAvoidAnchors(acts[1..])
    ensures |acts| > 1 && acts[0].Delete? ==> !(acts[0].pageNo < acts[1].Page() < acts[0].pageNo + acts[0].count)
  {
    var t := acts[1..];
    forall j, l | 0 <= j < |t| && 0 <= l < |t| && j != l && t[j].Delete?
      ensures !(t[j].pageNo < t[l].Page() < t[j].pageNo + t[j].count)
    {
      assert t[j] == acts[j + 1] && t[l] == acts[l + 1];
    }
  }

  /** Running every action of an accepted, sorted list never panics and keeps
      the invariant. */
  lemma {:induction false} TracksAll(n: nat, s: seq<Action>)
    requires Accepted(s, n) && SortedByPage(s)
    ensures Apply(Originals(n), s, NewSlot).Ok?
    ensures Tracks(n, Apply(Originals(n), s, NewSlot).value, s, Low(n, s))
  {
    if |s| == 0 {
      forall i | 0 <= i < n ensures Remap(i, s) == PageReplacement(i, i, false) {
      }
    } else {
      TailAccepted(s, n);
      TracksAll(n, s[1..]);
      var xs := Apply(Originals(n), s[1..], NewSlot).value;
      var low := Low(n, s[1..]);
      var k := Calls(s[1..]);
      assert [s[0]] + s[1..] == s;
      match s[0]
      case Delete(c, pageNo) =>
        DeleteTracks(n, xs, s[1..], low, c, pageNo, k);
      case Insert(c, pageNo, after) =>
        InsertTracks(n, xs, s[1..], low, c, pageNo, after, k);
    }
  }

  lemma SortedAccepted(acts: seq<Action>, n: int)
    requires Accepted(acts, n)
    ensures Accepted(ActionOrder.SortByPage(acts), n) && SortedByPage(ActionOrder.SortByPage(acts))
  {
    var s := ActionOrder.SortByPage(acts);
    ActionOrder.PermutationKeepsShape(acts, s);
  }

  /** The slot form of the agreement, for a sorted list as the engines walk
      it: `runSlice` succeeds, a page `RunLines` keeps is at its `NewIdx`,
      every original slot left is a kept page at its `NewIdx`, and a page is
      marked deleted exactly when `runSlice` removes it. */
  lemma SlotAgreement(n: nat, s: seq<Action>)
    requires Accepted(s, n) && SortedByPage(s)
    ensures Apply(Originals(n), s, NewSlot).Ok?
    ensures var out := Apply(Originals(n), s, NewSlot).value;
      && (forall i :: 0 <= i < n && !Remap(i, s).deleted ==>
            0 <= Remap(i, s).newIdx < |out| && out[Remap(i, s).newIdx] == Orig(i))
      && (forall t :: 0 <= t < |out| && out[t].Orig? ==>
            0 <= out[t].i < n && !Remap(out[t].i, s).deleted && Remap(out[t].i, s).newIdx == t)
      && (forall i :: 0 <= i < n ==> (Remap(i, s).deleted <==> Orig(i) !in out))
  {
    TracksAll(n, s);
    var out := Apply(Originals(n), s, NewSlot).value;
    forall i | 0 <= i < n ensures Remap(i, s).deleted <==> Orig(i) !in out {
      if Orig(i) in out {
        var t :| 0 <= t < |out| && out[t] == Orig(i);
      }
    }
  }

  /** The value `f` gives each slot: the original item at its index, or the
      factory's value for its call. */
  function Fill<T>(arr: seq<T>, gen: nat -> T, x: Slot): T
  {
    match x
    case Orig(i) => if 0 <= i < |arr| then arr[i] else gen(0)
    case New(k) => gen(k)
  }

  /** `runSlice` on the items is `runSlice` on the slots with every slot
      filled in. */
  lemma ApplyAsFill<T>(arr: seq<T>, s: seq<Action>, gen: nat -> T)
    requires Accepted(s, |arr|) && SortedByPage(s)
    ensures Apply(Originals(|arr|), s, NewSlot).Ok? && Apply(arr, s, gen).Ok?
    ensures var slots := Apply(Originals(|arr|), s, NewSlot).value;
      var out := Apply(arr, s, gen).value;
      |out| == |slots| && forall t :: 0 <= t < |out| ==> out[t] == Fill(arr, gen, slots[t])
  {
    var n := |arr|;
    var f := (x: Slot) => Fill(arr, gen, x);
    SlotAgreement(n, s);
    ApplyNatural(Originals(n), s, f, NewSlot, gen);
    assert MapSeq(f, Originals(n)) == arr;
  }

  /** The agreement theorem on a sorted list, for any item type: `runSlice`
      succeeds, and every page `RunLines` keeps ends up at position `NewIdx`
      of `runSlice`'s output. */
  lemma SortedKeptPagesAgree<T>(arr: seq<T>, s: seq<Action>, gen: nat -> T)
    requires Accepted(s, |arr|) && SortedByPage(s)
    ensures Apply(arr, s, gen).Ok?
    ensures var out := Apply(arr, s, gen).value;
      forall i :: 0 <= i < |arr| && !Remap(i, s).deleted ==>
        0 <= Remap(i, s).newIdx < |out| && out[Remap(i, s).newIdx] == arr[i]
  {
    SlotAgreement(|arr|, s);
    ApplyAsFill(arr, s, gen);
  }

  /** Position `t` of `out` holds the kept original page whose `NewIdx` is
      `t`, or the value of one of the run's own factory calls. */
  ghost predicate KeptOrFresh<T>(arr: seq<T>, s: seq<Action>, gen: nat -> T, out: seq<T>, t: int)
    requires NonNegativeCounts(s) && 0 <= t < |out|
  {
    || (exists i :: 0 <= i < |arr| && !Remap(i, s).deleted && Remap(i, s).newIdx == t && out[t] == arr[i])
    || (exists k :: 0 <= k < Calls(s) && out[t] == gen(k))
  }

  /** A new slot of the run is one of its own factory calls. */
  lemma NewSlotsBounded(n: nat, s: seq<Action>)
    requires NonNegativeCounts(s) && Apply(Originals(n), s, NewSlot).Ok?
    ensures var slots := Apply(Originals(n), s, NewSlot).value;
      forall t :: 0 <= t < |slots| && slots[t].New? ==> slots[t].k < Calls(s)
  {
    var slots := Apply(Originals(n), s, NewSlot).value;
    Provenance(Originals(n), s, NewSlot);
    forall t | 0 <= t < |slots| && slots[t].New? ensures slots[t].k < Calls(s) {
      assert slots[t] in slots;
      assert slots[t] !in Originals(n);
    }
  }

  /** One output position holds a kept original page or the value of one of the run's own factory calls. */
  lemma OneOutput<T>(arr: seq<T>, gen: nat -> T, s: seq<Action>, slots: seq<Slot>, out: seq<T>, t: int)
    requires |out| == |slots| && 0 <= t < |out| && out[t] == Fill(arr, gen, slots[t])
    requires NonNegativeCounts(s)
    requires slots[t].Orig? ==>
      0 <= slots[t].i < |arr| && !Remap(slots[t].i, s).deleted && Remap(slots[t].i, s).newIdx == t
    requires slots[t].New? ==> slots[t].k < Calls(s)
    ensures KeptOrFresh(arr, s, gen, out, t)
  {
    match slots[t]
    case Orig(i) =>
      assert out[t] == arr[i];
    case New(k) =>
      assert out[t] == gen(k);
  }

  /** ... and every position of the output holds either the kept original
      page whose `NewIdx` it is, or the value of one of the run's factory
      calls: nothing else is there. */
  lemma SortedOutputAgrees<T>(arr: seq<T>, s: seq<Action>, gen: nat -> T)
    requires Accepted(s, |arr|) && SortedByPage(s)
    ensures Apply(arr, s, gen).Ok?
    ensures var out := Apply(arr, s, gen).value;
      forall t :: 0 <= t < |out| ==> KeptOrFresh(arr, s, gen, out, t)
  {
    SlotAgreement(|arr|, s);
    ApplyAsFill(arr, s, gen);
    NewSlotsBounded(|arr|, s);
    var slots := Apply(Originals(|arr|), s, NewSlot).value;
    var out := Apply(arr, s, gen).value;
    forall t | 0 <= t < |out| ensures KeptOrFresh(arr, s, gen, out, t) {
      OneOutput(arr, gen, s, slots, out, t);
    }
  }

  /** The agreement theorem for the caller's list in any order: `runSlice`
      (which sorts it) succeeds, every page `RunLines` keeps is at its
      `NewIdx`, and every other position holds the value of one of the
      run's own factory calls. */
  lemma KeptPagesAgree<T>(arr: seq<T>, acts: seq<Action>, gen: nat -> T)
    requires Accepted(acts, |arr|)
    ensures Transform(arr, acts, gen).Ok?
    ensures var out := Transform(arr, acts, gen).value;
      var s := ActionOrder.SortByPage(acts);
      && NonNegativeCounts(s)
      && (forall i :: 0 <= i < |arr| && !Remap(i, s).deleted ==>
            0 <= Remap(i, s).newIdx < |out| && out[Remap(i, s).newIdx] == arr[i])
      && (forall t :: 0 <= t < |out| ==> KeptOrFresh(arr, s, gen, out, t))
  {
    var s := ActionOrder.SortByPage(acts);
    SortedAccepted(acts, |arr|);
    SortedKeptPagesAgree(arr, s, gen);
    SortedOutputAgrees(arr, s, gen);
  }

  /** The two actions of the counterexample below, already in page order. */
  lemma CounterexampleSorted()
    ensures ActionOrder.SortByPage([Delete(2, 1), Insert(1, 2, false)]) == [Delete(2, 1), Insert(1, 2, false)]
  {
    var acts := [Delete(2, 1), Insert(1, 2, false)];
    assert acts[1..] == [Insert(1, 2, false)];
    assert ActionOrder.SortByPage([Insert(1, 2, false)]) == [Insert(1, 2, false)];
  }

  /** `runSlice` on the counterexample: the insert runs first and puts the
      blank page at index 1, which the delete of pages 1-2 then removes. */
  lemma CounterexampleRun()
    ensures Apply(Originals(3), [Delete(2, 1), Insert(1, 2, false)], NewSlot) == Ok([Orig(1), Orig(2)])
  {
    var acts := [Delete(2, 1), Insert(1, 2, false)];
    var o := Originals(3);
    assert o == [Orig(0), Orig(1), Orig(2)];
    var tail := [Insert(1, 2, false)];
    assert acts[1..] == tail && tail[1..] == [];
    assert Fresh(NewSlot, 0, 1) == [New(0)];
    assert Apply(o, [], NewSlot) == Ok(o);
    var mid := [Orig(0), New(0), Orig(1), Orig(2)];
    assert o[..1] + [New(0)] + o[1..] == mid;
    assert Step(o, tail[0], NewSlot, 0) == Ok(mid);
    assert Apply(o, tail, NewSlot) == Ok(mid);
    assert Calls(tail) == 1;
    assert mid[..0] + mid[2..] == [Orig(1), Orig(2)];
    assert Step(mid, acts[0], NewSlot, 1) == Ok([Orig(1), Orig(2)]);
  }

  /** Without the last condition the theorem fails: deleting pages 1-2 of a
      3-page document while inserting one page before page 2 makes `runSlice`
      remove the new blank page and keep original page 2 (index 1), which
      `RunLines` marks deleted. */
  lemma CoveredAnchorBreaksAgreement()
    ensures var acts := [Delete(2, 1), Insert(1, 2, false)];
      && DistinctAnchors(acts) && NonNegativeCounts(acts) && InRange(acts, 3)
      && !DeletesAvoidAnchors(acts)
      && Transform(Originals(3), acts, NewSlot) == Ok([Orig(1), Orig(2)])
      && Remap(1, ActionOrder.SortByPage(acts)).deleted
  {
    var acts := [Delete(2, 1), Insert(1, 2, false)];
    CounterexampleSorted();
    CounterexampleRun();
    CounterexampleShape();
    CounterexampleRemap();
    assert Transform(Originals(3), acts, NewSlot) == Ok([Orig(1), Orig(2)]);
  }

  /** The counterexample meets every condition of the theorem but the last. */
  lemma CounterexampleShape()
    ensures var acts := [Delete(2, 1), Insert(1, 2, false)];
      && DistinctAnchors(acts) && NonNegativeCounts(acts) && InRange(acts, 3)
      && !DeletesAvoidAnchors(acts)
  {
    var acts := [Delete(2, 1), Insert(1, 2, false)];
    assert DistinctAnchors(acts);
    assert NonNegativeCounts(acts) by {
      forall a | a in acts ensures a.count >= 0 {
      }
    }
    assert InRange(acts, 3) by {
      forall a | a in acts ensures ActionInRange(a, 3) {
      }
    }
    assert !DeletesAvoidAnchors(acts) by {
      assert acts[0].pageNo < acts[1].Page() < acts[0].pageNo + acts[0].count;
    }
  }

  /** `RunLines` marks original page 2 (index 1) of the counterexample deleted. */
  lemma CounterexampleRemap()
    ensures Remap(1, [Delete(2, 1), Insert(1, 2, false)]).deleted
  {
    var acts := [Delete(2, 1), Insert(1, 2, false)];
    assert acts[1..] == [Insert(1, 2, false)];
    assert Remap(1, [Insert(1, 2, false)]) == PageReplacement(1, 2, false);
  }
}
