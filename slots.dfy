/**
 * The candidate slot array (a sequence of slots with holes), the registration
 * records that point into it, and the voter list with its swap-remove.
 */
module Slots {
  import opened CouncilTypes

  /** The number of occupied slots. */
  function Occupied(slots: seq<Option<AccountId>>): (n: nat)
    ensures n <= |slots|
  {
    if |slots| == 0 then 0
    else Occupied(slots[..|slots| - 1]) + (if slots[|slots| - 1].Some? then 1 else 0)
  }

  /** Appending an occupied slot adds one to the count. */
  lemma OccupiedAppend(slots: seq<Option<AccountId>>, who: AccountId)
    ensures Occupied(slots + [Some(who)]) == Occupied(slots) + 1
  {
    assert (slots + [Some(who)])[..|slots|] == slots;
  }

  /** Filling a hole adds one to the count. */
  lemma {:induction false} OccupiedFill(slots: seq<Option<AccountId>>, i: nat, who: AccountId)
    requires i < |slots| && slots[i].None?
    ensures Occupied(slots[i := Some(who)]) == Occupied(slots) + 1
  {
    var n := |slots|;
    var filled := slots[i := Some(who)];
    if i < n - 1 {
      assert filled[..n - 1] == slots[..n - 1][i := Some(who)];
      OccupiedFill(slots[..n - 1], i, who);
    } else {
      assert filled[..n - 1] == slots[..n - 1];
    }
  }

  /** A slot array has no hole exactly when every slot counts. */
  lemma {:induction false} NoHoleIffFull(slots: seq<Option<AccountId>>)
    ensures Occupied(slots) == |slots| <==> forall i :: 0 <= i < |slots| ==> slots[i].Some?
  {
    if |slots| > 0 {
      var init := slots[..|slots| - 1];
      NoHoleIffFull(init);
      assert forall i :: 0 <= i < |init| ==> init[i] == slots[i];
    }
  }

  /** The last occupied slot (`rposition` of a non-empty slot), if any. */
  function LastOccupied(slots: seq<Option<AccountId>>): (r: Option<nat>)
    ensures r.Some? ==> r.value < |slots| && slots[r.value].Some?
    ensures r.Some? ==> forall i :: r.value < i < |slots| ==> slots[i].None?
    ensures r.None? ==> forall i :: 0 <= i < |slots| ==> slots[i].None?
  {
    if |slots| == 0 then None
    else if slots[|slots| - 1].Some? then Some(|slots| - 1)
    else LastOccupied(slots[..|slots| - 1])
  }

  /** Drops trailing holes, but only when some slot is occupied: an array of
      holes alone keeps its length. */
  function Shrink(slots: seq<Option<AccountId>>): (r: seq<Option<AccountId>>)
    ensures |r| <= |slots|
  {
    match LastOccupied(slots)
    case Some(last) => slots[..last + 1]
    case None => slots
  }

  /** Shrinking keeps every occupied slot where it was, keeps the count, and
      leaves no trailing hole unless nothing is occupied at all. */
  lemma {:induction false} ShrinkKeepsOccupants(slots: seq<Option<AccountId>>)
    ensures |Shrink(slots)| <= |slots|
    ensures forall i :: 0 <= i < |Shrink(slots)| ==> Shrink(slots)[i] == slots[i]
    ensures forall i :: 0 <= i < |slots| && slots[i].Some? ==> i < |Shrink(slots)|
    ensures Occupied(Shrink(slots)) == Occupied(slots)
    ensures |Shrink(slots)| > 0 && Occupied(slots) > 0 ==> Shrink(slots)[|Shrink(slots)| - 1].Some?
  {
    match LastOccupied(slots)
    case None =>
      OccupiedDropHoles(slots, 0);
    case Some(last) =>
      OccupiedDropHoles(slots, last + 1);
  }

  /** Cutting off a suffix made only of holes keeps the count. */
  lemma {:induction false} OccupiedDropHoles(slots: seq<Option<AccountId>>, k: nat)
    requires k <= |slots|
    requires forall i :: k <= i < |slots| ==> slots[i].None?
    ensures Occupied(slots[..k]) == Occupied(slots)
  {
    if k < |slots| {
      var init := slots[..|slots| - 1];
      assert init[..k] == slots[..k];
      OccupiedDropHoles(init, k);
    } else {
      assert slots[..k] == slots;
    }
  }

  /** Every occupied slot holds a candidate whose registration names that slot. */
  ghost predicate SlotsRegistered(slots: seq<Option<AccountId>>, reg: map<AccountId, Registration>)
  {
    forall i :: 0 <= i < |slots| && slots[i].Some? ==>
      slots[i].value in reg && reg[slots[i].value].slot == i
  }

  /** Every registration names a slot that holds its candidate. */
  ghost predicate RegistrationsPlaced(slots: seq<Option<AccountId>>, reg: map<AccountId, Registration>)
  {
    forall c :: c in reg ==> reg[c].slot < |slots| && slots[reg[c].slot] == Some(c)
  }

  /** `votes` with the element at `i` removed by moving the last one into
      its place (Rust's `swap_remove`): the only position that changes is `i`. */
  function SwapRemove(votes: seq<AccountId>, i: nat): (r: seq<AccountId>)
    requires i < |votes|
    ensures |r| == |votes| - 1
    ensures i < |r| ==> r[i] == votes[|votes| - 1]
    ensures forall j :: 0 <= j < |r| && j != i ==> r[j] == votes[j]
  {
    votes[i := votes[|votes| - 1]][..|votes| - 1]
  }

  /** Swap-removing takes exactly one occurrence of `votes[i]` out of the list. */
  lemma SwapRemoveMultiset(votes: seq<AccountId>, i: nat)
    requires i < |votes|
    ensures multiset(SwapRemove(votes, i)) == multiset(votes) - multiset{votes[i]}
  {
    var n, r := |votes|, SwapRemove(votes, i);
    var init := votes[..n - 1];
    assert votes == init + [votes[n - 1]];
    assert multiset(votes) == multiset(init) + multiset{votes[n - 1]};
    if i < n - 1 {
      assert r == init[i := votes[n - 1]];
      assert votes[i] == init[i];
      assert multiset(r) == multiset(init) - multiset{votes[i]} + multiset{votes[n - 1]};
    } else {
      assert r == init;
    }
  }

  ghost predicate Distinct(votes: seq<AccountId>)
  {
    forall i, j :: 0 <= i < j < |votes| ==> votes[i] != votes[j]
  }

  /** On a list without repetitions, swap-removing position `i` removes exactly
      the voter there and nobody else, and keeps the list without repetitions. */
  lemma SwapRemoveExact(votes: seq<AccountId>, i: nat)
    requires i < |votes| && Distinct(votes)
    ensures Distinct(SwapRemove(votes, i))
    ensures forall v :: v in SwapRemove(votes, i) <==> v in votes && v != votes[i]
  {
    var r, n := SwapRemove(votes, i), |votes|;
    // position a of the result came from position a' of the list
    forall a, b | 0 <= a < b < |r|
      ensures r[a] != r[b]
    {
      var a', b' := if a == i then n - 1 else a, if b == i then n - 1 else b;
      assert r[a] == votes[a'] && r[b] == votes[b'] && a' != b';
    }
    forall v
      ensures v in r <==> v in votes && v != votes[i]
    {
      if v in r {
        var k :| 0 <= k < |r| && r[k] == v;
        var k' := if k == i then n - 1 else k;
        assert v == votes[k'] && k' != i;
      }
      if v in votes && v != votes[i] {
        var k :| 0 <= k < n && votes[k] == v;
        if k == n - 1 {
          assert r[i] == v;
        } else {
          assert r[k] == v;
        }
      }
    }
  }

  /** The slot array with every occupant not listed in `keep` cleared. */
  function KeepOnly(slots: seq<Option<AccountId>>, keep: seq<AccountId>): (r: seq<Option<AccountId>>)
    ensures |r| == |slots|
    ensures forall i :: 0 <= i < |r| ==> r[i] == (if slots[i].Some? && slots[i].value in keep then slots[i] else None)
  {
    seq(|slots|, i requires 0 <= i < |slots| => if slots[i].Some? && slots[i].value in keep then slots[i] else None)
  }

  /** Keeping only distinct, registered candidates leaves exactly one occupied
      slot per kept candidate. */
  lemma {:induction false} KeepOnlyOccupied(slots: seq<Option<AccountId>>, reg: map<AccountId, Registration>, keep: seq<AccountId>)
    requires SlotsRegistered(slots, reg) && RegistrationsPlaced(slots, reg)
    requires Distinct(keep) && forall a :: a in keep ==> a in reg
    ensures Occupied(KeepOnly(slots, keep)) == |keep|
    decreases |keep|
  {
    if |keep| == 0 {
      var none := KeepOnly(slots, keep);
      OccupiedDropHoles(none, 0);
      assert none[..0] == [];
    } else {
      var n := |keep|;
      var init, a := keep[..n - 1], keep[n - 1];
      assert keep == init + [a];
      KeepOnlyOccupied(slots, reg, init);
      var before := KeepOnly(slots, init);
      var slot := reg[a].slot;
      assert a !in init by {
        forall j | 0 <= j < |init| ensures init[j] != a {
          assert init[j] == keep[j];
        }
      }
      OccupiedFill(before, slot, a);
      forall i | 0 <= i < |slots|
        ensures KeepOnly(slots, keep)[i] == before[slot := Some(a)][i]
      {
        if i != slot && slots[i].Some? {
          assert slots[i].value != a;
        }
      }
      assert KeepOnly(slots, keep) == before[slot := Some(a)];
    }
  }

  /** The runner-up loop of finalisation: a fresh array of holes as long as the
      slot array, with each runner-up written back into the slot its
      registration names, counting them. The result keeps exactly the
      runners-up in place. */
  method PlaceRunnersUp(slots: seq<Option<AccountId>>, reg: map<AccountId, Registration>, runnersUp: seq<AccountId>)
    returns (placed: seq<Option<AccountId>>, count: nat)
    requires SlotsRegistered(slots, reg) && RegistrationsPlaced(slots, reg)
    requires Distinct(runnersUp) && forall a :: a in runnersUp ==> a in reg
    ensures placed == KeepOnly(slots, runnersUp)
    ensures count == |runnersUp| == Occupied(placed)
  {
    placed := seq(|slots|, _ => None);
    count := 0;
    OccupiedDropHoles(placed, 0);
    while count < |runnersUp|
      invariant 0 <= count <= |runnersUp|
      invariant |placed| == |slots|
      invariant forall s :: 0 <= s < |placed| ==>
                  placed[s] == (if slots[s].Some? && slots[s].value in runnersUp[..count] then slots[s] else None)
      invariant Occupied(placed) == count
    {
      var who := runnersUp[count];
      var slot := reg[who].slot;
      assert who !in runnersUp[..count];
      OccupiedFill(placed, slot, who);
      placed := placed[slot := Some(who)];
      assert runnersUp[..count + 1] == runnersUp[..count] + [who];
      count := count + 1;
    }
    assert runnersUp[..count] == runnersUp;
  }

  /** The clean-up loop of finalisation: comparing the old slot array with the
      new one slot by slot, every occupant whose slot changed loses its
      registration. What remains is exactly the registrations whose candidate
      still sits in its slot, unaltered. */
  method DropDiscarded(slots: seq<Option<AccountId>>, placed: seq<Option<AccountId>>, reg: map<AccountId, Registration>)
    returns (kept: map<AccountId, Registration>)
    requires |placed| == |slots| && SlotsRegistered(slots, reg) && RegistrationsPlaced(slots, reg)
    requires forall i :: 0 <= i < |slots| ==> placed[i] == slots[i] || placed[i].None?
    ensures forall c :: c in kept <==> c in reg && placed[reg[c].slot] == Some(c)
    ensures forall c :: c in kept ==> kept[c] == reg[c]
  {
    kept := reg;
    var j := 0;
    while j < |slots|
      invariant 0 <= j <= |slots|
      invariant forall c :: c in kept <==> c in reg && (reg[c].slot >= j || placed[reg[c].slot] == Some(c))
      invariant forall c :: c in kept ==> kept[c] == reg[c]
    {
      if slots[j] != placed[j] {
        match slots[j]
        case Some(gone) => kept := kept - {gone};
        case None =>
      }
      j := j + 1;
    }
  }

  /** The registrations of the `kept` candidates only. */
  function Restrict(reg: map<AccountId, Registration>, kept: seq<AccountId>): (r: map<AccountId, Registration>)
    ensures forall c :: c in r <==> c in reg && c in kept
    ensures forall c :: c in r ==> r[c] == reg[c]
  {
    map c | c in reg && c in kept :: reg[c]
  }

  /** When the clean-up loop runs on the array that keeps only `kept`, what
      remains is exactly the registrations of `kept`. */
  lemma RemainingAreKept(slots: seq<Option<AccountId>>, reg: map<AccountId, Registration>, kept: seq<AccountId>,
                         remaining: map<AccountId, Registration>)
    requires SlotsRegistered(slots, reg) && RegistrationsPlaced(slots, reg)
    requires forall a :: a in kept ==> a in reg
    requires forall c :: c in remaining <==> c in reg && KeepOnly(slots, kept)[reg[c].slot] == Some(c)
    requires forall c :: c in remaining ==> remaining[c] == reg[c]
    ensures remaining == Restrict(reg, kept)
  {
    forall c | c in kept
      ensures c in remaining
    {
      assert reg[c].slot < |slots| && slots[reg[c].slot] == Some(c);
    }
  }

  /** Dropping the trailing holes of a slot array keeps it in agreement with
      the registrations. */
  lemma ShrinkKeepsRegistrations(slots: seq<Option<AccountId>>, reg: map<AccountId, Registration>)
    requires SlotsRegistered(slots, reg) && RegistrationsPlaced(slots, reg)
    ensures SlotsRegistered(Shrink(slots), reg) && RegistrationsPlaced(Shrink(slots), reg)
    ensures Occupied(Shrink(slots)) == Occupied(slots)
  {
    ShrinkKeepsOccupants(slots);
  }

  /** The candidate clean-up of finalisation: the runners-up are written back
      into their slots of a fresh array of holes, every other candidate loses
      its registration, and trailing holes are cut off. The count is the
      number of runners-up. */
  method ClearCandidates(slots: seq<Option<AccountId>>, reg: map<AccountId, Registration>, kept: seq<AccountId>)
    returns (newSlots: seq<Option<AccountId>>, count: nat, remaining: map<AccountId, Registration>)
    requires SlotsRegistered(slots, reg) && RegistrationsPlaced(slots, reg)
    requires Distinct(kept) && forall a :: a in kept ==> a in reg
    ensures newSlots == Shrink(KeepOnly(slots, kept))
    ensures count == |kept| == Occupied(KeepOnly(slots, kept))
    ensures remaining == Restrict(reg, kept)
  {
    var placed;
    placed, count := PlaceRunnersUp(slots, reg, kept);
    remaining := DropDiscarded(slots, placed, reg);
    RemainingAreKept(slots, reg, kept, remaining);
    newSlots := Shrink(placed);
  }

  /** The order the retraction test observes: removing the first of four
      voters moves the last one to the front. */
  lemma RetractionOrderExample()
    ensures SwapRemove([10, 20, 30, 40], 0) == [40, 20, 30]
    ensures SwapRemove([40, 20, 30], 1) == [40, 30]
    ensures SwapRemove([40, 30], 1) == [40]
  {
  }
}
