/**
 * `frame_evict_page`: the clock (second-chance) algorithm over the frame
 * table.  `Evict` is the reference definition, built from the clock order
 * (`Pos`), the first slot with a clear accessed bit (`FirstClear`) and the
 * reclaiming of the victim; `EvictLoop` is the scanning loop of the source,
 * proved to compute the same thing.
 */
module Clock {
  import opened Support
  import opened Layout
  import opened State
  import opened Table

  /** `(x + 1) % n` for a slot `x`: the next slot, wrapping to 0. */
  lemma Advance(x: nat, n: nat)
    requires x < n
    ensures (x + 1) % n == if x + 1 < n then x + 1 else 0
  {
    if x + 1 == n {
      assert (x + 1) % n == 0;
    }
  }

  /** Slot reached from `h` after `k` advances of the hand. */
  function Pos(h: nat, k: nat, n: nat): (p: nat)
    requires h < n && k <= n
    ensures p < n
  {
    if h + k < n then h + k else h + k - n
  }

  /** Number of advances that take the hand from `h` to slot `i`. */
  function CycDist(h: nat, i: nat, n: nat): (d: nat)
    requires h < n && i < n
    ensures d < n
  {
    if h <= i then i - h else i + n - h
  }

  /** Clock order visits every slot exactly once per revolution. */
  lemma PosCycDist(h: nat, k: nat, i: nat, n: nat)
    requires h < n && k < n && i < n
    ensures CycDist(h, Pos(h, k, n), n) == k
    ensures Pos(h, CycDist(h, i, n), n) == i
  {
  }

  /** One more advance of the hand is `(hand + 1) % n`. */
  lemma PosStep(h: nat, k: nat, n: nat)
    requires h < n && k < n
    ensures Pos(h, k + 1, n) == (Pos(h, k, n) + 1) % n
  {
    Advance(Pos(h, k, n), n);
  }

  /**
   * The number of slots the hand passes, starting at `h` after `k` have been
   * passed, before it meets one whose accessed bit is clear; `|acc|` when
   * every remaining bit is set.
   */
  function FirstClear(acc: seq<bool>, h: nat, k: nat): (s: nat)
    requires h < |acc| && k <= |acc|
    ensures k <= s <= |acc|
    ensures forall j :: k <= j < s ==> acc[Pos(h, j, |acc|)]
    ensures s < |acc| ==> !acc[Pos(h, s, |acc|)]
    decreases |acc| - k
  {
    if k == |acc| then k
    else if !acc[Pos(h, k, |acc|)] then k
    else FirstClear(acc, h, k + 1)
  }

  /** Slots the clock skips (giving each a second chance) before choosing a victim. */
  function SkipCount(acc: seq<bool>, h: nat): nat
    requires h < |acc|
  {
    FirstClear(acc, h, 0)
  }

  /**
   * The victim: the first slot from the hand whose accessed bit is clear,
   * or the hand's own slot, after one full revolution, when every bit is set.
   */
  function Victim(acc: seq<bool>, h: nat): nat
    requires h < |acc|
  {
    Pos(h, SkipCount(acc, h), |acc|)
  }

  /** The accessed bits after the clock has passed `k` slots from `h`. */
  function ClearRange(acc: seq<bool>, h: nat, k: nat): (r: seq<bool>)
    requires h < |acc|
    ensures |r| == |acc|
  {
    seq(|acc|, i requires 0 <= i < |acc| => if CycDist(h, i, |acc|) < k then false else acc[i])
  }

  /** Passing one more slot clears exactly that slot's bit. */
  lemma ClearRangeStep(acc: seq<bool>, h: nat, k: nat)
    requires h < |acc| && k < |acc|
    ensures ClearRange(acc, h, k)[Pos(h, k, |acc|) := false] == ClearRange(acc, h, k + 1)
  {
    var n := |acc|;
    var a := ClearRange(acc, h, k)[Pos(h, k, n) := false];
    var b := ClearRange(acc, h, k + 1);
    forall i | 0 <= i < n
      ensures a[i] == b[i]
    {
      PosCycDist(h, k, i, n);
    }
  }

  /**
   * A slot whose accessed bit is set is never chosen unless every bit was
   * set; every skipped slot had its bit set; the scan inspects at most
   * `n + 1` slots.
   */
  lemma VictimSecondChance(acc: seq<bool>, h: nat)
    requires h < |acc|
    ensures SkipCount(acc, h) <= |acc|
    ensures Victim(acc, h) < |acc|
    ensures forall j :: 0 <= j < SkipCount(acc, h) ==> acc[Pos(h, j, |acc|)]
    ensures acc[Victim(acc, h)] ==> forall i :: 0 <= i < |acc| ==> acc[i]
    ensures acc[Victim(acc, h)] ==> Victim(acc, h) == h
    ensures !ClearRange(acc, h, SkipCount(acc, h))[Victim(acc, h)]
  {
    var n := |acc|;
    var s := SkipCount(acc, h);
    if acc[Victim(acc, h)] {
      assert s == n;
      forall i | 0 <= i < n
        ensures acc[i]
      {
        PosCycDist(h, 0, i, n);
        assert acc[Pos(h, CycDist(h, i, n), n)];
      }
    }
    if s < n {
      PosCycDist(h, s, 0, n);
    }
  }

  /** The frame of the slot the hand reaches after passing `j` slots. */
  function PassedPage(vm: Vm, j: nat): Addr
    requires vm.hand < |vm.table| && j <= |vm.table|
  {
    vm.table[Pos(vm.hand, j, |vm.table|)].page
  }

  /**
   * What the scan needs: a hand in range, one bit of each kind per slot, an
   * owned victim, and a frame in every slot the hand passes.  The source
   * reads a slot's bits through its `page`, so slots whose `page` is still
   * NULL would share one accessed bit; the per-slot bits model the scan
   * only when every slot it reads has a frame.
   */
  predicate CanEvict(vm: Vm) {
    && 0 < |vm.table|
    && vm.hand < |vm.table|
    && |vm.accessed| == |vm.table|
    && |vm.dirty| == |vm.table|
    && (forall j :: 0 <= j < SkipCount(vm.accessed, vm.hand) ==> PassedPage(vm, j) != NULL)
    && var v := Victim(vm.accessed, vm.hand);
       && vm.table[v].owner.Some?
       && vm.table[v].owner.value in vm.entries
       && vm.table[v].page != NULL
  }

  /**
   * The dirty-victim branch: a dirty victim's frame goes to a fresh swap slot,
   * which its owner records, and the owner is marked in swap; the kernel
   * panics when there is no free slot.  The value says whether it was written.
   */
  function SwapOut(vm: Vm, v: nat): (r: Step<bool>)
    requires v < |vm.table| && v < |vm.dirty|
    requires vm.table[v].owner.Some? && vm.table[v].owner.value in vm.entries
    ensures r.Halt? <==> vm.dirty[v] && vm.swapFree == {}
    ensures r.Halt? ==> r.why == OutOfSwap
    ensures r.Ok? ==> r.value == vm.dirty[v]
    ensures r.Ok? && !vm.dirty[v] ==> r.vm == vm
    ensures r.Ok? && vm.dirty[v] ==>
              var e := vm.table[v].owner.value;
              e in r.vm.entries &&
              var slot := r.vm.entries[e].swapIndex;
              && slot in vm.swapFree
              && r.vm.swapFree == vm.swapFree - {slot}
              && r.vm.swapped == vm.swapped[slot := vm.table[v].page]
              && r.vm.entries == vm.entries[e := vm.entries[e].(swapIndex := slot, inSwap := true)]
              && r.vm.(swapFree := vm.swapFree, swapped := vm.swapped, entries := vm.entries) == vm
  {
    if !vm.dirty[v] then Ok(vm, false)
    else
      match FirstFree(vm.swapFree)
      case None => Halt(OutOfSwap)
      case Some(slot) =>
        var e := vm.table[v].owner.value;
        Ok(vm.(swapFree := vm.swapFree - {slot},
               swapped := vm.swapped[slot := vm.table[v].page],
               entries := vm.entries[e := vm.entries[e].(swapIndex := slot, inSwap := true)]),
           true)
  }

  /**
   * The `else` branch of the eviction loop, for the victim under the hand:
   * swap it out if dirty, unlink it (`frame_clear_page`), move the hand one
   * past it, and return its frame.
   */
  function Reclaim(vm: Vm): (r: Step<Addr>)
    requires 0 < |vm.table| && vm.hand < |vm.table| && |vm.dirty| == |vm.table|
    requires vm.table[vm.hand].owner.Some? && vm.table[vm.hand].owner.value in vm.entries
    ensures r.Halt? <==> vm.dirty[vm.hand] && vm.swapFree == {}
    ensures r.Ok? ==> r.value == vm.table[vm.hand].page
    ensures r.Ok? ==> r.vm.hand == (vm.hand + 1) % |vm.table|
  {
    var v := vm.hand;
    match SwapOut(vm, v)
    case Halt(why) => Halt(why)
    case Ok(out, _) =>
      var cleared := ClearPage(out, v);
      Ok(cleared.(hand := (v + 1) % |vm.table|), vm.table[v].page)
  }

  /** The state when the hand stops at the victim: skipped bits cleared. */
  function Scanned(vm: Vm): (r: Vm)
    requires 0 < |vm.table| && vm.hand < |vm.table| && |vm.accessed| == |vm.table|
    ensures r.hand == Victim(vm.accessed, vm.hand)
  {
    var s := SkipCount(vm.accessed, vm.hand);
    vm.(accessed := ClearRange(vm.accessed, vm.hand, s), hand := Pos(vm.hand, s, |vm.table|))
  }

  /**
   * Reference definition of one eviction: the hand passes the accessed
   * slots, clearing their bits; the victim is swapped out if dirty and
   * unlinked; the hand stops one past it; its frame is returned.
   */
  function Evict(vm: Vm): (r: Step<Addr>)
    requires CanEvict(vm)
    ensures var v := Victim(vm.accessed, vm.hand);
            && (r.Halt? <==> vm.dirty[v] && vm.swapFree == {})
            && (r.Halt? ==> r.why == OutOfSwap)
            && (r.Ok? ==> r.value == vm.table[v].page && r.value != NULL)
            && (r.Ok? ==> r.vm.hand == (v + 1) % |vm.table| && r.vm.hand < |vm.table|)
  {
    VictimSecondChance(vm.accessed, vm.hand);
    Reclaim(Scanned(vm))
  }

  /**
   * Everything one eviction changes: only the victim's owner link in the
   * table; the skipped slots' accessed bits; the owner's in-frame flag and
   * mapping; and, for a dirty victim only, one swap slot that the owner
   * records.  Nothing else.
   */
  lemma EvictEffects(vm: Vm)
    requires CanEvict(vm) && Evict(vm).Ok?
    ensures var r := Evict(vm);
            var v := Victim(vm.accessed, vm.hand);
            var e := vm.table[v].owner.value;
            && r.vm.table == vm.table[v := Frame(vm.table[v].page, None)]
            && r.vm.accessed == ClearRange(vm.accessed, vm.hand, SkipCount(vm.accessed, vm.hand))
            && !r.vm.accessed[v]
            && r.vm.entries.Keys == vm.entries.Keys
            && !r.vm.entries[e].inFrame
            && r.vm.entries[e].upage == vm.entries[e].upage
            && r.vm.entries[e].physPage == vm.entries[e].physPage
            && (forall id :: id in vm.entries && id != e ==> r.vm.entries[id] == vm.entries[id])
            && r.vm.pagedir == vm.pagedir - {vm.entries[e].upage}
            && (vm.dirty[v] ==>
                  && r.vm.entries[e].inSwap
                  && r.vm.entries[e].swapIndex in vm.swapFree
                  && r.vm.swapFree == vm.swapFree - {r.vm.entries[e].swapIndex}
                  && r.vm.swapped == vm.swapped[r.vm.entries[e].swapIndex := r.value])
            && (!vm.dirty[v] ==>
                  && r.vm.entries[e].inSwap == vm.entries[e].inSwap
                  && r.vm.entries[e].swapIndex == vm.entries[e].swapIndex
                  && r.vm.swapFree == vm.swapFree
                  && r.vm.swapped == vm.swapped)
            && r.vm.ram == vm.ram && r.vm.pool == vm.pool && r.vm.spt == vm.spt
            && r.vm.dirty == vm.dirty
  {
    VictimSecondChance(vm.accessed, vm.hand);
  }

  /**
   * The loop of `frame_evict_page`, with the hand persisting in the state.
   * It inspects `SkipCount + 1 <= n + 1` slots and agrees with `Evict`.
   */
  method EvictLoop(vm: Vm) returns (r: Step<Addr>, ghost inspections: nat)
    requires CanEvict(vm)
    ensures r == Evict(vm)
    ensures inspections <= |vm.table| + 1
  {
    var n := |vm.table|;
    var cur := vm;
    var evictFrame: Addr := NULL;
    ghost var s := SkipCount(vm.accessed, vm.hand);
    ghost var k: nat := 0;
    inspections := 0;
    VictimSecondChance(vm.accessed, vm.hand);
    while evictFrame == NULL
      invariant k <= s && s <= n
      invariant inspections == k + (if evictFrame == NULL then 0 else 1)
      invariant evictFrame == NULL ==>
                  cur == vm.(accessed := ClearRange(vm.accessed, vm.hand, k),
                             hand := Pos(vm.hand, k, n))
      invariant evictFrame != NULL ==> k == s && Evict(vm) == Ok(cur, evictFrame)
      decreases s - k + (if evictFrame == NULL then 1 else 0)
    {
      inspections := inspections + 1;
      if cur.accessed[cur.hand] {
        // second chance: clear the bit and move on
        if k < n {
          PosCycDist(vm.hand, k, 0, n);
        }
        assert k < s;
        ClearRangeStep(vm.accessed, vm.hand, k);
        PosStep(vm.hand, k, n);
        cur := cur.(accessed := cur.accessed[cur.hand := false], hand := (cur.hand + 1) % n);
        k := k + 1;
      } else {
        assert k == s by {
          if k < s {
            PosCycDist(vm.hand, k, 0, n);
          }
        }
        assert cur == Scanned(vm);
        var res := Reclaim(cur);
        if res.Halt? {
          return res, inspections;
        }
        cur := res.vm;
        evictFrame := res.value;
      }
    }
    return Ok(cur, evictFrame), inspections;
  }

  /** Eviction keeps the state valid and hands back the victim's frame, detached. */
  lemma EvictPreservesValid(vm: Vm)
    requires Valid(vm) && CanEvict(vm)
    requires !(vm.dirty[Victim(vm.accessed, vm.hand)] && vm.swapFree == {})
    ensures Valid(Evict(vm).vm)
    ensures IsUserFrame(vm.ram, Evict(vm).value)
    ensures Index(vm.ram, Evict(vm).value) == Victim(vm.accessed, vm.hand)
    ensures Detached(Evict(vm).vm, Victim(vm.accessed, vm.hand))
  {
    VictimSecondChance(vm.accessed, vm.hand);
    var v := Victim(vm.accessed, vm.hand);
    var scanned := Scanned(vm);
    assert Valid(scanned);
    var out := SwapOut(scanned, v).vm;
    SwapOutPreservesValid(scanned, v);
    ClearPagePreservesValid(out, v);
    SlotRoundTrip(vm.ram, v, 0);
  }

  /** Writing a victim to swap touches no field the invariant mentions. */
  lemma SwapOutPreservesValid(vm: Vm, v: nat)
    requires Valid(vm) && Owned(vm, v) && SwapOut(vm, v).Ok?
    ensures Valid(SwapOut(vm, v).vm)
  {
    var r := SwapOut(vm, v).vm;
    if vm.dirty[v] {
      var e := vm.table[v].owner.value;
      assert forall id :: id in r.entries ==>
        r.entries[id].inFrame == vm.entries[id].inFrame &&
        r.entries[id].physPage == vm.entries[id].physPage;
    }
  }

  /**
   * Four slots, all recently accessed, hand at 0: one revolution clears
   * every bit, slot 0 is the victim and the hand ends at 1.
   */
  lemma FullRevolution()
    ensures SkipCount([true, true, true, true], 0) == 4
    ensures Victim([true, true, true, true], 0) == 0
    ensures ClearRange([true, true, true, true], 0, 4) == [false, false, false, false]
    ensures (Victim([true, true, true, true], 0) + 1) % 4 == 1
  {
    var acc := [true, true, true, true];
    assert FirstClear(acc, 0, 3) == 4;
  }
}
