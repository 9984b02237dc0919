/**
 * The two allocation entry points: `frame_get_page`, for a page that already
 * has a supplemental entry, and `frame_get_stack_page`, which creates the
 * entry for a new stack page.  Both take a free user frame when there is
 * one and evict otherwise.
 */
module Alloc {
  import opened Support
  import opened Layout
  import opened State
  import opened Table
  import opened Clock

  /**
   * How both entry points obtain a frame: `palloc_get_page (PAL_USER)`, and
   * `frame_evict_page` when the pool is empty.  Only eviction can fail, and only on a
   * dirty victim with the swap store full.
   */
  function AcquireFrame(vm: Vm): (r: Step<Addr>)
    requires WellFormed(vm) && (vm.pool == {} ==> CanEvict(vm))
    ensures r.Halt? <==> vm.pool == {} && vm.dirty[Victim(vm.accessed, vm.hand)] && vm.swapFree == {}
    ensures r.Halt? ==> r.why == OutOfSwap
    ensures vm.pool != {} ==> r.Ok? && r.value in vm.pool && r.vm.pool == vm.pool - {r.value}
    ensures vm.pool == {} ==> r == Evict(vm)
  {
    match FirstFree(vm.pool)
    case Some(p) => Ok(vm.(pool := vm.pool - {p}), p)
    case None => Evict(vm)
  }

  /**
   * The frame obtained is a non-NULL user frame; a non-empty pool only
   * loses that frame; the state keeps its shape.
   */
  lemma AcquireWellFormed(vm: Vm)
    requires WellFormed(vm) && (vm.pool == {} ==> CanEvict(vm)) && AcquireFrame(vm).Ok?
    ensures var a := AcquireFrame(vm);
            && a.value != NULL
            && IsUserFrame(vm.ram, a.value)
            && WellFormed(a.vm)
            && a.vm.ram == vm.ram
            && a.vm.spt == vm.spt
            && a.vm.entries.Keys == vm.entries.Keys
            && |a.vm.table| == |vm.table|
            && (vm.pool != {} ==> a.vm == vm.(pool := vm.pool - {a.value}))
  {
    var a := AcquireFrame(vm);
    if vm.pool == {} {
      var v := Victim(vm.accessed, vm.hand);
      VictimSecondChance(vm.accessed, vm.hand);
      EvictEffects(vm);
      SlotRoundTrip(vm.ram, v, 0);
      forall i | Owned(a.vm, i)
        ensures a.vm.table[i].owner.value in a.vm.entries
        ensures a.vm.table[i].page == SlotAddr(a.vm.ram, i)
      {
        assert i != v && vm.table[i] == a.vm.table[i];
      }
    }
  }

  /** The frame handed out is detached, and the state stays valid. */
  lemma AcquirePreservesValid(vm: Vm)
    requires Valid(vm) && (vm.pool == {} ==> CanEvict(vm)) && AcquireFrame(vm).Ok?
    ensures Valid(AcquireFrame(vm).vm)
    ensures Detached(AcquireFrame(vm).vm, Index(vm.ram, AcquireFrame(vm).value))
  {
    var r := AcquireFrame(vm);
    AcquireWellFormed(vm);
    UserFrameRoundTrip(vm.ram, r.value);
    if vm.pool == {} {
      EvictPreservesValid(vm);
    } else {
      assert Valid(r.vm);
    }
  }

  /**
   * `frame_get_page`: obtain a frame for user page `upage` of entry `e`,
   * make `e` its owner and map `upage` to it.  It halts only when eviction
   * finds a dirty victim and no swap slot; otherwise its result is that of
   * installing the mapping.
   */
  function GetPage(vm: Vm, upage: Addr, writable: bool, e: EntryId, ptAvailable: bool): (r: Step<bool>)
    requires WellFormed(vm) && e in vm.entries && (vm.pool == {} ==> CanEvict(vm))
    ensures r.Halt? <==> vm.pool == {} && vm.dirty[Victim(vm.accessed, vm.hand)] && vm.swapFree == {}
    ensures r.Halt? ==> r.why == OutOfSwap
    ensures r.Ok? ==> r.value == ptAvailable
  {
    var a := AcquireFrame(vm);
    if a.Halt? then Halt(a.why)
    else
      AcquireWellFormed(vm);
      InstallPage(a.vm, a.value, upage, writable, e, ptAvailable)
  }

  /**
   * After `frame_get_page`, the acquired frame's slot records the frame and
   * `e`; `e` is in a frame at that frame; `upage` maps to it exactly when
   * the mapping could be installed.  Relative to the state after the frame
   * was obtained, nothing else changes: no other slot, no other entry, not
   * `e`'s swap fields, and no field outside the table, the entries and the
   * page directory.
   */
  lemma GetPageEffects(vm: Vm, upage: Addr, writable: bool, e: EntryId, ptAvailable: bool)
    requires WellFormed(vm) && e in vm.entries && (vm.pool == {} ==> CanEvict(vm))
    requires GetPage(vm, upage, writable, e, ptAvailable).Ok?
    ensures var r := GetPage(vm, upage, writable, e, ptAvailable);
            var a := AcquireFrame(vm);
            && a.Ok?
            && Index(vm.ram, a.value) < |r.vm.table| == |vm.table|
            && r.vm.table[Index(vm.ram, a.value)] == Frame(a.value, Some(e))
            && (forall j :: 0 <= j < |vm.table| && j != Index(vm.ram, a.value) ==>
                  r.vm.table[j] == a.vm.table[j])
            && e in r.vm.entries
            && r.vm.entries[e].physPage == a.value && r.vm.entries[e].inFrame
            && r.vm.entries[e].upage == vm.entries[e].upage
            && (ptAvailable ==> r.vm.pagedir == a.vm.pagedir[upage := Pte(a.value, writable)])
            && (!ptAvailable ==> r.vm.pagedir == a.vm.pagedir)
            && r.vm.pool == a.vm.pool
            && r.vm.entries.Keys == a.vm.entries.Keys
            && e in a.vm.entries
            && r.vm.entries[e].swapIndex == a.vm.entries[e].swapIndex
            && r.vm.entries[e].inSwap == a.vm.entries[e].inSwap
            && (forall id :: id in a.vm.entries && id != e ==> r.vm.entries[id] == a.vm.entries[id])
            && r.vm.(table := a.vm.table, entries := a.vm.entries, pagedir := a.vm.pagedir) == a.vm
  {
    var a := AcquireFrame(vm);
    AcquireWellFormed(vm);
    assert GetPage(vm, upage, writable, e, ptAvailable) == InstallPage(a.vm, a.value, upage, writable, e, ptAvailable);
  }

  /**
   * The tail of `frame_get_page` once it has a frame: record `e` as the
   * owner of `page`, mark `e` in a frame at `page`, and map `upage` to it
   * with `pagedir_set_page`.
   */
  function InstallPage(vm: Vm, page: Addr, upage: Addr, writable: bool, e: EntryId,
                       ptAvailable: bool): (r: Step<bool>)
    requires WellFormed(vm) && IsUserFrame(vm.ram, page) && e in vm.entries
    ensures r.Ok? && r.value == ptAvailable
    ensures && Index(vm.ram, page) < |r.vm.table| == |vm.table|
            && r.vm.table[Index(vm.ram, page)] == Frame(page, Some(e))
            && (forall j :: 0 <= j < |vm.table| && j != Index(vm.ram, page) ==>
                  r.vm.table[j] == vm.table[j])
            && e in r.vm.entries
            && r.vm.entries[e].physPage == page && r.vm.entries[e].inFrame
            && r.vm.entries[e].upage == vm.entries[e].upage
            && (ptAvailable ==> r.vm.pagedir == vm.pagedir[upage := Pte(page, writable)])
            && (!ptAvailable ==> r.vm.pagedir == vm.pagedir)
            && r.vm.pool == vm.pool
    ensures && r.vm.entries.Keys == vm.entries.Keys
            && r.vm.entries[e].swapIndex == vm.entries[e].swapIndex
            && r.vm.entries[e].inSwap == vm.entries[e].inSwap
            && (forall id :: id in vm.entries && id != e ==> r.vm.entries[id] == vm.entries[id])
    ensures r.vm.(pagedir := vm.pagedir) == Assign(vm, page, e)
  {
    var vm2 := Assign(vm, page, e);
    var (pd, ok) := PagedirSetPage(vm2.pagedir, upage, page, writable, ptAvailable);
    Ok(vm2.(pagedir := pd), ok)
  }

  /** Loading a page whose entry is not in a frame keeps the state valid. */
  lemma GetPagePreservesValid(vm: Vm, upage: Addr, writable: bool, e: EntryId, ptAvailable: bool)
    requires Valid(vm) && e in vm.entries && !vm.entries[e].inFrame
    requires vm.pool == {} ==> CanEvict(vm)
    requires GetPage(vm, upage, writable, e, ptAvailable).Ok?
    ensures Valid(GetPage(vm, upage, writable, e, ptAvailable).vm)
  {
    var a := AcquireFrame(vm);
    AcquireWellFormed(vm);
    AcquirePreservesValid(vm);
    if vm.pool == {} {
      assert e != vm.table[Victim(vm.accessed, vm.hand)].owner.value;
      EvictEffects(vm);
    }
    AssignPreservesValid(a.vm, a.value, e);
    var r := GetPage(vm, upage, writable, e, ptAvailable);
    assert r.vm == Assign(a.vm, a.value, e).(pagedir := r.vm.pagedir);
  }

  /** `pg_round_down`: the start of the page holding `vaddr`. */
  function RoundDown(vaddr: Addr): (u: Addr)
    ensures u % PGSIZE == 0
    ensures u <= vaddr < u + PGSIZE
  {
    vaddr - vaddr % PGSIZE
  }

  /**
   * `page_insert_entry_stack`, as far as this core relies on it: a new entry
   * `newId` for `upage`, not yet in a frame, entered in the current thread's
   * supplemental table; nothing when `upage` already has an entry.
   */
  function InsertStackEntry(vm: Vm, upage: Addr, newId: EntryId): (r: Option<Vm>)
    requires newId !in vm.entries
    ensures r.None? <==> upage in vm.spt
    ensures r.Some? ==>
              && r.value.spt.Keys == vm.spt.Keys + {upage}
              && r.value.spt[upage] == newId
              && r.value.entries.Keys == vm.entries.Keys + {newId}
              && r.value.entries[newId].upage == upage
              && !r.value.entries[newId].inFrame
              && !r.value.entries[newId].inSwap
              && (forall id :: id in vm.entries ==> r.value.entries[id] == vm.entries[id])
              && r.value.spt == vm.spt[upage := newId]
              && r.value.(entries := vm.entries, spt := vm.spt) == vm
  {
    if upage in vm.spt then None
    else Some(vm.(entries := vm.entries[newId := Entry(upage, NULL, 0, false, false)],
                  spt := vm.spt[upage := newId]))
  }

  /**
   * The tail of `frame_get_stack_page`: look up the entry for `upage`
   * (`page_get_entry`); without one, give `kpage` back to the pool
   * (`palloc_free_page`) and return NULL, leaving the table alone; with one,
   * make it the owner of `kpage` and return `kpage`, changing nothing else.
   */
  function InstallStackFrame(vm: Vm, kpage: Addr, upage: Addr): (r: Step<Addr>)
    requires WellFormed(vm) && IsUserFrame(vm.ram, kpage)
    ensures r.Ok?
    ensures upage !in vm.spt ==> r.value == NULL && r.vm == vm.(pool := vm.pool + {kpage})
    ensures upage in vm.spt ==>
              var e := vm.spt[upage];
              && r.value == kpage
              && Index(vm.ram, kpage) < |r.vm.table| == |vm.table|
              && r.vm.table[Index(vm.ram, kpage)] == Frame(kpage, Some(e))
              && (forall j :: 0 <= j < |vm.table| && j != Index(vm.ram, kpage) ==>
                    r.vm.table[j] == vm.table[j])
              && e in r.vm.entries
              && r.vm.entries[e].physPage == kpage && r.vm.entries[e].inFrame
              && r.vm.pool == vm.pool && r.vm.pagedir == vm.pagedir
              && r.vm.entries.Keys == vm.entries.Keys
              && e in vm.entries
              && r.vm.entries[e].upage == vm.entries[e].upage
              && r.vm.entries[e].swapIndex == vm.entries[e].swapIndex
              && r.vm.entries[e].inSwap == vm.entries[e].inSwap
              && (forall id :: id in vm.entries && id != e ==> r.vm.entries[id] == vm.entries[id])
              && r.vm.(table := vm.table, entries := vm.entries) == vm
  {
    if upage !in vm.spt then Ok(vm.(pool := vm.pool + {kpage}), NULL)
    else Ok(Assign(vm, kpage, vm.spt[upage]), kpage)
  }

  /**
   * `frame_get_stack_page`: a frame for the page holding `vaddr`, owned by a
   * new supplemental entry `newId`.  It halts when eviction finds a dirty
   * victim and no swap slot, or when the page already has an entry.
   */
  function GetStackPage(vm: Vm, vaddr: Addr, newId: EntryId): (r: Step<Addr>)
    requires WellFormed(vm) && newId !in vm.entries && (vm.pool == {} ==> CanEvict(vm))
    ensures r.Halt? <==>
              || (vm.pool == {} && vm.dirty[Victim(vm.accessed, vm.hand)] && vm.swapFree == {})
              || RoundDown(vaddr) in vm.spt
    ensures r.Ok? ==> r.value != NULL
  {
    var a := AcquireFrame(vm);
    if a.Halt? then Halt(a.why)
    else
      AcquireWellFormed(vm);
      CreateStackPage(a.vm, a.value, RoundDown(vaddr), newId)
  }

  /**
   * After `frame_get_stack_page`, the new entry is for `vaddr` rounded down,
   * is in a frame at the returned frame and owns that frame's slot, and the
   * supplemental table maps the page to it.  Relative to the state after the
   * frame was obtained, nothing else changes: no other slot, no existing
   * entry, no other supplemental-table key, and no field outside the table,
   * the entries and the supplemental table; in particular no mapping is
   * installed.
   */
  lemma GetStackPageEffects(vm: Vm, vaddr: Addr, newId: EntryId)
    requires WellFormed(vm) && newId !in vm.entries && (vm.pool == {} ==> CanEvict(vm))
    requires GetStackPage(vm, vaddr, newId).Ok?
    ensures var r := GetStackPage(vm, vaddr, newId);
            var a := AcquireFrame(vm);
            && a.Ok? && r.value == a.value
            && Index(vm.ram, r.value) < |r.vm.table| == |vm.table|
            && r.vm.table[Index(vm.ram, r.value)] == Frame(r.value, Some(newId))
            && (forall j :: 0 <= j < |vm.table| && j != Index(vm.ram, r.value) ==>
                  r.vm.table[j] == a.vm.table[j])
            && newId in r.vm.entries
            && r.vm.entries[newId].upage == RoundDown(vaddr)
            && r.vm.entries[newId].physPage == r.value
            && r.vm.entries[newId].inFrame
            && RoundDown(vaddr) in r.vm.spt && r.vm.spt[RoundDown(vaddr)] == newId
            && r.vm.pagedir == a.vm.pagedir
            && r.vm.pool == a.vm.pool
            && !r.vm.entries[newId].inSwap
            && r.vm.entries.Keys == a.vm.entries.Keys + {newId}
            && (forall id :: id in a.vm.entries ==> r.vm.entries[id] == a.vm.entries[id])
            && r.vm.spt == a.vm.spt[RoundDown(vaddr) := newId]
            && r.vm.(table := a.vm.table, entries := a.vm.entries, spt := a.vm.spt) == a.vm
  {
    var a := AcquireFrame(vm);
    AcquireWellFormed(vm);
    assert GetStackPage(vm, vaddr, newId) == CreateStackPage(a.vm, a.value, RoundDown(vaddr), newId);
  }

  /**
   * The part of `frame_get_stack_page` after a frame is obtained: enter a
   * new entry for `upage` with `page_insert_entry_stack` (a failed insertion
   * is a failed ASSERT), then look it up and give it `kpage`.
   */
  function CreateStackPage(vm: Vm, kpage: Addr, upage: Addr, newId: EntryId): (r: Step<Addr>)
    requires WellFormed(vm) && IsUserFrame(vm.ram, kpage) && newId !in vm.entries
    ensures r.Halt? <==> upage in vm.spt
    ensures r.Halt? ==> r.why == StackEntryExists
    ensures r.Ok? ==>
              && r.value == kpage
              && Index(vm.ram, kpage) < |r.vm.table| == |vm.table|
              && r.vm.table[Index(vm.ram, kpage)] == Frame(kpage, Some(newId))
              && (forall j :: 0 <= j < |vm.table| && j != Index(vm.ram, kpage) ==>
                    r.vm.table[j] == vm.table[j])
              && newId in r.vm.entries
              && r.vm.entries[newId].upage == upage
              && r.vm.entries[newId].physPage == kpage
              && r.vm.entries[newId].inFrame
              && upage in r.vm.spt && r.vm.spt[upage] == newId
              && r.vm.pagedir == vm.pagedir
              && r.vm.pool == vm.pool
              && !r.vm.entries[newId].inSwap
              && r.vm.entries.Keys == vm.entries.Keys + {newId}
              && (forall id :: id in vm.entries ==> r.vm.entries[id] == vm.entries[id])
              && r.vm.spt == vm.spt[upage := newId]
              && r.vm.(table := vm.table, entries := vm.entries, spt := vm.spt) == vm
  {
    var ins := InsertStackEntry(vm, upage, newId);
    if ins.None? then Halt(StackEntryExists)
    else InstallStackFrame(ins.value, kpage, upage)
  }

  /** Growing the stack keeps the state valid. */
  lemma GetStackPagePreservesValid(vm: Vm, vaddr: Addr, newId: EntryId)
    requires Valid(vm) && newId !in vm.entries && (vm.pool == {} ==> CanEvict(vm))
    requires GetStackPage(vm, vaddr, newId).Ok?
    ensures Valid(GetStackPage(vm, vaddr, newId).vm)
  {
    var a := AcquireFrame(vm);
    AcquireWellFormed(vm);
    AcquirePreservesValid(vm);
    var vm2 := InsertStackEntry(a.vm, RoundDown(vaddr), newId).value;
    assert GetStackPage(vm, vaddr, newId) == InstallStackFrame(vm2, a.value, RoundDown(vaddr));
    assert Valid(vm2);
    AssignPreservesValid(vm2, a.value, newId);
  }

  /** Handing a detached frame back to the pool keeps the state valid. */
  lemma ReleasePreservesValid(vm: Vm, kpage: Addr, upage: Addr)
    requires Valid(vm) && IsUserFrame(vm.ram, kpage) && Detached(vm, Index(vm.ram, kpage))
    requires upage !in vm.spt
    ensures Valid(InstallStackFrame(vm, kpage, upage).vm)
    ensures kpage in InstallStackFrame(vm, kpage, upage).vm.pool
  {
    UserFrameRoundTrip(vm.ram, kpage);
    var r := InstallStackFrame(vm, kpage, upage).vm;
    forall i | Owned(r, i)
      ensures r.table[i].page != kpage
    {
      if i != Index(vm.ram, kpage) {
        SlotRoundTrip(vm.ram, i, 0);
      }
    }
  }
}
