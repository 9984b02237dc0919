/**
 * The frame table proper: its initialisation, recording a slot's owner, and
 * `frame_clear_page`, which unlinks a slot's owner.
 */
module Table {
  import opened Support
  import opened Layout
  import opened State

  /** `init_frame_table`: `user_pages` slots, zero-filled by `calloc`. */
  function InitFrameTable(ram: nat): (t: seq<Frame>)
    requires Platform(ram)
    ensures |t| == UserPages(ram)
    ensures forall i :: 0 <= i < |t| ==> t[i].page == NULL && t[i].owner.None?
  {
    seq(UserPages(ram), _ => Frame(NULL, None))
  }

  /** A freshly initialised table is consistent with any entries not yet in a frame. */
  lemma InitValid(vm: Vm)
    requires Platform(vm.ram)
    requires vm.table == InitFrameTable(vm.ram) && vm.hand == 0
    requires |vm.accessed| == |vm.table| && |vm.dirty| == |vm.table|
    requires forall p :: p in vm.pool ==> IsUserFrame(vm.ram, p)
    requires forall u :: u in vm.spt ==> vm.spt[u] in vm.entries
    requires forall id :: id in vm.entries ==> !vm.entries[id].inFrame
    ensures Valid(vm)
  {
  }

  /**
   * The four assignments, shared by `frame_get_page` and
   * `frame_get_stack_page`, that make a slot point at its new owner: the slot
   * at `index(page)` records `page` and entry `e`, and `e` records `page` and
   * is marked in-frame.
   */
  function Assign(vm: Vm, page: Addr, e: EntryId): (r: Vm)
    requires WellFormed(vm) && IsUserFrame(vm.ram, page) && e in vm.entries
    ensures Index(vm.ram, page) < |vm.table| == |r.table|
    ensures r.table[Index(vm.ram, page)] == Frame(page, Some(e))
    ensures forall j :: 0 <= j < |vm.table| && j != Index(vm.ram, page) ==> r.table[j] == vm.table[j]
    ensures r.entries.Keys == vm.entries.Keys
    ensures r.entries[e].physPage == page && r.entries[e].inFrame
    ensures r.entries[e].upage == vm.entries[e].upage
    ensures r.entries[e].swapIndex == vm.entries[e].swapIndex
    ensures r.entries[e].inSwap == vm.entries[e].inSwap
    ensures forall id :: id in vm.entries && id != e ==> r.entries[id] == vm.entries[id]
    ensures r.(table := vm.table, entries := vm.entries) == vm
  {
    UserFrameRoundTrip(vm.ram, page);
    var i := Index(vm.ram, page);
    vm.(table := vm.table[i := Frame(page, Some(e))],
        entries := vm.entries[e := vm.entries[e].(physPage := page, inFrame := true)])
  }

  /**
   * `frame_clear_page`: the owner is marked not in a frame, its user page is
   * unmapped, and the slot forgets its owner.  The slot keeps its `page`.
   */
  function ClearPage(vm: Vm, i: nat): (r: Vm)
    requires i < |vm.table| && vm.table[i].owner.Some? && vm.table[i].owner.value in vm.entries
    ensures |r.table| == |vm.table|
    ensures r.table[i].owner.None? && r.table[i].page == vm.table[i].page
    ensures forall j :: 0 <= j < |vm.table| && j != i ==> r.table[j] == vm.table[j]
    ensures var e := vm.table[i].owner.value;
            && r.entries.Keys == vm.entries.Keys
            && !r.entries[e].inFrame
            && r.entries[e].upage == vm.entries[e].upage
            && r.entries[e].physPage == vm.entries[e].physPage
            && r.entries[e].swapIndex == vm.entries[e].swapIndex
            && r.entries[e].inSwap == vm.entries[e].inSwap
            && (forall id :: id in vm.entries && id != e ==> r.entries[id] == vm.entries[id])
    ensures var u := vm.entries[vm.table[i].owner.value].upage;
            && u !in r.pagedir
            && (forall v :: v != u ==> (v in r.pagedir <==> v in vm.pagedir))
            && (forall v :: v in vm.pagedir && v != u ==> r.pagedir[v] == vm.pagedir[v])
    ensures r.(table := vm.table, entries := vm.entries, pagedir := vm.pagedir) == vm
  {
    var e := vm.table[i].owner.value;
    var entries := vm.entries[e := vm.entries[e].(inFrame := false)];
    var pagedir := vm.pagedir - {vm.entries[e].upage};
    vm.(entries := entries, pagedir := pagedir,
        table := vm.table[i := vm.table[i].(owner := None)])
  }

  /** Giving a detached frame to an entry that is not in a frame keeps the state valid. */
  lemma AssignPreservesValid(vm: Vm, page: Addr, e: EntryId)
    requires Valid(vm) && IsUserFrame(vm.ram, page) && page !in vm.pool
    requires e in vm.entries && !vm.entries[e].inFrame
    requires !Owned(vm, Index(vm.ram, page))
    ensures Valid(Assign(vm, page, e))
  {
    UserFrameRoundTrip(vm.ram, page);
    var r := Assign(vm, page, e);
    var k := Index(vm.ram, page);
    forall i | Owned(r, i)
      ensures r.table[i].owner.value in r.entries && r.table[i].page == SlotAddr(r.ram, i)
    {
    }
    assert WellFormed(r);
    forall i | Owned(r, i)
      ensures var x := r.entries[r.table[i].owner.value];
              x.inFrame && x.physPage == r.table[i].page && r.table[i].page !in r.pool
    {
      if i != k {
        assert vm.table[i].owner.value != e;
      }
    }
    forall id | id in r.entries && r.entries[id].inFrame
      ensures && IsUserFrame(r.ram, r.entries[id].physPage)
              && Index(r.ram, r.entries[id].physPage) < |r.table|
              && r.table[Index(r.ram, r.entries[id].physPage)].owner == Some(id)
    {
    }
  }

  /** Unlinking an owned slot keeps the state valid and leaves its frame detached. */
  lemma ClearPagePreservesValid(vm: Vm, i: nat)
    requires Valid(vm) && Owned(vm, i)
    ensures Valid(ClearPage(vm, i))
    ensures Detached(ClearPage(vm, i), i)
  {
    var r := ClearPage(vm, i);
    var e := vm.table[i].owner.value;
    assert WellFormed(r);
    forall id | id in r.entries && r.entries[id].inFrame
      ensures && IsUserFrame(r.ram, r.entries[id].physPage)
              && Index(r.ram, r.entries[id].physPage) < |r.table|
              && r.table[Index(r.ram, r.entries[id].physPage)].owner == Some(id)
    {
      assert id != e;
    }
  }
}
