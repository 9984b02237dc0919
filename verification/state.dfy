/**
 * The state the frame manager reads and writes.  The frame table and the
 * clock hand are its own; everything else belongs to collaborators and is
 * reduced to what the frame manager observes of them:
 *   - the raw user-page allocator is the set of free user frames;
 *   - supplemental page entries live in an arena keyed by `EntryId` (a
 *     pointer), and the current thread's supplemental table maps user pages
 *     to entries;
 *   - the current thread's page directory maps user pages to frames, and
 *     the hardware accessed/dirty bits are one boolean per table slot;
 *   - the swap store is its set of free slots plus what has been written.
 */
module State {
  import opened Support
  import opened Layout

  type Addr = nat
  /** Identity of a supplemental page entry (a `page_entry *`). */
  type EntryId = nat

  const NULL: Addr := 0

  /** Supplemental page entry: the fields the frame manager touches. */
  datatype Entry = Entry(
    upage: Addr,       // user virtual page it describes
    physPage: Addr,    // frame holding it, meaningful while inFrame
    swapIndex: nat,    // swap slot holding it, meaningful while inSwap
    inFrame: bool,
    inSwap: bool)

  /** One frame-table slot (`frame_entry`); `owner` is `page_dir_entry`. */
  datatype Frame = Frame(page: Addr, owner: Option<EntryId>)

  /** A page-directory mapping of a user page. */
  datatype Pte = Pte(frame: Addr, writable: bool)

  datatype Vm = Vm(
    ram: nat,                      // init_ram_pages
    table: seq<Frame>,             // frame_table, user_pages slots
    hand: nat,                     // clock_hand
    pool: set<Addr>,               // free frames of the user pool
    entries: map<EntryId, Entry>,  // supplemental page entries
    spt: map<Addr, EntryId>,       // current thread's supplemental table
    pagedir: map<Addr, Pte>,       // current thread's page directory
    accessed: seq<bool>,           // accessed bit of each slot's page
    dirty: seq<bool>,              // dirty bit of each slot's page
    swapFree: set<nat>,            // free swap slots
    swapped: map<nat, Addr>)       // swap slot -> frame last written to it

  /** Conditions under which the kernel stops (PANIC or a failed ASSERT). */
  datatype Fatal = OutOfSwap | StackEntryExists

  /** Outcome of an operation: the new state and a value, or a kernel halt. */
  datatype Step<T> = Ok(vm: Vm, value: T) | Halt(why: Fatal)

  predicate Owned(vm: Vm, i: int) {
    0 <= i < |vm.table| && vm.table[i].owner.Some?
  }

  /** Shape of the state: sizes agree and every pointer points somewhere. */
  ghost predicate WellFormed(vm: Vm) {
    && Platform(vm.ram)
    && |vm.table| == UserPages(vm.ram)
    && |vm.accessed| == |vm.table|
    && |vm.dirty| == |vm.table|
    && (vm.hand == 0 || vm.hand < |vm.table|)
    && (forall p :: p in vm.pool ==> IsUserFrame(vm.ram, p))
    && (forall i :: Owned(vm, i) ==>
          vm.table[i].owner.value in vm.entries && vm.table[i].page == SlotAddr(vm.ram, i))
    && (forall u :: u in vm.spt ==> vm.spt[u] in vm.entries)
  }

  /**
   * The frame table and the entries agree: an owned slot's entry is in a
   * frame, that frame, and not free; an entry in a frame owns that frame's slot.
   */
  ghost predicate Consistent(vm: Vm)
    requires WellFormed(vm)
  {
    && (forall i :: Owned(vm, i) ==>
          var e := vm.entries[vm.table[i].owner.value];
          e.inFrame && e.physPage == vm.table[i].page && vm.table[i].page !in vm.pool)
    && (forall id :: id in vm.entries && vm.entries[id].inFrame ==>
          && IsUserFrame(vm.ram, vm.entries[id].physPage)
          && Index(vm.ram, vm.entries[id].physPage) < |vm.table|
          && vm.table[Index(vm.ram, vm.entries[id].physPage)].owner == Some(id))
  }

  ghost predicate Valid(vm: Vm) {
    WellFormed(vm) && Consistent(vm)
  }

  /** Slot `i`'s frame is neither owned nor free: it is in the caller's hands. */
  ghost predicate Detached(vm: Vm, i: nat)
    requires WellFormed(vm)
  {
    i < |vm.table| && !Owned(vm, i) && SlotAddr(vm.ram, i) !in vm.pool
  }

  /**
   * `pagedir_set_page`: maps `upage` to `kpage`, failing (and changing
   * nothing) when no page-table page can be allocated.
   */
  function PagedirSetPage(pd: map<Addr, Pte>, upage: Addr, kpage: Addr, writable: bool,
                          ptAvailable: bool): (r: (map<Addr, Pte>, bool))
    ensures r.1 == ptAvailable
    ensures r.1 ==> upage in r.0 && r.0[upage] == Pte(kpage, writable)
    ensures forall u :: u != upage ==> (u in r.0 <==> u in pd)
    ensures forall u :: u in pd && u != upage ==> r.0[u] == pd[u]
    ensures !r.1 ==> r.0 == pd
  {
    if ptAvailable then (pd[upage := Pte(kpage, writable)], true) else (pd, false)
  }

  /** Owned slots hold distinct frames, since each holds its own slot's frame. */
  lemma OwnedPagesDistinct(vm: Vm, i: nat, j: nat)
    requires WellFormed(vm) && Owned(vm, i) && Owned(vm, j) && i != j
    ensures vm.table[i].page != vm.table[j].page
  {
  }

  /** No supplemental entry owns two slots. */
  lemma OwnersUnique(vm: Vm, i: nat, j: nat)
    requires Valid(vm) && Owned(vm, i) && Owned(vm, j) && i != j
    ensures vm.table[i].owner != vm.table[j].owner
  {
    if vm.table[i].owner == vm.table[j].owner {
      OwnedPagesDistinct(vm, i, j);
    }
  }
}
