# Frame table and clock eviction — a Dafny model

This project models the physical frame manager of a Pintos-style virtual
memory system (`src/vm/frame.c`).

- A fixed **frame table** has one slot per allocatable user frame. Each slot
  records the frame's kernel address (`page`) and the supplemental page
  entry that owns it (`page_dir_entry`).
- Two **allocation entry points** hand out frames:
  - `frame_get_page` serves a page that already has an entry.
  - `frame_get_stack_page` serves a new stack page.
  Both take a free frame from the user pool. When the pool is empty they
  evict.
- **Eviction** (`frame_evict_page`) runs the clock, or second-chance,
  algorithm. It uses a clock hand that persists between calls:
  - A slot whose accessed bit is set has the bit cleared and is skipped.
  - The first slot with a clear bit is the victim.
  - A dirty victim is written to a new swap slot.
  - The victim is unlinked from its owner, and its frame is returned.

The model is a value-level state machine. `State.Vm` holds the frame table
and the clock hand. It also holds what the frame manager sees of its
collaborators:
- the user pool's free frames, as a set;
- the supplemental entries, as a map from entry identity (a pointer) to
  record;
- the current thread's supplemental table and page directory, as maps;
- one accessed bit and one dirty bit per slot;
- the swap store, as its free slots plus what was written to each slot.

Each operation is a function from state to `Step` (a new state and a value,
or a kernel halt). Eviction also exists as the source's `while` loop
(`Clock.EvictLoop`), proved equal to the reference function
(`Clock.Evict`). `State.Valid` is the consistency invariant, and every
operation is proved to preserve it:
- an owned slot's entry is in a frame, that frame, and the frame is not
  free;
- an entry that is in a frame owns that frame's slot.

Modules: `Support` (Option, least element, the bitmap allocators' first-free scan), `Layout` (page size, `ptov`,
table sizing, the `index` macro), `State`, `Table` (initialisation, owner
assignment, `frame_clear_page`), `Clock` (eviction), `Alloc` (the two entry
points).

## Model

| member | source | states |
|---|---|---|
| Layout.FreePages | src/vm/frame.c:52-54 | the pointer difference between the end of RAM and the 1 MB mark, in pages, is the RAM size minus the 256 pages below 1 MB |
| Layout.UserPages | src/vm/frame.c:55 | the table has `free_pages/2 - 1` slots; with fewer than two free pages the `size_t` subtraction wraps to 2^32 - 1 |
| Layout.Index | src/vm/frame.c:33-34 | the slot number of an address at or above 1 MB is its page number above 1 MB less `free_pages/2 + 1`, using the same `free_pages` that sizes the table, reduced modulo 2^32 by the `uint32_t` it is stored in |
| Layout.IndexOfPageOffset | src/vm/frame.c:33-34 | every byte of the page `p` pages above 1 MB maps to slot `p - free_pages/2 - 1` |
| Layout.SlotRoundTrip | src/vm/frame.c:33-34 | slot `i`'s frame address, and every byte inside that frame, indexes back to `i` |
| Layout.UserFrameRoundTrip | src/vm/frame.c:33-34 | a page-aligned user frame indexes to an in-range slot whose address is that frame |
| Layout.IndexConsecutive | src/vm/frame.c:33-34 | consecutive page-aligned user frames land in consecutive slots |
| Layout.IndexInjective | src/vm/frame.c:33-34 | two user frames with the same slot number are the same frame |
| Table.InitFrameTable | src/vm/frame.c:57 | the table has `user_pages` slots, each with a NULL page and no owner |
| Table.InitValid | src/vm/frame.c:50-59 | a fresh table is consistent with any set of entries none of which is in a frame |
| State.OwnedPagesDistinct | src/vm/frame.c:78-79 | two owned slots never hold the same frame |
| State.OwnersUnique | src/vm/frame.c:78-79 | in a valid state no entry owns two slots |
| Table.Assign | src/vm/frame.c:78-81 | the slot at `index(page)` now records `page` and owner `e`; `e` records `page` and is in a frame; every other slot and entry is unchanged |
| Table.AssignPreservesValid | src/vm/frame.c:78-81 | giving a detached frame to an entry that is not in a frame keeps the state valid |
| Table.ClearPage | src/vm/frame.c:136-144 | exactly three changes: the owner loses its in-frame flag, its user page is unmapped, and the slot loses its owner; the slot keeps its `page` |
| Table.ClearPagePreservesValid | src/vm/frame.c:136-144 | unlinking an owned slot keeps the state valid; its frame is then neither owned nor free |
| Clock.FirstClear | src/vm/frame.c:159-174 | the scan passes only slots whose accessed bit is set and stops at the first clear one; it passes at most `user_pages` slots |
| Clock.VictimSecondChance | src/vm/frame.c:169-174 | a slot with its accessed bit set is chosen only when every bit was set, and then it is the hand's own slot after a full revolution; every skipped slot had its bit set; at most `user_pages + 1` slots are inspected; the victim's bit is clear when it is chosen |
| Clock.ClearRangeStep | src/vm/frame.c:169-173 | skipping a slot clears exactly that slot's accessed bit |
| Clock.PosStep | src/vm/frame.c:173 | `(clock_hand + 1) % user_pages` is the next slot in clock order, so the hand stays in `[0, user_pages)` |
| Clock.SwapOut | src/vm/frame.c:178-188 | a dirty victim gets a slot that was free and is now taken; its frame is written there; the owner records the slot and is marked in swap; a clean victim changes nothing; swap exhaustion halts the kernel |
| Clock.SwapOutPreservesValid | src/vm/frame.c:178-188 | the swap-out changes no field that `State.Valid` mentions, so the state stays valid |
| Clock.Reclaim | src/vm/frame.c:177-199 | reclaiming halts exactly when the victim is dirty and swap is full; otherwise it returns the victim's frame and leaves the hand one past it |
| Clock.Evict | src/vm/frame.c:148-203 | for a table whose passed slots all hold frames, it halts exactly when the victim is dirty and swap is full, and then for lack of swap; otherwise it returns the victim's page, which is not NULL, and leaves the hand one past the victim |
| Clock.EvictEffects | src/vm/frame.c:157-202 | only the victim's owner link changes; skipped bits are cleared and no other bit changes; the evicting thread's mapping of the owner's user page is gone; a dirty victim takes one free swap slot, which its entry records and the swap map sends to the frame; a clean victim keeps its swap fields; the pool, dirty bits and supplemental table do not change |
| Clock.EvictLoop | src/vm/frame.c:157-202 | the source's scanning loop always ends, after at most `user_pages + 1` inspections, with exactly the result of `Clock.Evict` |
| Clock.EvictPreservesValid | src/vm/frame.c:196-199 | eviction keeps the state valid; the returned frame is the victim slot's frame and is neither owned nor free afterwards |
| Clock.FullRevolution | src/vm/frame.c:159-174 | four slots all accessed, hand at 0: one revolution clears every bit, slot 0 is the victim, and the hand ends at 1 |
| Alloc.AcquireFrame | src/vm/frame.c:66-73 | a non-empty pool supplies one of its own frames and loses it; an empty pool leads to eviction, and the frame acquisition fails exactly when eviction meets a dirty victim with swap full |
| Alloc.AcquireWellFormed | src/vm/frame.c:66-73 | the frame obtained is a non-NULL user frame; a non-empty pool loses only that frame; the supplemental table and the set of entries do not change; the state keeps its shape |
| Alloc.AcquirePreservesValid | src/vm/frame.c:66-73 | the frame obtained is detached, neither owned nor free, and the state stays valid |
| Alloc.InstallPage | src/vm/frame.c:75-82 | the slot at `index(page)` records the page and the entry; the entry is in a frame at that page and keeps its user page and swap fields; no other slot or entry changes; the result is that of installing the mapping, and the mapping exists exactly when installation succeeds |
| Alloc.GetPage | src/vm/frame.c:62-83 | `frame_get_page` halts exactly when eviction meets a dirty victim with swap full; otherwise its result is whether the mapping could be installed |
| Alloc.GetPageEffects | src/vm/frame.c:62-83 | after `frame_get_page` the acquired frame's slot is owned by the entry; the entry is in a frame there and keeps its swap fields; the mapping exists exactly when installation succeeded; compared with the state after the frame was obtained, no other slot or entry changes and nothing outside the table, the entries and the page directory changes |
| Alloc.GetPagePreservesValid | src/vm/frame.c:62-83 | loading a page whose entry is not in a frame keeps the state valid |
| Alloc.RoundDown | src/vm/frame.c:96 | the result is page-aligned, at most `vaddr`, and within one page of it |
| Alloc.InsertStackEntry | src/vm/frame.c:114 | insertion fails exactly when the page already has an entry; otherwise the new entry is for that page and is neither in a frame nor in swap, the supplemental table gains exactly that key, and no existing entry changes |
| Alloc.InstallStackFrame | src/vm/frame.c:116-131 | a failed lookup gives the frame back to the pool, returns NULL and changes nothing else; a successful one makes the entry own the frame and be in a frame there, keeping its user page and swap fields, returns the frame, and changes no other slot, no other entry and nothing outside the table and the entries |
| Alloc.CreateStackPage | src/vm/frame.c:109-131 | it halts exactly when the page already has an entry; otherwise the new entry owns the frame and is in a frame there, the supplemental table gains exactly the new page, no existing entry or other slot changes, and the page directory and pool are unchanged |
| Alloc.GetStackPage | src/vm/frame.c:92-132 | the kernel halts exactly on swap exhaustion during eviction or when the page already has an entry; otherwise the returned frame is not NULL |
| Alloc.GetStackPageEffects | src/vm/frame.c:92-132 | the new entry is for `vaddr` rounded down, is in a frame at the returned frame and owns its slot; the supplemental table gains exactly that page; compared with the state after the frame was obtained, no existing entry or other slot changes, and nothing outside the table, the entries and the supplemental table changes, so no mapping is installed |
| Alloc.GetStackPagePreservesValid | src/vm/frame.c:92-132 | stack growth keeps the state valid |
| Alloc.ReleasePreservesValid | src/vm/frame.c:119-123 | giving a detached frame back to the pool keeps the state valid, and the frame is free again |

## Left out

- `frame_lock` (src/vm/frame.c:102-104) is left out. Each operation is one atomic step of a single thread, so the lock has nothing to do. For the same reason, nothing but eviction changes an accessed bit while eviction runs.
- The raw allocator (`palloc_get_page`, `palloc_free_page`) is not part of this model. It becomes a set of free user frames, and allocation takes the least one; no contract depends on that choice. Zero-filling (`PAL_ZERO`) is not modelled, because frame contents are not modelled; note that when `frame_get_stack_page` falls back to eviction (src/vm/frame.c:100-107) the frame it returns still holds the victim's data, since only the pool path zeroes it.
- Page-directory internals are not part of this model. There is one page directory, the current thread's, as a map from user page to frame and writability. Eviction unmaps the victim's user page in that directory only (src/vm/frame.c:142, 157, 197); when the victim's entry belongs to another process, that process's mapping survives in the source and still points at the reclaimed frame, which the single-directory model cannot show. The hardware bits are one accessed and one dirty boolean per slot. The source reads them through the evicting thread's page directory and the frame's kernel address; that indirection is not modelled.
- `pagedir_set_page` failure is a parameter (`ptAvailable`). It stands for whether a page-table page could be allocated.
- `swap_acquire` and `swap_write` are not part of this model. The swap store is its set of free slots (the least one is taken) plus a record of which frame was written to which slot. The data itself is not moved.
- `page_insert_entry_stack` and `page_get_entry` are not part of this model. Insertion creates entry `newId` for the page, with no frame and no swap slot, unless the page already has an entry. The caller supplies `newId`, which must be unused. The lookup is a map lookup.
- `PANIC` (out of swap) and the failed `ASSERT` around the stack-entry insertion become the `Halt` outcome. Other `ASSERT`s inside collaborators are not modelled.
- `frame_get_multiple` is declared in this file but defined elsewhere; it is not part of this model.
- The `if (!page)` checks after eviction (src/vm/frame.c:71-72, 105-106) have no branch in the model. They can never fire, because the eviction loop only exits with a non-NULL frame.
- Clock.Evict requires an owned victim slot with a non-NULL page. This states the null check that is commented out (src/vm/frame.c:161-166). Only the victim's owner is dereferenced, so only the victim needs one. `State.Valid` gives every owned slot a non-NULL page. It also requires every slot the hand passes to hold a frame (`Clock.PassedPage`): the source reads the accessed bit through the slot's `page` (src/vm/frame.c:169, 172), so slots never assigned a frame (page NULL) would all read and clear one shared bit, and the scan could stop at an unowned slot and dereference its NULL owner (src/vm/frame.c:138). That aliasing is not modelled.
- Layout.FreePages requires at least 1 MB of RAM, and RAM no larger than the kernel's 1 GB direct map (`PHYS_BASE` to the top of the 32-bit address space). With less memory the C pointer difference would be negative. With more, `ptov` would wrap past 2^32 and, from 2 GB on, the pointer difference and the `int` subtractions in `index` would overflow; those sizes are not modelled.
- Addresses are naturals. Within the 1 GB direct map, the `(int)` casts in `index` subtract two kernel addresses in the same half of the address space, so the mathematical difference is exact. The slot number's conversion to `uint32_t` is written out.
- Table.InitFrameTable assumes `calloc` succeeds; the source never checks its result (src/vm/frame.c:57). With 256 or 257 pages of RAM the wrapped count 2^32 - 1 cannot be allocated, so the source's `frame_table` would be NULL there, while the model promises a table of that many empty slots.
- The user pool is assumed to be exactly the frames of slots `0 .. user_pages - 1`, starting `free_pages/2 + 1` pages above 1 MB (`State.WellFormed` requires every free frame to be such a frame). The source relies on this without checking it: only then does `frame_table[index]` stay in bounds (src/vm/frame.c:78, 126). How the allocator splits its pools is not part of this model.
- Three behaviours of the code that callers may not expect; the model follows the code in each:
  - `frame_get_page` does not give the frame back when installing the mapping fails (src/vm/frame.c:82). The slot stays owned, and the entry stays marked in-frame.
  - `frame_get_stack_page` installs no page-directory mapping.
  - An unowned slot is not skipped during eviction, so the model requires the victim to be owned.
