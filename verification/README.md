# Verified model of the dlutos kernel's memory, runtime and storage core

This project models the state-changing core of dlutos, a RISC-V kernel written in Rust, and proves
what its parts keep over every call, every run and every interleaving. Each part is stated against a
simple reference: a map from addresses, a flat byte memory with eager copying, a tiling of page
frames, root walks of a page table, a flat byte file, a flat byte device, a first-in first-out queue.

| files | part of the kernel | reference it is proved against |
|---|---|---|
| `AddrRange`, `MMArea`, `AreaList` | memory areas: comparison, split, unmap, protect, search for room | a map from address to permission, sharing and file offset |
| `CowMemory`, `FlatMemory`, `FlatLaws`, `AddressSpace`, `MMList`, `MMRun`, `MMLaws` | entries, frames and counts; map, fork, unmap, protect, faults, reads and writes of private anonymous memory | one flat byte memory per process, copied eagerly on fork |
| `PageTable` | the iterator over leaf entries | repeated walks from the root |
| `IntrusiveList`, `Bits`, `Tiling`, `BuddyView`, `BuddyTight`, `BuddyCover`, `Buddy` | linked lists, buddy zone | a tiling of the created frames by aligned blocks |
| `PageAlloc` | per-CPU caches and `Page` handles over the zone | one place per block, count = live handles |
| `Slab` | slab caches and size classes | a set of live, non-overlapping slots |
| `Runtime`, `Progress`, `Timer` | task scheduler and wakes; sleepers and the timer interrupt | invariants and queues over all interleavings |
| `PageCache` | page cache over tmpfs | a flat byte file |
| `FileArray` | descriptor allocation | the least unused descriptor (section 2.14 of POSIX.1-2017, System Interfaces) |
| `Block` | byte transfers over sectors | a flat byte device |

Objects that the kernel updates in place are classes whose ghost fields carry the reference; the
reasoning sits in lemmas about values. The scheduler and the timer are transition systems with one
step per atomic access or lock section; a wake's state update and its later queue insertion are
separate steps.

## Where the code falls short of the simple statement

Each of these comes with the exact condition under which the simple statement holds, and with a
concrete input for which it does not.

- The range comparison orders a set of ranges exactly when no two of them share a start, share an end
  while both are non-empty, or lie strictly one inside the other (`AddrRange.CmpIsOrderExactly`,
  `AddrRange.CmpIsNoOrderInGeneral`); so an empty range clashes with its right neighbour.
- `protect` leaves entries that unmap and fork still recognise as pages exactly when the permission
  allows reading or executing (`CowMemory.ProtectIsSafeExactlyWhenReadable`). A write-only protection
  of a copy-on-write page leaves none of the three bits set.
- An anonymous page is entered as readable whatever its permission, so a user load is answered as its
  area demands exactly unless the entry is readable and the area is not (`MMList.Kernel.UserLoad`,
  `MMList.LoadUnreadable`).
- The page-table iterator advances before it returns, so it panics on the last page its levels tell
  apart instead of yielding it (`PageTable.Collect`, `PageTable.Iterate`, `PageTable.LastPagePanics`),
  and it also allocates the tables of the page after the range. No range of canonical addresses reaches
  that page (`PageTable.CanonicalRangesEnd`).
- `create_pages` never stores a block's order. Coalescing still never goes wrong
  (`BuddyView.BuddyMatches`); it misses exactly the free buddies of an order above 0 that were never handed
  out (`BuddyView.CheckExact`). Creating a range leaves no two free buddies exactly under the condition of
  `BuddyCover.CreatedExactly`, and exactly under that of `BuddyCover.TightExactly` it also keeps the zone tight,
  a state that allocating and freeing preserve and without which freeing alone can bring two free
  buddies about (`Buddy.Zone.FreeAround`). Two ranges side by side that fail both are in
  `BuddyCover.TouchingRanges`.
- A sleeper that registers after its tick was served is left behind until a later pop
  (`Timer.LateRegistration`, `Timer.PunctualExactlyWhenInTime`).
- The page cache, and what reads of it answer, departs from a flat file exactly for a write that skips
  a cached page, an empty write past the end or over an uncached last page, a shrink inside a page that
  holds data, and growth over a cached later page (`PageCache.TmpFile.Write`,
  `PageCache.TmpFile.Truncate`; runs in `PageCache.SkippingWrite`, `EmptyWrite`, `ShrinkInside`,
  `GrowOver`).
- Descriptor search wraps to 0 exactly when every descriptor from its start up is open
  (`FileArray.FirstGapIsLeast`, `FileArray.TopmostWraps`).
- The request limit of a block queue is named after pages but counts sectors
  (dlutos/src/kernel/block.rs:33-38), and transfers count whole pages as moved. Reads and writes are
  exact exactly for the limits of `Block.ReadExactly` and `Block.WriteExactly`; a limit of 20 fails in
  `Block.LimitTwenty`.

## Model

| member | source | states |
|---|---|---|
| `AddrRange.PageBoundaries` | dlutos/crates/dlutos_mm/src/address/addr.rs:41-66 | Floor and ceil are the nearest page boundaries below and above an address, and fix aligned ones |
| `AddrRange.MaskExact` | dlutos/crates/dlutos_mm/src/address/addr_range.rs:156-183 | Masking a non-empty range gives exactly its parts below, inside and above the mask, address by address, and None exactly when they share no address |
| `AddrRange.CmpIsTotalOrder` | dlutos/crates/dlutos_mm/src/address/addr_range.rs:43-77 | On pairwise disjoint non-empty ranges the comparison is a strict total order: Less is "lies before", Equal is identity |
| `AddrRange.CmpIsOrderExactly` | dlutos/crates/dlutos_mm/src/address/addr_range.rs:43-77 | A set of ranges, overlapping and empty ones included, is strictly and totally ordered with Equal as identity exactly when no two of its ranges share a start, share an end while both are non-empty, or lie strictly one inside the other |
| `AddrRange.CmpIsNoOrderInGeneral` | dlutos/crates/dlutos_mm/src/address/addr_range.rs:43-77 | Three ranges for which Equal is not transitive, and two overlapping ones that are ordered all the same |
| `AddrRange.EmptyRangeClashesWithNeighbour` | dlutos/crates/dlutos_mm/src/address/addr_range.rs:43-77 | An empty range compares Equal to the range that starts at its point although the two are disjoint |
| `AddrRange.PointSearch` | dlutos/src/kernel/mem/mm_list.rs:66-73 | In an ordered set, comparing with the point range at an address is Greater, then Equal exactly at the range that contains it, then Less |
| `AddrRange.RangeSearch` | dlutos/crates/dlutos_mm/src/address/addr_range.rs:123-133 | The bounds of a non-empty range select a contiguous slice, exactly the ranges that overlap it; those of an empty one select the range containing its point |
| `MMArea.SplitKeepsMeaning` | dlutos/src/kernel/mem/mm_area.rs:63-91 | Cutting strictly inside an area gives two valid areas that mean, at every address, what the area meant (permission, sharing, file and offset) |
| `MMArea.OutsideIsValid` | dlutos/src/kernel/mem/mm_list.rs:150-200 | What unmap keeps of a valid set of areas is again a set of disjoint, aligned, non-empty areas |
| `MMArea.OutsideIsPointwise` | dlutos/src/kernel/mem/mm_list.rs:150-200 | What unmap keeps means what the old set meant with the masked addresses taken out |
| `MMArea.ProtectedIsValid` | dlutos/src/kernel/mem/mm_list.rs:262-318 | The set protect builds is again disjoint, aligned and non-empty |
| `MMArea.ProtectedIsPointwise` | dlutos/src/kernel/mem/mm_list.rs:262-318 | The set protect builds differs only in the permission of the mapped addresses under the mask; file offsets stay |
| `AreaList.HitIsOverlap` | dlutos/src/kernel/mem/mm_list.rs:75-82 | The search selects an area exactly when it overlaps a non-empty range, or contains the point of an empty one |
| `AreaList.JumpSkipsNothing` | dlutos/src/kernel/mem/mm_list.rs:89-112 | No start below the end of an overlapping area is usable, so jumping past it skips nothing |
| `AreaList.FindAvailable` | dlutos/src/kernel/mem/mm_list.rs:89-112 | Exact first fit: the result is the least address at or above the floored hint where the rounded length fits; None means there is none; the loop terminates |
| `AreaList.Remains` | dlutos/src/kernel/mem/mm_list.rs:150-200 | The left and right remains exist exactly when the area sticks out on that side, and together are the area minus the mask |
| `AreaList.Visit` | dlutos/src/kernel/mem/mm_list.rs:150-200 | Visiting one area adds its unmasked pieces; the assertions that no remainder was there before follow from no earlier area having been cut at the same edge |
| `AreaList.CutOnce` | dlutos/src/kernel/mem/mm_list.rs:150-200 | At most one of a set of disjoint areas is cut by a given address |
| `AreaList.UnmapAreas` | dlutos/src/kernel/mem/mm_list.rs:132-214 | The pass over all areas keeps exactly the pieces outside the mask |
| `AreaList.Unmap` | dlutos/src/kernel/mem/mm_list.rs:132-214 | As a map from addresses, exactly [start, ceil(start+len)) is removed; EINVAL exactly outside user space |
| `AreaList.ProtectOne` | dlutos/src/kernel/mem/mm_list.rs:262-318 | The pieces of one area are those outside the mask and the masked middle with the new permission; no unreachable arm is reached |
| `AreaList.ProtectAreas` | dlutos/src/kernel/mem/mm_list.rs:248-324 | The pass builds the protected set, and reports whether anything mapped was found |
| `AreaList.Protect` | dlutos/src/kernel/mem/mm_list.rs:248-324 | Only the permission of mapped addresses in [start, ceil(start+len)) changes; EINVAL outside user space, ENOMEM exactly when nothing there is mapped |
| `CowMemory.SoleOwner` | dlutos/crates/dlutos_mm/src/paging/page.rs:216-219 | A frame with count one is named by one entry only, and is neither the empty page nor otherwise held |
| `CowMemory.DropKeeps` | dlutos/crates/dlutos_mm/src/paging/page.rs:279-296 | Dropping a handle keeps count = references for every frame and changes nothing any entry shows |
| `CowMemory.SetAnonymousKeeps` | dlutos/src/kernel/mem/mm_list.rs:913-923 | A new anonymous entry shows a zero page through the shared empty page, and nothing else changes |
| `CowMemory.ShareCowKeeps` | dlutos/src/kernel/mem/mm_list.rs:934-955 | Sharing copy-on-write makes the new entry show what the old one shows, and nothing else changes, with counts still exact |
| `CowMemory.HandleCowKeeps` | dlutos/src/kernel/mem/mm_area.rs:93-127 | Breaking the sharing changes no entry's content, keeps every count exact and leaves the entry the sole owner of its frame |
| `CowMemory.HandleKeeps` | dlutos/src/kernel/mem/mm_area.rs:211-232 | A fault on a private anonymous entry keeps the invariant and every entry's content |
| `CowMemory.HandleEntry` | dlutos/src/kernel/mem/mm_area.rs:211-232 | After a fault the entry is not copy-on-write, and a broken sharing is writable exactly as the area allows |
| `CowMemory.StoreKeeps` | dlutos/src/kernel/mem/mm_list.rs:777-849 | A store through an entry that is not copy-on-write is seen through that entry alone; the empty page is never written |
| `CowMemory.TakeKeeps` | dlutos/src/kernel/mem/mm_list.rs:116-130 | Taking an entry turns its reference into a held page without changing other entries |
| `CowMemory.ProtectIsSafeExactlyWhenReadable` | dlutos/src/kernel/mem/mm_list.rs:288-312 | Protecting leaves every entry, and its copy-on-write image, a present page exactly when the permission allows reading or executing |
| `CowMemory.ProtectedAllows` | dlutos/src/kernel/mem/mm_list.rs:288-312 | After a protection an entry allows exactly what the permission does, except that a copy-on-write entry is not writable yet; without any permission it is not present |
| `AddressSpace.TiedMmap` | dlutos/src/kernel/mem/mm_list.rs:326-356 | Filling a free range with anonymous entries yields the flat memory with zeroed pages there |
| `AddressSpace.TiedFork` | dlutos/src/kernel/mem/mm_list.rs:433-469 | Sharing every entry with the child yields the flat memory in which the child has its own copy of every page |
| `AddressSpace.TiedUnmap` | dlutos/src/kernel/mem/mm_list.rs:132-214 | Taking the entries in range yields the flat memory without those pages |
| `AddressSpace.TiedExit` | dlutos/src/kernel/mem/mm_list.rs:359-392 | Freeing an address space yields the flat memory without its pages, all others as before |
| `AddressSpace.TiedProtect` | dlutos/src/kernel/mem/mm_list.rs:248-324 | Rewriting entry attributes yields the flat memory with the new permission on those pages and unchanged bytes |
| `AddressSpace.SoundHandle` | dlutos/src/kernel/mem/mm_area.rs:211-232 | A fault leaves the flat memory as it is |
| `AddressSpace.SoundStore` | dlutos/src/kernel/mem/mm_list.rs:777-849 | A store after a write fault is the flat store to that page of that process |
| `MMList.Kernel.constructor` | dlutos/src/kernel/mem/mm_list.rs:31 | The initial kernel, with the empty page as its only frame, stands for the empty flat memory |
| `MMList.Kernel.NewSpace` | dlutos/src/kernel/mem/mm_list.rs:418-431 | A new address space is empty and changes no other |
| `MMList.Kernel.Mmap` | dlutos/src/kernel/mem/mm_list.rs:326-356 | Refines the flat mapping: succeeds exactly when the range is in user space and free, and then exactly those pages appear, zeroed |
| `MMList.Kernel.Fork` | dlutos/src/kernel/mem/mm_list.rs:433-469 | Refines eager copying: the child gets every page of the parent with its bytes, and no page of any process changes |
| `MMList.Kernel.Unmap` | dlutos/src/kernel/mem/mm_list.rs:532-544 | Refines the flat unmap, page by page, with every frame count still exact |
| `MMList.Kernel.Exit` | dlutos/src/kernel/mem/mm_list.rs:359-392 | The address space disappears and nothing else changes |
| `MMList.Kernel.Protect` | dlutos/src/kernel/mem/mm_list.rs:550-557 | Refines the flat protect on bytes and permissions, with its error cases |
| `MMList.Kernel.HandlePage` | dlutos/src/kernel/mem/mm_area.rs:211-232 | After a fault the entry is private to the process, writable as the area says, and no byte of any process has changed |
| `MMList.Kernel.OverlappingAddr` | dlutos/src/kernel/mem/mm_list.rs:66-69 | The lookup finds an area exactly when the address is mapped, and the rest of that area is mapped |
| `MMList.Kernel.ReadArea` | dlutos/src/kernel/mem/mm_list.rs:728-768 | Within one area the page slices follow each other without gap or overlap and give the flat bytes |
| `MMList.Kernel.ReadBytes` | dlutos/src/kernel/mem/mm_list.rs:710-773 | Returns exactly the flat bytes [start, start+len) if all are mapped, across any number of areas, and the error of the flat read otherwise; the slices visited tile the range |
| `MMList.Kernel.WriteArea` | dlutos/src/kernel/mem/mm_list.rs:799-843 | Within one area the page slices cover the data once and in order |
| `MMList.Kernel.AccessMut` | dlutos/src/kernel/mem/mm_list.rs:777-849 | Refines the flat write: the data up to the first unmapped address, an error exactly if there is one; on success the slices visited tile the range |
| `MMList.Kernel.UserStore` | dlutos/src/kernel/mem/mm_list/page_fault.rs:54-106 | A user store changes exactly its byte in its own process; SIGBUS exactly when unmapped, SIGSEGV exactly when not writable |
| `MMList.Kernel.UserLoad` | dlutos/src/kernel/mem/mm_list/page_fault.rs:54-106 | A user load answers as the flat memory (byte, SIGBUS unmapped, SIGSEGV unreadable) exactly unless the entry is readable although the area is not |
| `MMList.Kernel.UserFetch` | dlutos/src/kernel/mem/mm_list/page_fault.rs:54-106 | An instruction fetch gives the byte, SIGBUS exactly when unmapped, SIGSEGV exactly when not executable |
| `MMList.LoadUnreadable` | dlutos/src/kernel/mem/mm_list.rs:913-923 | Memory mapped without read permission: a load gives its zeros where SIGSEGV is due |
| `FlatMemory.SliceIs` | dlutos/src/kernel/mem/mm_list.rs:736-768 | The slice of the next page starts at the byte where the previous slice ended |
| `FlatMemory.VisitedOnce` | dlutos/src/kernel/mem/mm_list.rs:710-849 | If slices tile an access, every byte offset is in exactly one slice, which holds it at address start + offset |
| `MMList.Kernel.FindFree` | dlutos/src/kernel/mem/mm_list.rs:89-112 | First fit from the floored hint for the rounded-up length, stated on the flat memory |
| `MMList.Kernel.MmapHint` | dlutos/src/kernel/mem/mm_list.rs:599-638 | Maps at the first fit at or above the hint; no address means that none fits |
| `MMRun.Perform` | dlutos/src/kernel/mem/mm_list.rs:132-849 | One operation of the kernel is one operation of the flat memory, with the same answer |
| `MMRun.Execute` | dlutos/src/kernel/mem/mm_list.rs:132-849 | Over every run of new, fork, exit, map, map with a hint, unmap, protect, read, write, user store and instruction fetch, on any number of processes, copy-on-write gives the answers of eager copying |
| `MMRun.RunKeeps` | dlutos/src/kernel/mem/mm_list.rs:433-469 | A process reads the same bytes after any run of operations of other processes |
| `MMRun.ForkIsolates` | dlutos/src/kernel/mem/mm_list.rs:433-469 | What a child reads later is what its parent held at the fork, whatever the parent and all others do in between |
| `MMRun.ForkAndRun` | dlutos/src/kernel/mem/mm_list.rs:433-469 | The same of the kernel itself: a child read after any run that does not act on it gives what the parent read gave before the fork |
| `FlatLaws.UserRanges` | dlutos/src/kernel/mem/address.rs:3-25 | A range is in user space exactly if it starts there and has no address at or above 2^47 |
| `FlatLaws.MapLaw` | dlutos/src/kernel/mem/mm_list.rs:326-356 | The flat mapping, address by address: it succeeds exactly on unmapped user space, then those bytes are zero with the permission and nothing else changes |
| `FlatLaws.UnmapLaw` | dlutos/src/kernel/mem/mm_list.rs:132-214 | The flat unmap takes away exactly the addresses of the range; EINVAL exactly outside user space |
| `FlatLaws.ProtectLaw` | dlutos/src/kernel/mem/mm_list.rs:248-324 | The flat protect changes exactly the permission of the mapped addresses of the range, and no byte; EINVAL and ENOMEM exactly |
| `FlatLaws.ForkLaw` | dlutos/src/kernel/mem/mm_list.rs:433-469 | The flat fork gives the child every byte and permission of the parent and changes nothing else |
| `FlatLaws.ExitLaw` | dlutos/src/kernel/mem/mm_list.rs:359-392 | The flat exit takes away exactly the addresses of that process |
| `FlatLaws.AccessLaw` | dlutos/src/kernel/mem/mm_list.rs:777-849 | The flat write stores exactly the data before the first unmapped address, changes no other byte of any process, and errs exactly if there is such an address or the range ends at the top of user space |
| `FlatLaws.ReadBack` | dlutos/src/kernel/mem/mm_list.rs:710-849 | What was written is read back |
| `FlatLaws.StoreLaw` | dlutos/src/kernel/mem/mm_list/page_fault.rs:54-106 | A store changes its byte alone, with SIGBUS exactly if unmapped and SIGSEGV exactly if not writable, and a load then gives it |
| `MMLaws.WriteThenRead` | dlutos/src/kernel/mem/mm_list.rs:710-849 | On the kernel: a write that succeeds is read back, and no other byte of any process has changed |
| `MMLaws.MapThenRead` | dlutos/src/kernel/mem/mm_list.rs:326-356 | On the kernel: new memory reads as zeros |
| `MMLaws.UnmapThenRead` | dlutos/src/kernel/mem/mm_list.rs:532-544 | On the kernel: reading memory that was unmapped is EFAULT, reading beside it answers as before |
| `MMLaws.ProtectThenStore` | dlutos/src/kernel/mem/mm_list.rs:550-557 | On the kernel: after a protection without write a store is SIGSEGV and the byte is as it was |
| `MMLaws.StoreThenLoad` | dlutos/src/kernel/mem/mm_list/page_fault.rs:54-106 | On the kernel: a load gives the byte just stored |
| `PageTable.DigitsAreIndices` | dlutos/crates/dlutos_mm/src/page_table/paging_mode.rs:27-37 | For contiguous levels the index each level computes by shift and mask is the mixed-radix digit of the page number |
| `PageTable.DigitsValue` | dlutos/crates/dlutos_mm/src/page_table/paging_mode.rs:27-37 | Index vectors and page numbers are inverse, modulo the pages the levels tell apart |
| `PageTable.PagesDiffer` | dlutos/crates/dlutos_mm/src/page_table/paging_mode.rs:27-37 | Pages that differ modulo that number have different index vectors |
| `PageTable.BumpCounts` | dlutos/crates/dlutos_mm/src/page_table/pte_iterator.rs:163-175 | Adding one to the last index below its maximum and clearing those after it is counting on by one page |
| `PageTable.LastPage` | dlutos/crates/dlutos_mm/src/page_table/pte_iterator.rs:163-172 | All indices are at their maximum exactly at the last page of the address space |
| `PageTable.WalkGrows` | dlutos/crates/dlutos_mm/src/page_table/pte_iterator.rs:17-52 | Root walks give the same table after missing tables have been added |
| `PageTable.AddTableKeeps` | dlutos/crates/dlutos_mm/src/page_table/pte_iterator.rs:33-51 | Adding a zeroed table under a null entry keeps every table at its level and changes no existing entry |
| `PageTable.Tables.GetPageTable` | dlutos/crates/dlutos_mm/src/page_table/pte_iterator.rs:17-52 | Gives the table the entry names, adding one if there is none; nothing existing changes, and nothing at all if the table was there |
| `PageTable.TableIterator.ParseTablesFrom` | dlutos/crates/dlutos_mm/src/page_table/pte_iterator.rs:85-103 | Afterwards the table kept for each level is the root walk along the indices above it |
| `PageTable.TableIterator.constructor` | dlutos/crates/dlutos_mm/src/page_table/pte_iterator.rs:109-137 | Starts at the page of the floored start, with one step per page up to the rounded end |
| `PageTable.KeptIsLeaf` | dlutos/crates/dlutos_mm/src/page_table/pte_iterator.rs:157-161 | The kept table and index of the last level are where the root walk for the current page ends |
| `PageTable.TableIterator.Advance` | dlutos/crates/dlutos_mm/src/page_table/pte_iterator.rs:163-176 | Moves to the next page keeping walks and tables in step, exactly unless the page is the last of the address space |
| `PageTable.TableIterator.Next` | dlutos/crates/dlutos_mm/src/page_table/pte_iterator.rs:150-179 | Yields the leaf a root walk finds for the current page; panics exactly on the last page of the address space; ends exactly when no pages remain |
| `PageTable.Collect` | dlutos/crates/dlutos_mm/src/page_table/pte_iterator.rs:109-179 | A whole iteration yields, for the i-th page, the leaf of a root walk in the final tables; it does not panic exactly when the range stops short of the last page; no existing table or leaf changes |
| `PageTable.CoversRange` | dlutos/crates/dlutos_mm/src/page_table/pte_iterator.rs:115-122 | With 4 KiB pages the pages yielded are exactly those of [floor(start), ceil(end)) |
| `PageTable.Sv48IsCovered` | dlutos/crates/dlutos_hal/src/arch/riscv64/mm.rs:75-84 | The Sv48 layout is such a layout, with 2^36 pages of 4 KiB |
| `PageTable.UserRangesEnd` | dlutos/src/kernel/mem/address.rs:3-25 | No range of user space makes the Sv48 iteration panic |
| `PageTable.CanonicalRangesEnd` | dlutos/crates/dlutos_mm/src/page_table/pte_iterator.rs:109-134 | Nor does any range of canonical addresses whose ceiling is a 64-bit word: the end of the last page is not one |
| `PageTable.LastPagePanics` | dlutos/crates/dlutos_mm/src/page_table/pte_iterator.rs:150-179 | A range of addresses that are not canonical for which it panics |
| `PageTable.Iterate` | dlutos/crates/dlutos_mm/src/page_table/page_table.rs:92-105 | On the layout of the kernel the iteration yields the leaves of the range, and panics exactly on the ranges that reach the end of the 2^36 pages |
| `IntrusiveList.UnlinkIs` | dlutos/crates/intrusive_list/src/lib.rs:71-82 | Unlinking a member removes it and nothing else |
| `IntrusiveList.Link.Insert` | dlutos/crates/intrusive_list/src/lib.rs:59-69 | Rewires the three nodes involved and no other field |
| `IntrusiveList.Link.Remove` | dlutos/crates/intrusive_list/src/lib.rs:71-82 | Joins the neighbours of the node and clears its own links |
| `IntrusiveList.List.Insert` | dlutos/crates/intrusive_list/src/lib.rs:27-30 | On a well-linked list: the node becomes the first and the list is well linked |
| `IntrusiveList.List.Remove` | dlutos/crates/intrusive_list/src/lib.rs:32-35 | On a well-linked list: any member can be removed without finding it first, the others keep their order |
| `IntrusiveList.List.Pop` | dlutos/crates/intrusive_list/src/lib.rs:37-43 | Takes the first member, or nothing exactly from an empty list |
| `Bits.AlignedIsMultiple` | dlutos/crates/buddy_allocator/src/lib.rs:88-97 | Alignment by clear low bits is being a multiple of the power of two |
| `Bits.BuddyIs` | dlutos/crates/buddy_allocator/src/lib.rs:88-92 | For an aligned frame the xor is the neighbouring block that completes the next order |
| `Bits.CombinedIs` | dlutos/crates/buddy_allocator/src/lib.rs:94-97 | For two buddies the and is the lower one |
| `Bits.TrailingZerosAligns` | dlutos/crates/buddy_allocator/src/zone.rs:133-136 | A frame is aligned to every order up to its trailing zeros |
| `Bits.TrailingZerosExact` | dlutos/crates/buddy_allocator/src/zone.rs:133-136 | And to none above, unless it is frame 0 |
| `BuddyView.SplitKeeps` | dlutos/crates/buddy_allocator/src/zone.rs:51-63 | Listing the upper half of the block in hand keeps the zone sound and every allocated block untouched |
| `BuddyView.BuddyMatches` | dlutos/crates/buddy_allocator/src/zone.rs:112-125 | Although creation leaves the stored order at 0, a buddy that passes the check truly has the order checked for and is on that list |
| `BuddyView.CheckExact` | dlutos/crates/buddy_allocator/src/zone.rs:112-125 | The check finds a free buddy of the same true order exactly unless that order is above 0 and the buddy was created and never handed out |
| `BuddyView.MergeKeeps` | dlutos/crates/buddy_allocator/src/zone.rs:83-97 | Joining two buddies keeps the zone sound, merges two blocks of equal true order and touches no allocated block |
| `BuddyTight.NoFreeBuddy` | dlutos/crates/buddy_allocator/src/zone.rs:83-100 | In a tight zone (no free buddies, and no block of wrong stored order whose buddy is wholly created) coalescing stops only where the buddy is not a free block of the same true order |
| `BuddyView.OwnedDisjoint` | dlutos/crates/buddy_allocator/src/zone.rs:23-104 | Allocated blocks are aligned to their size, created, and pairwise disjoint |
| `BuddyView.Conservation` | dlutos/crates/buddy_allocator/src/zone.rs:23-145 | Every created frame is in a free block or in an allocated one, never both, and no other frame is in either |
| `BuddyView.FlagsTell` | dlutos/crates/buddy_allocator/src/free_area.rs:26-58 | BUDDY marks exactly the block heads, FREE exactly the free ones, which are on exactly the list of their true order; the stored order is 0 exactly as creation left it for a block never handed out, and the true order for every other |
| `BuddyTight.RunInBlock` | dlutos/crates/buddy_allocator/src/zone.rs:65-104 | In a zone without free buddies every aligned run of free frames lies in one free block |
| `BuddyTight.RunIsListed` | dlutos/crates/buddy_allocator/src/zone.rs:23-49 | So some list from that order up is not empty |
| `BuddyCover.NextReached` | dlutos/crates/buddy_allocator/src/zone.rs:128-145 | Stepping over the largest fitting block keeps the property that makes the greedy cover leave no mergeable pair |
| `BuddyCover.StickOut` | dlutos/crates/buddy_allocator/src/zone.rs:128-145 | The buddy of every block of the greedy cover reaches over the first or the last frame of the range |
| `BuddyCover.CoverBlock` | dlutos/crates/buddy_allocator/src/zone.rs:128-145 | The blocks of the greedy cover below the top order are exactly the aligned blocks of the range whose buddies leave it |
| `BuddyCover.CreatedExactly` | dlutos/crates/buddy_allocator/src/zone.rs:128-145 | From a zone without free buddies, creating [first, last) leaves none exactly when neither frame first-1 nor frame last lies in a free block below the top order whose buddy is inside the range |
| `BuddyCover.TightExactly` | dlutos/crates/buddy_allocator/src/zone.rs:128-145 | A tight zone stays tight exactly when, besides, every block of stored order 0 and true order 1 to 9, old or in the range, keeps a buddy with a frame missing |
| `BuddyCover.TouchingRanges` | dlutos/crates/buddy_allocator/src/zone.rs:128-145 | Two blocks of order 1 created side by side: an aligned free run that no list offers, free buddies, and a check that misses one of them when the other is in hand |
| `Buddy.Zone.constructor` | dlutos/crates/buddy_allocator/src/zone.rs:17-21 | An empty zone is sound and tight |
| `Buddy.Zone.GetFreePages` | dlutos/crates/buddy_allocator/src/zone.rs:23-49 | Takes a block of exactly the order asked for out of the smallest list that has one, all allocated blocks untouched; None exactly when those lists are empty; both assertions hold |
| `Buddy.Zone.Expand` | dlutos/crates/buddy_allocator/src/zone.rs:51-63 | Splits the block in hand to the target order, returning every other half to its list |
| `Buddy.Zone.BuddyCheck` | dlutos/crates/buddy_allocator/src/zone.rs:106-126 | The buddy of the block in hand is found exactly if it is a free block of the same true order and that is 0 or it was handed out before; it is then on the list of that order and has no users, so the assertion cannot fail |
| `Buddy.Zone.Coalesce` | dlutos/crates/buddy_allocator/src/zone.rs:83-97 | Merges until the buddy is not a free block of the same order, or is one above order 0 never handed out; the zone stays sound and a tight zone tight |
| `Buddy.Zone.FreePages` | dlutos/crates/buddy_allocator/src/zone.rs:65-104 | Exactly the freed block leaves the allocated ones, its frames are free again in the block that is now first on the list of its order, and a tight zone stays tight |
| `Buddy.Zone.FreeAround` | dlutos/crates/buddy_allocator/src/zone.rs:65-104 | A block of wrong stored order whose buddy is wholly created: freeing what is allocated in that buddy ends with two free buddies, so tightness is needed |
| `BuddyTight.WholeBuddy` | dlutos/crates/buddy_allocator/src/zone.rs:65-104 | A free block below the top order whose buddy has only free frames cannot be in a zone without free buddies |
| `Buddy.Zone.AllocOrder` | dlutos/crates/buddy_allocator/src/lib.rs:62-73 | The result is one aligned block of exactly the order, a run of free frames before, count 1, all other blocks untouched; in a zone without free buddies None means that no such run exists |
| `Buddy.Zone.HasManagementOver` | dlutos/crates/buddy_allocator/src/lib.rs:79-81 | Holds exactly of the heads of allocated blocks |
| `Buddy.Zone.ChooseOrder` | dlutos/crates/buddy_allocator/src/zone.rs:133-140 | The order is the largest that is aligned, fits and is allowed |
| `Buddy.Zone.CreatePages` | dlutos/crates/buddy_allocator/src/zone.rs:128-145 | Exactly the frames that lie in the range of addresses as a whole become created and free; a zone without free buddies stays so, and a tight one tight, each exactly under the condition of CreatedExactly and TightExactly |
| `BuddyCover.FramesOf` | dlutos/crates/buddy_allocator/src/zone.rs:129-130 | A frame is one of those of a range of addresses exactly if all its bytes lie in the range |
| `PageAlloc.OneOwner` | dlutos/src/kernel/mem/page_alloc.rs:45-150 | Blocks that share a frame are one block, which is cached on a CPU or held by handles but not both, and not free in the zone |
| `PageAlloc.CacheKeeps` | dlutos/src/kernel/mem/page_alloc.rs:45-82 | Putting a block on a CPU's list keeps every block at exactly one place with the count that place calls for |
| `PageAlloc.UncacheKeeps` | dlutos/src/kernel/mem/page_alloc.rs:50-57 | Handing out the first block of a list does too |
| `PageAlloc.PageAllocator.PopCached` | dlutos/src/kernel/mem/page_alloc.rs:50-57 | The block on top of this CPU's list of the order becomes held once and leaves that list, all other lists as they were; None exactly when the list is empty |
| `PageAlloc.PageAllocator.RefillBatch` | dlutos/src/kernel/mem/page_alloc.rs:65-73 | 64 blocks divided by the block size, or as many as the zone had, come on top of this CPU's list, none of them allocated before; all other lists are as they were |
| `PageAlloc.PageAllocator.AllocCached` | dlutos/src/kernel/mem/page_alloc.rs:59-76 | One CPU's allocation: the block on top of its list without touching the zone, else one of a new batch, else none anywhere in its list or the zone |
| `PageAlloc.PageAllocator.AllocOrder` | dlutos/src/kernel/mem/page_alloc.rs:120-131 | A block of the order asked for that nobody held, with one handle: up to order 3 the one on top of this CPU's list if it has any, else one that was not allocated; None only if the zone has no aligned free run of that order; no other list changes |
| `PageAlloc.PageAllocator.Clone` | dlutos/crates/dlutos_mm/src/paging/page.rs:263-277 | One handle more, nothing else |
| `PageAlloc.PageAllocator.FreeCached` | dlutos/src/kernel/mem/page_alloc.rs:78-84 | The block of the last handle comes on top of the freeing CPU's list of its order, all other lists and the zone's as they were; the assertions on order and count hold |
| `PageAlloc.PageAllocator.Dealloc` | dlutos/src/kernel/mem/page_alloc.rs:133-144 | Up to order 3 that, above it the block is free in the zone and all lists are as they were |
| `PageAlloc.PageAllocator.Drop` | dlutos/crates/dlutos_mm/src/paging/page.rs:279-296 | One handle less; the last one gives the block back in that way, any other changes no list; neither the panic nor the assertion can fire |
| `PageAlloc.PageAllocator.DropThenAlloc` | dlutos/src/kernel/mem/page_alloc.rs:50-84 | A small block dropped by its last holder is what the same CPU gets next for that order |
| `PageAlloc.PageAllocator.HasManagementOver` | dlutos/src/kernel/mem/page_alloc.rs:146-149 | Holds of every block with a handle, and only of allocated blocks |
| `PageAlloc.PageAllocator.IsExclusive` | dlutos/crates/dlutos_mm/src/paging/page.rs:216-219 | Says exactly whether there is one handle |
| `PageAlloc.PageAllocator.Execute` | dlutos/src/kernel/mem/page_alloc.rs:117-150 | Over any run of allocations, clones and drops on any CPUs the count of each held block is the number of handles the history leaves alive |
| `Slab.SlotsApart` | dlutos/crates/slab_allocator/src/slab_cache.rs:51-75 | Different slots of a page do not overlap |
| `Slab.ThreadedIsLinked` | dlutos/crates/slab_allocator/src/slab_cache.rs:51-75 | The words written at initialisation form one chain through all slots that ends at null |
| `Slab.InitChainIs` | dlutos/crates/slab_allocator/src/slab_cache.rs:51-75 | That chain has every slot of the page exactly once |
| `Slab.UserStoreOk` | dlutos/crates/slab_allocator/src/slab_cache.rs:26-49 | Any store into the bytes of a live slot leaves every word of a free slot, and with them the free chains, as they were |
| `Slab.LiveApart` | dlutos/crates/slab_allocator/src/slab_cache.rs:104-163 | Live slots of a cache do not overlap |
| `Slab.SlabCache.AllocSlot` | dlutos/crates/slab_allocator/src/slab_cache.rs:26-36 | Takes the head of the chain; the unreachable arm is not reached |
| `Slab.SlabCache.InitPage` | dlutos/crates/slab_allocator/src/slab_cache.rs:51-75 | Threads all slots of the page and writes nowhere else |
| `Slab.SlabCache.AllocPartial` | dlutos/crates/slab_allocator/src/slab_cache.rs:105-121 | The slot on top of the chain of the first partial page, which is listed full exactly when that was its last |
| `Slab.SlabCache.AllocEmpty` | dlutos/crates/slab_allocator/src/slab_cache.rs:123-136 | The slot on top of the chain of the first empty page, which becomes the first partial one |
| `Slab.SlabCache.AllocNew` | dlutos/crates/slab_allocator/src/slab_cache.rs:138-143 | The first slot of a new page, which becomes the first partial one |
| `Slab.SlabCache.Alloc` | dlutos/crates/slab_allocator/src/slab_cache.rs:104-144 | Exactly one slot becomes live, one that was not; no word of any other page in use changes; chain length and count still add up and every page is on the list its counts call for; a new page is taken only if none is partial or empty; the slot is the one on top of the first partial page, else of the first empty page, else the first of a new one |
| `Slab.SlabCache.Dealloc` | dlutos/crates/slab_allocator/src/slab_cache.rs:146-163 | Exactly that slot stops being live; only its own word changes; the page is on the list its counts call for; the slot is on top of the chain of its page |
| `Slab.SlabCache.FreeThenAlloc` | dlutos/crates/slab_allocator/src/slab_cache.rs:104-163 | A slot freed in a full page is what the cache hands out next |
| `Slab.ClassFits` | dlutos/crates/slab_allocator/src/lib.rs:51-61 | Every size up to half a page has a cache, with slots at least that large and less than twice it |
| `Slab.ClassOfRounded` | dlutos/src/kernel/mem/allocator.rs:16-30 | Rounding the size up first picks the same cache |
| `Slab.SlabAllocator.constructor` | dlutos/crates/slab_allocator/src/lib.rs:51-56 | Nine caches of 8 to 2048 bytes, all sound |
| `Slab.SlabAllocator.Alloc` | dlutos/crates/slab_allocator/src/lib.rs:58-62 | The slot comes from the cache of its size, is large enough and was not live; other caches are untouched |
| `Slab.SlabAllocator.Dealloc` | dlutos/crates/slab_allocator/src/lib.rs:64-68 | The same size reaches the same cache, in which exactly that slot stops being live |
| `Slab.SlabAllocator.NoOverlap` | dlutos/crates/slab_allocator/src/lib.rs:58-68 | Live slots never overlap, across all caches |
| `Runtime.StepKeeps` | dlutos/crates/dlutos_runtime/src/scheduler.rs:102-225 | Every atomic step of wakes and schedulers keeps the invariant; no assertion or unreachable arm fires |
| `Runtime.UnreadyKeeps` | dlutos/crates/dlutos_runtime/src/scheduler.rs:110-136 | A current task is RUNNING or READY_RUNNING when it is put away, so the unreachable arms are not taken |
| `Runtime.StartKeeps` | dlutos/crates/dlutos_runtime/src/scheduler.rs:193-198 | The task taken from the queue is READY |
| `Runtime.PollReadyKeeps` | dlutos/crates/dlutos_runtime/src/scheduler.rs:207-212 | A finished task still has its RUNNING bit |
| `Runtime.Safety` | dlutos/crates/dlutos_runtime/src/scheduler.rs:102-225 | In every interleaving a task is queued, in the hands of its scheduler or in flight exactly once when READY and not at all otherwise, only on its own CPU, and current only there while running |
| `Runtime.PolledOnce` | dlutos/crates/dlutos_runtime/src/scheduler.rs:174-225 | No task is polled on two CPUs at once |
| `Runtime.WakeSetsReady` | dlutos/crates/dlutos_runtime/src/task.rs:107-121 | A wake leaves the READY bit set |
| `Runtime.ReadyStays` | dlutos/crates/dlutos_runtime/src/scheduler.rs:102-225 | Only the start of a new poll of the task, or its end, clears the READY bit |
| `Runtime.NoLostWake` | dlutos/crates/dlutos_runtime/src/task.rs:107-121 | Over any run without such a start the READY bit stays set and the task stays queued, in flight or running |
| `Runtime.Fifo` | dlutos/crates/dlutos_runtime/src/ready_queue.rs:25-33 | Over any run what is queued comes out in order, and every task taken out is polled in that order |
| `Runtime.PolledInTurn` | dlutos/crates/dlutos_runtime/src/ready_queue.rs:25-33 | The task at position k of a queue is polled after exactly k others |
| `Runtime.AssertionsOf` | dlutos/crates/dlutos_runtime/src/scheduler.rs:110-212 | The steps that would panic: starting a task that is not READY, putting away or ending one that is not running |
| `Progress.CanMove` | dlutos/crates/dlutos_runtime/src/scheduler.rs:174-225 | The loop of a CPU is never stuck |
| `Progress.Served` | dlutos/crates/dlutos_runtime/src/scheduler.rs:174-225 | Nobody starves: in every interleaving a CPU with m tasks in line has started m polls after at most 9 of its own steps for each |
| `Progress.ServedInTurn` | dlutos/crates/dlutos_runtime/src/ready_queue.rs:25-33 | So the task at position k of a queue is polled, after exactly k others, once its CPU has taken so many steps |
| `Progress.ToPick` | dlutos/crates/dlutos_runtime/src/scheduler.rs:102-136 | The first half of a round puts the current task away, at the end of the queue exactly if it was woken while it ran, and blocked otherwise |
| `Progress.FromPick` | dlutos/crates/dlutos_runtime/src/scheduler.rs:180-203 | The second half leads back to the top exactly if the queue is empty; otherwise its first task is running and polled |
| `Progress.Round` | dlutos/crates/dlutos_runtime/src/scheduler.rs:174-225 | A whole round of the loop, idle or with a current task that is blocked or was woken |
| `Progress.PollEnds` | dlutos/crates/dlutos_runtime/src/scheduler.rs:206-222 | A pending poll leaves its task current, a finished one leaves it dead and the CPU without |
| `Progress.WokenIsQueued` | dlutos/crates/dlutos_runtime/src/task.rs:107-121 | Waking a blocked task makes it READY and puts it at the end of the queue of its own CPU |
| `Progress.SpawnedWaits` | dlutos/crates/dlutos_runtime/src/scheduler.rs:67-84 | A new task waits on its CPU to be woken |
| `Timer.NextIsLeast` | dlutos/src/kernel/timer.rs:195-203 | The next wakeup tick is the least registered deadline, or the maximum if none is |
| `Timer.InsertKeeps` | dlutos/src/kernel/timer.rs:232-248 | Registering keeps one group per deadline, adds the waker at the end of the group of its deadline and changes no other registration |
| `Timer.Safety` | dlutos/src/kernel/timer.rs:170-257 | In every interleaving the wakeup tick is at or below every registered deadline, deadlines are distinct, and every waiting sleeper is in the group of its deadline |
| `Timer.NeverEarly` | dlutos/src/kernel/timer.rs:224-257 | A sleep returns no earlier than its duration after its start, whatever wakes it |
| `Timer.StepPunctual` | dlutos/src/kernel/timer.rs:170-257 | From a punctual state a step leads to a punctual one exactly if it is not a registration for a tick already served |
| `Timer.PunctualExactlyWhenInTime` | dlutos/src/kernel/timer.rs:170-257 | A run serves every deadline at its tick exactly when no sleeper registers after its tick was served |
| `Timer.OnTime` | dlutos/src/kernel/timer.rs:170-257 | If no tick falls between a deadline check and its registration, then after each interrupt no group with a deadline at or before the tick is left and nobody waits for one |
| `Timer.SleepsExactly` | dlutos/src/kernel/timer.rs:224-257 | Under the same proviso a sleep returns exactly at its time: after the interrupt of a tick it has returned, or does at its next poll, if its duration is over, and has not returned if not |
| `Timer.Parks` | dlutos/src/kernel/timer.rs:228-256 | A poll before the deadline registers the sleeper under its own deadline and lets it wait |
| `Timer.FireWakes` | dlutos/src/kernel/timer.rs:178-192 | The interrupt wakes exactly the sleepers that wait for the least registered deadline |
| `Timer.TickPops` | dlutos/src/kernel/timer.rs:170-203 | Late or not, if a group is due when a tick comes, that tick pops the least one and wakes its sleepers |
| `Timer.CanMove` | dlutos/src/kernel/timer.rs:170-257 | The interrupt runs to its end, and every sleep that has not returned has a step to take |
| `Timer.LateRegistration` | dlutos/src/kernel/timer.rs:224-257 | A run in which the tick falls in between and the group is left behind |
| `PageCache.FlatWriteIs` | dlutos/src/fs/tmpfs.rs:523-551 | The flat file after a write, byte by byte, with a gap filled with zeros |
| `PageCache.ReadBack` | dlutos/src/fs/tmpfs.rs:518-551 | On the flat file a read gives back what was written |
| `PageCache.InsertStep` | dlutos/src/kernel/mem/page_cache.rs:204-222 | Putting in a missing page changes no byte and keeps the valid sizes of a write in progress |
| `PageCache.PollStep` | dlutos/src/kernel/mem/page_cache.rs:186-203 | Storing into the page at the cursor makes exactly the next bytes appear and keeps the valid sizes |
| `PageCache.WriteEnd` | dlutos/src/kernel/mem/page_cache.rs:176-227 | After the loop the contents agree with the flat write; the valid sizes, and what reads can see, do exactly when the write was safe |
| `PageCache.PanicsExactly` | dlutos/src/kernel/mem/page_cache.rs:139-156 | Which reads of any cache panic |
| `PageCache.FetchedThen` | dlutos/src/kernel/mem/page_cache.rs:139-156 | One page of a read of a file that is seen adds the next stretch of the file |
| `PageCache.AnswersExactly` | dlutos/src/kernel/mem/page_cache.rs:128-174 | Size and all answers are those of a flat file exactly when every byte below the end is within the valid bytes of its page and right |
| `PageCache.UnseenIsWrong` | dlutos/src/kernel/mem/page_cache.rs:139-156 | A byte for which that fails is answered wrongly, short, or with a panic when read alone |
| `PageCache.SameAnswers` | dlutos/src/kernel/mem/page_cache.rs:157-170 | The pages a read puts in change no answer |
| `PageCache.FillFrom` | dlutos/src/kernel/mem/page_cache.rs:139-156 | One page of a read: the valid bytes from the position on, as many as the file has and the buffer takes |
| `PageCache.TmpFile.ReadPages` | dlutos/src/kernel/mem/page_cache.rs:128-174 | The loop over the pages gives that answer for every cache and keeps one that holds its file |
| `PageCache.TmpFile.Read` | dlutos/src/fs/tmpfs.rs:518-521 | On any cache: panics exactly when the first page is cached with fewer valid bytes than the offset into it; on one that holds the file, or whose answers are all right, returns exactly file[offset .. min(offset+len, size)] |
| `PageCache.TmpFile.WritePages` | dlutos/src/kernel/mem/page_cache.rs:176-227 | Writes everything; the cache agrees with the flat file, and size and all reads answer as it does, exactly when no cached page lies between the end and the start of the write (for an empty write: exactly when it does not move the end or put a blank page over the last bytes); exactly the pages written to become dirty |
| `PageCache.TmpFile.Write` | dlutos/src/fs/tmpfs.rs:523-551 | The same with the size and the append position |
| `PageCache.TmpFile.Truncate` | dlutos/src/fs/tmpfs.rs:553-559 | Cache, size and all answers are those of the flat file after a shrink exactly when the dropped page held only zeros up to the new end, and after growing exactly when no later page that becomes part of the file is cached |
| `PageCache.TmpFile.DropPages` | dlutos/src/kernel/mem/page_cache.rs:248-254 | The shrinking half of that |
| `PageCache.SkippingWrite` | dlutos/src/kernel/mem/page_cache.rs:128-227 | Writing two bytes, then one at 8192, then reading at 100: panics |
| `PageCache.ShrinkInside` | dlutos/src/kernel/mem/page_cache.rs:248-254 | Writing two bytes and truncating to one: not every answer is right |
| `PageCache.EmptyWrite` | dlutos/src/kernel/mem/page_cache.rs:204-222 | Growing an empty file to 5 and writing nothing at 5: not every answer is right |
| `PageCache.GrowOver` | dlutos/src/kernel/mem/page_cache.rs:255-266 | A page left behind the end by an empty write and a shrink, and growth over it: not every answer is right |
| `PageCache.GentleExactly` | dlutos/src/kernel/mem/page_cache.rs:176-269 | Which writes and truncations are safe on every cache that holds the file, exactly |
| `PageCache.TmpFile.Execute` | dlutos/src/fs/tmpfs.rs:518-559 | Over any run of reads and of writes and truncations that are safe whatever is cached, the answers are those of a flat file |
| `FileArray.FirstGapIsLeast` | dlutos/src/kernel/vfs/filearray.rs:106-117 | The search gives the least unused descriptor at or above its start if there is one, and 0 otherwise |
| `FileArray.RoomIfFew` | dlutos/src/kernel/vfs/filearray.rs:106-117 | There is one whenever fewer descriptors are open than lie at or above the start |
| `FileArray.FDAllocator.FindAvailable` | dlutos/src/kernel/vfs/filearray.rs:106-117 | Finds the first gap in the run of used descriptors |
| `FileArray.FDAllocator.AllocateFd` | dlutos/src/kernel/vfs/filearray.rs:123-134 | Gives the least unused descriptor at or above the one wanted, and the cached number is right afterwards, each exactly when the search found room |
| `FileArray.FileArray.constructor` | dlutos/src/kernel/vfs/filearray.rs:148-155 | The cached number of an empty table is right |
| `FileArray.FileArray.Cloned` | dlutos/src/kernel/vfs/filearray.rs:161-181 | The clone has the same descriptors and its cached number is right |
| `FileArray.FileArray.Open` | dlutos/src/kernel/vfs/filearray.rs:388-393 | The least unused descriptor; only it is added |
| `FileArray.FileArray.Dup` | dlutos/src/kernel/vfs/filearray.rs:253-266 | The same file under the least unused descriptor; EBADF exactly for an unused one |
| `FileArray.FileArray.DupFrom` | dlutos/src/kernel/vfs/filearray.rs:402-417 | F_DUPFD: the least unused descriptor at or above the argument whenever there is one; the insertion panics exactly when there is none and descriptor 0 is in use |
| `FileArray.FileArray.DupTo` | dlutos/src/kernel/vfs/filearray.rs:270-294 | The wanted descriptor names the file; the assertion on the allocator holds; the replaced file is returned |
| `FileArray.FileArray.Pair` | dlutos/src/kernel/vfs/filearray.rs:306-320 | The two least unused descriptors, distinct; panics exactly when there is no second one |
| `FileArray.FileArray.Close` | dlutos/src/kernel/vfs/filearray.rs:200-210 | Exactly that descriptor is released and the cached number is right; EBADF exactly for an unused one |
| `FileArray.FileArray.CloseAll` | dlutos/src/kernel/vfs/filearray.rs:188-198 | The table is empty and the cached number is right, whatever it was |
| `FileArray.FileArray.CloseSome` | dlutos/src/kernel/vfs/filearray.rs:212-251 | Closing any picked descriptors keeps the cached number right |
| `FileArray.TopmostWraps` | dlutos/src/kernel/vfs/filearray.rs:106-134 | A table in which the search past the topmost descriptor comes back with one in use |
| `Block.PatchedIs` | dlutos/src/kernel/block.rs:197-369 | A write is read back, and bytes elsewhere are as before |
| `Block.OutsideWindow` | dlutos/src/kernel/block.rs:162-188 | A write through a window of sectors leaves every byte outside the window as it was |
| `Block.BufferFits` | dlutos/src/kernel/block.rs:210-236 | The pages hold the sectors of a request, and for more than sixteen wanted hold nothing else exactly for multiples of 16 |
| `Block.FillFrom` | dlutos/src/kernel/block.rs:246-261 | The pages are consumed in order and without gap until the reader has enough |
| `Block.CopyInto` | dlutos/src/kernel/block.rs:326-352 | The data is copied across the pages in order and without gap, as much as fits |
| `Block.Chunk` | dlutos/src/kernel/block.rs:203-265 | The sectors at the front of the pages give the wanted bytes of the device |
| `Block.Merged` | dlutos/src/kernel/block.rs:317-359 | Sectors read, patched and written back, or overwritten as a whole, differ only in the patch, as far as it lies in the sectors |
| `Block.OnceReads` | dlutos/src/kernel/block.rs:203-265 | One read request of a limit that fits adds the next bytes of the device and none from beyond the sectors read |
| `Block.ReadGood` | dlutos/src/kernel/block.rs:197-272 | So does every request of the read |
| `Block.ReadBad` | dlutos/src/kernel/block.rs:210-261 | For any other limit the byte after the sectors of the first request is whatever its last page held |
| `Block.ReadExactly` | dlutos/src/kernel/block.rs:197-272 | A read on the device gives exactly the bytes asked for, whatever fresh pages hold, exactly when it needs at most 16 sectors or at most the limit, or the limit is divisible by 16 |
| `Block.OnceWrites` | dlutos/src/kernel/block.rs:302-367 | One write request of a limit that fits puts the next bytes in place and changes nothing else |
| `Block.WriteBad` | dlutos/src/kernel/block.rs:302-367 | For any other limit the first byte after the sectors of the first request keeps its value or gets a later byte of the data |
| `Block.WriteExactly` | dlutos/src/kernel/block.rs:280-369 | A write on the device changes exactly its bytes, whatever they are, exactly when it needs at most the limit, or the limit is divisible by 16 or is 8 |
| `Block.LimitTwenty` | dlutos/src/kernel/block.rs:197-369 | Forty sectors over a queue that takes 20: a read that returns fresh memory and a write that loses data |
| `Block.BlockDevice.CommitRead` | dlutos/src/kernel/block.rs:162-188 | EINVAL exactly past the end of the device; else the sectors of the window |
| `Block.BlockDevice.CommitWrite` | dlutos/src/kernel/block.rs:162-188 | EINVAL exactly past the end of the device, with nothing changed; else only the sectors of the window are written |
| `Block.BlockDevice.ReadSome` | dlutos/src/kernel/block.rs:197-272 | For up to 16 sectors, up to the limit, or a limit divisible by 16: exactly the bytes asked for, EINVAL exactly when they need a sector past the end |
| `Block.BlockDevice.WriteSome` | dlutos/src/kernel/block.rs:280-369 | For up to the limit, a limit divisible by 16, or a limit of 8: changes exactly bytes [offset, offset+len), EINVAL exactly when they need a sector past the end, with only a prefix written |

## Left out

- MMList.Kernel.Protect: only for permissions that allow reading or executing, because other permissions make entries look absent or like tables (see `CowMemory.ProtectIsSafeExactlyWhenReadable`).
- MMList.Kernel.MmapHint: the search and the mapping are one step, while the code releases its lock in between.
- MMList.Kernel.Mmap: private anonymous memory of non-zero length only; file-backed and shared mappings (`handle_mmap`, `set_copied`, `sync_shared`) are not part of the entry model.
- MMList.Kernel.UserStore: the fix-up of kernel faults is not modelled.
- PageTable.Tables.GetPageTable: entries above the last level are null or tables, as the code demands with a panic; allocation of a table does not fail; indices are not cut to 16 bits.
- PageTable.TableIterator.Next: after a panic the iterator state is not described.
- Buddy.Zone.CreatePages: the frames must be present and not created before, which the boot code provides; page structures outside the page array are read as zero.
- PageAlloc.PageAllocator.Drop: decrementing the count and giving the block back are one step; between them no other handle exists.
- PageAlloc.PageAllocator.Execute: one operation at a time; locks and preemption control are not modelled.
- Slab.SlabCache.Alloc: memory is the words at slot addresses; pages come from an allocator that never hands out a page in use.
- Runtime.Safety: wakes never target a dead task, which the code treats as unreachable; task migration between CPUs does not exist in the code and is not modelled.
- Timer.Safety: only the tick counter below its 64-bit limit; wakers are task numbers.
- PageCache.TmpFile.Write: only from a cache that holds its file; writes and truncations of a cache that has departed from it are not described, reads of it are.
- FileArray.FileArray.Open: the checks of `open` on inodes and modes are not modelled.
- FileArray.FileArray.CloseSome: which descriptors close_range and close-on-exec pick depends on a cursor of a foreign tree and is left open.
- Block.BlockDevice.ReadSome: the buffer starts empty, and the queue takes at least one sector; for limits that do not fit, calls past the end of the device are not characterised.
- The parts are proved side by side: the free lists of `Buddy`, `PageAlloc` and `Slab` are sequences with the contract of `IntrusiveList`, not its linked nodes, and `MMList` names entries by page number instead of walking `PageTable`.
- Zero-length areas from `set_break`, PROT_NONE, TLB flushing, the vDSO mapping.
- The recursive drop of page tables and the copy of the kernel half of the root table.
- Page-cache writeback, `with_page` and disk-backed caches; clearing the dirty bits is not modelled.
- Device drivers, networking, ext4 and FAT32, system-call plumbing, trap and context switching: register access and foreign code.
- RCU, process tree, sessions, futexes and async locks: their correctness rests on code that is not in these files.
- Terminal, procfs, mount table, stat conversion: would add only easy members.
