# A model of the kernel's hardest algorithms

This project models seven parts of the operating system and proves what they are for.

1. **The display manager** (`DisplayManager.dfy`, `Repaint.dfy`, `Background.dfy`, `View.dfy`, `Screen.dfy`,
   `Geometry.dfy`, `Compositing.dfy`). Overlapping displays are painted row by row with interval scans, and creating, destroying,
   moving, raising, showing and hiding a display repaints only damaged rectangles. The reference is `View.Composite`: at each
   pixel the topmost display wins, blended over what is beneath it where it is translucent. Any run of
   operations from an empty screen leaves every covered pixel at its composite value, for opaque and for translucent
   displays alike. The methods work in place on a framebuffer; what a pass may do to the pixels is the
   relation `Screen.Redrawn`, and a ghost record of every write shows that the solid pass writes each of its pixels once.
   What no display covers is background after any run, on every row where the order of the list is no trap for
   the background scan (`Background.Refreshed`).
2. **The lock-free queue** (`MpscFifo.dfy`): a state machine with one step per access to shared memory, any
   number of producers and one consumer, in any interleaving. It is first in, first out, never touches a deleted
   node, and refines an atomic queue.
3. **The kernel heap** (`MemoryPool.dfy`, `Blocks.dfy`, `LList.dfy`): splitting, the two search directions,
   coalescing, sorting and growing by pages. Free and live blocks always tile exactly the bytes ever added, less those lost
   to a remainder that is cut to 32 bits (see below). `MemoryPool.available` is not credited with the header won by a
   merge; the ghost counter `reclaimed` says by how much it falls short, so that a page can be asked for although a block
   would fit (`PagedMalloc` states exactly when).
4. **The driver resource ledger** (`DriverApi.dfy`, `Ranges.dfy`, `PodArray.dfy`): a canonical list of memory ranges
   per driver, and exclusive ownership of memory, PCI devices and I/O ports over any run of starts, stops and failures.
5. **The scheduler and the event emitter** (`Scheduler.dfy`, `EventEmitter.dfy`): bounded waiting for round-robin
   queues, and a subscriber cache guarded by generations and a flag under nested and concurrent triggers.
6. **The PCI bus walk** (`Pci.dfy`, `Bitmask.dfy`): a depth-first search over a bridge graph that may have cycles,
   over a configuration space that is a constant function. Header fields are those of section 6.2.1 of
   the PCI Local Bus Specification 3.0.
7. **Arithmetic and strings** (`Maths.dfy`, `VideoMode.dfy`, `Compositing.dfy`, `CliPath.dfy`): the Newton square root and
   the video mode fallback built on it, the bounds of layer compositing, and path resolution.

`Lists.dfy` and `Wrappers.dfy` hold what several of these share.

Objects whose methods update them are classes. The lists they hold are modelled as the sequences they stand for; that is a
modelling step. `LList.dfy` and `PodArray.dfy` prove the list operations correct on linked nodes and on an array, but
no proof links the other modules to them (`DriverApi.dfy` shares with `PodArray.dfy` the function that says what
its remove leaves). Most methods carry ghost parameters (what the displays look like, which block is meant) that say in
values what the state is.

## Where the code departs from its intent

- `PodArray::remove(0)` moves the elements up instead of down (`common/PodArray.hpp:64-68`): it keeps the front and
  loses other elements. `PodArray.RemovedIsDeletedIff` states exactly when `remove` is deletion. Its effects follow the code:
  `unsubscribe_memory` loses the driver's whole list when the first range is covered, and is right exactly when that is
  not so or when every range with a byte in it ends by the end of what is given back (`DriverApi.EndsBy`). For a canonical list
  that is when the last range is covered too; a request for no bytes can leave an empty range behind, which does not matter.
  `DriverApi.CoveredFirstLosesAll` is a case of loss;
  `unsubscribe_pci` and `unsubscribe_ioPort` keep the front of a longer list when asked to let go of it, and drop another
  holding instead: of devices 1, 2 and 3, giving back 1 leaves 1 and 1
  (`DriverApi.FrontReleaseLosesAnother`). `DriverApi.ReleasedIff` states exactly when the
  right entry goes and all others stay.
- The background scan resumes at the largest right edge of the displays that cut its stretch short
  (`drivers/DisplayManager.cpp:594`) and so jumps over a gap between two displays when the right one is listed first:
  `Background.JumpsOverAGap`. `Background.FillsAllIff` states exactly when one scan fills a row wherever it is bare, in terms of
  the scan, and `Background.SeamlessIff` exactly when all scans do, wherever they begin and end, in terms of the list.
  `Background.LeftToRightIsGapFree` is a common case.
- `malloc` keeps both the size it looks for and the remainder of a split in an `unsigned`. The first is what was asked for,
  rounded up, only below 2^32: `MemoryPool.GrantedSufficesIff`. Of a remainder of 2^32 bytes or more all but the low 32 bits are lost
  from both lists if those low bits are worth keeping; otherwise the block is not split and nothing is lost. That is the exact
  condition, `MemoryPool.LosesNothingIff`; in `MemoryPool.LosesFourGibibytes` 4 GiB are lost.
- `LList::clear` unlinks the items but keeps both ends: only a list that was empty is an empty list afterwards, and no other
  is a list at all (`LList.Clear`).
- The root loop of the PCI walk tests bit 7 of the register at 0Ch itself, which is the cache line size, where the function
  scan shifts down to the header type first (`drivers/x86/system/Pci.cpp:239-240` and `64-65`). The model follows the code.
  `Pci.RootsAreIntendedIff` states exactly when the roots are the same: when the two bits agree, or device 0 has function 0
  and no other. By `Pci.RootTestReadsAnotherByte` they differ for a host with the one register and a function 1.
- The walk reads the secondary bus number of every bridge from function 0 of its device (`drivers/x86/system/Pci.cpp:90`), right
  for another function only if both registers hold the same byte (`Pci.BridgeReadsFunction0`). The graph is the code's own.
- The switch over the pixel format in `BochsVga::set_mode` has no `break`, so that the bits per pixel are always 32, which is
  right for `rgba8` only (`VideoMode.BitsPerPixel`).
- The video mode fallback scales the size asked for, not the one that the hardware can do: asked for 2560x1600 with 8 MiB it
  sets 1824x1144 on hardware for 1024x768 (`VideoMode.FallbackBeyondHardware`; `VideoMode.FallbackWithinIff` states for which
  sizes and memory it stays within).
- `maths::sqrt` divides by zero for the largest value of its type, and only for that one. That is for unsigned types at least as
  wide as `int`; narrower ones are promoted and do not wrap.
- Two-argument `blend_colours` carries nothing between channels, whatever is beneath, exactly if its top colour is premultiplied
  (`Compositing.NothingCarriesIff`); over some colours other ones carry nothing either.
- Resolving against a path that starts with a slash is not the fold over its segments (`CliPath.ResolveIsFoldIff`).

## Assumptions

- Displays: one framebuffer, scale 1; `View.RowsNonEmpty` (on every row the margins leave at least one pixel) and
  `View.LeftEdgeClear` (on a row of the solid area the left margin ends before it, or it starts at the edge and reaches the
  margin, or it starts right of the edge and has no width). Both are named predicates, and by `Repaint.AheadIsRightIff` the
  second is exactly what the section search needs. It does not hold for a solid area that `Rect::cropped` has collapsed to
  column 0 but that still has rows: the search takes the translucent edge for solid (`Repaint.CollapsedSolidArea`). The rows of the solid area are rows of the display,
  `0 <= solid.y1 && solid.y2 <= height` (`View.WellFormed`), although `set_solid_area` stores any rectangle
  (`drivers/DesktopManager.cpp:856`). The background colour depends on the row alone.
- Heap: `headerSize > 0`, a page is larger than a header, and the alignment divides 2^32, as powers of two up to it do; the
  page source answers with nothing or with whole pages that hold no byte the pool was ever given (`MemoryPool.FreshRun`).
  Alignment results are for a header and a page that are multiples of the alignment (`RightlySized`).
- Drivers: while a driver starts or stops no other asks for anything, and only active or starting drivers ask.
- Video modes: the size of the mode asked for, `width * height * 4`, and in the fallback the square of its height fit the
  type (`VideoMode.InRange`).
- Scheduler: a thread handed to `add_thread` refers to that scheduler, and the kernel thread is on no list.
- Concurrency is sequentially consistent.

## Model

| member | source | states |
|---|---|---|
| Geometry.IntersectContains | common/graphics2d/Rect.hpp:11-59 | the intersection of two rectangles holds exactly the points of both, even though an empty result is moved to the origin |
| Geometry.OffsetContains | common/graphics2d/Rect.hpp:11-59 | an offset rectangle holds exactly the shifted points |
| View.CoversIff | drivers/DisplayManager.hpp:96-118 | a visible display covers exactly its rectangle without what the four corners cut off: the top ones on the first 16 rows down to the middle, the bottom ones on the last 16 of the other rows, none beyond the middle column |
| View.CompositeOfTop | drivers/DisplayManager.cpp:200-270 | displays above the topmost one at a pixel have no part in its value |
| View.SkipNonCovering | drivers/DisplayManager.cpp:221-270 | a display that does not reach a pixel can stand anywhere in the stack without changing blending or composite there |
| View.SolidTopValue | drivers/DisplayManager.cpp:851-947 | where the topmost display is solid the composite is its own pixel |
| Screen.TopmostWins | drivers/DisplayManager.cpp:457-466 | on a right screen an opaque topmost pixel is on the screen unchanged |
| DisplayManager.Manager.NarrowToVisible | drivers/DisplayManager.cpp:864-930 | the walk over the displays above splits the rest of a row into a hidden lead, a visible stretch and a hidden tail, and always gets ahead |
| DisplayManager.Manager.PaintSolidRow | drivers/DisplayManager.cpp:864-945 | a row's copies are ascending disjoint stretches that make up exactly the pixels no visible display above covers; by the record of writes each of these pixels is written once and no other at all |
| DisplayManager.Manager.UpdateDisplaySolidArea | drivers/DisplayManager.cpp:829-947 | the solid pass redraws exactly the pixels of the rectangle that show a solid part of the display; those on the screen are written once, and no other pixel at all |
| DisplayManager.Manager.NarrowToBare | drivers/DisplayManager.cpp:574-597 | all that the background scan passes by on its way is covered, and what it is about to fill no display covers |
| DisplayManager.Manager.UpdateBackgroundArea | drivers/DisplayManager.cpp:558-642 | exactly the pixels that the scan fills become background, every other pixel stays, and no covered pixel is among them |
| Background.FillsOnlyBare | drivers/DisplayManager.cpp:574-637 | what the scan of a row fills is in the row and covered by no display |
| Background.FillsAllIff | drivers/DisplayManager.cpp:574-637 | a row is filled wherever it is bare if and only if in every round all between the end of the stretch and the first listed display that cut it is covered |
| Background.SeamlessIff | drivers/DisplayManager.cpp:572-640 | the scans of a row fill all that is bare, wherever they begin and end, if and only if no display right of a bare column is listed before one left of it in a place where a scan can meet both first |
| Background.LeftToRightIsGapFree | drivers/DisplayManager.cpp:574-637 | displays listed from left to right are no trap and leave no gap |
| Background.JumpsOverAGap | drivers/DisplayManager.cpp:592-595 | with the right one of two displays listed first the gap between them is not filled |
| Background.FillingFacts | drivers/DisplayManager.cpp:558-642 | filling touches no covered pixel, and turns every bare pixel of a row without a gap, or of a seamless one, into background |
| Background.HideRefreshes | drivers/DisplayManager.cpp:819-827 | for hiding it is enough to redraw beneath the display and to clear its rectangle |
| Background.DestroyRefreshes | drivers/DisplayManager.cpp:1090-1099 | for destroying it is enough to redraw and to clear the rectangle |
| Background.MoveRefreshes | drivers/DisplayManager.cpp:646-677 | for moving it is enough to redraw and to clear the strips and the new place |
| DisplayManager.Manager.UpdateAreaSolid | drivers/DisplayManager.cpp:457-466 | the solid pass over an area redraws exactly the solid pixels shown by displays below the given one |
| DisplayManager.Manager.FindSection | drivers/DisplayManager.cpp:272-369 | the section from x has one topmost display, or none, and one answer to being inside its solid area; it is not empty while a display shows; the display found is topmost where it starts |
| DisplayManager.Manager.UpdateRowTransparency | drivers/DisplayManager.cpp:383-452 | the section walk ends and redraws exactly the translucent pixels of the row |
| DisplayManager.Manager.UpdateAreaTransparency | drivers/DisplayManager.cpp:377-455 | the translucent pass redraws exactly the translucent pixels of the area that are on the screen |
| DisplayManager.Manager.BlendingAt | drivers/DisplayManager.cpp:221-270 | the walk down computes the blending of the displays beneath the given one over the background |
| DisplayManager.Manager.TranslucentPixel | drivers/DisplayManager.cpp:400-413 | a translucent pixel comes out as its composite value |
| DisplayManager.Manager.UpdateArea | drivers/DisplayManager.cpp:371-374 | both passes together redraw what shows of the displays beneath the given one and everything translucent, inside the rectangle, and on seamless rows all that is bare in it becomes background |
| DisplayManager.Manager.Create | drivers/DisplayManager.cpp:80-133 | a new display is centred, with the room in front and behind it the same up to one pixel, or at the top if it is too high; it is hidden, and goes behind the last one whose layer is not above its own; the screen and the background stay right |
| DisplayManager.Manager.Destroy | drivers/DisplayManager.cpp:1083-1100 | the display is off the list, the others stay, and repainting its rectangle keeps the screen right and brings the background back on seamless rows; a second time does nothing |
| DisplayManager.Manager.Move | drivers/DisplayManager.cpp:646-677 | with update the screen is right again after a move, and what the display left bare is background on seamless rows; without, only the display's new rectangle may be wrong; no other display changes |
| DisplayManager.Manager.RepaintVacated | drivers/DisplayManager.cpp:650-668 | the up to four strips cover what the display left |
| DisplayManager.Manager.RaiseInList | drivers/DisplayManager.cpp:754-770 | the display ends up behind the last other of its layer or lower, and stays where it is if it tops its layer |
| DisplayManager.Manager.Raise | drivers/DisplayManager.cpp:754-776 | raising keeps the screen, the background and the order of layers right, and changes the list only by lifting the one display |
| DisplayManager.Manager.Show | drivers/DisplayManager.cpp:806-817 | with update the screen and the background are right after a display appears; without, only its rectangle may be wrong; no other display changes |
| DisplayManager.Manager.Hide | drivers/DisplayManager.cpp:819-827 | repainting below the hidden display keeps the screen right and brings the background back on seamless rows; no other display changes |
| DisplayManager.Manager.Run | drivers/DisplayManager.cpp:646-827 | any run of creating, destroying, moving, raising, showing and hiding leaves every covered pixel at its composite value, and a row that showed background wherever it was bare still does if it is seamless in every stack of the run; the stacks are those the operations make |
| Screen.OneChanged | drivers/DisplayManager.cpp:819-827 | a change of one display affects no pixel that it does not reach, or that a solid display above hides |
| Repaint.HideRepairs | drivers/DisplayManager.cpp:819-827 | redrawing the hidden display's rectangle beneath it is enough |
| Repaint.DestroyRepairs | drivers/DisplayManager.cpp:1090-1099 | redrawing the destroyed display's rectangle is enough |
| Repaint.ShowRepairs | drivers/DisplayManager.cpp:806-817 | redrawing the shown display's solid part and the translucent pixels of its rectangle is enough |
| Repaint.MoveRepairs | drivers/DisplayManager.cpp:646-677 | redrawing the vacated strips and the new place is enough |
| Repaint.RaiseRepairs | drivers/DisplayManager.cpp:754-776 | redrawing the raised display's solid part and the translucent pixels of its rectangle is enough |
| Repaint.AheadIsRightIff | drivers/DisplayManager.cpp:306-342 | seen from everywhere, what the search says of a display's nearest section is true, if and only if the display's left edge is clear on the row |
| Repaint.CollapsedSolidArea | common/graphics2d/Rect.hpp:39-58 | with a solid area collapsed to no width at column 0 the search takes the translucent edge of the display for solid |
| Repaint.ShowsStep | drivers/DisplayManager.cpp:868-945 | one round of the row scan adds exactly the visible stretch to what shows |
| Compositing.Premultiply | common/graphics2d.hpp:21-29 | no channel of a premultiplied colour exceeds its opacity; opaque colours stay and fully transparent ones turn black |
| Compositing.LayerFits | drivers/DisplayManager.cpp:236-262 | a layer keeps channel plus remaining visibility within a byte, so that its clamp changes nothing |
| Compositing.AccumulateIsExact | drivers/DisplayManager.cpp:221-270 | over any depth of premultiplied layers no clamp changes a value and no addition overflows |
| Compositing.BlendingIsSum | drivers/DisplayManager.cpp:221-270 | for any displays, premultiplied or not: every layer adds its colour times what is seen through those above it, the sum is cut at 255, and the background is added the same way, modulo 256 |
| Compositing.BlendBits | common/graphics2d.hpp:31-39 | for any two colours each byte of the blend is that channel's sum, with its lowest bit set if the channel below ran over |
| Compositing.TranslucentValue | drivers/DisplayManager.cpp:400-413 | where a translucent display is on top the screen shows its pixel blended over the sum of the layers beneath, for any stack |
| Compositing.BlendWithoutCarry | common/graphics2d.hpp:31-39 | blending a premultiplied colour carries nothing between channels |
| Compositing.NothingCarriesIff | common/graphics2d.hpp:31-39 | a colour blends over everything without a carry if and only if it is premultiplied |
| Compositing.BlendCarriesOtherwise | common/graphics2d.hpp:31-39 | a pair of colours, the upper one not premultiplied, whose blend carries into the next channel |
| Compositing.TranslucentPixelIsExact | drivers/DisplayManager.cpp:404-411 | the value of a translucent pixel is the plain blend over the unclamped sum of the layers beneath |
| MpscFifo.StepInv | common/MpscFifo.hpp:34-58 | every step of every participant keeps the invariant of the linked chain |
| MpscFifo.TouchedIsLive | common/MpscFifo.hpp:34-58 | in an invariant state no step reads, writes or deletes a deleted node |
| MpscFifo.QueueIsSafe | common/MpscFifo.hpp:34-58 | in every run the popped items are a prefix of the order of exchanges, none twice; no step touches a deleted node; and of the popped items exactly the last is still there, until the next pop deletes it |
| MpscFifo.StepRefines | common/MpscFifo.hpp:34-49 | each step is a step of an atomic queue; null comes back only if that queue is empty or its head is exchanged but not linked |
| MpscFifo.NothingIff | common/MpscFifo.hpp:39-49 | a pop comes back with nothing if and only if the queue is empty or, at the load, its head is exchanged but not linked; otherwise the load finds the head |
| MpscFifo.PopTakesHead | common/MpscFifo.hpp:39-49 | a pop hands out the head, whatever pushes are in flight behind it, unless the queue is empty or the push of the head itself is not finished |
| MpscFifo.PushDelivers | common/MpscFifo.hpp:34-37 | a push puts its item at the end of the queue, no longer in flight, whatever else is in flight |
| MpscFifo.OthersLeaveConsumer | common/MpscFifo.hpp:34-58 | producers never move the consumer, and only its last step hands out an item, the head |
| MpscFifo.NobodyWaits | common/MpscFifo.hpp:34-58 | a producer can always begin and always finish a push, and the consumer can always go on |
| MpscFifo.PopKnownIsSafe | common/MpscFifo.hpp:51-58 | pop_known follows no null pointer exactly when there is a linked item |
| MpscFifo.ClearEmpties | common/MpscFifo.hpp:24-27 | with no push in flight clear hands out everything and leaves the one node the destructor deletes |
| LList.LList.PushFront | common/LList.hpp:13-27 | the item becomes the first of the sequence; links, ends, size and distinctness stay right |
| LList.LList.PushBack | common/LList.hpp:29-44 | the item becomes the last of the sequence |
| LList.LList.PopFront | common/LList.hpp:46-61 | the first item comes off, or null if there is none |
| LList.LList.Pop | common/LList.hpp:81-97 | the item comes out of its place, wherever that is |
| LList.LList.InsertBefore | common/LList.hpp:111-123 | the item goes in front of the given one |
| LList.LList.InsertAfter | common/LList.hpp:125-137 | the item goes right behind the given one |
| LList.LList.Clear | common/LList.hpp:99-109 | every item loses its links, both ends stay, and what is left stands for some list if and only if there was nothing to clear |
| LList.LList.Contains | common/LList.hpp:139-144 | true exactly for the members |
| LList.LList.Length | common/LList.hpp:146-150 | counts what `size` holds, modulo 2^32 |
| LList.LList.Check | common/debugUtils.hpp:9-43 | whatever the links, the walks end, and they find nothing wrong if and only if there is a sequence of distinct items for which the ends, the size and every link are right |
| Blocks.SplitTiles | common/MemoryPool.hpp:62-74 | cutting a block in two tiles the same bytes |
| Blocks.MergeTiles | common/MemoryPool.hpp:296-298 | joining two adjacent blocks tiles the same bytes |
| Blocks.GrowTiles | kernel/memory/PagedPool.hpp:112-120 | a fresh block adds exactly its bytes |
| MemoryPool.AlignFacts | common/MemoryPool.hpp:55 | align rounds up to the next multiple and leaves multiples alone |
| MemoryPool.MemoryPool.constructor | kernel/memory/PagedPool.hpp:20-22 | the heap starts valid and owns nothing |
| MemoryPool.MemoryPool.SearchForwards | common/MemoryPool.hpp:59-61 | finds the first block that fits, the smallest of a sorted list, or none |
| MemoryPool.MemoryPool.SearchBackwards | common/MemoryPool.hpp:84-86 | finds the same block as the forward search |
| MemoryPool.MemoryPool.Search | common/MemoryPool.hpp:57-86 | from either end, the block chosen is the first and smallest that fits |
| MemoryPool.MemoryPool.ClaimBlock | common/MemoryPool.hpp:200-264 | the block goes where the list stays sorted, from either end |
| MemoryPool.MemoryPool.CarveBlock | common/MemoryPool.hpp:62-74 | the block leaves the free list, and the low 32 bits of its tail return when they are worth keeping; nothing else changes there |
| MemoryPool.GrantedIsCutWell | common/MemoryPool.hpp:65-73 | a block is handed out whole or cut to what is looked for, and cut exactly if the low 32 bits of the rest are more than a header and no less than the alignment; so at most a header or an alignment is wasted of a block with less than 4 GiB to spare |
| MemoryPool.RequiredIs | common/MemoryPool.hpp:55 | what is looked for is less than an alignment above the size, and no less than it if both fit 32 bits |
| MemoryPool.FitIs | common/MemoryPool.hpp:59-61 | a block fits if it is at least as large, the first that does has none before it |
| MemoryPool.LosesTheEnd | common/MemoryPool.hpp:65-73 | what a split loses is the end of the block, a multiple of 2^32 bytes |
| MemoryPool.PagesForFits | kernel/memory/PagedPool.hpp:24-106 | the pages asked for are enough, and one page fewer would not be |
| MemoryPool.RunBytesAre | kernel/memory/PagedPool.hpp:112-120 | a granted run of pages brings exactly its own bytes |
| MemoryPool.MemoryPool.AvailableWordIs | common/MemoryPool.hpp:41 | the counter of free bytes, when it falls below zero, has wrapped around |
| MemoryPool.NarrowKeepsLowBits | common/MemoryPool.hpp:55 | an `unsigned` keeps the low 32 bits |
| MemoryPool.LosesNothingIff | common/MemoryPool.hpp:65-73 | no byte of the block found is lost if and only if the remainder is below 2^32, or its low 32 bits are too few to split the block for |
| MemoryPool.LosesFourGibibytes | common/MemoryPool.hpp:65-73 | a free block of 6 GiB cut for 16 bytes: exactly 4 GiB of it are on no list afterwards |
| MemoryPool.GrantedSufficesIff | common/MemoryPool.hpp:55 | whatever block is found, enough is granted, if and only if the size asked for, rounded up, is below 2^32 |
| MemoryPool.MemoryPool.Malloc | common/MemoryPool.hpp:46-113 | fails exactly when no block fits on entry, after compacting if that could help; else hands out the first and smallest that fits, whole or cut so that little is wasted (`CutWell`), at an aligned address; the free list then is the old one without the block but with its tail; keeps the invariant |
| MemoryPool.MemoryPool.Free | common/MemoryPool.hpp:270-276 | the block of the address, and no other, moves from the live to the free ones |
| MemoryPool.MemoryPool.AbsorbFollowers | common/MemoryPool.hpp:292-302 | the restarting search ends, as each merge shortens the list, and leaves no block behind this one |
| MemoryPool.MemoryPool.SortBlocks | common/MemoryPool.hpp:306-322 | the list comes out sorted with the same blocks |
| MemoryPool.MemoryPool.Compact | common/MemoryPool.hpp:288-326 | sorted, no two free blocks adjacent, the free bytes the same, live blocks untouched; always answers false |
| MemoryPool.FreeBytes | common/MemoryPool.hpp:288-326 | the free blocks hold exactly the owned bytes that no live block holds |
| MemoryPool.MemoryPool.AddPages | kernel/memory/PagedPool.hpp:112-120 | a granted run becomes one free block and its bytes are owned from then on; a refusal changes nothing |
| MemoryPool.MemoryPool.PagedMalloc | kernel/memory/PagedPool.hpp:24-106 | asks for pages at most once; not at all exactly when `available` suffices and a block fits; yields null exactly when the page source refused; else a block at least as large as what is looked for; says which bytes came in and which were lost |
| PodArray.RemovedIsDeletedIff | common/PodArray.hpp:64-83 | remove deletes its index exactly when that is not the front of two or more elements that differ |
| PodArray.RemovedFront | common/PodArray.hpp:64-68 | removing the front of a longer array keeps it, moves the others up by one and drops the last two |
| PodArray.PodArray.PushBack | common/PodArray.hpp:44-49 | appends, growing when needed |
| PodArray.PodArray.Insert | common/PodArray.hpp:121-136 | inserts at the index, in place or in a larger array |
| PodArray.PodArray.Remove | common/PodArray.hpp:64-83 | computes Removed in place, with memmove in the direction the code uses |
| PodArray.MoveWithin | common/stdlib.cpp:72-87 | overlapping moves copy the old elements in either direction |
| Ranges.CanonicalUnique | kernel/DriverApi.cpp:107-188 | a set of bytes has only one canonical list |
| Ranges.MeetsIffShared | kernel/DriverApi.cpp:196-210 | the overlap test of a non-empty range is true exactly when the byte sets meet |
| Ranges.MergeFacts | kernel/DriverApi.cpp:127-152 | replacing all touched ranges by their hull adds exactly the new bytes and keeps the list canonical |
| DriverApi.DriverApi.IsSubscribedToMemory | kernel/DriverApi.cpp:196-210 | true exactly if some range overlaps |
| DriverApi.DriverApi.AddRange | kernel/DriverApi.cpp:125-152 | adds exactly [start, end) and keeps the list canonical |
| DriverApi.DriverApi.SubscribeMemory | kernel/DriverApi.cpp:107-158 | refused exactly if the range overlaps the heap or another active driver's memory; adds exactly the range, or nothing |
| DriverApi.DriverApi.UnsubscribeMemory | kernel/DriverApi.cpp:160-188 | for every list without overlaps, canonical or not: removes exactly [start, end) if and only if the first range is not covered or all bytes end by `end`; with the first range covered the whole list is gone; a canonical list stays canonical |
| DriverApi.CutStep | kernel/DriverApi.cpp:165-186 | cutting one range leaves its left half, its right half, both or nothing, in order |
| DriverApi.CoveredLoss | kernel/DriverApi.cpp:173-175 | losing the whole list is right exactly when no range with a byte in it ends later; for a canonical list, when its last range is covered |
| DriverApi.DriverApi.SubscribePci | kernel/DriverApi.cpp:212-228 | succeeds exactly if the driver holds the device or nobody does; the device is on the driver's list from then on, behind those that were there, and a refusal adds nothing |
| DriverApi.DriverApi.UnsubscribePci | kernel/DriverApi.cpp:230-237 | leaves what the code's remove leaves |
| DriverApi.DriverApi.SubscribeIoPort | kernel/DriverApi.cpp:258-269 | succeeds exactly if the driver holds the port or nobody does; the port is on the driver's list from then on, behind those that were there, and a refusal adds nothing |
| DriverApi.DriverApi.UnsubscribeIoPort | kernel/DriverApi.cpp:271-278 | leaves what the code's remove leaves |
| DriverApi.ReleasedIff | kernel/DriverApi.cpp:230-237 | unsubscribing never adds a holding; lets go of the device exactly when it is listed once and not at the front of a longer list; and takes out that entry and keeps all others exactly when it is not at the front of a longer list of different ones |
| DriverApi.FrontReleaseLosesAnother | kernel/DriverApi.cpp:230-237 | of three devices, letting go of the first keeps it twice and loses the last |
| DriverApi.CoveredFirstLosesAll | kernel/DriverApi.cpp:173-175 | a driver that gives back the first of two ranges loses the other one |
| DriverApi.Drivers.Perform | kernel/DriverApi.cpp:107-290 | a request makes of the driver's holdings what Performed says, changes no other driver's, and keeps ownership exclusive |
| DriverApi.Drivers.Start | kernel/DriverApi.cpp:293-310 | a started driver holds what its requests add up to, a failed start holds nothing, starting an active driver changes nothing, and ownership stays exclusive |
| DriverApi.Drivers.Stop | kernel/DriverApi.cpp:312-331 | a stopped driver holds nothing; one that fails to stop stays active with what the requests of its _on_stop left it; ownership stays exclusive |
| DriverApi.Drivers.Fail | kernel/DriverApi.cpp:343-353 | a failed driver holds nothing |
| DriverApi.Drivers.Run | kernel/DriverApi.cpp:107-353 | over any run each device and port has at most one holder, memory of distinct drivers is disjoint and misses the heap, and only active drivers hold anything; the books go from one event to the next as the event says, and change for its driver alone |
| Scheduler.StepKeepsWellFormed | drivers/CpuScheduler.cpp:19-139 | no thread is ever on two lists or twice on one |
| Scheduler.StepMoves | drivers/CpuScheduler.cpp:19-139 | who is on which list after a step: only the thread of the step changes its list, to the one the step is for |
| Scheduler.StepOrders | drivers/CpuScheduler.cpp:19-139 | the order after a step: a thread that joins a list is its last, a yielding thread goes behind all others, the front of the active list is current, or the kernel thread if there is none |
| Scheduler.StepBringsNearer | drivers/CpuScheduler.cpp:64-139 | nothing that happens to others sets a waiting thread back, and every yield brings it nearer or makes it current |
| Scheduler.BoundedWaiting | drivers/CpuScheduler.cpp:64-103 | an active thread at place k becomes current by yield k + 1, whatever is added, paused, put to sleep or resumed in between |
| Scheduler.CpuScheduler.AddThread | drivers/CpuScheduler.cpp:19-35 | the thread goes to the end of the list of its state |
| Scheduler.CpuScheduler.Yield | drivers/CpuScheduler.cpp:64-103 | afterwards the current thread is the front of the active list and active, or the kernel thread exactly if no thread is active; each thread is on the list of its state |
| Scheduler.CpuScheduler.OnThreadSleep | drivers/CpuScheduler.cpp:111-124 | moves the thread to the sleepers with its timer id |
| Scheduler.CpuScheduler.OnThreadPaused | drivers/CpuScheduler.cpp:126-129 | moves the thread to the paused ones |
| Scheduler.CpuScheduler.OnThreadPausedResumed | drivers/CpuScheduler.cpp:131-134 | moves the thread back to the end of the active ones |
| Scheduler.CpuScheduler.OnThreadSleepingResumed | drivers/CpuScheduler.cpp:136-139 | moves the thread back to the end of the active ones |
| Scheduler.Thread.Sleep | kernel/Thread.cpp:23-31 | only an active thread with a scheduler goes to sleep, and remembers its timer |
| Scheduler.Thread.Pause | kernel/Thread.cpp:33-43 | only an active thread is paused; without a scheduler only its state changes |
| Scheduler.Thread.Resume | kernel/Thread.cpp:45-66 | sleeping and paused threads become active, terminated ones do not |
| Scheduler.Thread.TimerFired | drivers/CpuScheduler.cpp:116-123 | a timer wakes only a thread that still sleeps on that very timer |
| EventEmitter.EventEmitter.Subscribe | common/EventEmitter.hpp:42-49 | appends and starts a new generation |
| EventEmitter.EventEmitter.Unsubscribe | common/EventEmitter.hpp:51-63 | removes the first match and starts a new generation only if there is one |
| EventEmitter.EventEmitter.UnsubscribeAll | common/EventEmitter.hpp:65-71 | empties the list and starts a new generation |
| EventEmitter.EventEmitter.Trigger | common/EventEmitter.hpp:73-103 | undisturbed, a trigger calls the live subscribers in order, cached or copied |
| EventEmitter.StepInv | common/EventEmitter.hpp:41-103 | every step keeps the invariant: matching generations mean matching lists, the flag is set exactly while one frame uses the cache |
| EventEmitter.SubscriptionEffects | common/EventEmitter.hpp:41-71 | subscribing appends, unsubscribing takes out the first match or nothing, and only a change of the list starts a new generation |
| EventEmitter.EnterEffect | common/EventEmitter.hpp:74-89 | a trigger works on its own copy if and only if another is inside the cache |
| EventEmitter.LockEffect | common/EventEmitter.hpp:78-96 | with the lock held a trigger takes the live list, refreshed in the cache or copied |
| EventEmitter.CallEffect | common/EventEmitter.hpp:82-99 | a trigger calls the next of its list and changes nothing else |
| EventEmitter.LeaveEffect | common/EventEmitter.hpp:82-102 | a trigger leaves when it has called all, and opens the cache if it was the one inside |
| EventEmitter.FrameGoesOn | common/EventEmitter.hpp:73-103 | a trigger can always call the next or leave |
| EventEmitter.CacheStays | common/EventEmitter.hpp:88-102 | no step changes the cache while a frame runs over it |
| EventEmitter.RunNeverFaults | common/EventEmitter.hpp:82-99 | no trigger loop ever reads past its list |
| EventEmitter.CallsItsSnapshot | common/EventEmitter.hpp:73-103 | every trigger, nested or concurrent, calls in order exactly the subscribers live when it held the lock |
| EventEmitter.OneCacheUser | common/EventEmitter.hpp:74-102 | at most one frame at a time uses the cache |
| Bitmask.Bitmask256.Set | common/Bitmask.hpp:105-110 | changes the one bit and no other |
| Bitmask.Bitmask256.Get | common/Bitmask.hpp:101-103 | tells whether the bit is in the set |
| Bitmask.Bitmask256.Clear | common/Bitmask.hpp:112-117 | empties the set |
| Pci.Pci.ScanBus | drivers/x86/system/Pci.cpp:54-75 | ends on every graph; finds only buses reachable from its bus, finds every bus behind them, and adds each of their listed functions once |
| Pci.Pci.ScanFunction | drivers/x86/system/Pci.cpp:77-114 | lists a present function once, after everything behind its bridge |
| Pci.ClosedHoldsPath | drivers/x86/system/Pci.cpp:86-91 | buses that no bridge leads out of hold all that is reachable from them |
| Pci.PresentIff | drivers/x86/system/Pci.cpp:58-62 | a function is there exactly if its vendor id is not FFFFh |
| Pci.MultiFunctionIff | drivers/x86/system/Pci.cpp:64-65 | a device has several functions exactly if bit 7 of the header type of function 0 says so |
| Pci.BridgeIff | drivers/x86/system/Pci.cpp:84-89 | a function is a bridge exactly if class and subclass are 06h and 04h |
| Pci.SecondaryIs | drivers/x86/system/Pci.cpp:90 | the bus behind a bridge is the second byte of register 18h of function 0 |
| Pci.ListedIff | drivers/x86/system/Pci.cpp:57-83 | of 32 devices with 8 functions each, function 0 is listed if it is there, the others if function 0 is there too and has the bit set |
| Pci.BridgeReadsFunction0 | drivers/x86/system/Pci.cpp:90 | a bridge that is not function 0, with another bus in its own register than in that of function 0 |
| Pci.Pci.Start | drivers/x86/system/Pci.cpp:236-257 | scans exactly the buses reachable from the roots and lists every present function of each exactly once |
| Pci.RootsAreIntendedIff | drivers/x86/system/Pci.cpp:236-257 | the roots are those a test of the header type would give if and only if both bits agree or device 0 has function 0 and no other |
| Pci.RootTestReadsAnotherByte | drivers/x86/system/Pci.cpp:239-240 | a host that only its header type calls multi-function, with a function 1, is walked from bus 0 alone, although bus 1 should be a root |
| Maths.HalfwayStaysAbove | common/maths.hpp:47 | a Newton step never goes below the root |
| Maths.Sqrt | common/maths.hpp:44-51 | for unsigned types at least as wide as int: ends with the whole part of the root for everything below the type's maximum, and divides by zero exactly for the maximum |
| VideoMode.BitsPerPixel | drivers/x86/graphics/BochsVga.cpp:217-224 | the switch yields 32 for every format, and the depth of the format exactly for rgba8 |
| VideoMode.FitMemory | drivers/x86/graphics/BochsVga.cpp:246-250 | the height is the root of the pixels scaled to the shape, the width follows from it; the product on the way to it stays in range |
| VideoMode.FallbackFits | drivers/x86/graphics/BochsVga.cpp:246-250 | the fallback mode fits the video memory |
| VideoMode.FallbackShape | drivers/x86/graphics/BochsVga.cpp:246-250 | the height of the fallback is the largest whose square the pixels scaled to the shape hold, and the width is the largest multiple of 8 within the shape |
| VideoMode.FallbackShrinks | drivers/x86/graphics/BochsVga.cpp:246-250 | at 4 bytes per pixel the fallback is not wider or higher than what was asked for |
| VideoMode.FallbackWithinIff | drivers/x86/graphics/BochsVga.cpp:246-250 | exactly when the fallback stays within the width and height the hardware can do, in terms of the request, the memory and the hardware alone |
| VideoMode.FallbackBeyondHardware | drivers/x86/graphics/BochsVga.cpp:246-250 | a request whose fallback does not |
| VideoMode.ChooseMode | drivers/x86/graphics/BochsVga.cpp:212-250 | every mode set has a width that is a multiple of 8 and fits the memory; without leave to suggest it is the one asked for; refused exactly in the listed cases |
| CliPath.ResolvePath | kernel/Cli.cpp:42-84 | computes Resolve |
| CliPath.ResolveLaws | kernel/Cli.cpp:43-63 | nothing and one dot stay, a slash starts over from the root, and two dots with more to come go up first |
| CliPath.DownLaws | kernel/Cli.cpp:64-84 | a name goes down, with a slash unless at the root, and what follows it goes on from there |
| CliPath.UpLaws | kernel/Cli.cpp:50-60 | two dots take off the last segment and its slash, and stay at the root |
| CliPath.ResolveIsFoldIff | kernel/Cli.cpp:42-84 | resolution is the fold of the second path's segments on the stack of the first, for every second path, exactly when the first does not start with a slash |
| CliPath.ResolveKeepsNormal | kernel/Cli.cpp:42-84 | normal paths lead to normal paths |
| CliPath.ResolveTwice | kernel/Cli.cpp:42-84 | resolving a result again from the root changes nothing |
| CliPath.ResolveInSteps | kernel/Cli.cpp:42-84 | resolve(resolve(a, b), c) is resolve(a, b/c) for any a and any b that is not empty and does not end in a slash |
| CliPath.DoubleSlashStartsOver | kernel/Cli.cpp:48 | an empty segment in the middle starts over from the root |

## Left out

- Display manager: several framebuffers, scales above 1, the argb byte order and the chunked pixel buffer of the translucent pass; 32-bit overflow of coordinates; changing a display's pixels, solid area, size or layer, and placing below or above another.
- DisplayManager.Manager.Run: promises background only on rows that are seamless after every operation, because the background scan can jump over a gap.
- MpscFifo: memory orders weaker than sequential consistency.
- MemoryPool.MemoryPool.Malloc: `malloc_fixed_size`, its `free` and the constructor over a given range are left out.
- MemoryPool.MemoryPool.PagedMalloc: the base and the derived pool are one class; the page source is a parameter.
- LList: `pop_back`, which names a member that a list item does not have.
- DriverApi.DriverApi.SubscribeMemory: mapping the memory, and the wrap-around of `start + size`, are left out.
- DriverApi.Drivers.Run: interrupts, IRQs, device enable bits and the termination of references are left out, and so are drivers that start others from their own start.
- Scheduler: termination, removal, priorities and time slices.
- EventEmitter.EventEmitter.Trigger: the model with other frames in between is the state machine; wrap-around of the 32-bit generations is left out.
- Pci.Pci.ScanFunction: stops at the device record; sizes of base address registers are left out.
- Bitmask: the smaller masks and the first-bit searches.
- VideoMode.ChooseMode: registers, the early return for a mode already set and rolling back are left out; overflow is excluded and the hardware is taken to support at least 8 bits per pixel.
- CliPath: running commands and the prompt.
