# Firmware cores: DMA over a write-back cache, intrusive lists, devices, flash, registers

This project models the parts of a Wi-Fi/camera SoC firmware whose correctness
depends on more than one function, and proves what they are for.

- **DMA helpers over a write-back data cache** (`Bits`, `Lines`, `CacheRange`,
  `CacheModel`, `CachedMachine`, `Dma`, `DmaFill`, `DmaEndian`, `AddressWindow`,
  `EndBlocks`, `CacheDeal`).
  A machine has memory and a partial map of cached lines with dirty bits. The
  CPU sees a line where it is cached and memory elsewhere, a DMA engine sees
  memory only, and any CPU access may evict or fill lines. The line size is a
  parameter that divides 32 (16 on the C-SKY core, 32 on the RISC-V core). The
  result: for every alignment, length and cache state, what the CPU sees after
  `dma_memcpy` or `dma_memcpy_endian` is a plain or swapped copy, with not one
  byte changed elsewhere, although lines are dropped unread and DMA bypasses the
  cache; after `dma_memset` it is a fill exactly when the size fits a signed
  word; and `cache_deal_invalid` and `cache_deal_writeback` leave the bytes
  around an unaligned buffer alone exactly when it has an uncached window. The
  maintenance loops of both cores are proved to name exactly the right lines,
  with the exact condition on address and size under which they do.
- **Intrusive lists** (`CircularList`, `Hlist`): heap objects whose links are
  reassigned in place, each operation proved against a sequence.
- **Device registry** (`Ledger`, `PmHistory`, `DeviceRegistry`) and **hot-plug
  table** (`HotplugTable`): linked lists with a ghost history of holds and of
  power transitions; invariants over every run of register, unregister, get,
  put, suspend and resume.
- **NOR flash writes** (`SpiNor`): page-wise program calls make one flat write.
- **Packed registers** (`Pmp`, `Mpu`, `Vic`): encodings decode to what was asked
  for, index by index, over any run of calls.
- **Fresh file names** (`FileName`): parse, maximum and print.

Loops and field updates of the source are loops and field updates here; ghost
parameters and fields name the abstract value each method is proved against.

## What the model takes for granted

- A transfer is complete when the call returns, and lines are filled or evicted
  only at CPU accesses. The local buffers of the helpers (`dma_buf`,
  `xfer_data`, `val`) lie outside the modelled memory.
- Address plus length does not wrap, and buffers lie in memory. Source and
  destination of a copy are disjoint as byte ranges.
- `sys_dcache_clean_range` and `sys_dcache_invalid_range` are not part of this
  model's sources; they get the behaviour proved for the `csi_dcache_*_range`
  loops, one line at a time (`Dma.CallsName803` and `Dma.CallsNameRv32` connect
  the two).
- The transfer with `DMA_XFER_MODE_RECYCLE` repeats the four bytes of the word,
  starting at a byte phase that is a parameter.
- `cache_deal_*` clears the top four bits of the buffer's address. An `Alias`
  says which cached addresses have an uncached window at the address so masked;
  `lo == hi` is a machine without one. A store to the window goes straight to
  the memory it stands for, past the cache; any other address is memory of its
  own. The chip's memory map (sdk/include/chip/txw82x/txw82x.h:177-185, 463)
  gives the external memory 0x28000000-0x30000000 a window at 0x08000000, and
  makes it alone data-cached (`AddressWindow.ChipWindow`); what is cached is
  otherwise chosen at run time (sdk/chip/txw82x/system0.c:93-120). A buffer is
  given by its cached address, not by one in the window; the window's own
  addresses show memory, and are not among the bytes said to keep their values.
- A machine may be `quiet`: its cache has room for every line, so that none is
  evicted or filled unasked. What a call does to every byte is stated for quiet
  machines; what it keeps is stated for all.
- Registry calls are serialised. A device offered for registration is not on
  the list, and is either new and zeroed or still live; `dev_unregister` is
  called on registered devices and `dev_put` by holders; the eight-bit count
  of a hot-plug device is below 255 when a hold is taken. While a suspend waits,
  whoever keeps the device busy stops after finitely many sleeps.
- A hook's answers are given as the set of devices for which it answers yes,
  which loses nothing since a walk asks about each device at most once. A
  hot-plug callback's answer may depend on the node in any way.
- The flash has whole pages and the written range lies in it. The program
  command clears bits cell by cell and wraps inside a page.
- PMP: sizes up to 4 GB and the two address modes the header names. Names in a
  scanned directory have stems of fewer than 32 characters, as `a2i`'s buffer
  demands, and the directory path fits the path buffer.

## Where a property has an exact condition

- The C-SKY range loops take the signed remainder of the address. They name
  exactly the lines of the range if and only if `Names803` holds: for a
  positive size, the address is below 2^31 or line aligned, and the size plus
  the offset in the line is below 2^31. `UpperHalfMissesLast` says what goes
  wrong otherwise: the last line, and only it, is missed. For an empty range
  the size plus the offset must not be positive, nor wrap to it.
- The unsigned remainder of the RISC-V loops leaves only the size condition.
- `dma_memset_word` hands a pointer difference to a signed size. From every
  coherent cache the buffer ends up filled if and only if `Fits` holds: at most
  64 bytes, or `n - 64 + dst % 32 < 2^31` (`FillsExactly`). Otherwise the
  invalidation names no line, and a dirty line of the middle goes on being seen
  over what the engine wrote (`StaleSeen`). In the copying helpers two disjoint
  buffers always satisfy it (`DisjointFits`).
- Its pieces join for every word if and only if the engine's phase agrees with
  the destination's, or there is no middle (`PiecesJoin`).
- The source's comment that the last line may not be invalidated is settled by
  `MiddleLines`: the last line named lies inside the buffer, and no byte the
  engine touches is on any other line.
- `cache_deal_invalid` keeps every byte outside the buffer, from every coherent
  cache, if and only if its rounded range has a window throughout
  (`InvalidKeepsExactly`). Where the address is below 0x10000000, or only the
  first block has one, a dirty byte at the end of the range is lost
  (`LastLost`).
- `cache_deal_writeback` changes no view if and only if the range has a window
  throughout or starts below 0x10000000, where each block is copied onto itself
  (`WritebackKeepsExactly`). Anywhere else both functions overwrite a block at
  another address (`StrayTakes`), among them the ranges in the on-chip memory
  and those that cross a 256 MB boundary.
- Configuring an MPU region leaves the reserved bits 6 to 11 of its word as
  they were in the region selected before (`ReservedCarried`).
- The name chosen by `creat_h264_file` is new in every directory whose largest
  number is m if and only if m is below 2^31 (`FreshExactly`): past that the
  index is printed as a negative number or wraps to zero.
- On erased cells one program command does what a flat write does, for all data
  of a length, if and only if it ends inside the page (`FlatExactly`).
- Rewriting one PMP address register moves what another entry covers if and only
  if that is the next entry and its mode is TOR (`OthersKept`).
- Disabling a PMP entry leaves it covering nothing if and only if the size is
  not 4B: the code then turns the mode back on (`ConfigRegion`).
- `list_replace_init` leaves the others in a ring with the new member if and
  only if it is not the old one itself, or there are no others.

## Model

| member | source | states |
|---|---|---|
| CacheRange.Cir.RangeOp | csky/csi_core/include/core_803.h:1208-1239 | the loop unrolled by eight with its remainder loop writes the same command words as a one-line-at-a-time cursor |
| CacheRange.Cir.InvalidRange | csky/csi_core/include/core_803.h:1205-1242 | writes the trace for the invalidate command |
| CacheRange.Cir.CleanRange | csky/csi_core/include/core_803.h:1251-1288 | writes the trace for the clean command |
| CacheRange.Cir.CleanInvalidRange | csky/csi_core/include/core_803.h:1297-1333 | writes the trace for both commands merged |
| CacheRange.UnrollEight | csky/csi_core/include/core_803.h:1214-1233 | one unrolled turn is eight cursor steps |
| CacheRange.WordsAreLines | csky/csi_core/include/core_803.h:1209-1239 | the words decode to consecutive lines and each keeps the command bits |
| CacheRange.Range803Exact | csky/csi_core/include/core_803.h:1205-1333 | exactly the lines meeting the range are named, ascending and each once, if and only if Names803 holds; then the command bits are intact |
| CacheRange.UpperHalfMissesLast | csky/csi_core/include/core_803.h:1208-1209 | an unaligned address in the upper half loses the last line and no other |
| CacheRange.Unnamed803 | csky/csi_core/include/core_803.h:1208-1239 | outside Names803 some line is missed or one too many is named |
| CacheRange.Rv32Cache.RangeOp | csky/csi_core/include/core_rv32.h:1126-1130 | the loop issues one operation for each cursor step |
| CacheRange.Rv32Cache.InvalidRange | csky/csi_core/include/core_rv32.h:1117-1135 | steps from the raw address |
| CacheRange.Rv32Cache.CleanRange | csky/csi_core/include/core_rv32.h:1144-1164 | steps from the address with its low five bits cleared |
| CacheRange.Rv32Cache.CleanInvalidRange | csky/csi_core/include/core_rv32.h:1173-1191 | steps from the raw address |
| CacheRange.Rv32RawIsMasked | csky/csi_core/include/core_rv32.h:1120-1130 | stepping from the raw address names, step for step, the lines that stepping from the masked one does |
| CacheRange.RangeRv32Exact | csky/csi_core/include/core_rv32.h:1117-1191 | exactly the lines meeting the range are named if and only if NamesRv32 holds, in the upper half too |
| Dma.CallsName803 | csky/csi_core/include/core_803.h:1205-1288 | on the ranges the DMA helpers pass, the C-SKY loops name the lines the machine's maintenance acts on |
| Dma.CallsNameRv32 | csky/csi_core/include/core_rv32.h:1117-1164 | the same for the RISC-V loops |
| CacheModel.WriteBackInvisible | sdk/hal/dma.c:116 | cleaning a line keeps the cache coherent and is invisible to the CPU |
| CacheModel.DropReveals | sdk/hal/dma.c:117 | invalidating a line exposes memory on that line only; a byte keeps its value exactly when memory already agreed |
| CacheModel.StoreUncached | sdk/hal/dma.c:120 | DMA writes to uncached lines are seen by the CPU at once |
| CacheModel.UncachedCoherent | sdk/hal/dma.c:120 | and they leave a coherent cache coherent |
| CachedMachine.Machine.Replace | sdk/hal/dma.c:83-90 | any evictions and fills before an access leave the CPU's view alone |
| CachedMachine.Machine.WriteByte | sdk/hal/dma.c:71-73 | a CPU store changes the view at one byte, wherever the line is |
| CachedMachine.Machine.SysDcacheCleanRange | sdk/hal/dma.c:116 | no line of the range stays dirty, other lines and the view are untouched |
| CachedMachine.Machine.SysDcacheInvalidRange | sdk/hal/dma.c:117 | exactly the lines of the range leave the cache, memory is untouched |
| Dma.MiddleLines | sdk/hal/dma.c:85-117 | every line named for the middle lies wholly inside the buffer, and together they hold every byte the engine touches |
| Dma.DisjointFits | sdk/hal/dma.c:116-117 | disjoint buffers give sizes that fit the signed parameter |
| Dma.SourceAgrees | sdk/hal/dma.c:116 | after the clean, memory holds what the CPU sees of the source's middle |
| Dma.OutsideKept | sdk/hal/dma.c:117 | the invalidation changes no byte outside the destination, dirty neighbours included |
| Dma.TransferMiddle | sdk/hal/dma.c:92-120 | clean, invalidate and transfer make the destination's middle the (element-reversed) middle of the source and change nothing outside |
| Dma.Assembled | sdk/hal/dma.c:127-131 | head and tail written over the transferred middle make up the whole copy |
| Dma.CopySmall | sdk/hal/dma.c:68-75 | the byte loop copies |
| Dma.DmaMemcpy | sdk/hal/dma.c:58-132 | the CPU's view becomes the old view with dst replaced by src and no other byte changed, for every alignment, length and cache state |
| DmaFill.FillBytes | sdk/hal/dma.c:174-179 | the byte loop writes byte (a mod 4) of the word at every address a |
| DmaFill.DmaMemsetWord | sdk/hal/dma.c:165-220 | where the size fits, head and tail follow the address, the middle follows the engine's phase and nothing else changes; in general the CPU sees the ends filled and between them memory, or the lines still cached over it |
| DmaFill.PiecesJoin | sdk/hal/dma.c:191-219 | the pieces join for every word if and only if the phase agrees or there is no middle |
| DmaFill.SplatBytes | sdk/hal/dma.c:224 | the word made from c has c in all four bytes |
| DmaFill.FilledSplat | sdk/hal/dma.c:222-226 | filled from that word, the buffer is c throughout in any phase |
| DmaFill.DmaMemset | sdk/hal/dma.c:222-226 | where the size fits, every byte of the buffer is c and no other byte changes; in general as dma_memset_word |
| DmaFill.FillsExactly | sdk/hal/dma.c:165-226 | the buffer is filled with c from every coherent cache if and only if the size fits |
| DmaFill.StaleSeen | sdk/hal/dma.c:203-208 | where it does not, there is a dirty line that the CPU goes on seeing over the middle |
| DmaFill.InvalidationCovers | sdk/hal/dma.c:203-206 | the invalidation covers the bytes the engine writes if and only if the size fits |
| DmaEndian.SwapSmall | sdk/hal/dma.c:244-310 | the element loop swaps within every element |
| DmaEndian.SwapEnds | sdk/hal/dma.c:254-310 | the two ends land swapped in the local buffer |
| DmaEndian.SwappedParts | sdk/hal/dma.c:323-352 | offsets 32 and n-32 are element boundaries, so the three parts swap as the whole does |
| DmaEndian.SwappedTwice | sdk/hal/dma.c:229-353 | swapping twice is the identity |
| DmaEndian.SwapElements | sdk/hal/dma.c:229-353 | the whole buffer is swapped within each element of 2^type bytes |
| DmaEndian.DmaMemcpyEndian | sdk/hal/dma.c:229-353 | byte by byte: type 0 copies, type 1 takes byte i from i+1 or i-1, type 2 from i - i%4 + 3 - i%4, and no other byte changes; an odd size for type 1, one that is no multiple of 4 for type 2, or any other type leaves everything alone |
| CachedMachine.WordByteValue | sdk/hal/dma.c:178 | byte k of a word is the word divided by 256^(k mod 4), modulo 256 |
| CacheDeal.RoundedShape | sdk/hal/dma.c:31-34 | the rounded range is whole 32-byte blocks around the buffer, one extra when its end is a multiple of 32 |
| AddressWindow.MaskedValue | sdk/hal/dma.c:35 | the mask takes an address to its place in its 256 MB segment |
| AddressWindow.ChipWindow | sdk/include/chip/txw82x/txw82x.h:177-185 | on this chip the mask takes an external-memory address to its place in the alias region, which stands for it |
| EndBlocks.LastLost | sdk/hal/dma.c:36-39 | where no copy brings it to memory, a cached byte at the end of the range is lost |
| EndBlocks.StrayTakes | sdk/hal/dma.c:36-37 | with nothing cached, a block copied to another address is seen there, unless the other copy undoes it |
| CacheDeal.InvalidKeepsExactly | sdk/hal/dma.c:26-40 | every byte outside the buffer is kept from every coherent cache if and only if the rounded range has a window throughout |
| CacheDeal.WritebackKeepsExactly | sdk/hal/dma.c:42-57 | no view changes from any coherent cache if and only if it has, or starts below 0x10000000 |
| CacheDeal.CacheDealInvalid | sdk/hal/dma.c:26-40 | no line of the rounded range stays cached; with a window throughout every byte outside the buffer keeps its value, below 0x10000000 every byte that memory agreed with; a quiet machine sees exactly what the two copies and the drop leave |
| CacheDeal.CacheDealWriteback | sdk/hal/dma.c:42-57 | with a window throughout or below 0x10000000 memory agrees with the CPU over the rounded range and no view changes; a quiet machine sees exactly what the two copies leave |
| CircularList.ListUnique | sdk/include/list.h:13-43 | the links determine the entries of a list |
| CircularList.InitListHead | sdk/include/list.h:39-43 | makes an empty list |
| CircularList.InsertBetween | sdk/include/list.h:60-68 | extends the ring between two neighbours |
| CircularList.ListAdd | sdk/include/list.h:83-86 | puts the entry first |
| CircularList.ListAddTail | sdk/include/list.h:97-100 | puts the entry last |
| CircularList.DelEntry | sdk/include/list.h:109-127 | removes the entry, keeps the others' order and the entry's own links |
| CircularList.ListDel | sdk/include/list.h:129-136 | removes the entry and nulls its links; of a deleted entry it changes nothing |
| CircularList.ListDelInit | sdk/include/list.h:169-173 | removes the entry and leaves it an empty list |
| CircularList.ListMove | sdk/include/list.h:180-184 | moves an entry to the front of its own or another list |
| CircularList.ListMoveTail | sdk/include/list.h:191-196 | moves an entry to the back of its own or another list |
| CircularList.ListReplace | sdk/include/list.h:149-156 | the new member takes the old one's place, head or entry; an empty head stays empty, replacing a head by itself too |
| CircularList.ListReplaceInit | sdk/include/list.h:158-163 | the old member is an empty list, and the others are in a ring with the new one if and only if that is another one or there are no others |
| CircularList.ReplacedEntry | sdk/include/list.h:149-156 | a replaced entry stands where the old one stood in the list |
| CircularList.ListRotateLeft | sdk/include/list.h:241-249 | the first entry becomes the last |
| CircularList.EmptyIff | sdk/include/list.h:213-235 | both emptiness tests hold exactly of an empty list |
| CircularList.LastEntryIff | sdk/include/list.h:203-207 | the test holds exactly of the last entry |
| CircularList.SingularIff | sdk/include/list.h:255-258 | the test holds exactly of a single entry |
| CircularList.SpliceBetween | sdk/include/list.h:300-312 | joins a non-empty list into a ring |
| CircularList.ListSplice | sdk/include/list.h:319-324 | the spliced entries go before the head's, whose order is kept |
| CircularList.ListSpliceTail | sdk/include/list.h:331-336 | the spliced entries go after the head's |
| CircularList.ListSpliceInit | sdk/include/list.h:345-352 | as list_splice, and the spliced list is empty |
| CircularList.ListSpliceTailInit | sdk/include/list.h:362-369 | as list_splice_tail, and the spliced list is empty |
| CircularList.CutAfter | sdk/include/list.h:260-270 | splits the list behind an entry |
| CircularList.ListCutPosition | sdk/include/list.h:286-298 | the prefix through entry moves to the new list, for every entry and for the head itself |
| CircularList.CutThenSplice | sdk/include/list.h:286-324 | cutting anywhere and splicing the cut part back restores the list |
| CircularList.ForEachSafe | sdk/include/list.h:435-437 | a safe traversal that deletes entries visits each original entry once, in order, keeps exactly the others and ends |
| CircularList.KeptMembers | sdk/include/list.h:435-437 | what such a traversal keeps are the entries not deleted |
| CircularList.KeptInOrder | sdk/include/list.h:435-437 | in the order they had |
| Hlist.PprevHolds | sdk/include/list.h:625-632 | the cell a node's pprev names holds that node |
| Hlist.ListUnique | sdk/include/list.h:609-697 | the links determine the nodes of a list |
| Hlist.InitHlistNode | sdk/include/list.h:609-613 | leaves the node unhashed |
| Hlist.EmptyIff | sdk/include/list.h:620-623 | the test holds exactly of an empty list |
| Hlist.Unlink | sdk/include/list.h:625-632 | removes the node from wherever it is and keeps its own links |
| Hlist.HlistDel | sdk/include/list.h:634-639 | removes the node and clears it, also one only marked as hashed |
| Hlist.HlistDelInit | sdk/include/list.h:641-647 | removes the node and clears it; a second call changes nothing |
| Hlist.HlistAddHead | sdk/include/list.h:649-657 | puts the node first |
| Hlist.HlistAddBefore | sdk/include/list.h:660-667 | puts the node before another |
| Hlist.HlistAddAfter | sdk/include/list.h:669-678 | puts a node behind another |
| Hlist.HlistAddFake | sdk/include/list.h:681-684 | marks a node as hashed with its own next cell |
| Hlist.HlistMoveList | sdk/include/list.h:690-697 | the whole list changes its head and the old head is empty |
| Ledger.FreedUnheld | sdk/hal/dev.c:19-26 | when a device is freed nobody holds it and it is not listed; it is freed once and takes part in nothing later |
| Ledger.UnheldFreed | sdk/hal/dev.c:19-26 | once the last hold has gone the device has been freed |
| Ledger.HeldNonNegative | sdk/hal/dev.c:19-123 | no hold is dropped that was not taken, at any moment of a run |
| Ledger.FreedForGood | sdk/hal/dev.c:19-123 | nobody ever holds a freed device again |
| Ledger.DropKeeps | sdk/hal/dev.c:21-25 | dropping a hold lowers the count by one and frees exactly when the last goes |
| Ledger.TakeKeeps | sdk/hal/dev.c:41-42 | taking a hold raises the count by one and keeps the history orderly |
| Ledger.FirstHold | sdk/hal/dev.c:70-72 | the first hold is the creator's |
| DeviceRegistry.DevMgr.RefIsHolds | sdk/hal/dev.c:19-123 | in every reachable state a live hot-plug device's count is the creator's hold plus one if listed plus outstanding gets, and it is freed exactly when that is zero |
| DeviceRegistry.DevMgr.ListedIsHeld | sdk/hal/dev.c:86-88 | a listed hot-plug device is live and the list holds it once |
| DeviceRegistry.DevMgr.constructor | sdk/hal/dev.c:11-17 | starts with an empty list and an empty history |
| DeviceRegistry.DevMgr.DevPut | sdk/hal/dev.c:19-26 | drops one hold of a hot-plug device, frees it with the last one, keeps the invariant |
| DeviceRegistry.DevMgr.DevGet | sdk/hal/dev.c:28-49 | returns the device the id-to-device map has, with one more hold on a hot-plug one; all other counts stay |
| DeviceRegistry.DevMgr.DevRegister | sdk/hal/dev.c:62-91 | rejects a bad argument and a taken id, the latter without changing any listed device's count; otherwise the device heads the list and the map has it |
| DeviceRegistry.DevMgr.DevUnregister | sdk/hal/dev.c:93-123 | the device leaves list and map, the others keep their order, and the list's hold goes |
| DeviceRegistry.DevMgr.Unlink | sdk/hal/dev.c:103-118 | the walk finds the device and takes it out, first or later |
| DeviceRegistry.DevMgr.DevSuspend | sdk/hal/dev.c:139-166 | exactly the running devices that can suspend and whose hook agrees are marked, seen idle and called back, each in turn and in list order |
| DeviceRegistry.DevMgr.DevResume | sdk/hal/dev.c:172-191 | exactly the suspended devices that can resume and whose hook agrees are called back and unmarked, in list order |
| PmHistory.BalanceIsBit | sdk/hal/dev.c:139-191 | suspend minus resume callbacks of a device is zero or one at every moment of a run |
| PmHistory.CallbacksAlternate | sdk/hal/dev.c:139-191 | between two suspend callbacks of a device there is a resume callback |
| PmHistory.SleepSound | sdk/hal/dev.c:150-160 | a history stays orderly when a device's bit is set, its idle reading noted and its callback made, in this order |
| DeviceRegistry.DevMgr.MarkAndWait | sdk/hal/dev.c:151-159 | the bit is set first, and the wait ends with a reading of zero |
| HotplugTable.HotplugMgr.Find | sdk/hal/dev.c:223-229 | the walk ends at the handle's node exactly if the map has the handle |
| HotplugTable.HotplugMgr.DevHotplugIn | sdk/hal/dev.c:218-248 | a map update: in place for a known handle, a new front node otherwise; without memory nothing changes |
| HotplugTable.HotplugMgr.DevHotplugOut | sdk/hal/dev.c:250-273 | removes the handle from the map and its node from the list, the rest in order |
| HotplugTable.HotplugMgr.DevHotplugWalk | sdk/hal/dev.c:275-295 | type 0 sees every node, another type only its own, each exactly if no nonzero answer of a matching node precedes it; a missing callback is an error |
| HotplugTable.VisitsStop | sdk/hal/dev.c:285-292 | a walk sees a prefix of the matching nodes, stops early only at a nonzero answer and never passes one |
| HotplugTable.TableUpdated | sdk/hal/dev.c:231-234 | overwriting a node's entry is a map update |
| HotplugTable.TableRemoved | sdk/hal/dev.c:257-265 | taking a node out removes its handle and no other |
| SpiNor.InPageFlat | sdk/hal/spi_nor.c:70 | within one page the program command is a flat write |
| SpiNor.AcrossPagesWraps | sdk/hal/spi_nor.c:67 | for any page, address and data, the bytes past the page's end are programmed from the page's start on |
| SpiNor.FlatExactly | sdk/hal/spi_nor.c:67 | on erased cells the program command is a flat write for all data of a length if and only if it ends inside the page |
| SpiNor.Flash.Program | sdk/hal/spi_nor.c:70 | clears bits byte by byte, wrapping inside the page |
| SpiNor.WritePages | sdk/hal/spi_nor.c:75-80 | the loop writes whole pages and leaves at most one page |
| SpiNor.SpiNorWrite | sdk/hal/spi_nor.c:57-84 | the calls stay in their pages, follow one another and each byte of the buffer is cleared into its own cell, no other cell changing; a null flash is left alone |
| Lines.BaseMultiple | sdk/hal/spi_nor.c:67 | a page, or a line, starts at a multiple of its size |
| SpiNor.OnlyClears | sdk/hal/spi_nor.c:70 | a program command sets no bit that was clear |
| SpiNor.ChunksPlaced | sdk/hal/spi_nor.c:67-82 | every call starts where those before it end, and stays in one page |
| SpiNor.ChunksJoin | sdk/hal/spi_nor.c:69-82 | the data of the calls put together is the buffer |
| SpiNor.ErasedReadsBack | sdk/hal/spi_nor.c:57-84 | on erased cells the buffer reads back and nothing else changes |
| Pmp.NapotRegion | csky/csi_core/include/core_rv32.h:642 | decoding the encoded address gives the requested size and the aligned block around the base |
| Pmp.CoversDecoded | csky/csi_core/include/core_rv32.h:646 | the hardware's match holds for exactly the decoded bytes |
| Pmp.AskedAligned | csky/csi_core/include/core_rv32.h:642 | the block has 2^(size+3) bytes, is aligned and contains the base, and starts at it exactly when the base is aligned |
| Pmp.FieldsPacked | csky/csi_core/include/core_rv32.h:648-650 | the configuration byte unpacks to the attributes packed into it |
| Pmp.PmpUnit.ConfigRegion | csky/csi_core/include/core_rv32.h:621-653 | an enabled entry covers exactly what is asked for in its mode, a disabled one nothing unless the size is 4B, and no other entry moves but a TOR entry next to it, which starts at the new register; the configuration byte and the address register are given in full |
| Pmp.OthersKept | csky/csi_core/include/core_rv32.h:646 | rewriting an address register moves no other entry, whatever the new value, if and only if that is not the next one in TOR mode |
| Mpu.PackedPlace | csky/csi_core/include/core_803.h:1562-1577 | whatever PACR word was read, the new one has the base rounded down to 2^(size+1), the size and the enable bit |
| Mpu.PackedWord | csky/csi_core/include/core_803.h:1562-1577 | the whole PACR word: the base with its low size+1 bits shifted out, the reserved bits that were read, the size and the enable bit |
| Mpu.RoundedBit | csky/csi_core/include/core_803.h:1567-1569 | bit i of the rounded base is 0 up to bit size and the base's own above |
| Mpu.SelectedIs | csky/csi_core/include/core_803.h:1564-1565 | the selected region is the number in the low three bits |
| Mpu.ReservedCarried | csky/csi_core/include/core_803.h:1559-1578 | the reserved bits come from the word that was read |
| Mpu.RoundedDown | csky/csi_core/include/core_803.h:1567-1569 | rounding clears the masked bits only, so an aligned base is kept, and only an aligned one |
| Mpu.MergedAttr | csky/csi_core/include/core_803.h:1573-1574 | CAPR gets one region's attributes and keeps the other seven's |
| Mpu.SelectingSelects | csky/csi_core/include/core_803.h:1564-1565 | writing the region number selects that region |
| Mpu.MpuUnit.ConfigRegion | csky/csi_core/include/core_803.h:1547-1579 | the region's word is the rounded base, size and enable bit with the reserved bits of the bank selected before, its attributes are as asked, and the other seven regions are intact |
| Mpu.MpuUnit.EnableRegion | csky/csi_core/include/core_803.h:1586-1594 | sets bit 0 of one region's word and changes nothing else of any region |
| Mpu.MpuUnit.DisableRegion | csky/csi_core/include/core_803.h:1601-1609 | clears bit 0 of one region's word and changes nothing else of any region |
| Mpu.MpuUnit.Run | csky/csi_core/include/core_803.h:1547-1609 | any run of calls refines eight independent regions |
| Mpu.LastConfigCounts | csky/csi_core/include/core_803.h:1547-1579 | the last configuring call for a region decides it, whatever calls for others follow |
| Vic.StoredOwn | csky/csi_core/include/core_803.h:914-932 | a stored priority reads back modulo four |
| Vic.StoredOther | csky/csi_core/include/core_803.h:914-918 | the other three bytes of the register keep all their bits |
| Vic.VicUnit.SetPrio | csky/csi_core/include/core_803.h:914-918 | byte irq%4 of register irq/4 becomes the priority modulo four in its top two bits, and no other bit of any register changes |
| Vic.VicUnit.GetPrio | csky/csi_core/include/core_803.h:929-932 | returns the top two bits of byte irq%4 of register irq/4 |
| Vic.VicUnit.Run | csky/csi_core/include/core_803.h:914-932 | over any run of sets and gets each get returns the last priority set for its interrupt before it, modulo four, or the first one |
| FileName.A2i | project/module_code/h264_user.c:37-57 | the parsed number is the decimal number, modulo 2^32, of the stem's digits in order with everything else removed |
| FileName.ValueStep | project/module_code/h264_user.c:49-55 | each digit is appended modulo 2^32 and any other character changes nothing |
| FileName.LargestTaken | project/module_code/h264_user.c:75 | the number kept is one of the names' numbers, or zero |
| FileName.ScannedPrefix | project/module_code/h264_user.c:72-74 | the scan sees the entries before the first error or empty name, and all of them |
| FileName.NameValue | project/module_code/h264_user.c:37-80 | parsing the name made for k gives k below 2^31, and the number shown after the sign above |
| FileName.ScanDirectory | project/module_code/h264_user.c:72-76 | the loop keeps the largest number of the names up to the first error or empty name |
| FileName.CreatH264File | project/module_code/h264_user.c:59-84 | the new index is one more than the largest modulo 2^32, and the name is h, the decimal numeral of it as a signed number, and the suffix; below 2^31 no scanned name has its number, let alone the name |
| FileName.FreshExactly | project/module_code/h264_user.c:75-80 | the name is new in every directory with largest number m if and only if m is below 2^31 |

## Left out

- dma_memcpy_no_cache, dma_pause, dma_resume and the choice of the transfer direction: hardware paths and dispatch with nothing to prove here.
- CacheDeal.CacheDealInvalid: a buffer named by an address in the window, or of 2 GB and more, is not modelled; where the copies go to other addresses, what is seen is stated for quiet machines only.
- DmaFill.DmaMemset: outside `Fits`, where the transfer also leaves a clean line that memory has gone past, what the CPU sees depends on when the line is evicted and is not stated.
- DmaEndian.LoadElement: an element is loaded byte by byte; a fault on an unaligned 16- or 32-bit access is not modelled.
- CircularList.ListDel: of a corrupt entry, linked on one side only or still naming a list it has left, nothing is said.
- INIT_LIST_ARRARY and the other traversal macros of list.h: the same links walked in the same way, easy members.
- DeviceRegistry.DevMgr.DevSuspend: other threads' gets and puts during a wait are not interleaved with it, since registry calls are serialised; `dev_busy` and `dev_suspended` are single reads and writes.
- The mutexes, interrupt locks, thread block lists, barriers and printing around the modelled code.
- Overflow of the eight-bit reference count past 255 holds, and `dev_put` by someone who holds nothing.
- Pmp.PmpUnit.ConfigRegion: lock bits that hardware would honour on later writes are not modelled, nor sizes of 8 GB and 16 GB, whose shift of a signed 1 the C language leaves undefined.
- csi_mpu_disable_region of core_rv32.h: clears two bits, an easy member.
- core_802.h and core_804.h: the same cache loops and region code as core_803.h.
- SpiNor.SpiNorWrite: opening, closing, erasing and reading the flash and its open counter are driver calls around the write.
- FileName.A2i: a stem of 32 characters or more, which overruns the parser's buffer, is outside its precondition.
- FileName.CreatH264File: opening the directory, creating it and opening the new file are calls into the file system.
- The other HAL files, the applications, Wi-Fi, BLE and LED code: null checks, dispatch and start-up sequences.
