# kratos kernel core in Dafny

This project models the core of the kratos kernel, a small 32-bit x86 kernel
written in Rust:

- the kernel heap: its segment headers, the address-ordered free list, `alloc`
  (first fit, carved from the top of a segment) and `dealloc` (insert in address
  order and coalesce);
- the generic bit-field helpers;
- the GDT segment descriptor, with its accessors and access byte;
- the IDT gate descriptor;
- the I/O port manager;
- the C memory routines;
- the VGA text terminal;
- the boot terminal of `main.rs`, with its decimal printer.

Modelling conventions:

- **Integer width.** `usize` and pointers are 32 bits. Unsigned values are
  naturals below 2^width, and the bit operators are defined bit by bit
  (unsigned.dfy).
- **Pointer arithmetic.** Pointer `add` and `sub` wrap modulo 2^32, as the
  32-bit machine computes them (Rust calls an out-of-bounds pointer `sub`
  undefined; the model takes the machine's value). `offset_from` followed by
  `try_into::<usize>()` reads the 32-bit distance as an `isize` and panics when
  it is negative (segments.dfy).
- **Merges.** `merge_if_adjacent` is modelled as written (`FreeList.MergeChecked`,
  `Heap.MergeHeaders`). Its `usize` sums are checked and overflow is a panic.
  The pointer `add` it compares with the successor wraps. When that comparison
  matches the null successor, the model ends with `Panic(NullDereference)`:
  the source then reads a header through the null pointer, which Rust leaves
  undefined. Inside the address space the merge is the exact one
  (`FreeList.MergeIfAdjacent`), and `FreeList.InsertListAgrees` proves that
  `dealloc` there never meets either panic.
- **Live blocks.** The allocator carries a ghost map of the blocks `alloc` has
  handed out and `dealloc` has not taken back. Its invariant says they overlap
  no free segment and no other live block (live_blocks.dfy).
- **Panics.** The model follows a debug build. Every `panic!`, `expect`,
  `assert!`, division by zero, shift overflow and arithmetic overflow is an
  explicit `Panic(reason)` outcome (wrappers.dfy). So is the read through
  null described under Merges. The conditions under which each one happens
  are proved.
- **State.** Code that updates state in place is a class whose methods are
  proved against a function of the old state:
  - the allocator, over a map from addresses to headers;
  - the port manager;
  - the terminal, over its cell array.
- **Memory routines.** The libc routines are loops over a byte array.
- **Pure code.** Value computations are functions, and the properties are
  lemmas relating them.

Files:

| file | module | contents |
|---|---|---|
| wrappers.dfy | Wrappers | `Option`, `Result`, panic reasons |
| unsigned.dfy | Unsigned | fixed-width unsigned values and their bits |
| segments.dfy | Segments | `FreeSegment`/`UsedSegment` address arithmetic, `Layout`, `get_header_ptr` |
| free_list.dfy | FreeList | `alloc` and `dealloc` on the free list as a sequence |
| live_blocks.dfy | LiveBlocks | the blocks handed out and not yet freed, and why `dealloc` of one never panics |
| allocator.dfy | Heap | the `Allocator` over a header arena, linked through `next_segment` |
| bit_manipulation.dfy | BitManipulation | `get_bits`, `get_bit`, `set_bits`, `set_bit` |
| gdt.dfy | Gdt | `GdtSegemt`, `generate_access_byte`, `get_gdt_vals`, the GDTR limit |
| interrupt.dfy | Interrupt | `GateDescriptor::new`, the IDTR limit |
| port_manager.dfy | Ports | `PortManager`, `Port` |
| libc.dfy | Libc | `memset`, `memcpy`, `memcmp` |
| vga.dfy | Vga | `VgaColor`, the VGA `Terminal` |
| kernel_main.dfy | KernelMain | `main.rs`: `get_number_divisor`, `Terminal::new`, `write_numbers` |

The `Terminal` in `src/main.rs` repeats the code of `src/io/vga.rs`:

- `set_cursor`, `write_character`, `write_text` and `handle_new_line` are the
  same in both files.
- `vga_entry_color` and `vga_entry` compute the same values as `set_color` and
  `set_screen_character`.
- The `memset` in `src/main.rs` is the one in `src/libc.rs`.

Each of these is modelled once. `KernelMain` uses `Vga.Terminal` and
`Libc.Memset`.

## Model

| member | source | states |
|---|---|---|
| Segments.HeaderSizesAgree | src/allocator.rs:73-76 | both header records are 8 bytes, so a block can change view in place |
| Segments.HeaderOfAllocated | src/allocator.rs:117-119 | the wrapping `sub` over the used header: the header is an address whose wrapped `get_start` is `ptr`; at or above 8 no wrap happens, and below 8 the header lies at the top of memory |
| Segments.AllocatedHeaderRoundTrip | src/allocator.rs:117-119 | the payload pointer `alloc` returns for any header of the address space, `get_start` wrapped, leads `dealloc` back to that header |
| Segments.PayloadFollowsHeader | src/allocator.rs:20-26 | a free or used payload starts one header after its header and ends `size` bytes later; `get_header_ptr_from_allocated` inverts `get_start` up to the 32-bit wrap |
| Segments.UpdatedFreeSize | src/allocator.rs:28-35 | for addresses of the 32-bit space, `update_size` succeeds exactly when `ptr` is not below the payload start and at most `isize::MAX` bytes above it, after which the segment ends at `ptr`; a `ptr` below the payload start panics (`InvalidUsize`) |
| Segments.UpdatedUsedSize | src/allocator.rs:49-56 | the same for a used header, measured from its payload start |
| Segments.Wrap | src/allocator.rs:103-107 | a 32-bit pointer `add` or `sub`: the value is an address, an address is kept, and a value just below 0 comes back from the top |
| Segments.OffsetFrom | src/allocator.rs:30-33 | `offset_from` then `try_into`: between addresses it is accepted exactly when the distance is at most `isize::MAX`, and then leads from `start` to `ptr`; a negative distance panics (`InvalidUsize`) |
| Segments.RoundDown | src/allocator.rs:106 | `ptr - ptr % align` is aligned and is the multiple of `align` at or just below `ptr` |
| Segments.RoundDownIsGreatest | src/allocator.rs:106 | no aligned address at or below `ptr` is above the rounded value |
| Segments.HeaderPtrSpec | src/allocator.rs:102-115 | for a segment of the address space, when the header aimed at lies at or above address 0, `get_header_ptr` gives the intended header (`FittedHeaderPtr`); when it lies below 0 the 32-bit `sub`s wrap and `get_header_ptr` returns a header where the intended one gives none (see Findings) |
| Segments.HeaderPtr | src/allocator.rs:102-115 | as written, with wrapping `sub`s: a header it returns lies at or above the payload start and inside the address space |
| Segments.FittedHeaderPtrSpec | src/allocator.rs:102-115 | `get_header_ptr` as intended: none exactly when no aligned payload of `layout.size` bytes fits after a header; otherwise the payload is aligned, fits before the segment's end, and is the highest that does |
| FreeList.SpanAppend | src/allocator.rs:14-17 | the bytes a list accounts for add up over concatenation |
| FreeList.FirstFitFrom | src/allocator.rs:180-190 | the walk of `alloc` stops at the first segment that `get_header_ptr` as written, wrap included, accepts, or reports that it accepts none |
| FreeList.CarveAt | src/allocator.rs:193-200 | the carve at node `k`: each `update_size` panics only with `InvalidUsize`; on success only node `k` changes, and the block is recorded at the given header |
| FreeList.CarveAtTop | src/allocator.rs:193-200 | with a header whose block lies inside segment `k`, the carve succeeds exactly when the bytes left free fit an `isize`; then the segment ends at the header and the block runs to the segment's old end |
| FreeList.AllocList | src/allocator.rs:180-203 | `alloc` as written panics only with `AllocFailed` or `InvalidUsize`; on success it names a node of the list and keeps the node count |
| FreeList.CarveUpdates | src/allocator.rs:193-198 | both `update_size` calls on a segment whose header does not wrap: the first succeeds exactly when the bytes left free fit an `isize`, the second always succeeds, and the payload pointer does not wrap |
| FreeList.AllocListAt | src/allocator.rs:180-200 | once the walk stops at a segment whose header does not wrap, the header is the intended one, `alloc` succeeds exactly when the bytes left free fit an `isize`, and the outcome is the carve from the top |
| FreeList.AllocStopsAt | src/allocator.rs:182-200 | once the walk stops at node `k`, `alloc` is the carve at `k` with `get_header_ptr`'s header; without a wrap that carve succeeds and the payload starts inside the segment |
| FreeList.AllocWrapPanics | src/allocator.rs:102-115 | as written: a segment shorter than the layout makes `get_header_ptr` wrap, and `alloc` panics (`InvalidUsize`) although the next segment would hold the block |
| FreeList.AllocWrapOverlaps | src/allocator.rs:102-115 | as written: a layout of `isize::MAX` bytes wraps the header, `alloc` succeeds, and the block it returns runs past the end of the address space |
| FreeList.AllocIsFirstFit | src/allocator.rs:180-203 | `alloc` panics (`AllocFailed`) exactly when `get_header_ptr`, wrap included, accepts no segment; otherwise it uses the first accepted segment, changes only that node, and keeps the node count |
| FreeList.AllocCarvesTop | src/allocator.rs:192-200 | the block is carved from the top: the segment ends at the new header, the used block runs to the old end, no byte is lost, and the payload is aligned and large enough |
| FreeList.AllocKeepsWellFormed | src/allocator.rs:180-203 | `alloc` keeps the free list ascending and non-touching |
| FreeList.ShrinkKeepsWellFormed | src/allocator.rs:195 | shrinking one segment in place keeps the invariant |
| FreeList.ScanFrom | src/allocator.rs:154-177 | the insertion scan stops at the last node below the freed header; it panics with `AssertFailed` at a visited node not below it, and with `InsertFailed` exactly when the list runs out |
| FreeList.MergeIfAdjacent | src/allocator.rs:121-126 | `merge_if_adjacent` in exact arithmetic, the reference for inside the address space: two nodes merge exactly when the first ends at the second's header; the merged node spans both |
| FreeList.MergeChecked | src/allocator.rs:121-126 | `merge_if_adjacent` as written: the first `usize` sum overflowing panics; otherwise the nodes merge exactly when the wrapped end of `a` equals the successor pointer, null included; that match on null panics (`NullDereference`), an overflowing size sum panics, and a merge spans both sizes below 2^32; for a node of the address space, or a null successor, or a successor above it, a successful merge is the exact one, and two nodes of the address space never panic |
| FreeList.SpliceMergeChecked | src/allocator.rs:162-168 | the splice and both merges as written: panics only with an overflow or `NullDereference`; on success the predecessor stays first and at most two nodes are added to the successors |
| FreeList.SpliceMergeCheckedAgrees | src/allocator.rs:162-168 | with the predecessor inside the address space and the successor above the freed block, a successful checked splice is the exact `SpliceMerge`, and one whose freed block and successor end inside the address space succeeds |
| FreeList.SpliceMergeCheckedSpan | src/allocator.rs:162-168 | a successful checked splice accounts for exactly the bytes of its three parts |
| FreeList.SpliceMerge | src/allocator.rs:163-168 | reference definition of the splice in exact arithmetic: the splice and its two merges keep the predecessor's header first, and drop at most one of the following nodes |
| FreeList.InsertList | src/allocator.rs:142-177 | `dealloc` on the free list as written: it panics as the scan does when the scan panics (`InsertFailed`, exactly on an empty list, or `AssertFailed`), and otherwise only in a merge (overflow or `NullDereference`); on success the head keeps its header and the list gains or loses at most one node |
| FreeList.InsertListAt | src/allocator.rs:154-177 | once the scan stops at `k`, `dealloc` is the checked splice at `k`, its panic included |
| FreeList.InsertListAgrees | src/allocator.rs:154-177 | on a well-formed list a successful `dealloc` is the exact splice at the scan position, and a freed block that ends inside the address space never panics after the scan |
| FreeList.InsertAtScan | src/allocator.rs:154-177 | at the scan position, `dealloc` panics as the checked splice does and otherwise gives the exact splice, and a block that overlaps no segment and ends inside the address space leaves the list well formed |
| FreeList.LowPointerHeader | src/allocator.rs:102-115 | as written: an empty segment at 0x7FFF_FFF8 and a layout of 0x7FFF_FFFF bytes wrap the header to 0xFFFF_FFF9 |
| FreeList.LowPointerFirstFit | src/allocator.rs:180-190 | the walk of `alloc` accepts that segment |
| FreeList.LowPointerCarve | src/allocator.rs:193-200 | the carve at that header succeeds, and the payload pointer wraps to 1 |
| FreeList.AllocWrapLowPointer | src/allocator.rs:180-203 | as written: `alloc` on that list and layout returns the payload pointer 1 of a block of `isize::MAX` bytes at header 0xFFFF_FFF9 |
| FreeList.DeallocLowPointerOverflows | src/allocator.rs:117-126 | as written: `get_header_ptr_from_allocated` takes the pointer 1 back to 0xFFFF_FFF9, and freeing that block panics with an overflow in the backward merge |
| FreeList.DeallocWrapOverflows | src/allocator.rs:121-126 | as written: freeing the block that `AllocWrapOverlaps` hands out panics with an overflow in the backward merge, where exact arithmetic would give a segment of 2^32 bytes |
| FreeList.DeallocNullMerge | src/allocator.rs:121-126 | as written: a freed block ending at exactly 2^32 with no successor wraps to the null pointer, and the forward merge reads through it (`NullDereference`) |
| FreeList.InsertPanics | src/allocator.rs:154-177 | on a well-formed list `dealloc` panics with `InsertFailed` exactly when the list is empty, and with `AssertFailed` exactly when the header is not above the head or is already a free node |
| FreeList.ScanSucceeds | src/allocator.rs:157-174 | from any node below a header that is not in the list, the scan finds its splice point |
| FreeList.SpliceMergeSeparated | src/allocator.rs:163-168 | splicing and coalescing keeps the order and separation, starting at the predecessor |
| FreeList.SpliceMergeSpan | src/allocator.rs:163-168 | the splice accounts for exactly the bytes of the three parts |
| FreeList.SpliceMergeWithin | src/allocator.rs:163-168 | every node of the splice lies in any range that holds its three parts |
| FreeList.SpliceMergeApart | src/allocator.rs:163-168 | a block apart from the predecessor, the freed block and the successors is apart from every node of the splice |
| FreeList.InsertKeepsWellFormed | src/allocator.rs:154-177 | freeing a block that overlaps no free segment keeps the list ascending and fully coalesced |
| FreeList.SpliceKeepsWellFormed | src/allocator.rs:163-168 | a splice between two neighbours it does not overlap keeps the list well formed |
| FreeList.SpliceAtScanKeepsWellFormed | src/allocator.rs:157-168 | the splice at the scan position of a block that overlaps no segment and ends inside the address space keeps the list well formed |
| FreeList.InsertConservesBytes | src/allocator.rs:142-177 | `dealloc` adds exactly the freed header and payload to the bytes of the free list |
| FreeList.AllocThenDeallocRestores | src/tests/test_allocator.rs:29-55 | freeing the block `alloc` just returned restores the free list exactly |
| FreeList.CarveThenInsertRestores | src/allocator.rs:154-177 | shrinking a node and then freeing the carved block gives the original list back |
| FreeList.CarvedInsertIsSplice | src/allocator.rs:154-177 | freeing the block carved from the top of a node succeeds and is the exact splice after the carved node, which the block touches and whose successor it stops short of |
| FreeList.CarvedScanStops | src/allocator.rs:157-171 | after the carve, the scan for the carved block stops at the carved node |
| FreeList.SpliceMergeRestores | src/allocator.rs:166-168 | a block that follows its predecessor directly and stops short of the successor only grows the predecessor |
| FreeList.ScanStopsAt | src/allocator.rs:157-171 | the scan stops at the position whose successor is above the header |
| FreeList.AllocBlockIsDisjoint | src/allocator.rs:180-209 | the carved block overlaps no free segment, so it is a block `dealloc` accepts |
| FreeList.CarvedBlockIsDisjoint | src/allocator.rs:195-198 | a block cut from the top of a segment, past the segment's new end, overlaps no node of the shrunk list and is no node of the old one |
| LiveBlocks.LiveIsNotNode | src/allocator.rs:205-209 | a live block's header is not a free node |
| LiveBlocks.CarveKeepsBlocks | src/allocator.rs:193-200 | shrinking a segment in place and handing out a block in the bytes it gave up keeps every live block apart from the list and from the others, the new one included |
| LiveBlocks.AllocKeepsBlocks | src/allocator.rs:180-203 | a successful `alloc` without wrap hands out a new block and keeps the live blocks apart |
| LiveBlocks.InsertKeepsApart | src/allocator.rs:154-177 | on a well-formed list, a block apart from the list and from the freed block is apart from the list a successful `dealloc` leaves |
| LiveBlocks.InsertKeepsBlocks | src/allocator.rs:154-177 | freeing a live block, in any order, never reaches the `assert!` or the final `panic!`, keeps the list well formed and its head, and keeps the other live blocks apart |
| FreeList.MergeAt | src/allocator.rs:121-126 | one merge removes at most one node |
| FreeList.SpliceAsMerges | src/allocator.rs:163-168 | the pointer order of `insert_segment_into_list` (splice, merge forward, merge backward) is the value-level splice |
| Heap.FindEntry | src/allocator.rs:79-85 | `find` returns the first memory-map entry based at the address, or none |
| Heap.ListOfOther | src/allocator.rs:193-198 | writing a header that is not a node leaves the list read from memory unchanged |
| Heap.ChainOther | src/allocator.rs:193-198 | writing a header that is not a node keeps the linked chain |
| Heap.CarveStep | src/allocator.rs:195-198 | shrinking node `i` and writing the used header keeps the chain and changes only node `i` of the list |
| Heap.CarveMemory | src/allocator.rs:193-198 | the two header writes of a carve inside its segment keep the chain and the invariant, change the list only at node `k`, and keep the live blocks under their used headers, the new one included |
| Heap.SpliceNodes | src/allocator.rs:163-165 | splicing an address after position `k` of an ascending sequence keeps it ascending |
| Heap.SpliceStep | src/allocator.rs:163-165 | relinking `next_segment` around the freed header keeps the chain, and the list gains that node after position `k` |
| Heap.MergeStep | src/allocator.rs:121-126 | absorbing an adjacent successor keeps the chain and acts on the list as `MergeAt` |
| Heap.MergeHeaders | src/allocator.rs:121-126 | `merge_if_adjacent` on the headers as written: it panics (overflow) when `a`'s size plus 8 does not fit a `usize`, and otherwise only with an overflow or `NullDereference`; on success only the header at `a` changes, and only when `a`'s wrapped end is `b`, when it then holds both sizes and `b`'s successor; headers inside the address space never panic |
| Heap.MergeHeadersChecked | src/allocator.rs:121-126 | the merge on headers panics exactly when `MergeChecked` does on the nodes they hold, with the same reason |
| Heap.MergeEffect | src/allocator.rs:121-126 | the exact merge of node `j` with its successor keeps the chain and the nodes up to `j`, and acts as `MergeAt` |
| Heap.NoMerge | src/allocator.rs:122 | without adjacency the merge changes nothing |
| Heap.Allocator.constructor | src/allocator.rs:65-69 | `new` starts with a null head and an empty free list |
| Heap.Allocator.Init | src/allocator.rs:72-99 | `init` panics (`NoMemoryRegion`) on an empty memory map; otherwise it panics (overflow) when the kernel starts below 1 MiB, panics (`NoMemoryRegion`) when no entry starts 1 MiB below the kernel, and panics (overflow) when a subtraction underflows; otherwise there is one free segment at the kernel's end, reaching the entry's end (truncated to 32 bits), and the invariant holds exactly when that segment ends inside the address space |
| Heap.Allocator.Alloc | src/allocator.rs:180-203 | the outcome, the new free list and the new headers are those of `AllocList`, also when an `update_size` panics half-way; without a wrap the invariant and the live blocks are kept, the new block included |
| Heap.Allocator.FindFit | src/allocator.rs:181-190 | the walk of `alloc` stops at the node where `FirstFitFrom` does, with `get_header_ptr`'s header, or falls off the end exactly when no segment fits |
| Heap.Allocator.CarveSegment | src/allocator.rs:192-200 | the carve writes the headers and returns as `CarveAt` says, the first `update_size` panicking before anything is written; inside the segment it keeps the invariant |
| Heap.Allocator.MergeIfAdjacent | src/allocator.rs:121-126 | the outcome and the header arena are those of `MergeHeaders`, a panic writing nothing; on success the free list becomes `MergeAt` of the old one |
| Heap.Allocator.SpliceIn | src/allocator.rs:163-165 | the splice relinks `it` to `h` and `h` to `next`, writes no other header, keeps the chain, and the list gains `h` after position `k` |
| Heap.Allocator.SpliceAndMergeForward | src/allocator.rs:162-167 | the splice and the forward merge: the outcome is that of `MergeChecked` on the freed block and its successor; on success the freed header follows the predecessor with the merged size, and the list is the splice merged after the predecessor |
| Heap.Allocator.SpliceAndMerge | src/allocator.rs:162-170 | after the scan, the outcome is that of `SpliceMergeChecked`; on success the free list becomes the exact splice; only the headers at the predecessor and the freed block are written |
| Heap.Allocator.ScanForPredecessor | src/allocator.rs:155-176 | the scan of `insert_segment_into_list` returns the node at which `ScanFrom` stops, or its panic |
| Heap.Allocator.InsertSegmentIntoList | src/allocator.rs:154-177 | the outcome and the new free list are those of `InsertList`, and the list stays well formed for a block inside the address space; a panic in the scan writes nothing, and only headers of nodes and of the freed block change |
| Heap.Allocator.ConvertUsedToFreeSegment | src/allocator.rs:142-152 | the used header becomes a free header of the same size with no successor, and is inserted as `InsertList` says, panics included; no other header that is not a node changes |
| Heap.Allocator.Dealloc | src/allocator.rs:205-209 | the header just below `ptr` is freed as `InsertList` says, panics included, the layout ignored; freeing a live block, in any order, succeeds and keeps the invariant and the other live blocks |
| BitManipulation.GetBits | src/util/bit_manipulation.rs:3-18 | panics on length 0 (division by zero) and on a shift by the full width; otherwise result bit `i` is bit `position + i` of `value` for `i < length`, and every other bit is clear |
| BitManipulation.FieldBits | src/util/bit_manipulation.rs:14-17 | the mask expression selects exactly `length` bits from `position` |
| BitManipulation.GetBit | src/util/bit_manipulation.rs:20-32 | panics on value 0 (the length `value / value`); otherwise it is bit `position` as 0 or 1 |
| BitManipulation.WithBits | src/util/bit_manipulation.rs:34-54 | reference definition of `set_bits`: the field's bits come from `value`, the others from `input`, with the same panics |
| BitManipulation.DepositBits | src/util/bit_manipulation.rs:48-53 | the mask arithmetic writes the field and keeps every other bit |
| BitManipulation.SetBits | src/util/bit_manipulation.rs:34-54 | `set_bits` panics as `WithBits` says; otherwise it writes the field bit by bit, truncated at the width |
| BitManipulation.WithBit | src/util/bit_manipulation.rs:56-81 | reference definition of `set_bit`: bit `position` becomes `enable`; input 0 panics |
| BitManipulation.SetBit | src/util/bit_manipulation.rs:56-81 | `set_bit` panics on input 0 (it divides `*input / *input`) and on a full-width shift; otherwise only bit `position` changes |
| BitManipulation.WithBitsDetermined | src/util/bit_manipulation.rs:34-54 | any value with `set_bits`' bits is `WithBits`' result |
| BitManipulation.WithBitDetermined | src/util/bit_manipulation.rs:56-81 | any value with `set_bit`' bits is `WithBit`'s result |
| BitManipulation.GetAfterSet | src/util/bit_manipulation.rs:3-54 | reading a field back after writing it gives the written value, masked to the field and to the width |
| BitManipulation.ReadBackBit | src/util/bit_manipulation.rs:3-54 | the read-back per bit, including the part cut off at the top of the width |
| BitManipulation.SetBitsIdempotent | src/util/bit_manipulation.rs:34-54 | writing the same field twice writes it once |
| BitManipulation.GetBitAfterSetBit | src/util/bit_manipulation.rs:20-81 | after `set_bit`, `get_bit` reads `enable` back, and panics when the whole value became 0 |
| BitManipulation.GetBitsExample | src/tests/test_bit_manipulation.rs:7 | `get_bits(0b111001, 2, 4) == 14` |
| BitManipulation.GetBitExample | src/tests/test_bit_manipulation.rs:8 | `get_bit(0b111001, 1) == 0` |
| BitManipulation.SetBitsExample | src/tests/test_bit_manipulation.rs:9-11 | `set_bits` turns 0b11001 into 0b10101 |
| BitManipulation.SetBitExamples | src/tests/test_bit_manipulation.rs:12-15 | `set_bit` gives 0b11101 and then 0b11100 |
| BitManipulation.SameBits | src/util/bit_manipulation.rs:3-18 | two values that agree on every bit below `n` and have none above are equal |
| Gdt.New | src/gdt.rs:38-51 | `GdtSegemt::new` writes limit bits 0..16 and 48..52, base bits 16..40 and 56..64, the access byte at 40..48 and the flags at 52..56, keeping only the bits that fit |
| Gdt.Base | src/gdt.rs:53-59 | `base()` is a `u32` |
| Gdt.Limit | src/gdt.rs:61-67 | `limit()` is a `u32` |
| Gdt.Access | src/gdt.rs:69-72 | `access()` is descriptor bits 40..48 |
| Gdt.Flags | src/gdt.rs:74-77 | `flags()` is descriptor bits 52..56 |
| Gdt.BaseRoundTrip | src/gdt.rs:38-59 | the base of a descriptor built by `new` reads back whole |
| Gdt.LimitRoundTrip | src/gdt.rs:38-67 | the limit reads back as its low 20 bits |
| Gdt.LimitBit | src/gdt.rs:61-67 | limit bit `i` read back is bit `i` written, below bit 20 |
| Gdt.AccessRoundTrip | src/gdt.rs:38-72 | the access byte reads back unchanged |
| Gdt.FlagsRoundTrip | src/gdt.rs:38-77 | the flags read back as their low 4 bits |
| Gdt.EncodingUnique | src/gdt.rs:38-51 | `new` is deterministic: one descriptor per argument tuple |
| Gdt.FieldsRoundTrip | src/tests/test_gdt.rs:6-13 | every accessor reads back what `new` packed, up to its field's width |
| Gdt.Stage | src/gdt.rs:178-189 | each stage of the access byte is a `u8` |
| Gdt.StageBit | src/gdt.rs:178-189 | the stage after the fields from bit `k` up are written holds those fields and the initial 1 below |
| Gdt.AccessByte | src/gdt.rs:168-189 | the promised access byte is a `u8` |
| Gdt.AccessByteBits | src/gdt.rs:168-189 | its bits are `p`, `dpl` (2 bits), `s`, `e`, `dc`, `rw`, `a` from bit 7 down |
| Gdt.GenerateAccessByte | src/gdt.rs:178-189 | `generate_access_byte` returns that byte and never panics, for every parameter set |
| Gdt.FlatAccessBytes | src/gdt.rs:143-162 | the code and data parameter sets give 0x99 and 0x93 |
| Gdt.GdtVals | src/gdt.rs:142-166 | the table is the null descriptor, then flat code and data segments with base 0, limit 0xFFFFF, access 0x99 and 0x93, flags 0b1100 |
| Gdt.TableLimit | src/gdt.rs:128 | `len * 8 - 1` as `u16`; it panics (overflow) on an empty table or a product past 32 bits |
| Gdt.GdtrLimit | src/gdt.rs:124-133 | the GDTR limit of the three-entry table is 23 |
| Interrupt.New | src/interrupt.rs:27-38 | `GateDescriptor::new` packs offset bits 0..16 and 48..64, the selector at 16..32, the gate type at 40..44, `dpl` at 45..47 and `p` at bit 47; it panics exactly when the partial descriptor is 0 before `set_bit` (division by zero) |
| Interrupt.PartialZero | src/interrupt.rs:28-35 | the descriptor before `set_bit` is 0 exactly when offset and selector are 0 and the low bits of gate type and `dpl` are 0 |
| Interrupt.EncodingDeterminesFields | src/interrupt.rs:27-47 | a gate descriptor determines its offset, selector and `p`, and its gate type and `dpl` up to their field widths |
| Interrupt.IdtrLimit | src/interrupt.rs:9-15 | the IDTR size of the 256-entry table (line 69) is 2047 |
| Ports.NewPort | src/io/port_manager.rs:32-38 | `Port::new` gives a port whose `get_addr` is the address |
| Ports.Request | src/io/port_manager.rs:16-24 | a request grants a port exactly when the address is not yet in use, and records the address either way |
| Ports.PortManager.constructor | src/io/port_manager.rs:10-14 | `new` has no port in use |
| Ports.PortManager.RequestPort | src/io/port_manager.rs:16-24 | `request_port` updates the set and answers as `Request` says |
| Ports.Requests | src/io/port_manager.rs:16-24 | a sequence of requests gets one answer per request |
| Ports.RequestsGrant | src/io/port_manager.rs:16-24 | request `i` is granted exactly when its address was neither in use nor asked for earlier |
| Ports.RequestsAtMostOnce | src/io/port_manager.rs:16-24 | no address is handed out twice over any sequence of requests |
| Libc.Filled | src/libc.rs:9-13 | after `memset`, byte `i` is `character` inside the range and unchanged outside it |
| Libc.FilledIdempotent | src/libc.rs:9-13 | setting a range twice is setting it once |
| Libc.FilledSplit | src/libc.rs:9-13 | setting two adjacent ranges is setting their union |
| Libc.Memset | src/libc.rs:9-13 | the loop leaves memory as `Filled` says |
| Libc.CopyForward | src/libc.rs:17-21 | the ascending copy changes nothing outside the destination |
| Libc.CopyForwardCopies | src/libc.rs:17-21 | when the ranges are disjoint or the destination is not above the source, the destination receives the source's original bytes |
| Libc.CopyKeepsSource | src/libc.rs:17-21 | with disjoint ranges the source is unchanged |
| Libc.CopyForwardOverlapUp | src/libc.rs:17-21 | copying upwards into an overlapping range repeats bytes rather than moving them |
| Libc.Memcpy | src/libc.rs:17-21 | the loop leaves memory as `CopyForward` says |
| Libc.Compare | src/libc.rs:26-35 | `memcmp` gives -1, 0 or 1, and 0 exactly for equal ranges |
| Libc.CompareFirstDifference | src/libc.rs:27-32 | the sign is the unsigned order of the first differing bytes |
| Libc.CompareAntisymmetric | src/libc.rs:26-35 | swapping the operands negates the result |
| Libc.CompareNothing | src/libc.rs:35 | comparing zero bytes gives 0 |
| Libc.Memcmp | src/libc.rs:26-35 | the loop with early returns computes `Compare` of the two ranges |
| Vga.Code | src/io/vga.rs:10-27 | each colour's discriminant is below 16 |
| Vga.Packed | src/io/vga.rs:100-106 | `low \| high << k` in a width that holds it reads back as `low` by `%` and as `high` by `/` |
| Vga.SetColor | src/io/vga.rs:100-102 | the colour byte holds the foreground in its low and the background in its high nibble |
| Vga.ScreenCharacter | src/io/vga.rs:104-106 | the cell holds the character in its low and the colour in its high byte |
| Vga.Advance | src/io/vga.rs:108-117 | `set_cursor` keeps the cursor on the screen, and goes to column 0 exactly after the last column |
| Vga.NewLine | src/io/vga.rs:83-89 | `handle_new_line` keeps the cursor on the screen, goes to column 0, and to row 0 exactly after the last row |
| Vga.AdvanceIsNextCell | src/io/vga.rs:108-117 | `set_cursor` moves to the next cell in row-major order, from the last cell back to the first |
| Vga.NewLineIsNextRow | src/io/vga.rs:83-89 | `handle_new_line` moves to the start of the next row, after the last row back to the first |
| Vga.PutCharacter | src/io/vga.rs:91-98 | reference definition of `write_character`, which `Vga.Terminal.WriteCharacter` is proved against: it keeps the screen valid; `RenderLine` states which cell it writes |
| Vga.Put | src/io/vga.rs:76-79 | reference definition of one byte of `write_text`: it keeps the screen valid |
| Vga.Render | src/io/vga.rs:74-81 | reference definition of `write_text`, which `Vga.Terminal.WriteText` is proved against: it keeps the screen valid; `RenderAppend`, `RenderLine` and `RenderLineCursor` state what it writes |
| Vga.RenderAppend | src/io/vga.rs:74-81 | writing `a` and then `b` is writing `a + b` |
| Vga.RenderLine | src/io/vga.rs:74-98 | text without a line break that fits puts byte `i` in the `i`-th cell from the cursor and leaves every other cell alone |
| Vga.RenderLineCursor | src/io/vga.rs:74-98 | after such text the cursor is `\|text\|` cells on |
| Vga.Terminal.constructor | src/io/vga.rs:47-59 | `new` puts the cursor at the top left, packs the colour, and does not touch the buffer |
| Vga.Terminal.Init | src/io/vga.rs:61-72 | `init` makes every cell a space in the terminal's colour |
| Vga.Terminal.SetCursor | src/io/vga.rs:108-117 | the cursor becomes `Advance` of the old one |
| Vga.Terminal.HandleNewLine | src/io/vga.rs:83-89 | the cursor becomes `NewLine` of the old one |
| Vga.Terminal.WriteCharacter | src/io/vga.rs:91-98 | the screen becomes `PutCharacter` of the old screen |
| Vga.Terminal.WriteText | src/io/vga.rs:74-81 | the screen becomes `Render` of the old screen and the text |
| KernelMain.LenBounds | src/main.rs:130-138 | `10^(Len(n)-1)` is the largest power of ten not above `n` (1 for 0) |
| KernelMain.LenUnique | src/main.rs:130-138 | that power of ten is unique |
| KernelMain.GetNumberDivisor | src/main.rs:130-138 | as written: it panics with an overflow exactly when `number >= 1_000_000_000`, and otherwise returns the largest power of ten not above `number` |
| KernelMain.DivisorOverflowInput | src/main.rs:130-138 | 1 000 000 000 is a `usize`, and the divisor it needs fits in 32 bits |
| KernelMain.NumberDivisor | src/main.rs:130-138 | corrected: the same divisor for every `usize`, with no intermediate value past 32 bits |
| KernelMain.Chars | src/main.rs:206-219 | one decimal digit character per digit of the number |
| KernelMain.CharsRoundTrip | src/main.rs:206-219 | reading the printed digits back gives the number |
| KernelMain.CharsNoLeadingZero | src/main.rs:206-219 | only 0 is printed with a leading '0' |
| KernelMain.CharsAt | src/main.rs:212-216 | character `i` is the digit `(number / divisor) % 10` for the `i`-th divisor |
| KernelMain.NewTerminal | src/main.rs:148-166 | `Terminal::new` is light grey on black with the cursor at the top left, and every cell a space |
| KernelMain.WriteNumbers | src/main.rs:206-219 | `write_numbers` writes the number's decimal characters from the cursor on |

## Left out

- Port I/O (`writeb`, `readb`), `lgdt`, `lidt`, `sti` and `int`: inline assembly.
  They are reduced to the values they are given: the descriptor tables and
  their limit fields.
- The reads of the GDTR and IDTR, `print_gdtr` and `print_free_segment`. They
  only print.
- `println!`, the `fmt::Write` implementation of the VGA terminal, and the
  `fmt::Result` of `init`. They produce output or always-`Ok` values.
- The serial port, the RTC, the multiboot structures and the loop of
  `kernel_main` over the memory map. They are not part of this model.
- The two port requests at the start of `interrupt::init`. Each is one call of
  `request_port`, which is modelled.
- The fault handler's address:
  - The offset of the one gate `interrupt::init` installs is the address of its
    handler, known only at link time.
  - `Interrupt.New` covers every offset.
- The screen buffer's address 0xB8000, the address of `KERNEL_START`/`KERNEL_END`,
  and the stack pointer. They are link-time or hardware facts.
  - The buffer is an array given to the terminal.
  - The kernel bounds are parameters of `Heap.Allocator.Init`.
- The atomics and the `RefCell`s around the free-list head, the GDT and the IDT.
  The kernel is single-threaded, so they behave as plain fields.
- FreeList.AllocThenDeallocRestores: the second allocator test,
  src/tests/test_allocator.rs:58-101, frees many blocks in an arbitrary order
  and expects the initial free list back. The model proves that any order of
  frees succeeds and keeps the invariant (`Heap.Allocator.Dealloc`,
  `LiveBlocks.InsertKeepsBlocks`), but proves that the list comes back exactly
  only for the block freed right after its `alloc`. The general round trip
  needs an invariant that free segments and live blocks tile the heap, which
  the model does not carry.
- Heap.Allocator.InsertSegmentIntoList, Heap.Allocator.ConvertUsedToFreeSegment
  and Heap.Allocator.Dealloc: after a merge panics, the headers already
  relinked are described only by the chain staying linked and the header
  frame, not header by header. The kernel halts on a panic.
- What the machine does after `merge_if_adjacent` reads a header through the
  null pointer. Rust leaves it undefined, and the model stops with
  `Panic(NullDereference)`.
- Payload bytes of heap blocks. The heap model records only header bytes.
- Heap.Allocator.Dealloc requires a used header that overlaps no free segment;
  the source accepts any pointer (the `GlobalAlloc` contract is on the
  caller). Success and the invariant are promised for live blocks.
- Heap.Allocator.Alloc promises the invariant only when `get_header_ptr` does
  not wrap. In the wrap case (see Findings) it still states the outcome and
  every header written, but the block can overlap a free segment or run past
  the address space.
- Heap.Allocator.Init: an entry that reaches past 4 GiB gives a free segment
  that ends outside the 32-bit address space. `Init` then reports that the
  invariant fails, and nothing further is proved about such a heap.
- Libc.Memset, Libc.Memcpy and Libc.Memcmp require every byte touched to lie
  inside one memory array. The source reads and writes through raw pointers
  trusted by its callers.
- Libc.Memcmp returns an `int`. The `i8` of the source holds all three values.
- Release builds, where overflowing arithmetic wraps instead of panicking, are
  not modelled. The model follows the debug build throughout.
- KernelMain.WriteNumbers uses the corrected divisor (see Findings). It does not
  model the panic that the source raises from `get_number_divisor` for numbers
  of ten digits.

## Findings

| source | as written | input that shows it | evidently intended | confidence | as-written member | corrected member |
|---|---|---|---|---|---|---|
| src/main.rs:130-138 | `get_number_divisor` multiplies `divisor` by 10 while `number >= divisor`. For a ten-digit `usize` the divisor reaches 1 000 000 000 and the next `*= 10` overflows 32 bits. | `number = 1_000_000_000`, or any `usize` from there to `u32::MAX` | `write_numbers` prints every `usize`, so the divisor is the largest power of ten not above `number`, computed without overflow | not executed | KernelMain.GetNumberDivisor | KernelMain.NumberDivisor |
| src/allocator.rs:102-115 | `get_header_ptr` steps back `layout.size` bytes from the segment's end with a wrapping pointer `sub`, and compares only at the end. When the segment ends below `layout.size`, or the header lands below address 0, the pointer wraps to the top of memory and passes the `ptr < segment_start` test. | free list `[0x20_0000 with 16 bytes, 0x1000_0000 with 0x800_0000 bytes]` and a layout of 0x100_0000 bytes: `alloc` panics in `update_size` although the second segment fits; or one segment at 16 with 0 bytes and a layout of `isize::MAX` bytes: `alloc` returns a block running past 4 GiB, and freeing it panics with an overflow in `merge_if_adjacent` (`FreeList.DeallocWrapOverflows`); one empty segment at 0x7FFF_FFF8 and a layout of 0x7FFF_FFFF bytes: `alloc` returns the payload pointer 1, and freeing it panics in the same way (`FreeList.AllocWrapLowPointer`, `FreeList.DeallocLowPointerOverflows`) | `None` for every segment that cannot hold the block, so the walk moves on | not executed | FreeList.AllocWrapPanics | Segments.FittedHeaderPtrSpec |
