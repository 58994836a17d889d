/** The free list of src/allocator.rs as a value: the sequence of free segments in
    list order, each given by its header address and `size`.

    The linked nodes live in memory (see allocator.dfy); here the list operations of
    `alloc` and `dealloc` are stated on sequences, including the points where the
    source panics, and their properties are proved. */
module FreeList {
  import opened Wrappers
  import opened Segments

  /** The free-list invariant: header addresses ascend and each segment ends strictly
      before the next header begins, so no two free segments overlap or touch. */
  ghost predicate Separated(list: seq<Node>)
  {
    forall i, j :: 0 <= i < j < |list| ==> End(list[i]) < list[j].addr
  }

  /** Every node is a real header (no node sits at the null address). */
  ghost predicate NonNull(list: seq<Node>)
  {
    forall i :: 0 <= i < |list| ==> list[i].addr > Null
  }

  /** Every segment ends inside the 32-bit address space. */
  ghost predicate Bounded(list: seq<Node>)
  {
    forall i :: 0 <= i < |list| ==> End(list[i]) < AddressSpace
  }

  ghost predicate WellFormed(list: seq<Node>)
  {
    Separated(list) && NonNull(list) && Bounded(list)
  }

  /** Bytes the list accounts for: every segment's header plus its payload. */
  function Span(list: seq<Node>): nat
  {
    if list == [] then 0 else H + list[0].size + Span(list[1..])
  }

  lemma {:induction false} SpanAppend(a: seq<Node>, b: seq<Node>)
    ensures Span(a + b) == Span(a) + Span(b)
  {
    if a != [] {
      assert (a + b)[0] == a[0];
      assert (a + b)[1..] == a[1..] + b;
      SpanAppend(a[1..], b);
    } else {
      assert a + b == b;
    }
  }

  lemma SpanSplit(list: seq<Node>, i: nat)
    requires i < |list|
    ensures Span(list) == Span(list[..i]) + H + list[i].size + Span(list[i + 1..])
  {
    assert list == list[..i] + [list[i]] + list[i + 1..];
    SpanAppend(list[..i] + [list[i]], list[i + 1..]);
    SpanAppend(list[..i], [list[i]]);
  }

  /** Replacing one node changes the span by the difference of the two sizes. */
  lemma SpanReplace(list: seq<Node>, i: nat, n: Node)
    requires i < |list|
    ensures Span(list[i := n]) + list[i].size == Span(list) + n.size
  {
    SpanSplit(list, i);
    SpanSplit(list[i := n], i);
    assert list[i := n][..i] == list[..i];
    assert list[i := n][i + 1..] == list[i + 1..];
  }

  // ---------------------------------------------------------------------------
  // alloc: first fit, carving from the top of the chosen segment
  // ---------------------------------------------------------------------------

  /** The walk of `GlobalAlloc::alloc` from position `k`: the first node from `k` on
      whose `get_header_ptr` succeeds. */
  function FirstFitFrom(list: seq<Node>, layout: Layout, k: nat): (r: Option<nat>)
    requires ValidLayout(layout) && k <= |list|
    ensures r.Some? ==> k <= r.value < |list| && HeaderPtr(list[r.value], layout).Some?
    ensures r.Some? ==> forall j {:trigger HeaderPtr(list[j], layout)} :: k <= j < r.value ==> HeaderPtr(list[j], layout).None?
    ensures r.None? ==> forall j {:trigger HeaderPtr(list[j], layout)} :: k <= j < |list| ==> HeaderPtr(list[j], layout).None?
    decreases |list| - k
  {
    if k == |list| then None
    else if HeaderPtr(list[k], layout).Some? then Some(k)
    else FirstFitFrom(list, layout, k + 1)
  }

  /** The outcome of a successful `alloc`: the position of the segment used, the new
      used header, the `size` stored in it, the payload pointer returned, and the
      free list afterwards. */
  datatype Carve = Carve(index: nat, header: int, usedSize: nat, ptr: int, list: seq<Node>)

  /** The carve of `alloc` once the walk has stopped at position `k` with the header
      `header`: the segment's end is read, the segment's `update_size` and then the
      new header's `update_size` run, and either `expect` may panic. */
  function CarveAt(list: seq<Node>, k: nat, header: int): (r: Result<Carve>)
    requires k < |list|
    ensures r.Panic? ==> r.reason == InvalidUsize
    ensures r.Ok? ==> r.value.index == k && r.value.header == header && |r.value.list| == |list|
  {
    var segment := list[k];
    var segmentEnd := EndPtr(segment);
    match UpdatedFreeSize(segment.addr, header)
    case Panic(e) => Panic(e)
    case Ok(freeSize) =>
      match UpdatedUsedSize(header, segmentEnd)
      case Panic(e) => Panic(e)
      case Ok(usedSize) =>
        Ok(Carve(k, header, usedSize, Wrap(UsedStart(header)), list[k := Node(segment.addr, freeSize)]))
  }

  /** The carve at `k` with a header whose block lies inside segment `k`: only the
      segment's `update_size` can fail, and then the segment ends at the header and
      the used block runs to the segment's old end. */
  lemma CarveAtTop(list: seq<Node>, k: nat, header: int)
    requires k < |list| && InAddressSpace(list[k])
    requires FreeStart(list[k].addr) <= header && UsedStart(header) <= End(list[k])
    requires End(list[k]) - UsedStart(header) <= IsizeMax
    ensures CarveAt(list, k, header).Ok? <==> header - FreeStart(list[k].addr) <= IsizeMax
    ensures CarveAt(list, k, header).Ok? ==>
              CarveAt(list, k, header) ==
                Ok(Carve(k, header, End(list[k]) - UsedStart(header), UsedStart(header),
                         list[k := Node(list[k].addr, header - FreeStart(list[k].addr))]))
  {
    assert EndPtr(list[k]) == End(list[k]);
  }

  /** `GlobalAlloc::alloc` on the free list, as written: the walk stops at the first
      segment whose `get_header_ptr` returns a header, and carves there. */
  function AllocList(list: seq<Node>, layout: Layout): (r: Result<Carve>)
    requires ValidLayout(layout)
    ensures r.Panic? ==> r.reason == AllocFailed || r.reason == InvalidUsize
    ensures r.Ok? ==> r.value.index < |list| && |r.value.list| == |list|
  {
    match FirstFitFrom(list, layout, 0)
    case None => Panic(AllocFailed)
    case Some(i) => CarveAt(list, i, HeaderPtr(list[i], layout).value)
  }

  /** `alloc` is first fit: it panics with `AllocFailed` exactly when no segment's
      `get_header_ptr` succeeds; when it succeeds it uses the first segment in list
      order whose `get_header_ptr` succeeds, changes only that node, and neither adds
      nor removes a node. */
  lemma AllocIsFirstFit(list: seq<Node>, layout: Layout)
    requires ValidLayout(layout)
    ensures AllocList(list, layout) == Panic(AllocFailed) <==>
              forall j {:trigger HeaderPtr(list[j], layout)} :: 0 <= j < |list| ==> HeaderPtr(list[j], layout).None?
    ensures AllocList(list, layout).Ok? ==>
              var c := AllocList(list, layout).value;
              && FirstFitFrom(list, layout, 0) == Some(c.index)
              && HeaderPtr(list[c.index], layout) == Some(c.header)
              && (forall j {:trigger HeaderPtr(list[j], layout)} :: 0 <= j < c.index ==> HeaderPtr(list[j], layout).None?)
              && c.ptr == Wrap(UsedStart(c.header))
              && c.list[c.index].addr == list[c.index].addr
              && (forall j :: 0 <= j < |list| && j != c.index ==> c.list[j] == list[j])
  {
  }

  /** `AllocList` once the walk has stopped at position `k`, at a segment of the
      address space, without wrapping: the header is the intended one, `alloc` succeeds exactly when
      the part of the segment left free is at most `isize::MAX` bytes (otherwise the
      segment's `update_size` panics), and then the segment ends at the header and
      the used block runs to the segment's old end. */
  lemma AllocListAt(list: seq<Node>, layout: Layout, k: nat)
    requires ValidLayout(layout) && k < |list| && InAddressSpace(list[k])
    requires FirstFitFrom(list, layout, 0) == Some(k) && CarvedHeader(list[k], layout) >= 0
    ensures HeaderPtr(list[k], layout) == FittedHeaderPtr(list[k], layout) == Some(CarvedHeader(list[k], layout))
    ensures AllocList(list, layout).Ok? <==> CarvedHeader(list[k], layout) - FreeStart(list[k].addr) <= IsizeMax
    ensures AllocList(list, layout).Ok? ==>
              AllocList(list, layout) ==
                Ok(Carve(k, CarvedHeader(list[k], layout),
                         End(list[k]) - UsedStart(CarvedHeader(list[k], layout)),
                         UsedStart(CarvedHeader(list[k], layout)),
                         list[k := Node(list[k].addr, CarvedHeader(list[k], layout) - FreeStart(list[k].addr))]))
  {
    HeaderPtrSpec(list[k], layout);
    CarveUpdates(list[k], layout);
    assert AllocList(list, layout) == CarveAt(list, k, HeaderPtr(list[k], layout).value);
    CarveAtTop(list, k, CarvedHeader(list[k], layout));
  }

  /** Both `update_size` calls of `alloc` on a segment of the address space whose
      header does not wrap. */
  lemma CarveUpdates(segment: Node, layout: Layout)
    requires ValidLayout(layout) && InAddressSpace(segment)
    requires CarvedHeader(segment, layout) >= FreeStart(segment.addr)
    ensures var header := CarvedHeader(segment, layout);
            && HeaderPtr(segment, layout) == FittedHeaderPtr(segment, layout) == Some(header)
            && EndPtr(segment) == End(segment)
            && (UpdatedFreeSize(segment.addr, header).Ok? <==> header - FreeStart(segment.addr) <= IsizeMax)
            && (UpdatedFreeSize(segment.addr, header).Ok? ==>
                  UpdatedFreeSize(segment.addr, header).value == header - FreeStart(segment.addr))
            && UsedStart(header) <= End(segment) && End(segment) - UsedStart(header) <= IsizeMax
            && UpdatedUsedSize(header, End(segment)) == Ok(End(segment) - UsedStart(header))
            && Wrap(UsedStart(header)) == UsedStart(header)
  {
    HeaderPtrSpec(segment, layout);
    var header := CarvedHeader(segment, layout);
    assert EndPtr(segment) == End(segment);
    assert UsedStart(header) <= End(segment) && End(segment) - UsedStart(header) <= IsizeMax by {
      PowerOfTwoIsPositive(layout.align);
      assert header + UsedSegmentSize == RoundDown(End(segment) - layout.size, layout.align);
    }
  }

  /** `alloc` succeeds, and the segment it carves from holds the block without the
      pointer arithmetic of `get_header_ptr` wrapping past address 0. */
  ghost predicate AllocNoWrap(list: seq<Node>, layout: Layout)
    requires ValidLayout(layout)
  {
    AllocList(list, layout).Ok? && CarvedHeader(list[AllocList(list, layout).value.index], layout) >= 0
  }

  /** The wrap in `get_header_ptr` makes `alloc` panic although a segment fits: the
      first segment ends below `layout.size`, its header wraps to 0xFF20_0010, and
      `update_size` refuses the distance 0xFF00_0008 from its payload start, which
      is negative as an `isize`.  The second segment would have held the block. */
  lemma AllocWrapPanics()
    ensures var list := [Node(0x20_0000, 16), Node(0x1000_0000, 0x800_0000)];
            var layout := Layout(0x100_0000, 1);
            && ValidLayout(layout) && WellFormed(list)
            && FittedHeaderPtr(list[0], layout).None? && FittedHeaderPtr(list[1], layout).Some?
            && HeaderPtr(list[0], layout) == Some(0xFF20_0010)
            && AllocList(list, layout) == Panic(InvalidUsize)
  {
    var list := [Node(0x20_0000, 16), Node(0x1000_0000, 0x800_0000)];
    var layout := Layout(0x100_0000, 1);
    assert IsPowerOfTwo(1);
    assert HeaderPtr(list[0], layout) == Some(0xFF20_0010);
    assert FirstFitFrom(list, layout, 0) == Some(0);
  }

  /** When the wrap leaves both distances below `isize::MAX`, `alloc` succeeds on a
      segment that cannot hold the block: from an empty segment at 16 it returns the
      payload 0x8000_0019 of `isize::MAX` bytes, which runs past the top of memory,
      and the segment grows to 0x7FFF_FFF9 bytes that were never free. */
  lemma AllocWrapOverlaps()
    ensures var list := [Node(16, 0)];
            var layout := Layout(IsizeMax, 1);
            && ValidLayout(layout) && WellFormed(list)
            && FittedHeaderPtr(list[0], layout).None?
            && AllocList(list, layout) == Ok(Carve(0, 0x8000_0011, IsizeMax, 0x8000_0019, [Node(16, 0x7FFF_FFF9)]))
            && UsedStart(0x8000_0011) + IsizeMax > AddressSpace
  {
    var list := [Node(16, 0)];
    var layout := Layout(IsizeMax, 1);
    assert IsPowerOfTwo(1);
    assert HeaderPtr(list[0], layout) == Some(0x8000_0011);
    assert FirstFitFrom(list, layout, 0) == Some(0);
    assert EndPtr(list[0]) == 24;
    assert UpdatedFreeSize(16, 0x8000_0011) == Ok(0x7FFF_FFF9);
    assert UpdatedUsedSize(0x8000_0011, 24) == Ok(IsizeMax);
    assert list[0 := Node(16, 0x7FFF_FFF9)] == [Node(16, 0x7FFF_FFF9)];
  }

  /** Freeing the block `AllocWrapOverlaps` hands out (its header at 0x8000_0011, its
      size `isize::MAX`, the segment below it shrunk to 0x7FFF_FFF9 bytes) panics: the
      block touches that segment, and the `usize` sum of the two sizes in the backward
      merge is 2^32.  In exact arithmetic the merged segment would reach past 4 GiB. */
  lemma DeallocWrapOverflows()
    ensures InsertList([Node(16, 0x7FFF_FFF9)], 0x8000_0011, IsizeMax) == Panic(ArithmeticOverflow)
    ensures SpliceMerge(Node(16, 0x7FFF_FFF9), Node(0x8000_0011, IsizeMax), []) == [Node(16, AddressSpace)]
  {
    var l, h := [Node(16, 0x7FFF_FFF9)], 0x8000_0011;
    assert ScanFrom(l, h, 0) == Ok(0);
    assert l[1..] == [];
  }

  /** A freed block that ends at exactly 2^32 with no successor: the wrapping `add` of
      `merge_if_adjacent` gives the null successor pointer, and the merge reads a
      header through it. */
  lemma DeallocNullMerge()
    ensures FreeEnd(0x8000_0000, 0x7FFF_FFF8) == AddressSpace
    ensures InsertList([Node(16, 0)], 0x8000_0000, 0x7FFF_FFF8) == Panic(NullDereference)
  {
    var list := [Node(16, 0)];
    assert ScanFrom(list, 0x8000_0000, 0) == Ok(0);
    assert list[1..] == [];
  }

  /** `get_header_ptr` on an empty segment at 0x7FFF_FFF8 with a layout of
      0x7FFF_FFFF bytes: the header wraps to 0xFFFF_FFF9. */
  lemma LowPointerHeader()
    ensures HeaderPtr(Node(0x7FFF_FFF8, 0), Layout(0x7FFF_FFFF, 1)) == Some(0xFFFF_FFF9)
  {
    assert IsPowerOfTwo(1);
  }

  /** The walk of `alloc` accepts that segment. */
  lemma LowPointerFirstFit()
    ensures FirstFitFrom([Node(0x7FFF_FFF8, 0)], Layout(0x7FFF_FFFF, 1), 0) == Some(0)
  {
    LowPointerHeader();
  }

  /** The carve at the wrapped header: the segment grows to 0x7FFF_FFF9 bytes, the
      block has `isize::MAX` bytes, and its payload pointer `get_start` wraps to 1. */
  lemma LowPointerCarve()
    ensures CarveAt([Node(0x7FFF_FFF8, 0)], 0, 0xFFFF_FFF9) ==
              Ok(Carve(0, 0xFFFF_FFF9, IsizeMax, 1, [Node(0x7FFF_FFF8, 0x7FFF_FFF9)]))
  {
    assert EndPtr(Node(0x7FFF_FFF8, 0)) == 0x8000_0000;
    assert UpdatedFreeSize(0x7FFF_FFF8, 0xFFFF_FFF9) == Ok(0x7FFF_FFF9);
    assert UpdatedUsedSize(0xFFFF_FFF9, 0x8000_0000) == Ok(IsizeMax);
    assert Wrap(UsedStart(0xFFFF_FFF9)) == 1;
    assert [Node(0x7FFF_FFF8, 0)][0 := Node(0x7FFF_FFF8, 0x7FFF_FFF9)] == [Node(0x7FFF_FFF8, 0x7FFF_FFF9)];
  }

  /** A wrapped header whose payload pointer wraps too: from an empty segment at
      0x7FFF_FFF8, a layout of 0x7FFF_FFFF bytes gets the header 0xFFFF_FFF9 and the
      payload pointer 1. */
  lemma AllocWrapLowPointer(list: seq<Node>, layout: Layout)
    requires list == [Node(0x7FFF_FFF8, 0)] && layout == Layout(0x7FFF_FFFF, 1)
    ensures ValidLayout(layout)
    ensures AllocList(list, layout) == Ok(Carve(0, 0xFFFF_FFF9, IsizeMax, 1, [Node(0x7FFF_FFF8, 0x7FFF_FFF9)]))
  {
    assert IsPowerOfTwo(1);
    LowPointerHeader();
    LowPointerFirstFit();
    LowPointerCarve();
  }

  /** Freeing the block of `AllocWrapLowPointer`: `get_header_ptr_from_allocated`
      steps back from the payload pointer 1 to the header 0xFFFF_FFF9, where the
      segment below ends, and the `usize` sum of the two sizes in the backward merge
      is 2^32. */
  lemma DeallocLowPointerOverflows()
    ensures WellFormed([Node(0x7FFF_FFF8, 0)]) && HeaderOfAllocated(1) == 0xFFFF_FFF9
    ensures InsertList([Node(0x7FFF_FFF8, 0x7FFF_FFF9)], 0xFFFF_FFF9, IsizeMax) == Panic(ArithmeticOverflow)
  {
    var l := [Node(0x7FFF_FFF8, 0x7FFF_FFF9)];
    assert ScanFrom(l, 0xFFFF_FFF9, 0) == Ok(0);
    assert l[1..] == [];
  }

  /** The allocation is carved from the top of the segment: the segment now ends at
      the new header, the used block runs to the segment's old end, no byte is lost,
      and the payload is aligned and large enough. */
  lemma AllocCarvesTop(list: seq<Node>, layout: Layout)
    requires ValidLayout(layout) && WellFormed(list) && AllocNoWrap(list, layout)
    ensures layout.align > 0
    ensures var c := AllocList(list, layout).value;
            && c.ptr == UsedStart(c.header)
            && c.list[c.index].size + H + c.usedSize == list[c.index].size
            && End(c.list[c.index]) == c.header
            && UsedStart(c.header) + c.usedSize == End(list[c.index])
            && Aligned(UsedStart(c.header), layout.align)
            && c.usedSize >= layout.size
            && Span(c.list) + H + c.usedSize == Span(list)
  {
    var k := AllocList(list, layout).value.index;
    AllocIsFirstFit(list, layout);
    var segment := list[k];
    assert InAddressSpace(segment);
    HeaderPtrSpec(segment, layout);
    CarveUpdates(segment, layout);
    var header := CarvedHeader(segment, layout);
    var shrunk := Node(segment.addr, header - FreeStart(segment.addr));
    assert AllocList(list, layout) == CarveAt(list, k, header);
    CarveAtTop(list, k, header);
    FittedHeaderPtrSpec(segment, layout);
    SpanReplace(list, k, shrunk);
  }

  /** Once the walk has stopped at position `k`, `alloc` is the carve at `k` with the
      header `get_header_ptr` returned; without a wrap that carve succeeds and the
      block's payload starts inside the segment. */
  lemma AllocStopsAt(list: seq<Node>, layout: Layout, k: nat)
    requires ValidLayout(layout) && WellFormed(list) && k < |list|
    requires FirstFitFrom(list, layout, 0) == Some(k)
    ensures AllocList(list, layout) == CarveAt(list, k, HeaderPtr(list[k], layout).value)
    ensures AllocNoWrap(list, layout) ==>
              && CarveAt(list, k, HeaderPtr(list[k], layout).value).Ok?
              && UsedStart(HeaderPtr(list[k], layout).value) <= End(list[k])
  {
    if AllocNoWrap(list, layout) {
      AllocCarvesTop(list, layout);
    }
  }

  /** `alloc` keeps the free-list invariant. */
  lemma AllocKeepsWellFormed(list: seq<Node>, layout: Layout)
    requires ValidLayout(layout) && WellFormed(list) && AllocNoWrap(list, layout)
    ensures WellFormed(AllocList(list, layout).value.list)
  {
    var c := AllocList(list, layout).value;
    AllocCarvesTop(list, layout);
    AllocIsFirstFit(list, layout);
    ShrinkKeepsWellFormed(list, c.list, c.index);
  }

  /** Shrinking one segment in place, keeping its header, keeps the invariant. */
  lemma ShrinkKeepsWellFormed(list: seq<Node>, l: seq<Node>, k: nat)
    requires WellFormed(list) && |l| == |list| && k < |list|
    requires l[k].addr == list[k].addr && l[k].size <= list[k].size
    requires forall j :: 0 <= j < |list| && j != k ==> l[j] == list[j]
    ensures WellFormed(l)
  {
    forall i, j | 0 <= i < j < |l| ensures End(l[i]) < l[j].addr {
      assert End(l[i]) <= End(list[i]);
      assert l[j].addr == list[j].addr;
    }
    forall i | 0 <= i < |l| ensures l[i].addr > Null && End(l[i]) < AddressSpace {
      assert l[i].addr == list[i].addr && End(l[i]) <= End(list[i]);
    }
  }

  // ---------------------------------------------------------------------------
  // dealloc: ordered insertion and coalescing
  // ---------------------------------------------------------------------------

  /** The scan of `insert_segment_into_list` from position `k`: the position of the node
      after which the segment at `h` is spliced.  It panics with `AssertFailed` on a
      visited node that is not strictly below `h`, and with `InsertFailed` when the
      list is exhausted. */
  function ScanFrom(list: seq<Node>, h: int, k: nat): (r: Result<nat>)
    requires k <= |list|
    ensures r.Ok? ==> k <= r.value < |list| && list[r.value].addr < h
    ensures r.Ok? ==> r.value + 1 < |list| ==> list[r.value + 1].addr > h
    ensures r.Ok? ==> forall j :: k <= j <= r.value ==> list[j].addr < h
    ensures r == Panic(InsertFailed) <==> k == |list|
    ensures r.Panic? ==> r.reason == InsertFailed || r.reason == AssertFailed
    decreases |list| - k
  {
    if k == |list| then Panic(InsertFailed)
    else if !(list[k].addr < h) then Panic(AssertFailed)
    else if k + 1 == |list| || list[k + 1].addr > h then Ok(k)
    else ScanFrom(list, h, k + 1)
  }

  /** `merge_if_adjacent(a, b)` on values: when `a` ends exactly where `b`'s header
      starts, the merged node starts at `a` and ends where `b` ended. */
  function MergeIfAdjacent(a: Node, b: Node): (r: Option<Node>)
    ensures r.Some? <==> End(a) == b.addr
    ensures r.Some? ==> r.value.addr == a.addr && End(r.value) == End(b)
  {
    if End(a) == b.addr then Some(Node(a.addr, a.size + H + b.size)) else None
  }

  /** `merge_if_adjacent(a, b)` as written, with `b` the successor node or `None` for
      the null pointer.  The `usize` sum `a.size + 8` may overflow; the pointer `add`
      wraps modulo 2^32 and is compared with `b`'s address, null included; on a match
      `b`'s header is read, through the null pointer when there is no successor, and
      the `usize` sum of the two sizes may overflow.  Inside the address space it is
      the merge `MergeIfAdjacent`, and it cannot panic. */
  function MergeChecked(a: Node, b: Option<Node>): (r: Result<Option<Node>>)
    ensures r.Panic? ==> r.reason == ArithmeticOverflow || r.reason == NullDereference
    ensures a.size + H >= AddressSpace ==> r == Panic(ArithmeticOverflow)
    ensures r.Ok? ==> (r.value.Some? <==> Wrap(End(a)) == if b.Some? then b.value.addr else Null)
    ensures r.Ok? && r.value.Some? ==>
              && b.Some? && Wrap(End(a)) == b.value.addr
              && r.value.value == Node(a.addr, a.size + H + b.value.size)
              && r.value.value.size < AddressSpace
    ensures r.Ok? && 0 <= a.addr && (End(a) < AddressSpace || b.None? || a.addr < b.value.addr < AddressSpace) ==>
              r.value == if b.Some? then MergeIfAdjacent(a, b.value) else None
    ensures 0 <= a.addr && End(a) < AddressSpace && (b.Some? ==> End(b.value) < AddressSpace) ==> r.Ok?
  {
    var next := if b.Some? then b.value.addr else Null;
    if a.size + H >= AddressSpace then Panic(ArithmeticOverflow)
    else if Wrap(End(a)) != next then Ok(None)
    else if b.None? then Panic(NullDereference)
    else if a.size + H + b.value.size >= AddressSpace then Panic(ArithmeticOverflow)
    else Ok(Some(Node(a.addr, a.size + H + b.value.size)))
  }

  /** The splice and the two merges of `insert_segment_into_list` once the scan has
      found the predecessor `prev` of the freed node: `freed` goes between `prev` and
      the nodes `succ` that followed it, is merged with its new successor when they
      touch, and then `prev` is merged with the result when they touch. */
  function SpliceMerge(prev: Node, freed: Node, succ: seq<Node>): (r: seq<Node>)
    ensures |succ| <= |r| <= |succ| + 2
    ensures r != [] && r[0].addr == prev.addr
  {
    var forward := if succ != [] then MergeIfAdjacent(freed, succ[0]) else None;
    var mid := if forward.Some? then forward.value else freed;
    var rest := if forward.Some? then succ[1..] else succ;
    match MergeIfAdjacent(prev, mid)
    case Some(merged) => [merged] + rest
    case None => [prev, mid] + rest
  }

  /** The splice and the two merges as written: the forward merge of `freed` with its
      successor, null when `succ` is empty, then the backward merge of `prev` with the
      result, each with the 32-bit checks of `MergeChecked`. */
  function SpliceMergeChecked(prev: Node, freed: Node, succ: seq<Node>): (r: Result<seq<Node>>)
    ensures r.Panic? ==> r.reason == ArithmeticOverflow || r.reason == NullDereference
    ensures r.Ok? ==> |succ| <= |r.value| <= |succ| + 2
    ensures r.Ok? ==> r.value != [] && r.value[0].addr == prev.addr
  {
    match MergeChecked(freed, if succ != [] then Some(succ[0]) else None)
    case Panic(e) => Panic(e)
    case Ok(forward) =>
      var mid := if forward.Some? then forward.value else freed;
      var rest := if forward.Some? then succ[1..] else succ;
      match MergeChecked(prev, Some(mid))
      case Panic(e) => Panic(e)
      case Ok(backward) => Ok(if backward.Some? then [backward.value] + rest else [prev, mid] + rest)
  }

  /** When the predecessor lies in the address space and the successor above the freed
      node, the checked splice that succeeds is the splice in exact arithmetic; and it
      succeeds whenever the freed node and its successor lie in the address space. */
  lemma SpliceMergeCheckedAgrees(prev: Node, freed: Node, succ: seq<Node>)
    requires InAddressSpace(prev) && 0 <= freed.addr
    requires succ != [] ==> freed.addr < succ[0].addr < AddressSpace
    ensures SpliceMergeChecked(prev, freed, succ).Ok? ==>
              SpliceMergeChecked(prev, freed, succ).value == SpliceMerge(prev, freed, succ)
    ensures End(freed) < AddressSpace && (succ != [] ==> End(succ[0]) < AddressSpace) ==>
              SpliceMergeChecked(prev, freed, succ).Ok?
  {
    var forward := MergeChecked(freed, if succ != [] then Some(succ[0]) else None);
    if forward.Ok? {
      var mid := if forward.value.Some? then forward.value.value else freed;
      assert End(freed) < AddressSpace && (succ != [] ==> End(succ[0]) < AddressSpace) ==>
               End(mid) < AddressSpace;
    }
  }

  /** `convert_used_to_free_segment` followed by `insert_segment_into_list` on the free
      list: the block at `h` becomes a free node of `size` bytes, spliced in after the
      scan position and coalesced with its neighbours. */
  function InsertList(list: seq<Node>, h: int, size: nat): (r: Result<seq<Node>>)
    ensures ScanFrom(list, h, 0).Panic? ==> r == Panic(ScanFrom(list, h, 0).reason)
    ensures ScanFrom(list, h, 0).Ok? && r.Panic? ==> r.reason == ArithmeticOverflow || r.reason == NullDereference
    ensures r == Panic(InsertFailed) <==> list == []
    ensures r.Ok? ==> |list| - 1 <= |r.value| <= |list| + 1
    ensures r.Ok? ==> r.value != [] && r.value[0].addr == list[0].addr
  {
    match ScanFrom(list, h, 0)
    case Panic(e) => Panic(e)
    case Ok(k) =>
      match SpliceMergeChecked(list[k], Node(h, size), list[k + 1..])
      case Panic(e) => Panic(e)
      case Ok(s) => Ok(list[..k] + s)
  }

  /** Once the scan has stopped at position `k`, `dealloc` is the checked splice there. */
  lemma InsertListAt(list: seq<Node>, h: int, size: nat, k: nat)
    requires ScanFrom(list, h, 0) == Ok(k)
    ensures var c := SpliceMergeChecked(list[k], Node(h, size), list[k + 1..]);
            InsertList(list, h, size) == if c.Panic? then Panic(c.reason) else Ok(list[..k] + c.value)
  {
  }

  /** On a well-formed list, a `dealloc` that succeeds splices and coalesces in exact
      arithmetic, and one whose block ends inside the address space panics only in
      the scan. */
  lemma InsertListAgrees(list: seq<Node>, h: int, size: nat)
    requires WellFormed(list)
    ensures var scan := ScanFrom(list, h, 0);
            scan.Ok? && InsertList(list, h, size).Ok? ==>
              InsertList(list, h, size).value ==
                list[..scan.value] + SpliceMerge(list[scan.value], Node(h, size), list[scan.value + 1..])
    ensures ScanFrom(list, h, 0).Ok? && FreeEnd(h, size) < AddressSpace ==> InsertList(list, h, size).Ok?
  {
    var scan := ScanFrom(list, h, 0);
    if scan.Ok? {
      var k := scan.value;
      if k + 1 < |list| {
        assert list[k + 1..][0] == list[k + 1];
      }
      SpliceMergeCheckedAgrees(list[k], Node(h, size), list[k + 1..]);
    }
  }

  /** The freed block does not overlap the free segment `n`. */
  ghost predicate Disjoint(n: Node, h: int, size: nat)
  {
    FreeEnd(h, size) <= n.addr || End(n) <= h
  }

  /** When `dealloc` panics on a well-formed list: `InsertFailed` exactly when the head
      is null, and otherwise `AssertFailed` exactly when `h` is not above the head or is
      already the header of a free node. */
  lemma InsertPanics(list: seq<Node>, h: int, size: nat)
    requires WellFormed(list)
    ensures InsertList(list, h, size) == Panic(InsertFailed) <==> list == []
    ensures list != [] ==>
              (InsertList(list, h, size) == Panic(AssertFailed) <==>
               h <= list[0].addr || exists j :: 0 <= j < |list| && list[j].addr == h)
  {
    if list != [] {
      var r := ScanFrom(list, h, 0);
      if r.Ok? {
        var k := r.value;
        forall j | 0 <= j < |list| ensures list[j].addr != h {
          if j > k + 1 {
            assert End(list[k + 1]) < list[j].addr;
          }
        }
      } else if h > list[0].addr && forall j :: 0 <= j < |list| ==> list[j].addr != h {
        ScanSucceeds(list, h, 0);
      }
    }
  }

  lemma {:induction false} ScanSucceeds(list: seq<Node>, h: int, k: nat)
    requires WellFormed(list) && k < |list| && list[k].addr < h
    requires forall j :: 0 <= j < |list| ==> list[j].addr != h
    ensures ScanFrom(list, h, k).Ok?
    decreases |list| - k
  {
    if k + 1 < |list| && list[k + 1].addr <= h {
      ScanSucceeds(list, h, k + 1);
    }
  }

  /** A node that ends before every node of a separated list can be put in front. */
  lemma ConsSeparated(n: Node, s: seq<Node>)
    requires Separated(s) && forall j :: 0 <= j < |s| ==> End(n) < s[j].addr
    ensures Separated([n] + s)
  {
    var t := [n] + s;
    forall i, j | 0 <= i < j < |t| ensures End(t[i]) < t[j].addr {
      assert t[j] == s[j - 1];
      if i > 0 {
        assert t[i] == s[i - 1];
      }
    }
  }

  /** Two separated lists concatenate to a separated list when the first ends before
      the second begins. */
  lemma ConcatSeparated(a: seq<Node>, b: seq<Node>)
    requires Separated(a) && Separated(b)
    requires forall i, j :: 0 <= i < |a| && 0 <= j < |b| ==> End(a[i]) < b[j].addr
    ensures Separated(a + b)
  {
    var t := a + b;
    forall i, j | 0 <= i < j < |t| ensures End(t[i]) < t[j].addr {
      if j >= |a| {
        assert t[j] == b[j - |a|];
        if i >= |a| {
          assert t[i] == b[i - |a|];
        }
      }
    }
  }

  /** The splice keeps the order and coalesces both adjacencies: when `freed` starts at
      or after the end of `prev` and ends at or before the first node of `succ`, the
      result is separated, starts at `prev`, and has no node below `prev`. */
  lemma SpliceMergeSeparated(prev: Node, freed: Node, succ: seq<Node>)
    requires Separated(succ)
    requires End(prev) <= freed.addr
    requires succ != [] ==> End(freed) <= succ[0].addr
    ensures var s := SpliceMerge(prev, freed, succ);
            && Separated(s)
            && s != [] && s[0].addr == prev.addr
            && forall j :: 0 <= j < |s| ==> prev.addr <= s[j].addr
  {
    var forward := if succ != [] then MergeIfAdjacent(freed, succ[0]) else None;
    var mid := if forward.Some? then forward.value else freed;
    var rest := if forward.Some? then succ[1..] else succ;
    assert Separated(rest);
    forall j | 0 <= j < |rest| ensures End(mid) < rest[j].addr {
      if forward.Some? {
        assert rest[j] == succ[j + 1];
      } else if j > 0 {
        assert End(succ[0]) < succ[j].addr;
      }
    }
    assert prev.addr < mid.addr;
    match MergeIfAdjacent(prev, mid)
    case Some(merged) =>
      ConsSeparated(merged, rest);
    case None =>
      ConsSeparated(mid, rest);
      ConsSeparated(prev, [mid] + rest);
      assert [prev] + ([mid] + rest) == [prev, mid] + rest;
  }

  /** The segment `n` lies inside `[lo, hi)`. */
  ghost predicate Within(n: Node, lo: int, hi: int)
  {
    lo <= n.addr && End(n) <= hi
  }

  /** A merged node spans its two parts, so the splice keeps every node inside any
      range that holds its three parts. */
  lemma SpliceMergeWithin(prev: Node, freed: Node, succ: seq<Node>, lo: int, hi: int)
    requires Within(prev, lo, hi) && Within(freed, lo, hi)
    requires forall j :: 0 <= j < |succ| ==> Within(succ[j], lo, hi)
    ensures var s := SpliceMerge(prev, freed, succ);
            forall j :: 0 <= j < |s| ==> Within(s[j], lo, hi)
  {
    var forward := if succ != [] then MergeIfAdjacent(freed, succ[0]) else None;
    var mid := if forward.Some? then forward.value else freed;
    var rest := if forward.Some? then succ[1..] else succ;
    assert Within(mid, lo, hi) by {
      if forward.Some? {
        assert Within(succ[0], lo, hi);
      }
    }
    assert forall j :: 0 <= j < |rest| ==> Within(rest[j], lo, hi) by {
      forall j | 0 <= j < |rest| ensures Within(rest[j], lo, hi) {
        if forward.Some? {
          assert rest[j] == succ[j + 1];
        }
      }
    }
  }

  /** The block at `h` of `size` bytes overlaps none of the nodes. */
  ghost predicate Apart(list: seq<Node>, h: int, size: nat)
  {
    forall i :: 0 <= i < |list| ==> Disjoint(list[i], h, size)
  }

  /** A block that overlaps neither of two adjacent segments overlaps their merge. */
  lemma MergedDisjoint(a: Node, b: Node, h: int, size: nat)
    requires End(a) == b.addr && Disjoint(a, h, size) && Disjoint(b, h, size)
    ensures Disjoint(Node(a.addr, a.size + H + b.size), h, size)
  {
  }

  /** A block apart from the splice's three parts is apart from its result. */
  lemma SpliceMergeApart(prev: Node, freed: Node, succ: seq<Node>, h: int, size: nat)
    requires Disjoint(prev, h, size) && Disjoint(freed, h, size) && Apart(succ, h, size)
    ensures Apart(SpliceMerge(prev, freed, succ), h, size)
  {
    var forward := if succ != [] then MergeIfAdjacent(freed, succ[0]) else None;
    var mid := if forward.Some? then forward.value else freed;
    var rest := if forward.Some? then succ[1..] else succ;
    assert Disjoint(mid, h, size) by {
      if forward.Some? {
        MergedDisjoint(freed, succ[0], h, size);
      }
    }
    assert Apart(rest, h, size) by {
      forall j | 0 <= j < |rest| ensures Disjoint(rest[j], h, size) {
        if forward.Some? {
          assert rest[j] == succ[j + 1];
        }
      }
    }
    match MergeIfAdjacent(prev, mid)
    case Some(merged) =>
      MergedDisjoint(prev, mid, h, size);
      assert Apart([merged] + rest, h, size) by {
        forall j | 0 <= j < |rest| + 1 ensures Disjoint(([merged] + rest)[j], h, size) {
          if j > 0 {
            assert ([merged] + rest)[j] == rest[j - 1];
          }
        }
      }
    case None =>
      assert Apart([prev, mid] + rest, h, size) by {
        forall j | 0 <= j < |rest| + 2 ensures Disjoint(([prev, mid] + rest)[j], h, size) {
          if j > 1 {
            assert ([prev, mid] + rest)[j] == rest[j - 2];
          }
        }
      }
  }

  lemma SpanCons(n: Node, s: seq<Node>)
    ensures Span([n] + s) == H + n.size + Span(s)
  {
    assert ([n] + s)[1..] == s;
  }

  /** The splice accounts for exactly the bytes of `prev`, `freed` and `succ`. */
  lemma SpliceMergeSpan(prev: Node, freed: Node, succ: seq<Node>)
    ensures Span(SpliceMerge(prev, freed, succ)) == H + prev.size + H + freed.size + Span(succ)
  {
    var forward := if succ != [] then MergeIfAdjacent(freed, succ[0]) else None;
    var mid := if forward.Some? then forward.value else freed;
    var rest := if forward.Some? then succ[1..] else succ;
    assert Span(succ) == if forward.Some? then H + succ[0].size + Span(rest) else Span(rest);
    match MergeIfAdjacent(prev, mid)
    case Some(merged) =>
      SpanCons(merged, rest);
    case None =>
      SpanCons(mid, rest);
      SpanCons(prev, [mid] + rest);
      assert [prev] + ([mid] + rest) == [prev, mid] + rest;
  }

  /** The checked splice that succeeds accounts for the same bytes, whichever merges
      its wrapping comparisons chose. */
  lemma SpliceMergeCheckedSpan(prev: Node, freed: Node, succ: seq<Node>)
    requires SpliceMergeChecked(prev, freed, succ).Ok?
    ensures Span(SpliceMergeChecked(prev, freed, succ).value) == H + prev.size + H + freed.size + Span(succ)
  {
    var forward := MergeChecked(freed, if succ != [] then Some(succ[0]) else None).value;
    var mid := if forward.Some? then forward.value else freed;
    var rest := if forward.Some? then succ[1..] else succ;
    assert Span(succ) == if forward.Some? then H + succ[0].size + Span(rest) else Span(rest);
    match MergeChecked(prev, Some(mid)).value
    case Some(merged) =>
      SpanCons(merged, rest);
    case None =>
      SpanCons(mid, rest);
      SpanCons(prev, [mid] + rest);
      assert [prev] + ([mid] + rest) == [prev, mid] + rest;
  }

  /** `dealloc` once the scan has stopped at position `k` of a well-formed list: it
      panics as the checked splice does; otherwise it is the splice in exact
      arithmetic, and a block that overlaps no free segment and ends inside the
      address space leaves the list well formed. */
  lemma InsertAtScan(list: seq<Node>, h: int, size: nat, k: nat)
    requires WellFormed(list) && ScanFrom(list, h, 0) == Ok(k) && h > Null
    requires forall i :: 0 <= i < |list| ==> Disjoint(list[i], h, size)
    ensures var c := SpliceMergeChecked(list[k], Node(h, size), list[k + 1..]);
            var spec := InsertList(list, h, size);
            && (c.Panic? ==> spec == Panic(c.reason))
            && (c.Ok? ==> spec.Ok? && spec.value == list[..k] + SpliceMerge(list[k], Node(h, size), list[k + 1..]))
            && (spec.Ok? && FreeEnd(h, size) < AddressSpace ==> WellFormed(spec.value))
  {
    InsertListAt(list, h, size, k);
    InsertListAgrees(list, h, size);
    if InsertList(list, h, size).Ok? && FreeEnd(h, size) < AddressSpace {
      InsertKeepsWellFormed(list, h, size);
    }
  }

  /** Deallocating a block that overlaps no free segment keeps the free-list invariant:
      the list stays in ascending order and every adjacency is coalesced. */
  lemma InsertKeepsWellFormed(list: seq<Node>, h: int, size: nat)
    requires WellFormed(list) && h > Null && FreeEnd(h, size) < AddressSpace
    requires forall i :: 0 <= i < |list| ==> Disjoint(list[i], h, size)
    requires InsertList(list, h, size).Ok?
    ensures WellFormed(InsertList(list, h, size).value)
  {
    var k := ScanFrom(list, h, 0).value;
    SpliceAtScanKeepsWellFormed(list, h, size, k);
    InsertListAgrees(list, h, size);
  }

  /** The splice at the node the scan stops at, of a block that overlaps no segment,
      keeps the list well formed. */
  lemma SpliceAtScanKeepsWellFormed(list: seq<Node>, h: int, size: nat, k: nat)
    requires WellFormed(list) && FreeEnd(h, size) < AddressSpace && Apart(list, h, size)
    requires ScanFrom(list, h, 0) == Ok(k)
    ensures WellFormed(list[..k] + SpliceMerge(list[k], Node(h, size), list[k + 1..]))
  {
    assert Disjoint(list[k], h, size);
    if k + 1 < |list| {
      assert Disjoint(list[k + 1], h, size);
    }
    SpliceKeepsWellFormed(list, k, Node(h, size));
  }

  /** Splicing a node between positions `k` and `k + 1` that overlaps neither
      neighbour, and coalescing it, keeps the list well formed. */
  lemma SpliceKeepsWellFormed(list: seq<Node>, k: nat, freed: Node)
    requires WellFormed(list) && k < |list|
    requires End(list[k]) <= freed.addr && End(freed) < AddressSpace
    requires k + 1 < |list| ==> End(freed) <= list[k + 1].addr
    ensures WellFormed(list[..k] + SpliceMerge(list[k], freed, list[k + 1..]))
  {
    var s := SpliceMerge(list[k], freed, list[k + 1..]);
    var pre := list[..k];
    assert Separated(s) && forall j :: 0 <= j < |s| ==> list[k].addr <= s[j].addr by {
      var succ := list[k + 1..];
      if k + 1 < |list| {
        assert succ[0] == list[k + 1];
      }
      assert Separated(succ);
      SpliceMergeSeparated(list[k], freed, succ);
    }
    assert Separated(pre + s) by {
      assert Separated(pre);
      forall i, j | 0 <= i < |pre| && 0 <= j < |s| ensures End(pre[i]) < s[j].addr {
        assert End(list[i]) < list[k].addr;
      }
      ConcatSeparated(pre, s);
    }
    var t := pre + s;
    assert list[k].addr > Null;
    assert forall j :: 0 <= j < |s| ==> Within(s[j], 0, AddressSpace - 1) by {
      var succ := list[k + 1..];
      forall j | 0 <= j < |succ| ensures Within(succ[j], 0, AddressSpace - 1) {
        assert succ[j] == list[k + 1 + j];
      }
      SpliceMergeWithin(list[k], freed, succ, 0, AddressSpace - 1);
    }
    forall i | 0 <= i < |t| ensures t[i].addr > Null && End(t[i]) < AddressSpace {
      if i >= k {
        assert t[i] == s[i - k];
        assert Within(s[i - k], 0, AddressSpace - 1);
      } else {
        assert t[i] == list[i];
      }
    }
  }

  /** `dealloc` conserves bytes: the list gains exactly the freed header and payload. */
  lemma InsertConservesBytes(list: seq<Node>, h: int, size: nat)
    requires InsertList(list, h, size).Ok?
    ensures Span(InsertList(list, h, size).value) == Span(list) + H + size
  {
    var k := ScanFrom(list, h, 0).value;
    SpliceMergeCheckedSpan(list[k], Node(h, size), list[k + 1..]);
    SpanAppend(list[..k], SpliceMergeChecked(list[k], Node(h, size), list[k + 1..]).value);
    SpanSplit(list, k);
  }

  /** Freeing the block `alloc` just returned restores the free list exactly: the scan
      stops at the carved segment, nothing merges forward, and the backward merge gives
      the segment back its old size. */
  lemma AllocThenDeallocRestores(list: seq<Node>, layout: Layout)
    requires ValidLayout(layout) && WellFormed(list) && AllocNoWrap(list, layout)
    ensures var c := AllocList(list, layout).value;
            InsertList(c.list, c.header, c.usedSize) == Ok(list)
  {
    var c := AllocList(list, layout).value;
    AllocIsFirstFit(list, layout);
    AllocCarvesTop(list, layout);
    assert c.list == list[c.index := Node(list[c.index].addr, c.list[c.index].size)];
    CarveThenInsertRestores(list, c.index, c.list[c.index].size, c.usedSize);
  }

  /** The list-level core of the round trip: shrink node `i` so that it ends where a
      block running to its old end begins, then free that block. */
  lemma CarveThenInsertRestores(list: seq<Node>, i: nat, freeSize: nat, usedSize: nat)
    requires WellFormed(list) && i < |list|
    requires freeSize + H + usedSize == list[i].size
    ensures var l := list[i := Node(list[i].addr, freeSize)];
            InsertList(l, End(l[i]), usedSize) == Ok(list)
  {
    var l := list[i := Node(list[i].addr, freeSize)];
    var h := End(l[i]);
    var freed := Node(h, usedSize);
    CarvedInsertIsSplice(list, i, freeSize, usedSize);
    SpliceMergeRestores(l[i], freed, l[i + 1..]);
    assert Node(l[i].addr, l[i].size + H + freed.size) == list[i];
    ReplaceAt(list, l, i);
  }

  /** Freeing the block carved from the top of node `i` is the exact splice after the
      carved node. */
  lemma CarvedInsertIsSplice(list: seq<Node>, i: nat, freeSize: nat, usedSize: nat)
    requires WellFormed(list) && i < |list|
    requires freeSize + H + usedSize == list[i].size
    ensures var l := list[i := Node(list[i].addr, freeSize)];
            && End(l[i]) < End(list[i]) && (i + 1 < |l| ==> End(list[i]) < l[i + 1].addr)
            && InsertList(l, End(l[i]), usedSize) == Ok(l[..i] + SpliceMerge(l[i], Node(End(l[i]), usedSize), l[i + 1..]))
  {
    var l := list[i := Node(list[i].addr, freeSize)];
    var h := End(l[i]);
    CarvedScanStops(list, i, freeSize, usedSize);
    ShrinkKeepsWellFormed(list, l, i);
    InsertListAgrees(l, h, usedSize);
    if i + 1 < |l| {
      assert l[i + 1] == list[i + 1];
    }
  }

  /** After the carve, the scan for the carved block stops at the carved node. */
  lemma CarvedScanStops(list: seq<Node>, i: nat, freeSize: nat, usedSize: nat)
    requires WellFormed(list) && i < |list|
    requires freeSize + H + usedSize == list[i].size
    ensures var l := list[i := Node(list[i].addr, freeSize)];
            ScanFrom(l, End(l[i]), 0) == Ok(i)
  {
    var l := list[i := Node(list[i].addr, freeSize)];
    var h := End(l[i]);
    forall j | 0 <= j <= i ensures l[j].addr < h {
      if j < i {
        assert l[j] == list[j];
      }
    }
    if i + 1 < |l| {
      assert l[i + 1] == list[i + 1];
      assert End(list[i]) < list[i + 1].addr;
    }
    ScanStopsAt(l, h, 0, i);
  }

  /** Putting the old node back at position `i` of a list that differs only there. */
  lemma ReplaceAt(list: seq<Node>, l: seq<Node>, i: nat)
    requires |l| == |list| && i < |list|
    requires forall j :: 0 <= j < |list| && j != i ==> l[j] == list[j]
    ensures l[..i] + ([list[i]] + l[i + 1..]) == list
  {
  }

  /** Splicing a node that directly follows `prev` and stops short of `succ` only
      grows `prev`. */
  lemma SpliceMergeRestores(prev: Node, freed: Node, succ: seq<Node>)
    requires End(prev) == freed.addr
    requires succ != [] ==> End(freed) < succ[0].addr
    ensures SpliceMerge(prev, freed, succ) == [Node(prev.addr, prev.size + H + freed.size)] + succ
  {
  }

  lemma {:induction false} ScanStopsAt(l: seq<Node>, h: int, k: nat, i: nat)
    requires k <= i < |l| && (i + 1 < |l| ==> l[i + 1].addr > h)
    requires forall j :: k <= j <= i ==> l[j].addr < h
    ensures ScanFrom(l, h, k) == Ok(i)
    decreases i - k
  {
    if k < i {
      ScanStopsAt(l, h, k + 1, i);
    }
  }

  /** The carved block overlaps no free segment left behind by `alloc`, so it is a
      block `dealloc` accepts; in particular its header is not a free-list node. */
  lemma AllocBlockIsDisjoint(list: seq<Node>, layout: Layout)
    requires ValidLayout(layout) && WellFormed(list) && AllocNoWrap(list, layout)
    ensures var c := AllocList(list, layout).value;
            && c.header > Null
            && (forall j :: 0 <= j < |c.list| ==> Disjoint(c.list[j], c.header, c.usedSize))
            && (forall j :: 0 <= j < |list| ==> list[j].addr != c.header)
  {
    var c := AllocList(list, layout).value;
    AllocIsFirstFit(list, layout);
    AllocCarvesTop(list, layout);
    assert list[c.index].addr > Null;
    CarvedBlockIsDisjoint(list, c.list, c.index, Node(c.header, c.usedSize));
  }

  /** A block cut from the top of segment `i`, past the segment's new end, overlaps
      no segment of the shrunk list, and its header is no node of the old one. */
  lemma CarvedBlockIsDisjoint(list: seq<Node>, l: seq<Node>, i: nat, block: Node)
    requires WellFormed(list) && |l| == |list| && i < |list|
    requires forall j :: 0 <= j < |list| && j != i ==> l[j] == list[j]
    requires l[i].addr == list[i].addr && End(l[i]) <= block.addr && End(block) <= End(list[i])
    ensures block.addr > Null
    ensures forall j :: 0 <= j < |l| ==> Disjoint(l[j], block.addr, block.size)
    ensures forall j :: 0 <= j < |list| ==> list[j].addr != block.addr
  {
    forall j | 0 <= j < |l| ensures Disjoint(l[j], block.addr, block.size) {
      if j < i {
        assert End(list[j]) < list[i].addr;
      } else if j > i {
        assert End(list[i]) < list[j].addr;
      }
    }
    forall j | 0 <= j < |list| ensures list[j].addr != block.addr {
      assert Disjoint(l[j], block.addr, block.size);
    }
  }

  /** One `merge_if_adjacent` of the node at position `j` with its successor. */
  function MergeAt(list: seq<Node>, j: nat): (r: seq<Node>)
    requires j < |list|
    ensures |r| == |list| || |r| == |list| - 1
  {
    if j + 1 < |list| then
      match MergeIfAdjacent(list[j], list[j + 1])
      case Some(merged) => list[..j] + [merged] + list[j + 2..]
      case None => list
    else list
  }

  /** The linked-list order of `insert_segment_into_list`: splice `freed` after
      position `k`, merge it with its successor, then merge position `k` with it. */
  lemma SpliceAsMerges(list: seq<Node>, k: nat, freed: Node)
    requires k < |list|
    ensures var spliced := list[..k + 1] + [freed] + list[k + 1..];
            MergeAt(MergeAt(spliced, k + 1), k) == list[..k] + SpliceMerge(list[k], freed, list[k + 1..])
  {
    var succ := list[k + 1..];
    var spliced := list[..k + 1] + [freed] + succ;
    var forward := if succ != [] then MergeIfAdjacent(freed, succ[0]) else None;
    var mid := if forward.Some? then forward.value else freed;
    var rest := if forward.Some? then succ[1..] else succ;
    var once := MergeAt(spliced, k + 1);
    assert spliced[k] == list[k] && spliced[k + 1] == freed;
    if succ != [] {
      assert spliced[k + 2] == succ[0];
    }
    assert once == list[..k + 1] + [mid] + rest by {
      if forward.Some? {
        assert spliced[..k + 1] == list[..k + 1];
        assert spliced[k + 3..] == succ[1..];
      }
    }
    assert once[k] == list[k] && once[k + 1] == mid;
    assert list[..k + 1] == list[..k] + [list[k]];
    match MergeIfAdjacent(list[k], mid)
    case Some(merged) =>
      assert once[..k] == list[..k];
      assert once[k + 2..] == rest;
    case None =>
  }
}
