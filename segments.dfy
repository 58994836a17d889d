/** The two header records of the kernel heap (`FreeSegment`, `UsedSegment` in
    src/allocator.rs) and the address arithmetic derived from them.

    Addresses are integers.  The kernel runs on a 32-bit target, so `usize` and
    pointers are four bytes and both packed header records are eight bytes long:
    a block can switch between "free" and "used" by rewriting its header in place. */
module Segments {
  import opened Wrappers

  /** Width of `usize` and of a raw pointer on the 32-bit target, in bytes. */
  const UsizeBytes: nat := 4
  const PointerBytes: nat := 4
  /** `UsedSegment::padding: [u8; 4]`. */
  const UsedPaddingBytes: nat := 4

  /** `size_of::<FreeSegment>()`: `size: usize` then `next_segment: *mut FreeSegment`, packed. */
  const FreeSegmentSize: nat := UsizeBytes + PointerBytes
  /** `size_of::<UsedSegment>()`: `size: usize` then the padding, packed. */
  const UsedSegmentSize: nat := UsizeBytes + UsedPaddingBytes

  /** The one header size of the heap. */
  const H: nat := 8

  /** The null pointer; every header lives at a positive address. */
  const Null: int := 0

  /** The `assert_eq!` at the top of `Allocator::init`: both views have the same size. */
  lemma HeaderSizesAgree()
    ensures FreeSegmentSize == UsedSegmentSize == H
  {
  }

  /** The eight bytes at a header address, read through one of the two views.
      A `Used` header's padding carries no information, so it is not recorded. */
  datatype Header = Free(size: nat, next: int) | Used(size: nat)

  /** A free segment as the free list sees it: its header address and its `size`. */
  datatype Node = Node(addr: int, size: nat)

  /** `FreeSegment::get_start`: the payload starts one header after the header. */
  function FreeStart(header: int): int
  {
    header + FreeSegmentSize
  }

  /** `FreeSegment::get_end`: the payload ends `size` bytes after its start. */
  function FreeEnd(header: int, size: nat): int
  {
    FreeStart(header) + size
  }

  function End(n: Node): int
  {
    FreeEnd(n.addr, n.size)
  }

  /** `UsedSegment::get_start`. */
  function UsedStart(header: int): int
  {
    header + UsedSegmentSize
  }

  /** `get_header_ptr_from_allocated`: step back over the used header with a wrapping
      pointer `sub`, so a payload pointer below 8 has its header at the top of memory. */
  function HeaderOfAllocated(ptr: int): (header: nat)
    ensures header < AddressSpace
    ensures 0 <= ptr < AddressSpace ==> Wrap(UsedStart(header)) == ptr
    ensures UsedSegmentSize <= ptr < AddressSpace ==> UsedStart(header) == ptr
    ensures 0 <= ptr < UsedSegmentSize ==> header == ptr + AddressSpace - UsedSegmentSize
  {
    Wrap(ptr - UsedSegmentSize)
  }

  /** The payload pointer `alloc` returns for a header, `get_start` wrapped to 32 bits,
      leads `dealloc` back to that header. */
  lemma AllocatedHeaderRoundTrip(header: int)
    requires 0 <= header < AddressSpace
    ensures HeaderOfAllocated(Wrap(UsedStart(header))) == header
  {
  }

  /** A block's header and payload occupy `H + size` bytes from the header on. */
  lemma PayloadFollowsHeader(header: int, size: nat)
    ensures FreeStart(header) == UsedStart(header) == header + H
    ensures FreeEnd(header, size) == header + H + size
    ensures HeaderOfAllocated(UsedStart(header)) == Wrap(header)
  {
  }

  /** Pointers and `usize` are 32 bits wide, so pointer arithmetic wraps modulo 2^32. */
  const AddressSpace: nat := 0x1_0000_0000

  /** The value of a pointer computed by `add` or `sub` on the 32-bit target. */
  function Wrap(x: int): (r: nat)
    ensures r < AddressSpace
    ensures 0 <= x < AddressSpace ==> r == x
    ensures x < 0 <= x + AddressSpace ==> r == x + AddressSpace
  {
    x % AddressSpace
  }

  /** `isize::MAX` on the 32-bit target. */
  const IsizeMax: nat := 0x7FFF_FFFF

  /** `ptr.offset_from(start).try_into::<usize>()`: the 32-bit distance from `start`
      to `ptr`, read as an `isize`, is refused when it is negative. */
  function OffsetFrom(ptr: int, start: int): (r: Result<nat>)
    ensures r.Panic? ==> r.reason == InvalidUsize
    ensures 0 <= start <= ptr < AddressSpace ==>
              (r.Ok? <==> ptr - start <= IsizeMax) && (r.Ok? ==> start + r.value == ptr)
    ensures 0 <= ptr < start < AddressSpace && start - ptr <= IsizeMax + 1 ==> r.Panic?
  {
    var distance := Wrap(ptr - Wrap(start));
    if distance <= IsizeMax then Ok(distance) else Panic(InvalidUsize)
  }

  /** `FreeSegment::update_size(ptr)`: the new size is the distance from the payload
      start to `ptr`; `expect` panics when that distance is negative. */
  function UpdatedFreeSize(header: int, ptr: int): (r: Result<nat>)
    ensures r.Panic? ==> r.reason == InvalidUsize
    ensures 0 <= FreeStart(header) <= ptr < AddressSpace ==>
              (r.Ok? <==> ptr - FreeStart(header) <= IsizeMax) && (r.Ok? ==> FreeEnd(header, r.value) == ptr)
    ensures 0 <= ptr < FreeStart(header) < AddressSpace && FreeStart(header) - ptr <= IsizeMax + 1 ==> r.Panic?
  {
    OffsetFrom(ptr, FreeStart(header))
  }

  /** `UsedSegment::update_size(ptr)`: as above, measured from the used payload start. */
  function UpdatedUsedSize(header: int, ptr: int): (r: Result<nat>)
    ensures r.Panic? ==> r.reason == InvalidUsize
    ensures 0 <= UsedStart(header) <= ptr < AddressSpace ==>
              (r.Ok? <==> ptr - UsedStart(header) <= IsizeMax) && (r.Ok? ==> UsedStart(header) + r.value == ptr)
    ensures 0 <= ptr < UsedStart(header) < AddressSpace && UsedStart(header) - ptr <= IsizeMax + 1 ==> r.Panic?
  {
    OffsetFrom(ptr, UsedStart(header))
  }

  ghost predicate IsPowerOfTwo(n: nat)
    decreases n
  {
    n == 1 || (n > 1 && n % 2 == 0 && IsPowerOfTwo(n / 2))
  }

  /** `core::alloc::Layout`: a size and a power-of-two alignment whose rounded-up
      size does not exceed `isize::MAX`. */
  datatype Layout = Layout(size: nat, align: nat)

  ghost predicate ValidLayout(layout: Layout)
  {
    IsPowerOfTwo(layout.align) && layout.size + layout.align - 1 <= IsizeMax
  }

  lemma PowerOfTwoIsPositive(n: nat)
    requires IsPowerOfTwo(n)
    ensures n > 0
  {
  }

  predicate Aligned(p: int, align: nat)
    requires align > 0
  {
    p % align == 0
  }

  /** A product of two naturals is a natural. */
  lemma MulNonnegative(a: int, m: int)
    requires a >= 0 && m >= 0
    ensures a * m >= 0
    decreases a
  {
    if a > 0 {
      MulNonnegative(a - 1, m);
    }
  }

  /** `k * m` is a multiple of `m`. */
  lemma MultipleOf(k: int, m: nat)
    requires m > 0
    ensures (k * m) % m == 0
  {
    var q, r := (k * m) / m, (k * m) % m;
    assert (k - q) * m == r;
    if k - q > 0 {
      MulNonnegative(k - q - 1, m);
    } else if k - q < 0 {
      MulNonnegative(q - k, m);
    }
  }

  /** Two multiples of `m` that differ differ by at least `m`. */
  lemma MultiplesApart(x: int, y: int, m: nat)
    requires m > 0 && Aligned(x, m) && Aligned(y, m) && x < y
    ensures x + m <= y
  {
    var a, b := x / m, y / m;
    assert y - x == (b - a) * m;
    if b - a <= 0 {
      MulNonnegative(a - b, m);
    } else {
      MulNonnegative(b - a - 1, m);
    }
  }

  /** Round `p` down to a multiple of `align` (`ptr.sub(ptr as usize % align)`). */
  function RoundDown(p: int, align: nat): (q: int)
    requires align > 0
    ensures Aligned(q, align) && q <= p < q + align
  {
    MultipleOf(p / align, align);
    p - p % align
  }

  /** Every multiple of `align` at or below `p` is at or below `RoundDown(p, align)`. */
  lemma RoundDownIsGreatest(p: int, align: nat, q: int)
    requires align > 0 && Aligned(q, align) && q <= p
    ensures q <= RoundDown(p, align)
  {
    var r := RoundDown(p, align);
    if r < q {
      MultiplesApart(r, q, align);
    }
  }

  /** A free segment of the 32-bit address space: a non-null header, and a payload
      that ends below 2^32. */
  predicate InAddressSpace(n: Node)
  {
    Null < n.addr && End(n) < AddressSpace
  }

  /** `get_start` and `get_end` of a free segment as 32-bit pointers. */
  function StartPtr(n: Node): nat
  {
    Wrap(FreeStart(n.addr))
  }

  function EndPtr(n: Node): nat
  {
    Wrap(StartPtr(n) + n.size)
  }

  /** `get_header_ptr` as written: from the segment's end, step back `layout.size`
      bytes, round down to `layout.align` and step back one header, each step a
      32-bit pointer `sub`; `None` when the result lies below the payload start. */
  function HeaderPtr(segment: Node, layout: Layout): (r: Option<int>)
    requires ValidLayout(layout)
    ensures r.Some? ==> StartPtr(segment) <= r.value < AddressSpace
  {
    PowerOfTwoIsPositive(layout.align);
    var ptr := Wrap(EndPtr(segment) - layout.size);
    var header := Wrap(RoundDown(ptr, layout.align) - UsedSegmentSize);
    if header < StartPtr(segment) then None else Some(header)
  }

  /** The header `get_header_ptr` aims at, in exact arithmetic: the highest aligned
      payload of `layout.size` bytes that ends by the segment's end, less one header. */
  function CarvedHeader(segment: Node, layout: Layout): int
    requires ValidLayout(layout)
  {
    PowerOfTwoIsPositive(layout.align);
    RoundDown(End(segment) - layout.size, layout.align) - UsedSegmentSize
  }

  /** `get_header_ptr` as evidently intended: the same header, and `None` whenever
      the segment cannot hold it, also when the segment is shorter than the layout. */
  function FittedHeaderPtr(segment: Node, layout: Layout): (r: Option<int>)
    requires ValidLayout(layout)
  {
    var header := CarvedHeader(segment, layout);
    if header < FreeStart(segment.addr) then None else Some(header)
  }

  /** What `get_header_ptr` is meant to give: `None` exactly when no aligned payload
      of `layout.size` bytes fits in the segment after a new header; otherwise the
      payload after the header is aligned, fits, and is the highest that does. */
  lemma FittedHeaderPtrSpec(segment: Node, layout: Layout)
    requires ValidLayout(layout)
    ensures layout.align > 0
    ensures FittedHeaderPtr(segment, layout).None? <==>
              forall q :: Aligned(q, layout.align) && q + layout.size <= End(segment) ==>
                q < UsedStart(FreeStart(segment.addr))
    ensures FittedHeaderPtr(segment, layout).Some? ==>
              var header := FittedHeaderPtr(segment, layout).value;
              && FreeStart(segment.addr) <= header
              && Aligned(UsedStart(header), layout.align)
              && UsedStart(header) + layout.size <= End(segment)
              && (forall q :: Aligned(q, layout.align) && q + layout.size <= End(segment) ==> q <= UsedStart(header))
  {
    PowerOfTwoIsPositive(layout.align);
    var top := RoundDown(End(segment) - layout.size, layout.align);
    forall q | Aligned(q, layout.align) && q + layout.size <= End(segment)
      ensures q <= top
    {
      RoundDownIsGreatest(End(segment) - layout.size, layout.align, q);
    }
    if FittedHeaderPtr(segment, layout).Some? {
      assert FreeStart(segment.addr) <= top - UsedSegmentSize;
    } else {
      assert top < UsedStart(FreeStart(segment.addr));
    }
  }

  /** `get_header_ptr` as written, on a segment of the address space: when the
      header it aims at is not below address 0 it computes exactly the intended
      result; when it is, the pointer arithmetic wraps past 0, the check does not
      notice, and a header is returned although the segment cannot hold the block. */
  lemma HeaderPtrSpec(segment: Node, layout: Layout)
    requires ValidLayout(layout) && InAddressSpace(segment)
    ensures CarvedHeader(segment, layout) >= 0 ==> HeaderPtr(segment, layout) == FittedHeaderPtr(segment, layout)
    ensures CarvedHeader(segment, layout) < 0 ==>
              HeaderPtr(segment, layout).Some? && FittedHeaderPtr(segment, layout).None?
  {
    PowerOfTwoIsPositive(layout.align);
    var align := layout.align;
    assert StartPtr(segment) == FreeStart(segment.addr) && EndPtr(segment) == End(segment);
    var ptr := Wrap(End(segment) - layout.size);
    var rounded := RoundDown(ptr, align);
    if End(segment) >= layout.size {
      assert ptr == End(segment) - layout.size;
    } else {
      assert ptr == End(segment) - layout.size + AddressSpace;
      assert rounded >= UsedSegmentSize;
    }
  }
}
