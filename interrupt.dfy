/** The interrupt gate descriptors of src/interrupt.rs: `GateDescriptor::new` packs an
    offset, a segment selector, a gate type, a privilege level and a present bit into
    the 64-bit layout of section 6.11 ("IDT Descriptors") of the Intel SDM Vol. 3A, and
    `init` computes the limit of the 256-entry table it loads into the IDTR. */
module Interrupt {
  import opened Wrappers
  import opened Unsigned
  import opened BitManipulation
  import Gdt

  /** `GateDescriptor(u64)`. */
  datatype GateDescriptor = GateDescriptor(descriptor: nat)

  /** `GateDescriptorParams`: a `u32` offset, a `u16` selector, `u8` gate type and
      privilege level, and the present flag. */
  datatype GateDescriptorParams =
    GateDescriptorParams(offset: nat, segmentSelector: nat, gateType: nat, dpl: nat, p: bool)

  /** Every field holds a value of its Rust type. */
  predicate ValidParams(params: GateDescriptorParams)
  {
    && Fits(U32, params.offset)
    && Fits(U16, params.segmentSelector)
    && Fits(U8, params.gateType)
    && Fits(U8, params.dpl)
  }

  /** Bit `i` of the gate for `params`: offset 15:0 in bits 0..16, the selector in
      16..32, the gate type in 40..44, the privilege level in 45..47, the present flag
      in 47 and offset 31:16 in 48..64; bits 32..40 and 44 are zero. */
  predicate GateBit(params: GateDescriptorParams, i: nat)
  {
    if i < 16 then Bit(params.offset, i)
    else if i < 32 then Bit(params.segmentSelector, i - 16)
    else if i < 40 then false
    else if i < 44 then Bit(params.gateType, i - 40)
    else if i < 45 then false
    else if i < 47 then Bit(params.dpl, i - 45)
    else if i < 48 then params.p
    else if i < 64 then Bit(params.offset, i - 32)
    else false
  }

  /** `d` is the gate descriptor for `params`. */
  ghost predicate Encodes(d: nat, params: GateDescriptorParams)
  {
    forall i: nat :: Bit(d, i) <==> GateBit(params, i)
  }

  /** The parameters whose first five stores leave the descriptor zero: the offset
      and the selector are zero and so are the stored bits of the type and level. */
  predicate EmptyGate(params: GateDescriptorParams)
  {
    params.offset == 0 && params.segmentSelector == 0 && params.gateType % 16 == 0 && params.dpl % 4 == 0
  }

  /** `GateDescriptor::new`: five `set_bits` and one `set_bit` on a descriptor that
      starts at 1.  The `set_bits` calls cannot panic; the `set_bit` for the present
      flag divides the descriptor built so far by itself, which panics exactly for
      an `EmptyGate`. */
  method New(params: GateDescriptorParams) returns (r: Result<GateDescriptor>)
    requires ValidParams(params)
    ensures r.Panic? <==> EmptyGate(params)
    ensures r.Panic? ==> r.reason == DivisionByZero
    ensures r.Ok? ==> Fits(U64, r.value.descriptor) && Encodes(r.value.descriptor, params)
  {
    ModulusIsPow2(U32);
    ShrLe(params.offset, 16);
    ShrBits(params.offset, 16);
    OneZeroBits();
    var descriptor := 1;
    var s := SetBits(U64, descriptor, 0, 16, params.offset);
    descriptor := s.value;
    s := SetBits(U64, descriptor, 48, 16, Shr(params.offset, 16));
    descriptor := s.value;
    s := SetBits(U64, descriptor, 16, 16, params.segmentSelector);
    descriptor := s.value;
    s := SetBits(U64, descriptor, 40, 4, params.gateType);
    descriptor := s.value;
    s := SetBits(U64, descriptor, 45, 2, params.dpl);
    descriptor := s.value;
    forall i: nat ensures Bit(descriptor, i) <==> i != 47 && GateBit(params, i) {
    }
    PartialZero(params, descriptor);
    s := SetBit(U64, descriptor, 47, params.p);
    if s.Panic? {
      return Panic(s.reason);
    }
    r := Ok(GateDescriptor(s.value));
  }

  /** The descriptor before the present flag is stored is zero exactly for an
      `EmptyGate`. */
  lemma PartialZero(params: GateDescriptorParams, d: nat)
    requires ValidParams(params)
    requires forall i: nat :: Bit(d, i) <==> i != 47 && GateBit(params, i)
    ensures d == 0 <==> EmptyGate(params)
  {
    if d == 0 {
      ZeroIsEmpty(params, d);
    }
    if EmptyGate(params) {
      EmptyIsZero(params, d);
    }
  }

  lemma ZeroIsEmpty(params: GateDescriptorParams, d: nat)
    requires ValidParams(params) && d == 0
    requires forall i: nat :: Bit(d, i) <==> i != 47 && GateBit(params, i)
    ensures EmptyGate(params)
  {
    forall i: nat | i < 32 ensures !Bit(params.offset, i) {
      if i < 16 {
        BitOfZero(i);
        assert !Bit(d, i);
      } else {
        BitOfZero(i + 32);
        assert !Bit(d, i + 32);
      }
    }
    forall i: nat | i < 16 ensures !Bit(params.segmentSelector, i) {
      BitOfZero(i + 16);
      assert !Bit(d, i + 16);
    }
    forall i: nat | i < 4 ensures !Bit(params.gateType, i) {
      BitOfZero(i + 40);
      assert !Bit(d, i + 40);
    }
    forall i: nat | i < 2 ensures !Bit(params.dpl, i) {
      BitOfZero(i + 45);
      assert !Bit(d, i + 45);
    }
    ModulusIsPow2(U32);
    ModulusIsPow2(U16);
    SmallZeroBits(params.offset, 32);
    SmallZeroBits(params.segmentSelector, 16);
    ModZeroBits(params.gateType, 4);
    ModZeroBits(params.dpl, 2);
    assert Pow2(4) == 16 && Pow2(2) == 4;
  }

  lemma EmptyIsZero(params: GateDescriptorParams, d: nat)
    requires EmptyGate(params)
    requires forall i: nat :: Bit(d, i) <==> i != 47 && GateBit(params, i)
    ensures d == 0
  {
    ModZeroBits(params.gateType, 4);
    ModZeroBits(params.dpl, 2);
    assert Pow2(4) == 16 && Pow2(2) == 4;
    forall i: nat ensures !Bit(d, i) {
      if i < 16 {
        BitOfZero(i);
      } else if i < 32 {
        BitOfZero(i - 16);
      } else if 40 <= i < 44 {
        assert !Bit(params.gateType, i - 40);
      } else if 45 <= i < 47 {
        assert !Bit(params.dpl, i - 45);
      } else if 48 <= i < 64 {
        BitOfZero(i - 32);
      }
    }
    ZeroFromBits(d);
  }

  /** Each stored field can be read back from the descriptor: two parameter sets with
      the same gate agree on the offset, the selector, the present flag and the bits
      of the type and level that `set_bits` keeps. */
  lemma EncodingDeterminesFields(d: nat, a: GateDescriptorParams, b: GateDescriptorParams)
    requires ValidParams(a) && ValidParams(b) && Encodes(d, a) && Encodes(d, b)
    ensures a.offset == b.offset && a.segmentSelector == b.segmentSelector && a.p == b.p
    ensures a.gateType % 16 == b.gateType % 16 && a.dpl % 4 == b.dpl % 4
  {
    OffsetAgrees(d, a, b);
    ModulusIsPow2(U16);
    forall i: nat | i < 16 ensures Bit(a.segmentSelector, i) <==> Bit(b.segmentSelector, i) {
      assert Bit(d, i + 16) <==> GateBit(a, i + 16);
    }
    BitsDetermine(a.segmentSelector, b.segmentSelector, 16);
    assert Bit(d, 47) <==> GateBit(a, 47);
    LowBitsAgree(d, a.gateType, b.gateType, 40, 4);
    LowBitsAgree(d, a.dpl, b.dpl, 45, 2);
  }

  lemma OffsetAgrees(d: nat, a: GateDescriptorParams, b: GateDescriptorParams)
    requires ValidParams(a) && ValidParams(b) && Encodes(d, a) && Encodes(d, b)
    ensures a.offset == b.offset
  {
    ModulusIsPow2(U32);
    forall i: nat | i < 32 ensures Bit(a.offset, i) <==> Bit(b.offset, i) {
      if i < 16 {
        assert Bit(d, i) <==> GateBit(a, i);
      } else {
        assert Bit(d, i + 32) <==> GateBit(a, i + 32);
      }
    }
    BitsDetermine(a.offset, b.offset, 32);
  }

  lemma LowBitsAgree(d: nat, x: nat, y: nat, position: nat, n: nat)
    requires forall i: nat :: i < n ==> (Bit(d, position + i) <==> Bit(x, i))
    requires forall i: nat :: i < n ==> (Bit(d, position + i) <==> Bit(y, i))
    ensures x % Pow2(n) == y % Pow2(n)
  {
    LowIsMod(x, n);
    LowIsMod(y, n);
    LowFits(x, n);
    LowFits(y, n);
    forall i: nat | i < n ensures Bit(Low(x, n), i) <==> Bit(Low(y, n), i) {
      BitLow(x, n, i);
      BitLow(y, n, i);
    }
    BitsDetermine(Low(x, n), Low(y, n), n);
  }

  /** The interrupt descriptor table: 256 gates. */
  const TableEntries := 256

  /** `init` loads the 256-entry table with limit `256 * 8 - 1`. */
  lemma IdtrLimit()
    ensures Gdt.TableLimit(TableEntries) == Ok(2047)
  {
  }
}
