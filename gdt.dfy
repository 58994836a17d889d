/** The segment descriptors of src/gdt.rs: `GdtSegemt::new` packs a base, a limit,
    an access byte and flags into the 64-bit layout of section 3.4.5 ("Segment
    Descriptors") of the Intel SDM Vol. 3A, the four accessors unpack them,
    `generate_access_byte` builds the access byte, `get_gdt_vals` the three-entry
    flat table, and `init` the limit it loads into the GDTR. */
module Gdt {
  import opened Wrappers
  import opened Unsigned
  import opened BitManipulation

  /** `GdtSegemt(u64)`. */
  datatype Segment = Segment(descriptor: nat)

  /** Bit `i` of the descriptor for `(base, limit, access, flags)`: limit 15:0 in bits
      0..16, base 23:0 in 16..40, the access byte in 40..48, limit 19:16 in 48..52,
      the flags in 52..56 and base 31:24 in 56..64. */
  predicate SegmentBit(base: nat, limit: nat, access: nat, flags: nat, i: nat)
  {
    if i < 16 then Bit(limit, i)
    else if i < 40 then Bit(base, i - 16)
    else if i < 48 then Bit(access, i - 40)
    else if i < 52 then Bit(limit, i - 32)
    else if i < 56 then Bit(flags, i - 52)
    else if i < 64 then Bit(base, i - 32)
    else false
  }

  /** `d` is the descriptor for `(base, limit, access, flags)`. */
  ghost predicate Encodes(d: nat, base: nat, limit: nat, access: nat, flags: nat)
  {
    forall i: nat :: Bit(d, i) <==> SegmentBit(base, limit, access, flags, i)
  }

  /** `GdtSegemt::new`: six `set_bits` on a descriptor that starts at 1.  None of
      them can panic, and together they overwrite every bit. */
  method New(base: nat, limit: nat, access: nat, flags: nat) returns (s: Segment)
    requires Fits(U32, base) && Fits(U32, limit) && Fits(U8, access) && Fits(U8, flags)
    ensures Fits(U64, s.descriptor) && Encodes(s.descriptor, base, limit, access, flags)
  {
    ShrLe(limit, 16);
    ShrLe(base, 24);
    ShrBits(limit, 16);
    ShrBits(base, 24);
    var descriptor := 1;
    var r := SetBits(U64, descriptor, 0, 16, limit);
    descriptor := r.value;
    r := SetBits(U64, descriptor, 48, 4, Shr(limit, 16));
    descriptor := r.value;
    r := SetBits(U64, descriptor, 16, 24, base);
    descriptor := r.value;
    r := SetBits(U64, descriptor, 56, 8, Shr(base, 24));
    descriptor := r.value;
    r := SetBits(U64, descriptor, 40, 8, access);
    descriptor := r.value;
    r := SetBits(U64, descriptor, 52, 4, flags);
    descriptor := r.value;
    FitsBits(U64, descriptor);
    s := Segment(descriptor);
  }

  /** `(get_bits(d, p1, n1) | get_bits(d, p2, n2) << k) as u32`, the value `base()`
      and `limit()` assemble from two fields of `d`. */
  function Join(d: nat, p1: nat, n1: nat, p2: nat, n2: nat, k: nat): nat
    requires Fits(U64, d) && 0 < n1 < 64 && 0 < n2 < 64 && p1 < 64 && p2 < 64
  {
    Low(Or(GetBits(U64, d, p1, n1).value, Shl(U64, GetBits(U64, d, p2, n2).value, k)), 32)
  }

  /** Bit `i` of `Join`: bit `p1 + i` of `d` below `n1`, bit `p2 + (i - k)` from `k`
      for `n2` bits, nothing from bit 32 on. */
  lemma JoinBit(d: nat, p1: nat, n1: nat, p2: nat, n2: nat, k: nat, i: nat)
    requires Fits(U64, d) && 0 < n1 < 64 && 0 < n2 < 64 && p1 < 64 && p2 < 64
    ensures Fits(U32, Join(d, p1, n1, p2, n2, k))
    ensures Bit(Join(d, p1, n1, p2, n2, k), i) <==>
              i < 32 && ((i < n1 && Bit(d, p1 + i)) || (k <= i < 64 && i - k < n2 && Bit(d, p2 + (i - k))))
  {
    ModulusIsPow2(U32);
    var lo := GetBits(U64, d, p1, n1).value;
    var hi := GetBits(U64, d, p2, n2).value;
    var joined := Or(lo, Shl(U64, hi, k));
    ShlBits(U64, hi, k);
    BitLow(joined, 32, i);
    BitOr(lo, Shl(U64, hi, k), i);
    LowFits(joined, 32);
  }

  /** `JoinBit` for a low field that starts at bit 0. */
  lemma JoinBitLow(d: nat, n1: nat, p2: nat, n2: nat, k: nat, i: nat)
    requires Fits(U64, d) && 0 < n1 < 64 && 0 < n2 < 64 && p2 < 64
    ensures Fits(U32, Join(d, 0, n1, p2, n2, k))
    ensures Bit(Join(d, 0, n1, p2, n2, k), i) <==>
              i < 32 && ((i < n1 && Bit(d, i)) || (k <= i < 64 && i - k < n2 && Bit(d, p2 + (i - k))))
  {
    JoinBit(d, 0, n1, p2, n2, k, i);
  }

  /** `base()`: bits 16..40 joined with bits 56..64 shifted up by 24, as `u32`. */
  function Base(s: Segment): (r: nat)
    requires Fits(U64, s.descriptor)
    ensures Fits(U32, r)
  {
    JoinBit(s.descriptor, 16, 24, 56, 8, 24, 0);
    Join(s.descriptor, 16, 24, 56, 8, 24)
  }

  /** `limit()`: bits 0..16 joined with bits 48..52 shifted up by 16, as `u32`. */
  function Limit(s: Segment): (r: nat)
    requires Fits(U64, s.descriptor)
    ensures Fits(U32, r)
  {
    JoinBitLow(s.descriptor, 16, 48, 4, 16, 0);
    Join(s.descriptor, 0, 16, 48, 4, 16)
  }

  /** `access()`: bits 40..48 as `u8`. */
  function Access(s: Segment): (r: nat)
    requires Fits(U64, s.descriptor)
    ensures Fits(U8, r)
    ensures forall i: nat :: Bit(r, i) <==> i < 8 && Bit(s.descriptor, i + 40)
  {
    ModulusIsPow2(U8);
    var field := GetBits(U64, s.descriptor, 40, 8).value;
    forall i: nat ensures Bit(Low(field, 8), i) <==> i < 8 && Bit(s.descriptor, i + 40) {
      BitLow(field, 8, i);
    }
    LowFits(field, 8);
    Low(field, 8)
  }

  /** `flags()`: bits 52..56 as `u8`. */
  function Flags(s: Segment): (r: nat)
    requires Fits(U64, s.descriptor)
    ensures Fits(U8, r)
    ensures forall i: nat :: Bit(r, i) <==> i < 4 && Bit(s.descriptor, i + 52)
  {
    ModulusIsPow2(U8);
    var field := GetBits(U64, s.descriptor, 52, 4).value;
    forall i: nat ensures Bit(Low(field, 8), i) <==> i < 4 && Bit(s.descriptor, i + 52) {
      BitLow(field, 8, i);
    }
    LowFits(field, 8);
    Low(field, 8)
  }

  /** The base of every `(base, ..)` descriptor reads back whole. */
  lemma BaseRoundTrip(d: nat, base: nat, limit: nat, access: nat, flags: nat)
    requires Fits(U64, d) && Fits(U32, base) && Encodes(d, base, limit, access, flags)
    ensures Base(Segment(d)) == base
  {
    ModulusIsPow2(U32);
    var r := Base(Segment(d));
    forall i: nat | i < 32 ensures Bit(r, i) <==> Bit(base, i) {
      JoinBit(d, 16, 24, 56, 8, 24, i);
      assert Bit(d, 16 + i) <==> SegmentBit(base, limit, access, flags, 16 + i);
      if 24 <= i {
        assert Bit(d, 56 + (i - 24)) <==> SegmentBit(base, limit, access, flags, 56 + (i - 24));
      }
    }
    BitsDetermine(r, base, 32);
  }

  /** The limit reads back as its low 20 bits, `limit & 0xFFFFF`. */
  lemma LimitRoundTrip(d: nat, base: nat, limit: nat, access: nat, flags: nat)
    requires Fits(U64, d) && Fits(U32, limit) && Encodes(d, base, limit, access, flags)
    ensures Limit(Segment(d)) == limit % 0x10_0000
  {
    ModulusIsPow2(U16);
    ModulusIsPow2(U32);
    Pow2Add(16, 4);
    assert Pow2(4) == 16;
    LowIsMod(limit, 20);
    LowFits(limit, 20);
    Pow2Monotone(20, 32);
    var r := Limit(Segment(d));
    forall i: nat | i < 32 ensures Bit(r, i) <==> Bit(Low(limit, 20), i) {
      BitLow(limit, 20, i);
      LimitBit(d, base, limit, access, flags, i);
    }
    BitsDetermine(r, Low(limit, 20), 32);
  }

  /** Bit `i` of the limit read back is bit `i` of the limit written, below bit 20. */
  lemma LimitBit(d: nat, base: nat, limit: nat, access: nat, flags: nat, i: nat)
    requires Fits(U64, d) && Encodes(d, base, limit, access, flags)
    ensures Bit(Limit(Segment(d)), i) <==> i < 20 && Bit(limit, i)
  {
    JoinBitLow(d, 16, 48, 4, 16, i);
    if i < 16 {
      assert Bit(d, i) <==> SegmentBit(base, limit, access, flags, i);
    } else if i < 20 {
      assert Bit(d, 48 + (i - 16)) <==> SegmentBit(base, limit, access, flags, 48 + (i - 16));
    }
  }

  /** The access byte reads back unchanged. */
  lemma AccessRoundTrip(d: nat, base: nat, limit: nat, access: nat, flags: nat)
    requires Fits(U64, d) && Fits(U8, access) && Encodes(d, base, limit, access, flags)
    ensures Access(Segment(d)) == access
  {
    ModulusIsPow2(U8);
    var r := Access(Segment(d));
    forall i: nat | i < 8 ensures Bit(r, i) <==> Bit(access, i) {
      assert Bit(d, i + 40) <==> SegmentBit(base, limit, access, flags, i + 40);
    }
    BitsDetermine(r, access, 8);
  }

  /** The flags read back as their low 4 bits, `flags & 0xF`. */
  lemma FlagsRoundTrip(d: nat, base: nat, limit: nat, access: nat, flags: nat)
    requires Fits(U64, d) && Encodes(d, base, limit, access, flags)
    ensures Flags(Segment(d)) == flags % 16
  {
    ModulusIsPow2(U8);
    assert Pow2(4) == 16;
    LowIsMod(flags, 4);
    LowFits(flags, 4);
    var r := Flags(Segment(d));
    forall i: nat | i < 8 ensures Bit(r, i) <==> Bit(Low(flags, 4), i) {
      BitLow(flags, 4, i);
      assert Bit(d, i + 52) <==> SegmentBit(base, limit, access, flags, i + 52);
    }
    BitsDetermine(r, Low(flags, 4), 8);
  }

  /** The descriptor is determined by the four arguments. */
  lemma EncodingUnique(d: nat, e: nat, base: nat, limit: nat, access: nat, flags: nat)
    requires Fits(U64, d) && Fits(U64, e)
    requires Encodes(d, base, limit, access, flags) && Encodes(e, base, limit, access, flags)
    ensures d == e
  {
    ModulusIsPow2(U64);
    forall i: nat | i < 64 ensures Bit(d, i) <==> Bit(e, i) {
      assert Bit(d, i) <==> SegmentBit(base, limit, access, flags, i);
    }
    BitsDetermine(d, e, 64);
  }

  /** `AccessByteParams`. */
  datatype AccessByteParams = AccessByteParams(p: bool, dpl: nat, s: bool, e: bool, dc: bool, rw: bool, a: bool)

  /** Bit `i` of the access byte for `params`: present at 7, the privilege level at
      5..7, then descriptor type, executable, direction/conforming, readable/writable
      and accessed at 4 down to 0. */
  predicate AccessBit(params: AccessByteParams, i: nat)
  {
    if i == 7 then params.p
    else if i == 6 then Bit(params.dpl, 1)
    else if i == 5 then Bit(params.dpl, 0)
    else if i == 4 then params.s
    else if i == 3 then params.e
    else if i == 2 then params.dc
    else if i == 1 then params.rw
    else if i == 0 then params.a
    else false
  }

  /** The access byte after the fields from bit `k` up are written: those bits
      hold their fields and below them only bit 0, the starting 1, is set. */
  predicate AccessFrom(params: AccessByteParams, k: nat, i: nat)
  {
    if k <= i then AccessBit(params, i) else i == 0
  }

  /** The access byte once the fields from bit `k` up are written. */
  function Stage(params: AccessByteParams, k: nat): (r: nat)
    ensures Fits(U8, r)
  {
    var bits := seq(8, i requires 0 <= i < 8 => AccessFrom(params, k, i));
    ModulusIsPow2(U8);
    FromBitsBound(bits);
    FromBits(bits)
  }

  /** Bit `i` of the stage for `k` is `AccessFrom(params, k, i)` below bit 8. */
  lemma StageBit(params: AccessByteParams, k: nat, i: nat)
    ensures Bit(Stage(params, k), i) <==> i < 8 && AccessFrom(params, k, i)
  {
    BitFromBits(seq(8, i requires 0 <= i < 8 => AccessFrom(params, k, i)), i);
  }

  /** The access byte `generate_access_byte` promises for `params`. */
  function AccessByte(params: AccessByteParams): (r: nat)
    ensures Fits(U8, r)
  {
    Stage(params, 0)
  }

  /** Each bit of `AccessByte(params)` is the field `AccessBit` puts there. */
  lemma AccessByteBits(params: AccessByteParams)
    ensures forall i: nat :: Bit(AccessByte(params), i) <==> AccessBit(params, i)
  {
    forall i: nat ensures Bit(AccessByte(params), i) <==> AccessBit(params, i) {
      StageBit(params, 0, i);
    }
  }

  /** The starting value 1 is the stage before any field is written. */
  lemma FirstStage(params: AccessByteParams)
    ensures Stage(params, 8) == 1
  {
    ModulusIsPow2(U8);
    OneZeroBits();
    forall i: nat | i < 8 ensures Bit(Stage(params, 8), i) <==> Bit(1, i) {
      StageBit(params, 8, i);
    }
    BitsDetermine(Stage(params, 8), 1, 8);
  }

  /** One `set_bit` of `generate_access_byte`, the one at `position`, with `r` its
      outcome: bit 0 is still set, so it does not divide by zero, and it writes that
      field. */
  lemma AccessBitStep(params: AccessByteParams, x: nat, position: nat, enable: bool, r: Result<nat>)
    requires position < 8 && position != 5 && position != 6
    requires x == Stage(params, position + 1) && enable == AccessBit(params, position)
    requires r.Ok? <==> x != 0 && position < U8.Bits()
    requires r.Ok? ==> Fits(U8, r.value)
    requires r.Ok? ==> forall i: nat :: Bit(r.value, i) <==> if i == position then enable else Bit(x, i)
    ensures r == Ok(Stage(params, position))
  {
    StageBit(params, position + 1, 0);
    var y := Stage(params, position);
    forall i: nat ensures Bit(r.value, i) <==> Bit(y, i) {
      StageBit(params, position + 1, i);
      StageBit(params, position, i);
    }
    SameValue(U8, r.value, y);
  }

  /** The `set_bits` of `generate_access_byte` for the privilege level at 5..7, with
      `r` its outcome. */
  lemma AccessLevelStep(params: AccessByteParams, x: nat, r: Result<nat>)
    requires Fits(U8, params.dpl) && x == Stage(params, 7)
    requires r.Ok? && Fits(U8, r.value)
    requires forall i: nat ::
               Bit(r.value, i) <==> if InField(U8, 5, 2, i) then Bit(params.dpl, i - 5) else Bit(x, i)
    ensures r == Ok(Stage(params, 5))
  {
    var y := Stage(params, 5);
    forall i: nat ensures Bit(r.value, i) <==> Bit(y, i) {
      StageBit(params, 7, i);
      StageBit(params, 5, i);
    }
    SameValue(U8, r.value, y);
  }

  /** `generate_access_byte`: starting from 1, one `set_bit` or `set_bits` per field,
      from bit 7 down.  Bit 0 stays set until the last call, so no `set_bit` divides
      by zero. */
  method GenerateAccessByte(params: AccessByteParams) returns (accessByte: nat)
    requires Fits(U8, params.dpl)
    ensures accessByte == AccessByte(params)
  {
    accessByte := 1;
    FirstStage(params);
    var r := SetBit(U8, accessByte, 7, params.p);
    AccessBitStep(params, accessByte, 7, params.p, r);
    accessByte := r.value;
    r := SetBits(U8, accessByte, 5, 2, params.dpl);
    AccessLevelStep(params, accessByte, r);
    accessByte := r.value;
    r := SetBit(U8, accessByte, 4, params.s);
    AccessBitStep(params, accessByte, 4, params.s, r);
    accessByte := r.value;
    r := SetBit(U8, accessByte, 3, params.e);
    AccessBitStep(params, accessByte, 3, params.e, r);
    accessByte := r.value;
    r := SetBit(U8, accessByte, 2, params.dc);
    AccessBitStep(params, accessByte, 2, params.dc, r);
    accessByte := r.value;
    r := SetBit(U8, accessByte, 1, params.rw);
    AccessBitStep(params, accessByte, 1, params.rw, r);
    accessByte := r.value;
    r := SetBit(U8, accessByte, 0, params.a);
    AccessBitStep(params, accessByte, 0, params.a, r);
    accessByte := r.value;
  }

  /** The access byte of a present, ring-0, executable, accessed code segment. */
  const CodeAccess := AccessByteParams(true, 0, true, true, false, false, true)
  /** The access byte of a present, ring-0, writable, accessed data segment. */
  const DataAccess := AccessByteParams(true, 0, true, false, false, true, true)

  /** The access bytes of the two flat segments are 0x99 and 0x93. */
  lemma FlatAccessBytes()
    ensures AccessByte(CodeAccess) == 0x99 && AccessByte(DataAccess) == 0x93
  {
    ModulusIsPow2(U8);
    AccessByteBits(CodeAccess);
    AccessByteBits(DataAccess);
    forall i: nat | i < 8
      ensures (Bit(AccessByte(CodeAccess), i) <==> Bit(0x99, i)) && (Bit(AccessByte(DataAccess), i) <==> Bit(0x93, i))
    {
      assert i == 0 || i == 1 || i == 2 || i == 3 || i == 4 || i == 5 || i == 6 || i == 7;
    }
    BitsDetermine(AccessByte(CodeAccess), 0x99, 8);
    BitsDetermine(AccessByte(DataAccess), 0x93, 8);
  }

  /** The flat model's flags: 4 KiB granularity and 32-bit operands. */
  const FlatFlags := 0xC

  /** Every accessor reads back what `new` packed, up to the width of its field. */
  lemma FieldsRoundTrip(d: nat, base: nat, limit: nat, access: nat, flags: nat)
    requires Fits(U64, d) && Fits(U32, base) && Fits(U32, limit) && Fits(U8, access)
    requires Encodes(d, base, limit, access, flags)
    ensures Base(Segment(d)) == base && Limit(Segment(d)) == limit % 0x10_0000
    ensures Access(Segment(d)) == access && Flags(Segment(d)) == flags % 16
  {
    BaseRoundTrip(d, base, limit, access, flags);
    LimitRoundTrip(d, base, limit, access, flags);
    AccessRoundTrip(d, base, limit, access, flags);
    FlagsRoundTrip(d, base, limit, access, flags);
  }

  /** `get_gdt_vals`: the null descriptor, then a code and a data segment over the
      whole 4 GiB. */
  method GdtVals() returns (table: seq<Segment>)
    ensures |table| == 3 && table[0] == Segment(0)
    ensures Fits(U64, table[1].descriptor) && Encodes(table[1].descriptor, 0, 0xF_FFFF, 0x99, FlatFlags)
    ensures Fits(U64, table[2].descriptor) && Encodes(table[2].descriptor, 0, 0xF_FFFF, 0x93, FlatFlags)
    ensures Base(table[1]) == 0 && Limit(table[1]) == 0xF_FFFF && Flags(table[1]) == FlatFlags
    ensures Base(table[2]) == 0 && Limit(table[2]) == 0xF_FFFF && Flags(table[2]) == FlatFlags
    ensures Access(table[1]) == 0x99 && Access(table[2]) == 0x93
  {
    // The limit and the flags fit their fields whole.
    assert 0xF_FFFF % 0x10_0000 == 0xF_FFFF && FlatFlags % 16 == FlatFlags;
    FlatAccessBytes();
    var accessByte := GenerateAccessByte(CodeAccess);
    var code := New(0, 0xF_FFFF, accessByte, FlatFlags);
    FieldsRoundTrip(code.descriptor, 0, 0xF_FFFF, 0x99, FlatFlags);
    accessByte := GenerateAccessByte(DataAccess);
    var data := New(0, 0xF_FFFF, accessByte, FlatFlags);
    FieldsRoundTrip(data.descriptor, 0, 0xF_FFFF, 0x93, FlatFlags);
    table := [Segment(0), code, data];
    assert table[1] == code && table[2] == data;
  }

  /** The size in bytes of one descriptor. */
  const DescriptorBytes := 8

  /** The limit a descriptor-table register is loaded with:
      `entries.len() * 8 - 1` in 32-bit `usize`, cast to `u16`.  The product
      overflows from 2^29 entries and the subtraction for an empty table. */
  function TableLimit(count: nat): (r: Result<nat>)
    requires Fits(U32, count)
    ensures r.Ok? <==> 0 < count && count * DescriptorBytes < 0x1_0000_0000
    ensures r.Panic? ==> r.reason == ArithmeticOverflow
    ensures r.Ok? ==> r.value == (count * DescriptorBytes - 1) % 0x1_0000
  {
    if count * DescriptorBytes >= 0x1_0000_0000 then Panic(ArithmeticOverflow)
    else if count == 0 then Panic(ArithmeticOverflow)
    // `as u16` keeps the low 16 bits.
    else Ok((count * DescriptorBytes - 1) % 0x1_0000)
  }

  /** `init` loads the three-entry table with limit 23. */
  lemma GdtrLimit()
    ensures TableLimit(3) == Ok(23)
  {
  }
}
