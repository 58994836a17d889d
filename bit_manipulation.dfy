/** The generic bit-field helpers of src/util/bit_manipulation.rs, at any of the
    unsigned types of `Unsigned.Width`.

    The helpers build the constant 1 by dividing an argument by itself, so a zero
    divisor panics, and a shift by at least the type's width panics in the kernel's
    (debug) build.  Each outcome is a `Result`.  `get_bits` and `get_bit` compute a
    value; `set_bits` and `set_bit` update `*input` in place, which the methods
    model by returning the new value of `*input`, and which `WithBits` and `WithBit`
    state as functions. */
module BitManipulation {
  import opened Wrappers
  import opened Unsigned

  /** `get_bits(value, position, length)`: the `length` bits of `value` from
      `position` on, moved down to bit 0. */
  function GetBits(w: Width, value: nat, position: nat, length: nat): (r: Result<nat>)
    requires Fits(w, value) && Fits(w, position) && Fits(w, length)
    ensures length == 0 ==> r == Panic(DivisionByZero)
    ensures length != 0 && (length >= w.Bits() || position >= w.Bits()) ==> r == Panic(ShiftOverflow)
    ensures r.Ok? <==> 0 < length < w.Bits() && position < w.Bits()
    ensures r.Ok? ==> Fits(w, r.value)
    ensures r.Ok? ==> forall i: nat :: Bit(r.value, i) <==> i < length && Bit(value, position + i)
  {
    if length == 0 then Panic(DivisionByZero)
    // `index` is `length / length`, that is 1; the mask is `(index << length) - index`.
    else if length >= w.Bits() then Panic(ShiftOverflow)
    else if position >= w.Bits() then Panic(ShiftOverflow)
    else
      FieldBits(w, value, position, length);
      Ok(And(Shr(value, position), LowMask(w, length)))
  }

  lemma FieldBits(w: Width, value: nat, position: nat, length: nat)
    requires Fits(w, value) && 0 < length < w.Bits()
    ensures var r := And(Shr(value, position), LowMask(w, length));
            && Fits(w, r)
            && forall i: nat :: Bit(r, i) <==> i < length && Bit(value, position + i)
  {
    ModulusIsPow2(w);
    var r := And(Shr(value, position), LowMask(w, length));
    ShrBits(value, position);
    LowMaskBits(w, length);
    AndOrBits(Shr(value, position), LowMask(w, length));
    forall i: nat ensures Bit(r, i) <==> i < length && Bit(value, position + i) {
      assert Bit(Shr(value, position), i) <==> Bit(value, i + position);
    }
    BoundFromBits(r, w.Bits());
  }

  /** A value whose only possible bit is bit 0 is 0 or 1. */
  lemma SingleBit(x: nat, b: bool)
    requires forall i: nat :: Bit(x, i) <==> i == 0 && b
    ensures x == if b then 1 else 0
  {
    BoundFromBits(x, 1);
    assert Pow2(1) == 2;
    assert Bit(x, 0) <==> b;
  }

  /** `get_bit(value, position)`: bit `position` of `value` as 0 or 1.  The length
      1 is computed as `value / value`, so a zero `value` panics. */
  function GetBit(w: Width, value: nat, position: nat): (r: Result<nat>)
    requires Fits(w, value) && Fits(w, position)
    ensures value == 0 ==> r == Panic(DivisionByZero)
    ensures value != 0 && position >= w.Bits() ==> r == Panic(ShiftOverflow)
    ensures r.Ok? <==> value != 0 && position < w.Bits()
    ensures r.Ok? ==> r.value == if Bit(value, position) then 1 else 0
  {
    if value == 0 then Panic(DivisionByZero)
    else
      WidthFacts(w);
      DivSelf(value);
      var r := GetBits(w, value, position, value / value);
      if r.Ok? then
        SingleBit(r.value, Bit(value, position));
        r
      else r
  }

  /** The bits `set_bits(input, position, length, value)` replaces: `length` bits from
      `position`, cut off at the width of the type. */
  predicate InField(w: Width, position: nat, length: nat, i: nat)
  {
    position <= i < position + length && i < w.Bits()
  }

  /** The value `set_bits` leaves in `*input`: bits in the field come from the low
      bits of `value`, and every other bit is `input`'s. */
  function WithBits(w: Width, input: nat, position: nat, length: nat, value: nat): (r: Result<nat>)
    requires Fits(w, input) && Fits(w, position) && Fits(w, length) && Fits(w, value)
    ensures length == 0 ==> r == Panic(DivisionByZero)
    ensures length != 0 && (length >= w.Bits() || position >= w.Bits()) ==> r == Panic(ShiftOverflow)
    ensures r.Ok? <==> 0 < length < w.Bits() && position < w.Bits()
    ensures r.Ok? ==> Fits(w, r.value)
    ensures r.Ok? ==> forall i: nat ::
              Bit(r.value, i) <==> if InField(w, position, length, i) then Bit(value, i - position) else Bit(input, i)
  {
    if length == 0 then Panic(DivisionByZero)
    else if length >= w.Bits() || position >= w.Bits() then Panic(ShiftOverflow)
    else
      var bits := seq(w.Bits(), i requires 0 <= i < w.Bits() =>
        if InField(w, position, length, i) then Bit(value, i - position) else Bit(input, i));
      ModulusIsPow2(w);
      FromBitsBound(bits);
      FitsBits(w, input);
      forall i: nat ensures Bit(FromBits(bits), i) <==>
          if InField(w, position, length, i) then Bit(value, i - position) else Bit(input, i) {
        BitFromBits(bits, i);
      }
      Ok(FromBits(bits))
  }

  lemma DepositBits(w: Width, input: nat, position: nat, length: nat, value: nat)
    requires Fits(w, input) && Fits(w, value) && 0 < length < w.Bits()
    ensures Fits(w, Shl(w, LowMask(w, length), position))
    ensures var mask := Shl(w, LowMask(w, length), position);
            var r := Or(And(input, Not(w, mask)), And(Shl(w, value, position), mask));
            && Fits(w, r)
            && forall i: nat :: Bit(r, i) <==> if InField(w, position, length, i) then Bit(value, i - position) else Bit(input, i)
  {
    ModulusIsPow2(w);
    var low := LowMask(w, length);
    LowMaskBits(w, length);
    ShlBits(w, low, position);
    var mask := Shl(w, low, position);
    NotBits(w, mask);
    ShlBits(w, value, position);
    var kept := And(input, Not(w, mask));
    var placed := And(Shl(w, value, position), mask);
    AndOrBits(input, Not(w, mask));
    AndOrBits(Shl(w, value, position), mask);
    AndOrBits(kept, placed);
    FitsBits(w, input);
    var r := Or(kept, placed);
    forall i: nat ensures Bit(r, i) <==> if InField(w, position, length, i) then Bit(value, i - position) else Bit(input, i) {
      assert Bit(mask, i) <==> InField(w, position, length, i);
    }
    forall i: nat | w.Bits() <= i ensures !Bit(r, i) {
    }
    BoundFromBits(r, w.Bits());
  }

  /** Two values of type `w` with the same bits are equal. */
  lemma SameValue(w: Width, x: nat, y: nat)
    requires Fits(w, x) && Fits(w, y)
    requires forall i: nat :: Bit(x, i) <==> Bit(y, i)
    ensures x == y
  {
    ModulusIsPow2(w);
    BitsDetermine(x, y, w.Bits());
  }

  /** `set_bits(input, position, length, value)`: clear the field with `!mask`, then
      or in `value` shifted to `position` and cut to the field. */
  method SetBits(w: Width, input: nat, position: nat, length: nat, value: nat) returns (r: Result<nat>)
    requires Fits(w, input) && Fits(w, position) && Fits(w, length) && Fits(w, value)
    ensures length == 0 ==> r == Panic(DivisionByZero)
    ensures length != 0 && (length >= w.Bits() || position >= w.Bits()) ==> r == Panic(ShiftOverflow)
    ensures r.Ok? <==> 0 < length < w.Bits() && position < w.Bits()
    ensures r.Ok? ==> Fits(w, r.value)
    ensures r.Ok? ==> forall i: nat ::
              Bit(r.value, i) <==> if InField(w, position, length, i) then Bit(value, i - position) else Bit(input, i)
  {
    if length == 0 {
      return Panic(DivisionByZero);
    }
    var index := length / length;
    if length >= w.Bits() {
      return Panic(ShiftOverflow);
    }
    ShlOne(w, length);
    var mask := Shl(w, index, length) - index;
    if position >= w.Bits() {
      return Panic(ShiftOverflow);
    }
    mask := Shl(w, mask, position);
    ShlBits(w, LowMask(w, length), position);
    var x := And(input, Not(w, mask));
    x := Or(x, And(Shl(w, value, position), mask));
    DepositBits(w, input, position, length, value);
    return Ok(x);
  }

  /** The value `set_bit` leaves in `*input`: bit `position` becomes `enable`. */
  function WithBit(w: Width, input: nat, position: nat, enable: bool): (r: Result<nat>)
    requires Fits(w, input) && Fits(w, position)
    ensures input == 0 ==> r == Panic(DivisionByZero)
    ensures input != 0 && position >= w.Bits() ==> r == Panic(ShiftOverflow)
    ensures r.Ok? <==> input != 0 && position < w.Bits()
    ensures r.Ok? ==> Fits(w, r.value)
    ensures r.Ok? ==> forall i: nat :: Bit(r.value, i) <==> if i == position then enable else Bit(input, i)
  {
    if input == 0 then Panic(DivisionByZero)
    else
      // Both the length and the value are `*input / *input` (1) or
      // `*input - *input` (0).
      WidthFacts(w);
      OneZeroBits();
      var r := WithBits(w, input, position, 1, if enable then 1 else 0);
      if r.Ok? then
        FitsBits(w, input);
        assert forall i: nat :: InField(w, position, 1, i) <==> i == position;
        r
      else r
  }

  /** `set_bit(input, position, enable)`: `set_bits` with length `*input / *input` and
      value `*input / *input` or `*input - *input`, so a zero `*input` panics. */
  method SetBit(w: Width, input: nat, position: nat, enable: bool) returns (r: Result<nat>)
    requires Fits(w, input) && Fits(w, position)
    ensures input == 0 ==> r == Panic(DivisionByZero)
    ensures input != 0 && position >= w.Bits() ==> r == Panic(ShiftOverflow)
    ensures r.Ok? <==> input != 0 && position < w.Bits()
    ensures r.Ok? ==> Fits(w, r.value)
    ensures r.Ok? ==> forall i: nat :: Bit(r.value, i) <==> if i == position then enable else Bit(input, i)
  {
    if input == 0 {
      return Panic(DivisionByZero);
    }
    DivSelf(input);
    var index := input / input;
    var value := if enable then input / input else input - input;
    assert index == 1 && value == if enable then 1 else 0;
    WidthFacts(w);
    OneZeroBits();
    r := SetBits(w, input, position, index, value);
    if r.Ok? {
      FitsBits(w, input);
      forall i: nat ensures Bit(r.value, i) <==> if i == position then enable else Bit(input, i) {
        assert InField(w, position, 1, i) <==> i == position && i < w.Bits();
      }
    }
  }

  /** `set_bits` leaves `*input` holding `WithBits`, and `set_bit` `WithBit`: the
      per-bit postconditions of the methods determine the value. */
  lemma WithBitsDetermined(w: Width, input: nat, position: nat, length: nat, value: nat, x: nat)
    requires Fits(w, input) && Fits(w, position) && Fits(w, length) && Fits(w, value) && Fits(w, x)
    requires 0 < length < w.Bits() && position < w.Bits()
    requires forall i: nat ::
               Bit(x, i) <==> if InField(w, position, length, i) then Bit(value, i - position) else Bit(input, i)
    ensures WithBits(w, input, position, length, value) == Ok(x)
  {
    SameValue(w, WithBits(w, input, position, length, value).value, x);
  }

  lemma WithBitDetermined(w: Width, input: nat, position: nat, enable: bool, x: nat)
    requires Fits(w, input) && Fits(w, position) && Fits(w, x)
    requires input != 0 && position < w.Bits()
    requires forall i: nat :: Bit(x, i) <==> if i == position then enable else Bit(input, i)
    ensures WithBit(w, input, position, enable) == Ok(x)
  {
    SameValue(w, WithBit(w, input, position, enable).value, x);
  }

  /** Reading back a field gives the low `length` bits of the value written, or as
      many of them as fit below the width. */
  lemma GetAfterSet(w: Width, input: nat, position: nat, length: nat, value: nat)
    requires Fits(w, input) && Fits(w, position) && Fits(w, length) && Fits(w, value)
    requires WithBits(w, input, position, length, value).Ok?
    ensures var x := WithBits(w, input, position, length, value).value;
            && (position + length <= w.Bits() ==>
                  GetBits(w, x, position, length) == Ok(And(value, LowMask(w, length))))
            && (position + length > w.Bits() ==>
                  GetBits(w, x, position, length) == Ok(And(value, LowMask(w, w.Bits() - position))))
  {
    ModulusIsPow2(w);
    var x := WithBits(w, input, position, length, value).value;
    var kept := if position + length <= w.Bits() then length else w.Bits() - position;
    var mask := LowMask(w, kept);
    var expected := And(value, mask);
    var got := GetBits(w, x, position, length).value;
    LowMaskBits(w, kept);
    forall i: nat | i < w.Bits() ensures Bit(got, i) <==> Bit(expected, i) {
      ReadBackBit(w, input, position, length, value, i);
      BitAnd(value, mask, i);
    }
    forall i: nat | w.Bits() <= i ensures !Bit(expected, i) {
      BitAnd(value, mask, i);
    }
    BoundFromBits(expected, w.Bits());
    BitsDetermine(got, expected, w.Bits());
  }

  lemma ReadBackBit(w: Width, input: nat, position: nat, length: nat, value: nat, i: nat)
    requires Fits(w, input) && Fits(w, position) && Fits(w, length) && Fits(w, value)
    requires 0 < length < w.Bits() && position < w.Bits()
    ensures var x := WithBits(w, input, position, length, value).value;
            var kept := if position + length <= w.Bits() then length else w.Bits() - position;
            (i < length && Bit(x, position + i)) <==> (i < kept && Bit(value, i))
  {
    var x := WithBits(w, input, position, length, value).value;
    if i < length && position + i >= w.Bits() {
      assert !InField(w, position, length, position + i);
      FitsBits(w, input);
    }
  }

  /** Writing the same field twice writes it once. */
  lemma SetBitsIdempotent(w: Width, input: nat, position: nat, length: nat, value: nat)
    requires Fits(w, input) && Fits(w, position) && Fits(w, length) && Fits(w, value)
    requires WithBits(w, input, position, length, value).Ok?
    ensures var once := WithBits(w, input, position, length, value).value;
            WithBits(w, once, position, length, value) == Ok(once)
  {
    ModulusIsPow2(w);
    var once := WithBits(w, input, position, length, value).value;
    var twice := WithBits(w, once, position, length, value).value;
    forall i: nat | i < w.Bits() ensures Bit(twice, i) <==> Bit(once, i) {
    }
    BitsDetermine(twice, once, w.Bits());
  }

  /** Reading back a bit just written gives it, unless the write left the value zero,
      which only clearing the last set bit does; then `get_bit` panics. */
  lemma GetBitAfterSetBit(w: Width, input: nat, position: nat, enable: bool)
    requires Fits(w, input) && Fits(w, position)
    requires WithBit(w, input, position, enable).Ok?
    ensures var x := WithBit(w, input, position, enable).value;
            && (enable ==> x != 0)
            && (x != 0 ==> GetBit(w, x, position) == Ok(if enable then 1 else 0))
            && (x == 0 ==> GetBit(w, x, position) == Panic(DivisionByZero))
  {
    var x := WithBit(w, input, position, enable).value;
    if enable {
      assert Bit(x, position);
      OneZeroBits();
    }
  }

  /** The assertions of src/tests/test_bit_manipulation.rs: a field of 0b111001
      reads back as 0b1110.  The test's literals are untyped, so Rust gives them
      type `i32`; every value in it is non-negative and below 2^31, where the bits
      of an `i32` are those of a `u32`, so the examples are stated at `U32`. */
  lemma GetBitsExample()
    ensures GetBits(U32, 0x39, 2, 4) == Ok(14)
  {
    var r := GetBits(U32, 0x39, 2, 4).value;
    assert 0x39 / 2 == 28 && 28 / 2 == 14;
    forall i: nat ensures (Bit(r, i) <==> Bit(14, i)) && (4 <= i ==> !Bit(14, i)) {
      assert Bit(0x39, 2 + i) == Bit(28, 1 + i) == Bit(14, i);
      if 4 <= i {
        assert Pow2(4) == 16;
        BitHigh(14, 4, i);
      }
    }
    SameBits(r, 14, 4);
  }

  /** The same test, at `U32` as in `GetBitsExample`: bit 1 of 0b111001 is clear. */
  lemma GetBitExample()
    ensures GetBit(U32, 0x39, 1) == Ok(0)
  {
    assert !Bit(0x39, 1) by {
      assert 0x39 / 2 == 28;
    }
  }

  /** The assertions of src/tests/test_bit_manipulation.rs, at `U32` as in
      `GetBitsExample`: 0b11001 with the field at 1 of length 3 set to 0b10 is
      0b10101. */
  lemma SetBitsExample()
    ensures WithBits(U32, 0x19, 1, 3, 0x2) == Ok(0x15)
  {
    ModulusIsPow2(U32);
    assert Pow2(5) == 32;
    var r := WithBits(U32, 0x19, 1, 3, 0x2).value;
    forall i: nat | 5 <= i ensures !Bit(r, i) && !Bit(0x15, i) {
      BitHigh(0x19, 5, i);
      BitHigh(0x15, 5, i);
    }
    forall i: nat | i < 5 ensures Bit(r, i) <==> Bit(0x15, i) {
      assert i == 0 || i == 1 || i == 2 || i == 3 || i == 4;
    }
    SameBits(r, 0x15, 5);
  }

  /** The assertions of src/tests/test_bit_manipulation.rs, at `U32` as in
      `GetBitsExample`: setting bit 3 of 0b10101 and then clearing bit 0. */
  lemma SetBitExamples()
    ensures WithBit(U32, 0x15, 3, true) == Ok(0x1D)
    ensures WithBit(U32, 0x1D, 0, false) == Ok(0x1C)
  {
    ModulusIsPow2(U32);
    assert Pow2(5) == 32;
    var r := WithBit(U32, 0x15, 3, true).value;
    forall i: nat | 5 <= i ensures !Bit(r, i) && !Bit(0x1D, i) {
      BitHigh(0x15, 5, i);
      BitHigh(0x1D, 5, i);
    }
    forall i: nat | i < 5 ensures Bit(r, i) <==> Bit(0x1D, i) {
      assert i == 0 || i == 1 || i == 2 || i == 3 || i == 4;
    }
    SameBits(r, 0x1D, 5);
    var q := WithBit(U32, 0x1D, 0, false).value;
    forall i: nat | 5 <= i ensures !Bit(q, i) && !Bit(0x1C, i) {
      BitHigh(0x1D, 5, i);
      BitHigh(0x1C, 5, i);
    }
    forall i: nat | i < 5 ensures Bit(q, i) <==> Bit(0x1C, i) {
      assert i == 0 || i == 1 || i == 2 || i == 3 || i == 4;
    }
    SameBits(q, 0x1C, 5);
  }

  lemma SameBits(x: nat, y: nat, n: nat)
    requires forall i: nat :: n <= i ==> !Bit(x, i) && !Bit(y, i)
    requires forall i: nat :: i < n ==> (Bit(x, i) <==> Bit(y, i))
    ensures x == y
  {
    BoundFromBits(x, n);
    BoundFromBits(y, n);
    BitsDetermine(x, y, n);
  }
}
