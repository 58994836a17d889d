/** Rust's fixed-width unsigned integers and the operators the bit helpers of
    src/util/bit_manipulation.rs use on them.

    A value of type `u8` … `u64` is a natural number below 2^width.  Every operator
    is defined one bit at a time (halving and doubling), which is what `>>`, `<<`,
    `&`, `|` and `!` do; bit `i` of a value is read by `Bit`.  The lemmas give each
    operator its meaning bit by bit, and `BitsDetermine` turns a statement about
    every bit into an equality of values. */
module Unsigned {

  /** The unsigned type a generic helper is instantiated at. */
  datatype Width = U8 | U16 | U32 | U64
  {
    function Bits(): nat
    {
      match this
      case U8 => 8
      case U16 => 16
      case U32 => 32
      case U64 => 64
    }

    /** 2^Bits(), the number of values of the type. */
    function Modulus(): nat
    {
      match this
      case U8 => 0x100
      case U16 => 0x1_0000
      case U32 => 0x1_0000_0000
      case U64 => 0x1_0000_0000_0000_0000
    }
  }

  function Pow2(n: nat): (r: nat)
    ensures r > 0
  {
    if n == 0 then 1 else 2 * Pow2(n - 1)
  }

  lemma {:induction false} Pow2Add(a: nat, b: nat)
    ensures Pow2(a + b) == Pow2(a) * Pow2(b)
    decreases a
  {
    if a > 0 {
      Pow2Add(a - 1, b);
    }
  }

  /** The moduli of the four widths. */
  lemma Pow2Widths()
    ensures Pow2(8) == 0x100 && Pow2(16) == 0x1_0000 && Pow2(32) == 0x1_0000_0000
    ensures Pow2(64) == 0x1_0000_0000_0000_0000
  {
    assert Pow2(4) == 16;
    Pow2Add(4, 4);
    Pow2Add(8, 8);
    Pow2Add(16, 16);
    Pow2Add(32, 32);
  }

  /** `x` is a value of type `w`. */
  predicate Fits(w: Width, x: nat)
  {
    x < w.Modulus()
  }

  /** Bit `i` of `x`, bit 0 being the least significant. */
  predicate Bit(x: nat, i: nat)
  {
    if i == 0 then x % 2 == 1 else Bit(x / 2, i - 1)
  }

  /** `x & y`. */
  function And(x: nat, y: nat): nat
    decreases x
  {
    if x == 0 || y == 0 then 0
    else 2 * And(x / 2, y / 2) + (if x % 2 == 1 && y % 2 == 1 then 1 else 0)
  }

  /** `x | y`. */
  function Or(x: nat, y: nat): nat
    decreases x
  {
    if x == 0 then y
    else if y == 0 then x
    else 2 * Or(x / 2, y / 2) + (if x % 2 == 1 || y % 2 == 1 then 1 else 0)
  }

  /** The low `n` bits of `x`: what an `as` cast to an `n`-bit type keeps. */
  function Low(x: nat, n: nat): nat
  {
    if n == 0 then 0 else 2 * Low(x / 2, n - 1) + x % 2
  }

  /** `x >> n` (the shift amount is checked by the caller). */
  function Shr(x: nat, n: nat): nat
  {
    if n == 0 then x else Shr(x / 2, n - 1)
  }

  /** `x` doubled `n` times, with no bound. */
  function Shifted(x: nat, n: nat): nat
  {
    if n == 0 then x else 2 * Shifted(x, n - 1)
  }

  /** `x << n` in type `w`: the bits moved past the top are lost. */
  function Shl(w: Width, x: nat, n: nat): nat
  {
    Low(Shifted(x, n), w.Bits())
  }

  /** `!x` in type `w`. */
  function Not(w: Width, x: nat): nat
    requires Fits(w, x)
  {
    w.Modulus() - 1 - x
  }

  lemma WidthFacts(w: Width)
    ensures 8 <= w.Bits() <= 64 && w.Modulus() >= 256
  {
  }

  lemma ModulusIsPow2(w: Width)
    ensures w.Modulus() == Pow2(w.Bits())
  {
    Pow2Widths();
  }

  lemma {:induction false} Pow2Monotone(a: nat, b: nat)
    requires a <= b
    ensures Pow2(a) <= Pow2(b)
    decreases b
  {
    if a < b {
      Pow2Monotone(a, b - 1);
    }
  }

  lemma {:induction false} BitOfZero(i: nat)
    ensures !Bit(0, i)
  {
    if i > 0 {
      BitOfZero(i - 1);
    }
  }

  /** A value with no bit set is zero. */
  lemma {:induction false} ZeroFromBits(x: nat)
    requires forall i: nat :: !Bit(x, i)
    ensures x == 0
    decreases x
  {
    assert !Bit(x, 0);
    if x > 0 {
      forall i: nat ensures !Bit(x / 2, i) {
        assert !Bit(x, i + 1);
      }
      ZeroFromBits(x / 2);
    }
  }

  /** The cast of `x` to `n` bits is zero exactly when its low `n` bits are clear. */
  lemma LowZeroBits(x: nat, n: nat)
    ensures Low(x, n) == 0 <==> forall i: nat :: i < n ==> !Bit(x, i)
  {
    if Low(x, n) == 0 {
      forall i: nat | i < n ensures !Bit(x, i) {
        BitLow(x, n, i);
        BitOfZero(i);
      }
    } else {
      if forall i: nat :: !Bit(Low(x, n), i) {
        ZeroFromBits(Low(x, n));
      }
      var i: nat :| Bit(Low(x, n), i);
      BitLow(x, n, i);
      assert i < n && Bit(x, i);
    }
  }

  /** `x` is a multiple of 2^n exactly when its low `n` bits are clear. */
  lemma ModZeroBits(x: nat, n: nat)
    ensures x % Pow2(n) == 0 <==> forall i: nat :: i < n ==> !Bit(x, i)
  {
    LowIsMod(x, n);
    LowZeroBits(x, n);
  }

  /** A value below 2^n is zero exactly when its low `n` bits are clear. */
  lemma SmallZeroBits(x: nat, n: nat)
    requires x < Pow2(n)
    ensures x == 0 <==> forall i: nat :: i < n ==> !Bit(x, i)
  {
    LowOfSmall(x, n);
    LowZeroBits(x, n);
  }

  /** A value whose bits from `n` on are clear is below 2^n. */
  lemma {:induction false} BoundFromBits(x: nat, n: nat)
    requires forall i: nat :: n <= i ==> !Bit(x, i)
    ensures x < Pow2(n)
    decreases n
  {
    if n == 0 {
      ZeroFromBits(x);
    } else {
      forall i: nat | n - 1 <= i ensures !Bit(x / 2, i) {
        assert !Bit(x, i + 1);
      }
      BoundFromBits(x / 2, n - 1);
    }
  }

  /** A value below 2^n has no bit set from `n` on. */
  lemma {:induction false} BitHigh(x: nat, n: nat, i: nat)
    requires x < Pow2(n) && n <= i
    ensures !Bit(x, i)
    decreases n
  {
    if n == 0 {
      BitOfZero(i);
    } else {
      BitHigh(x / 2, n - 1, i - 1);
    }
  }

  /** Two values below 2^n that agree on bits 0 .. n-1 are equal. */
  lemma {:induction false} BitsDetermine(x: nat, y: nat, n: nat)
    requires x < Pow2(n) && y < Pow2(n)
    requires forall i: nat :: i < n ==> (Bit(x, i) <==> Bit(y, i))
    ensures x == y
    decreases n
  {
    if n > 0 {
      assert Bit(x, 0) <==> Bit(y, 0);
      forall i: nat | i < n - 1 ensures Bit(x / 2, i) <==> Bit(y / 2, i) {
        assert Bit(x, i + 1) <==> Bit(y, i + 1);
      }
      BitsDetermine(x / 2, y / 2, n - 1);
    }
  }

  lemma {:induction false} BitAnd(x: nat, y: nat, i: nat)
    ensures Bit(And(x, y), i) <==> Bit(x, i) && Bit(y, i)
    decreases i
  {
    if x == 0 || y == 0 {
      BitOfZero(i);
    } else if i > 0 {
      BitAnd(x / 2, y / 2, i - 1);
    }
  }

  lemma {:induction false} BitOr(x: nat, y: nat, i: nat)
    ensures Bit(Or(x, y), i) <==> Bit(x, i) || Bit(y, i)
    decreases i
  {
    if x == 0 || y == 0 {
      BitOfZero(i);
    } else if i > 0 {
      BitOr(x / 2, y / 2, i - 1);
    }
  }

  lemma {:induction false} BitLow(x: nat, n: nat, i: nat)
    ensures Bit(Low(x, n), i) <==> i < n && Bit(x, i)
    decreases n
  {
    if n == 0 {
      BitOfZero(i);
    } else if i > 0 {
      BitLow(x / 2, n - 1, i - 1);
    }
  }

  lemma {:induction false} BitShr(x: nat, n: nat, i: nat)
    ensures Bit(Shr(x, n), i) <==> Bit(x, i + n)
    decreases n
  {
    if n > 0 {
      BitShr(x / 2, n - 1, i);
    }
  }

  lemma {:induction false} BitShifted(x: nat, n: nat, i: nat)
    ensures Bit(Shifted(x, n), i) <==> n <= i && Bit(x, i - n)
    decreases n
  {
    if n > 0 {
      var y := Shifted(x, n - 1);
      if i > 0 {
        assert (2 * y) / 2 == y;
        BitShifted(x, n - 1, i - 1);
      }
    }
  }

  lemma {:induction false} ShiftedOne(n: nat)
    ensures Shifted(1, n) == Pow2(n)
  {
    if n > 0 {
      ShiftedOne(n - 1);
    }
  }

  lemma {:induction false} BitComplement(n: nat, x: nat, i: nat)
    requires x < Pow2(n) && i < n
    ensures Bit(Pow2(n) - 1 - x, i) <==> !Bit(x, i)
    decreases n
  {
    var p := Pow2(n - 1);
    if i > 0 {
      assert (Pow2(n) - 1 - x) / 2 == p - 1 - x / 2;
      BitComplement(n - 1, x / 2, i - 1);
    }
  }

  /** `x >> n`, bit by bit. */
  lemma ShrBits(x: nat, n: nat)
    ensures forall i: nat :: Bit(Shr(x, n), i) <==> Bit(x, i + n)
  {
    forall i: nat ensures Bit(Shr(x, n), i) <==> Bit(x, i + n) {
      BitShr(x, n, i);
    }
  }

  /** `x << n` in type `w`, bit by bit, and its result is a value of `w`. */
  lemma ShlBits(w: Width, x: nat, n: nat)
    ensures Fits(w, Shl(w, x, n))
    ensures forall i: nat :: Bit(Shl(w, x, n), i) <==> n <= i < w.Bits() && Bit(x, i - n)
  {
    ModulusIsPow2(w);
    forall i: nat ensures Bit(Shl(w, x, n), i) <==> n <= i < w.Bits() && Bit(x, i - n) {
      BitLow(Shifted(x, n), w.Bits(), i);
      BitShifted(x, n, i);
    }
    BoundFromBits(Shl(w, x, n), w.Bits());
  }

  /** `x & y` and `x | y`, bit by bit. */
  lemma AndOrBits(x: nat, y: nat)
    ensures forall i: nat :: Bit(And(x, y), i) <==> Bit(x, i) && Bit(y, i)
    ensures forall i: nat :: Bit(Or(x, y), i) <==> Bit(x, i) || Bit(y, i)
  {
    forall i: nat ensures Bit(And(x, y), i) <==> Bit(x, i) && Bit(y, i) {
      BitAnd(x, y, i);
    }
    forall i: nat ensures Bit(Or(x, y), i) <==> Bit(x, i) || Bit(y, i) {
      BitOr(x, y, i);
    }
  }

  /** `!x` in type `w`, bit by bit. */
  lemma NotBits(w: Width, x: nat)
    requires Fits(w, x)
    ensures Fits(w, Not(w, x))
    ensures forall i: nat :: Bit(Not(w, x), i) <==> i < w.Bits() && !Bit(x, i)
  {
    ModulusIsPow2(w);
    forall i: nat ensures Bit(Not(w, x), i) <==> i < w.Bits() && !Bit(x, i) {
      if i < w.Bits() {
        BitComplement(w.Bits(), x, i);
      } else {
        BitHigh(Not(w, x), w.Bits(), i);
      }
    }
  }

  /** The bits of a value of type `w` all lie below the width. */
  lemma FitsBits(w: Width, x: nat)
    requires Fits(w, x)
    ensures forall i: nat :: Bit(x, i) ==> i < w.Bits()
  {
    ModulusIsPow2(w);
    forall i: nat | Bit(x, i) ensures i < w.Bits() {
      if i >= w.Bits() {
        BitHigh(x, w.Bits(), i);
      }
    }
  }

  /** `1` and `0` as bits. */
  lemma OneZeroBits()
    ensures forall i: nat :: Bit(1, i) <==> i == 0
    ensures forall i: nat :: !Bit(0, i)
  {
    forall i: nat ensures Bit(1, i) <==> i == 0 {
      if i > 0 {
        BitOfZero(i - 1);
      }
    }
    forall i: nat ensures !Bit(0, i) {
      BitOfZero(i);
    }
  }

  /** `1 << n` in type `w`, for `n` below the width, is 2^n. */
  lemma ShlOne(w: Width, n: nat)
    requires n < w.Bits()
    ensures Shl(w, 1, n) == Pow2(n) < w.Modulus()
  {
    ModulusIsPow2(w);
    Pow2Monotone(n + 1, w.Bits());
    ShiftedOne(n);
    LowOfSmall(Pow2(n), w.Bits());
  }

  /** `(1 << n) - 1` in type `w`, as `get_bits` and `set_bits` build it from
      `index == 1`. */
  function LowMask(w: Width, n: nat): nat
    requires n < w.Bits()
  {
    ShlOne(w, n);
    Shl(w, 1, n) - 1
  }

  /** The mask has exactly the low `n` bits set. */
  lemma LowMaskBits(w: Width, n: nat)
    requires n < w.Bits()
    ensures Fits(w, LowMask(w, n))
    ensures forall i: nat :: Bit(LowMask(w, n), i) <==> i < n
  {
    ModulusIsPow2(w);
    ShlOne(w, n);
    var m := LowMask(w, n);
    assert m == Pow2(n) - 1 - 0;
    forall i: nat ensures Bit(m, i) <==> i < n {
      if i < n {
        BitComplement(n, 0, i);
        BitOfZero(i);
      } else {
        BitHigh(m, n, i);
      }
    }
  }

  /** A cast to `n` bits gives a value below 2^n. */
  lemma {:induction false} LowFits(x: nat, n: nat)
    ensures Low(x, n) < Pow2(n)
    decreases n
  {
    if n > 0 {
      LowFits(x / 2, n - 1);
    }
  }

  /** A right shift never grows a value. */
  lemma {:induction false} ShrLe(x: nat, n: nat)
    ensures Shr(x, n) <= x
    decreases n
  {
    if n > 0 {
      ShrLe(x / 2, n - 1);
    }
  }

  /** Casting a value that already fits changes nothing. */
  lemma {:induction false} LowOfSmall(x: nat, n: nat)
    requires x < Pow2(n)
    ensures Low(x, n) == x
    decreases n
  {
    if n > 0 {
      LowOfSmall(x / 2, n - 1);
    }
  }

  lemma MulAtLeast(m: nat, d: int)
    ensures d >= 1 ==> m * d >= m
  {
    if d >= 1 {
      var e: nat := d - 1;
      assert m * d == m + m * e;
    }
  }

  lemma DivModUnique(x: nat, m: nat, q: nat, r: nat)
    requires 0 < m && x == m * q + r && r < m
    ensures x / m == q && x % m == r
  {
    var q', r' := x / m, x % m;
    assert x == m * q' + r';
    assert m * (q - q') == r' - r;
    MulAtLeast(m, q - q');
    MulAtLeast(m, q' - q);
    assert m * (q' - q) == r - r';
  }

  /** `x / x`, the helpers' way of writing 1. */
  lemma DivSelf(x: nat)
    requires 0 < x
    ensures x / x == 1
  {
    DivModUnique(x, x, 1, 0);
  }

  /** The remainder of `x` modulo `2 * p`, from that of `x / 2` modulo `p`. */
  lemma HalfMod(x: nat, p: nat)
    requires 0 < p
    ensures x % (2 * p) == 2 * ((x / 2) % p) + x % 2
  {
    var h := x / 2;
    var q: nat, r: nat := h / p, h % p;
    assert h == p * q + r;
    assert (2 * p) * q == 2 * (p * q);
    DivModUnique(x, 2 * p, q, 2 * r + x % 2);
  }

  /** The cast to `n` bits is the remainder modulo 2^n. */
  lemma {:induction false} LowIsMod(x: nat, n: nat)
    ensures Low(x, n) == x % Pow2(n)
    decreases n
  {
    if n > 0 {
      LowIsMod(x / 2, n - 1);
      HalfMod(x, Pow2(n - 1));
    }
  }

  /** The number whose bit `i` is `bits[i]`. */
  function FromBits(bits: seq<bool>): nat
  {
    if |bits| == 0 then 0 else 2 * FromBits(bits[1..]) + (if bits[0] then 1 else 0)
  }

  /** Bit `i` of `FromBits(bits)` is `bits[i]`, and none is set from `|bits|` on. */
  lemma {:induction false} BitFromBits(bits: seq<bool>, i: nat)
    ensures Bit(FromBits(bits), i) <==> i < |bits| && bits[i]
    decreases |bits|
  {
    if |bits| == 0 {
      BitOfZero(i);
    } else {
      var y := FromBits(bits[1..]);
      var c := if bits[0] then 1 else 0;
      DivModUnique(2 * y + c, 2, y, c);
      if i > 0 {
        BitFromBits(bits[1..], i - 1);
      }
    }
  }

  /** `FromBits(bits)` has at most `|bits|` bits. */
  lemma {:induction false} FromBitsBound(bits: seq<bool>)
    ensures FromBits(bits) < Pow2(|bits|)
    decreases |bits|
  {
    if |bits| > 0 {
      FromBitsBound(bits[1..]);
    }
  }

  /** Shifting left by `n` without a bound multiplies by 2^n. */
  lemma {:induction false} ShiftedIsMul(x: nat, n: nat)
    ensures Shifted(x, n) == x * Pow2(n)
    decreases n
  {
    if n > 0 {
      ShiftedIsMul(x, n - 1);
      assert 2 * (x * Pow2(n - 1)) == x * (2 * Pow2(n - 1));
    }
  }

  /** Or-ing a value below 2^k into another shifted past bit k adds them: the two
      have no bit in common. */
  lemma {:induction false} OrShifted(x: nat, y: nat, k: nat)
    requires x < Pow2(k)
    ensures Or(x, Shifted(y, k)) == x + Shifted(y, k)
    decreases k
  {
    if k > 0 && x != 0 && Shifted(y, k) != 0 {
      var s := Shifted(y, k - 1);
      assert Shifted(y, k) == 2 * s;
      assert Or(x, 2 * s) == 2 * Or(x / 2, s) + x % 2;
      OrShifted(x / 2, y, k - 1);
    }
  }
}
