/** The boot terminal of src/main.rs: its construction and `write_numbers`, which
    prints a `usize` in decimal through `get_number_divisor`.

    `usize` is 32 bits wide on the kernel's target.  The terminal's other methods
    (`set_cursor`, `write_character`, `write_text`, `handle_new_line`) and the
    helpers `vga_entry_color` and `vga_entry` are the same code as in
    src/io/vga.rs and are modelled once, by `Vga`. */
module KernelMain {
  import opened Wrappers
  import opened Unsigned
  import Vga

  /** `BASE_DIGIT`: the byte of the character '0'. */
  const BaseDigit: nat := 48

  /** The largest `usize` of the form `10^k * 10`, the last value of `divisor` before
      `*= 10` overflows 32 bits. */
  const LastDivisor: nat := 1_000_000_000

  function Pow10(k: nat): (r: nat)
    ensures r >= 1
  {
    if k == 0 then 1 else 10 * Pow10(k - 1)
  }

  lemma {:induction false} Pow10Monotone(a: nat, b: nat)
    requires a <= b
    ensures Pow10(a) <= Pow10(b)
    decreases b
  {
    if a < b {
      Pow10Monotone(a, b - 1);
    }
  }

  lemma Pow10Values()
    ensures Pow10(8) == 100_000_000 && Pow10(9) == LastDivisor
    ensures Pow10(10) == 10_000_000_000
  {
    assert Pow10(2) == 100;
    assert Pow10(4) == 10_000 by {
      assert Pow10(3) == 1000;
    }
    assert Pow10(6) == 1_000_000 by {
      assert Pow10(5) == 100_000;
    }
    assert Pow10(8) == 100_000_000 by {
      assert Pow10(7) == 10_000_000;
    }
  }

  /** The number of decimal digits of `n`; 0 has one. */
  function Len(n: nat): (r: nat)
    ensures r >= 1
  {
    if n < 10 then 1 else 1 + Len(n / 10)
  }

  /** `Pow10(Len(n) - 1)` is the largest power of ten not above `n` (1 for 0). */
  lemma {:induction false} LenBounds(n: nat)
    ensures n == 0 || Pow10(Len(n) - 1) <= n
    ensures n < Pow10(Len(n))
  {
    if n >= 10 {
      LenBounds(n / 10);
    }
  }

  /** A `k` with `10^(k-1) <= n < 10^k` is the number of digits. */
  lemma LenUnique(n: nat, k: nat)
    requires 1 <= k && (k == 1 || Pow10(k - 1) <= n) && n < Pow10(k)
    ensures k == Len(n)
  {
    LenBounds(n);
    var l := Len(n);
    if k < l {
      Pow10Monotone(k, l - 1);
    } else if k > l {
      Pow10Monotone(l, k - 1);
    }
  }

  /** `get_number_divisor` as written: `divisor` starts at 10 and is multiplied by
      10 while it is not above `number`, then divided by 10.  In a debug build the
      multiplication panics once `divisor` would pass `u32::MAX`, which happens for
      every `number` from `LastDivisor` on. */
  method GetNumberDivisor(number: nat) returns (r: Result<nat>)
    requires Fits(U32, number)
    ensures r.Panic? <==> number >= LastDivisor
    ensures r.Panic? ==> r.reason == ArithmeticOverflow
    ensures r.Ok? ==> r.value == Pow10(Len(number) - 1)
  {
    Pow10Values();
    var divisor := 10;
    ghost var k: nat := 1;
    while number >= divisor
      invariant 1 <= k <= 9 && divisor == Pow10(k)
      invariant k == 1 || Pow10(k - 1) <= number
    {
      if k <= 8 {
        Pow10Monotone(k, 8);
      } else {
        Pow10Monotone(k, 9);
      }
      if divisor * 10 >= 0x1_0000_0000 {
        return Panic(ArithmeticOverflow);
      }
      divisor := divisor * 10;
      k := k + 1;
    }
    Pow10Monotone(k, 9);
    LenUnique(number, k);
    r := Ok(divisor / 10);
  }

  /** The input that shows the overflow: `LastDivisor` is a `usize`, and the divisor
      `write_numbers` needs for it is `LastDivisor` itself, which fits; yet
      `GetNumberDivisor` panics on it. */
  lemma DivisorOverflowInput()
    ensures Fits(U32, LastDivisor) && Pow10(Len(LastDivisor) - 1) == LastDivisor
  {
    Pow10Values();
    LenUnique(LastDivisor, 10);
  }

  lemma DivAtLeast(n: nat, d: nat)
    requires 0 < d && n / d >= 10
    ensures 10 * d <= n
  {
    MulAtLeast(d, n / d - 9);
    assert d * (n / d) == d * (n / d - 9) + 9 * d;
  }

  lemma DivBelow(n: nat, d: nat)
    requires 0 < d && n / d < 10
    ensures n < 10 * d
  {
    MulAtLeast(d, 10 - n / d);
    assert d * 10 == d * (10 - n / d) + d * (n / d);
  }

  /** `get_number_divisor` as evidently intended, for every `usize`: the largest
      power of ten not above `number` (1 for 0), found without leaving 32 bits. */
  method NumberDivisor(number: nat) returns (divisor: nat)
    requires Fits(U32, number)
    ensures Fits(U32, divisor) && divisor == Pow10(Len(number) - 1)
  {
    divisor := 1;
    ghost var k: nat := 0;
    while number / divisor >= 10
      invariant divisor == Pow10(k) && (k == 0 || divisor <= number)
      decreases number - divisor
    {
      DivAtLeast(number, divisor);
      divisor := divisor * 10;
      k := k + 1;
    }
    DivBelow(number, divisor);
    LenUnique(number, k + 1);
  }

  /** The decimal digits of `n` as characters, most significant first. */
  function Chars(n: nat): (r: seq<nat>)
    ensures |r| == Len(n)
    ensures forall i :: 0 <= i < |r| ==> BaseDigit <= r[i] < BaseDigit + 10
    ensures Vga.IsText(r)
  {
    if n < 10 then [BaseDigit + n] else Chars(n / 10) + [BaseDigit + n % 10]
  }

  /** Digit characters read back as a number. */
  function Value(ds: seq<nat>): nat
    requires forall i :: 0 <= i < |ds| ==> BaseDigit <= ds[i]
  {
    if ds == [] then 0 else 10 * Value(ds[..|ds| - 1]) + (ds[|ds| - 1] - BaseDigit)
  }

  /** Printing and reading back a number gives the number. */
  lemma {:induction false} CharsRoundTrip(n: nat)
    ensures Value(Chars(n)) == n
  {
    var c := Chars(n);
    if n >= 10 {
      CharsRoundTrip(n / 10);
      assert c[..|c| - 1] == Chars(n / 10);
    } else {
      assert c[..0] == [];
    }
  }

  /** Only 0 is printed with a leading '0'. */
  lemma {:induction false} CharsNoLeadingZero(n: nat)
    ensures Chars(n)[0] == BaseDigit <==> n == 0
  {
    if n >= 10 {
      CharsNoLeadingZero(n / 10);
      assert Chars(n)[0] == Chars(n / 10)[0];
    }
  }

  /** Dividing by 10 and then by `p` is dividing by `10 * p`. */
  lemma DivDiv(n: nat, p: nat)
    requires 0 < p
    ensures (n / 10) / p == n / (10 * p)
  {
    var q, r := (n / 10) / p, (n / 10) % p;
    assert n / 10 == p * q + r;
    assert n == (10 * p) * q + (10 * r + n % 10);
    DivModUnique(n, 10 * p, q, 10 * r + n % 10);
  }

  /** Character `i` is the digit `write_numbers` computes with the divisor
      `10^(Len(n) - 1 - i)`. */
  lemma {:induction false} CharsAt(n: nat, i: nat)
    requires i < Len(n)
    ensures Chars(n)[i] == BaseDigit + (n / Pow10(Len(n) - 1 - i)) % 10
  {
    if n >= 10 {
      if i < Len(n) - 1 {
        CharsAt(n / 10, i);
        DivDiv(n, Pow10(Len(n) - 2 - i));
        assert Chars(n)[i] == Chars(n / 10)[i];
      }
    }
  }

  /** Digit `k` of `write_numbers` prints as character `k` of `Chars(n)`. */
  lemma DigitStep(n: nat, k: nat)
    requires k < Len(n)
    ensures Chars((n / Pow10(Len(n) - 1 - k)) % 10) == [Chars(n)[k]]
    ensures Chars(n)[..k + 1] == Chars(n)[..k] + [Chars(n)[k]]
  {
    CharsAt(n, k);
  }

  /** `divisor /= 10` steps to the next digit's divisor, and to 0 after the last. */
  lemma DivisorStep(l: nat, k: nat)
    requires k < l
    ensures Pow10(l - 1 - k) / 10 == if k + 1 < l then Pow10(l - 1 - (k + 1)) else 0
  {
  }

  /** `Terminal::new`: light grey on black, the cursor at the top left and every
      cell a space. */
  method NewTerminal(screen: array<nat>) returns (t: Vga.Terminal)
    requires screen.Length == Vga.Cells
    modifies screen
    ensures t.Valid() && t.buffer == screen
    ensures t.row == 0 && t.column == 0
    ensures t.color == Vga.SetColor(Vga.LightGrey, Vga.Black)
    ensures forall i :: 0 <= i < Vga.Cells ==>
              screen[i] == Vga.ScreenCharacter(Vga.Space, t.color)
  {
    t := new Vga.Terminal(Vga.LightGrey, Vga.Black, screen);
    t.Init();
  }

  /** `write_numbers`: one digit is written as its character; a larger number digit
      by digit from the most significant, each through `write_numbers` of that
      digit.  The result is the number's decimal characters written from the
      cursor on. */
  method WriteNumbers(t: Vga.Terminal, number: nat)
    requires t.Valid() && Fits(U32, number)
    modifies t, t.buffer
    ensures t.Valid() && t.color == old(t.color)
    ensures t.State() == Vga.Render(old(t.State()), t.color, Chars(number))
    decreases number
  {
    if number < 10 {
      t.WriteCharacter(BaseDigit + number);
    } else {
      var divisor := NumberDivisor(number);
      ghost var l := Len(number);
      ghost var k: nat := 0;
      ghost var c := Chars(number);
      while divisor > 0
        invariant t.Valid() && t.color == old(t.color)
        invariant k <= l && divisor == (if k < l then Pow10(l - 1 - k) else 0)
        invariant Vga.IsText(c[..k])
        invariant t.State() == Vga.Render(old(t.State()), t.color, c[..k])
        decreases divisor
      {
        var digit := (number / divisor) % 10;
        DigitStep(number, k);
        WriteNumbers(t, digit);
        Vga.RenderAppend(old(t.State()), t.color, c[..k], [c[k]]);
        DivisorStep(l, k);
        divisor := divisor / 10;
        k := k + 1;
      }
      assert c[..l] == c;
    }
  }
}
