/** The VGA text terminal of src/io/vga.rs.

    The screen is 25 rows of 80 cells.  A cell is a `u16`: the character in the low
    byte and the colour byte above it; a colour byte is the foreground colour in the
    low nibble and the background colour in the high one.  The terminal keeps a
    cursor, writes a character at the cursor and advances it one cell, wrapping at
    the end of a row and at the end of the screen, and moves to the start of the
    next row on a newline.

    The memory-mapped buffer at 0xB8000 is an array of 2000 cells.  `Screen`,
    `Render` and the cursor functions are the reference the terminal's methods are
    proved against; the `Terminal` of src/main.rs is proved against the same
    definitions. */
module Vga {
  import opened Unsigned

  /** `VGA_WIDTH` and `VGA_HEIGHT`. */
  const VgaWidth: nat := 80
  const VgaHeight: nat := 25
  /** The number of cells of the buffer. */
  const Cells: nat := 2000

  /** The byte `write_text` treats as a line break, `b'\n'`. */
  const NewLineByte: nat := 10
  /** `b' '`. */
  const Space: nat := 32

  /** `VgaColor`, the sixteen colours of the text mode. */
  datatype VgaColor =
    | Black | Blue | Green | Cyan | Red | Magneta | Brown | LightGrey
    | DarkGrey | LightBlue | LightGreen | LightCyan | LightRed | LightMagneta | LightBrown | White

  /** `colour as u8`: the discriminant, in declaration order. */
  function Code(c: VgaColor): (n: nat)
    ensures n < 16
  {
    match c
    case Black => 0
    case Blue => 1
    case Green => 2
    case Cyan => 3
    case Red => 4
    case Magneta => 5
    case Brown => 6
    case LightGrey => 7
    case DarkGrey => 8
    case LightBlue => 9
    case LightGreen => 10
    case LightCyan => 11
    case LightRed => 12
    case LightMagneta => 13
    case LightBrown => 14
    case White => 15
  }

  /** Packing `low` into the bits below `k` and `high` above them: the two can be read
      back with `%` and `/`. */
  lemma Packed(low: nat, high: nat, k: nat, w: Width)
    requires low < Pow2(k) && Pow2(k) * (high + 1) <= w.Modulus()
    ensures var r := Or(low, Shl(w, high, k));
            Fits(w, r) && r % Pow2(k) == low && r / Pow2(k) == high
  {
    ModulusIsPow2(w);
    ShiftedIsMul(high, k);
    assert Pow2(k) * (high + 1) == Pow2(k) * high + Pow2(k);
    PackedValue(low, high, k, w.Bits());
    DivModUnique(Or(low, Shl(w, high, k)), Pow2(k), high, low);
  }

  /** Without a carry into bit `n`, the packed value is `low + high * 2^k`. */
  lemma PackedValue(low: nat, high: nat, k: nat, n: nat)
    requires low < Pow2(k) && Shifted(high, k) < Pow2(n)
    ensures Or(low, Low(Shifted(high, k), n)) == low + Shifted(high, k)
  {
    LowOfSmall(Shifted(high, k), n);
    OrShifted(low, high, k);
  }

  /** `Terminal::set_color` (and `vga_entry_color` of src/main.rs):
      `fg as u8 | (bg as u8) << 4`. */
  function SetColor(fg: VgaColor, bg: VgaColor): (r: nat)
    ensures Fits(U8, r) && r % 16 == Code(fg) && r / 16 == Code(bg)
  {
    assert Pow2(4) == 16;
    Packed(Code(fg), Code(bg), 4, U8);
    Or(Code(fg), Shl(U8, Code(bg), 4))
  }

  /** `set_screen_character` with the terminal's colour (and `vga_entry` of
      src/main.rs): `character as u16 | (color as u16) << 8`. */
  function ScreenCharacter(character: nat, color: nat): (r: nat)
    requires Fits(U8, character) && Fits(U8, color)
    ensures Fits(U16, r) && r % 256 == character && r / 256 == color
  {
    Pow2Widths();
    Packed(character, color, 8, U16);
    Or(character, Shl(U16, color, 8))
  }

  /** The cursor: `terminal_row` and `terminal_column`. */
  datatype Cursor = Cursor(row: nat, column: nat)

  predicate InBounds(c: Cursor)
  {
    c.row < VgaHeight && c.column < VgaWidth
  }

  /** The cell the cursor points at, `row * VGA_WIDTH + column`. */
  function Index(c: Cursor): nat
  {
    c.row * VgaWidth + c.column
  }

  lemma IndexBound(c: Cursor)
    requires InBounds(c)
    ensures Index(c) < Cells
  {
  }

  /** `set_cursor`: one column on, to the start of the next row after the last
      column, and back to the first row after the last row. */
  function Advance(c: Cursor): (r: Cursor)
    ensures InBounds(c) ==> InBounds(r)
    ensures r.column == 0 <==> c.column + 1 == VgaWidth
  {
    var column := c.column + 1;
    if column == VgaWidth then
      var row := c.row + 1;
      Cursor(if row == VgaHeight then 0 else row, 0)
    else Cursor(c.row, column)
  }

  /** `handle_new_line`: the start of the next row, the first row after the last. */
  function NewLine(c: Cursor): (r: Cursor)
    ensures InBounds(c) ==> InBounds(r)
    ensures r.column == 0 && (r.row == 0 <==> c.row + 1 == VgaHeight)
  {
    var row := c.row + 1;
    Cursor(if row == VgaHeight then 0 else row, 0)
  }

  /** `set_cursor` moves to the next cell of the buffer in row-major order, from the
      last cell back to the first. */
  lemma AdvanceIsNextCell(c: Cursor)
    requires InBounds(c)
    ensures InBounds(Advance(c)) && Index(Advance(c)) == (Index(c) + 1) % Cells
  {
  }

  /** `handle_new_line` moves to the first cell of the next row, wrapping at the end
      of the screen, and writes nothing. */
  lemma NewLineIsNextRow(c: Cursor)
    requires InBounds(c)
    ensures InBounds(NewLine(c)) && NewLine(c).column == 0
    ensures Index(NewLine(c)) == ((c.row + 1) % VgaHeight) * VgaWidth
  {
  }

  /** The buffer contents and the cursor. */
  datatype Screen = Screen(cells: seq<nat>, cursor: Cursor)

  predicate ValidScreen(s: Screen)
  {
    |s.cells| == Cells && InBounds(s.cursor)
  }

  predicate IsText(text: seq<nat>)
  {
    forall i :: 0 <= i < |text| ==> Fits(U8, text[i])
  }

  /** `write_character`: the cell under the cursor gets the character, then the
      cursor advances. */
  function PutCharacter(s: Screen, color: nat, character: nat): (r: Screen)
    requires ValidScreen(s) && Fits(U8, color) && Fits(U8, character)
    ensures ValidScreen(r)
  {
    AdvanceIsNextCell(s.cursor);
    Screen(s.cells[Index(s.cursor) := ScreenCharacter(character, color)], Advance(s.cursor))
  }

  /** One byte of `write_text`: a newline moves the cursor, any other byte is
      written. */
  function Put(s: Screen, color: nat, character: nat): (r: Screen)
    requires ValidScreen(s) && Fits(U8, color) && Fits(U8, character)
    ensures ValidScreen(r)
  {
    if character == NewLineByte then
      NewLineIsNextRow(s.cursor);
      Screen(s.cells, NewLine(s.cursor))
    else PutCharacter(s, color, character)
  }

  /** `write_text`: the bytes of `text` handled in order. */
  function Render(s: Screen, color: nat, text: seq<nat>): (r: Screen)
    requires ValidScreen(s) && Fits(U8, color) && IsText(text)
    ensures ValidScreen(r)
    decreases |text|
  {
    if text == [] then s else Render(Put(s, color, text[0]), color, text[1..])
  }

  /** Writing `a` and then `b` is writing `a + b`. */
  lemma {:induction false} RenderAppend(s: Screen, color: nat, a: seq<nat>, b: seq<nat>)
    requires ValidScreen(s) && Fits(U8, color) && IsText(a) && IsText(b)
    ensures IsText(a + b)
    ensures Render(s, color, a + b) == Render(Render(s, color, a), color, b)
    decreases |a|
  {
    assert IsText(a + b) by {
      forall i | 0 <= i < |a + b| ensures Fits(U8, (a + b)[i]) {
        if i >= |a| {
          assert (a + b)[i] == b[i - |a|];
        }
      }
    }
    if a == [] {
      assert a + b == b;
    } else {
      assert (a + b)[0] == a[0];
      assert (a + b)[1..] == a[1..] + b;
      RenderAppend(Put(s, color, a[0]), color, a[1..], b);
    }
  }

  /** Text without a line break that fits below the cursor lands in consecutive
      cells: byte `i` in the cell `i` places on and every other cell unchanged;
      `RenderLineCursor` gives the cursor. */
  lemma {:induction false} RenderLine(s: Screen, color: nat, text: seq<nat>)
    requires ValidScreen(s) && Fits(U8, color) && IsText(text)
    requires forall i :: 0 <= i < |text| ==> text[i] != NewLineByte
    requires Index(s.cursor) + |text| <= Cells
    ensures var r := Render(s, color, text);
            && (forall i :: 0 <= i < |text| ==>
                  r.cells[Index(s.cursor) + i] == ScreenCharacter(text[i], color))
            && (forall j :: 0 <= j < Cells && !(Index(s.cursor) <= j < Index(s.cursor) + |text|) ==>
                  r.cells[j] == s.cells[j])
    decreases |text|
  {
    if text != [] {
      var p := Index(s.cursor);
      var t := Put(s, color, text[0]);
      AdvanceIsNextCell(s.cursor);
      assert t.cells == s.cells[p := ScreenCharacter(text[0], color)];
      var r := Render(s, color, text);
      assert r == Render(t, color, text[1..]);
      if |text| > 1 {
        assert Index(t.cursor) == p + 1;
        RenderLine(t, color, text[1..]);
        forall i | 0 <= i < |text| ensures r.cells[p + i] == ScreenCharacter(text[i], color) {
          if i > 0 {
            assert text[1..][i - 1] == text[i];
            assert r.cells[(p + 1) + (i - 1)] == ScreenCharacter(text[1..][i - 1], color);
          } else {
            assert r.cells[p] == t.cells[p];
          }
        }
      }
    }
  }

  /** After text without a line break that fits below the cursor, the cursor is
      `|text|` cells on. */
  lemma {:induction false} RenderLineCursor(s: Screen, color: nat, text: seq<nat>)
    requires ValidScreen(s) && Fits(U8, color) && IsText(text)
    requires forall i :: 0 <= i < |text| ==> text[i] != NewLineByte
    requires Index(s.cursor) + |text| <= Cells
    ensures Index(Render(s, color, text).cursor) == (Index(s.cursor) + |text|) % Cells
    decreases |text|
  {
    if text != [] {
      var p := Index(s.cursor);
      var t := Put(s, color, text[0]);
      AdvanceIsNextCell(s.cursor);
      assert Render(s, color, text) == Render(t, color, text[1..]);
      if |text| > 1 {
        assert Index(t.cursor) == p + 1;
      }
      RenderLineCursor(t, color, text[1..]);
    }
  }

  /** `Terminal`: the cursor, the colour byte and the cell buffer. */
  class Terminal {
    var row: nat
    var column: nat
    var color: nat
    const buffer: array<nat>

    ghost predicate Valid()
      reads this
    {
      buffer.Length == Cells && row < VgaHeight && column < VgaWidth && Fits(U8, color)
    }

    /** What `write_text` reads and changes. */
    function State(): Screen
      reads this, buffer
    {
      Screen(buffer[..], Cursor(row, column))
    }

    /** `Terminal::new(fg, bg)`: the cursor at the top left and the colour packed
        from `fg` and `bg`.  The buffer is the screen's memory; `new` does not
        touch it. */
    constructor (fg: VgaColor, bg: VgaColor, screen: array<nat>)
      requires screen.Length == Cells
      ensures Valid() && buffer == screen
      ensures row == 0 && column == 0 && color == SetColor(fg, bg)
    {
      row := 0;
      column := 0;
      color := SetColor(fg, bg);
      buffer := screen;
    }

    /** `init`: every cell becomes a space in the terminal's colour. */
    method Init()
      requires Valid()
      modifies buffer
      ensures Valid()
      ensures forall i :: 0 <= i < Cells ==> buffer[i] == ScreenCharacter(Space, color)
    {
      for y := 0 to VgaHeight
        invariant forall i :: 0 <= i < y * VgaWidth ==> buffer[i] == ScreenCharacter(Space, color)
      {
        for x := 0 to VgaWidth
          invariant forall i :: 0 <= i < y * VgaWidth + x ==> buffer[i] == ScreenCharacter(Space, color)
        {
          buffer[y * VgaWidth + x] := ScreenCharacter(Space, color);
        }
      }
    }

    /** `set_cursor`. */
    method SetCursor()
      requires Valid()
      modifies this
      ensures Valid() && color == old(color)
      ensures Cursor(row, column) == Advance(old(Cursor(row, column)))
    {
      column := column + 1;
      if column == VgaWidth {
        column := 0;
        row := row + 1;
        if row == VgaHeight {
          row := 0;
        }
      }
    }

    /** `handle_new_line`. */
    method HandleNewLine()
      requires Valid()
      modifies this
      ensures Valid() && color == old(color)
      ensures Cursor(row, column) == NewLine(old(Cursor(row, column)))
    {
      column := 0;
      row := row + 1;
      if row == VgaHeight {
        row := 0;
      }
    }

    /** `write_character`: write the cell under the cursor, then advance. */
    method WriteCharacter(character: nat)
      requires Valid() && Fits(U8, character)
      modifies this, buffer
      ensures Valid() && color == old(color)
      ensures State() == PutCharacter(old(State()), color, character)
    {
      var index := row * VgaWidth + column;
      IndexBound(Cursor(row, column));
      buffer[index] := ScreenCharacter(character, color);
      SetCursor();
    }

    /** `write_text`: each byte in order, a newline moving the cursor and any other
        byte written. */
    method WriteText(text: seq<nat>)
      requires Valid() && IsText(text)
      modifies this, buffer
      ensures Valid() && color == old(color)
      ensures State() == Render(old(State()), color, text)
    {
      for i := 0 to |text|
        invariant Valid() && color == old(color)
        invariant IsText(text[..i])
        invariant State() == Render(old(State()), color, text[..i])
      {
        var s := State();
        if text[i] == NewLineByte {
          HandleNewLine();
        } else {
          WriteCharacter(text[i]);
        }
        assert State() == Render(s, color, [text[i]]);
        assert text[..i + 1] == text[..i] + [text[i]];
        RenderAppend(old(State()), color, text[..i], [text[i]]);
      }
      assert text[..|text|] == text;
    }
  }
}
