// The CGA console: the cursor arithmetic of console_putc, and console_vprintf writing the
// stream of Format to the cells.
module Console {
  import opened Machine
  import opened Numbers
  import opened Format
  import opened Directives

  const COLUMNS := 80
  const CELLS := 80 * 25
  const NEWLINE: Byte := 10

  /* Cells */

  // The bitwise or of the lowest n bits.
  function BitOr(n: nat, a: nat, b: nat): nat {
    if n == 0 then 0
    else 2 * BitOr(n - 1, a / 2, b / 2) + (if a % 2 == 1 || b % 2 == 1 then 1 else 0)
  }

  function Pow2(n: nat): nat {
    if n == 0 then 1 else 2 * Pow2(n - 1)
  }

  lemma {:induction false} BitOrRange(n: nat, a: nat, b: nat)
    ensures BitOr(n, a, b) < Pow2(n)
  {
    if n == 0 {
    } else {
      BitOrRange(n - 1, a / 2, b / 2);
    }
  }

  lemma {:induction false} BitOrZero(n: nat, a: nat)
    requires a < Pow2(n)
    ensures BitOr(n, a, 0) == a
  {
    if n == 0 {
    } else {
      BitOrZero(n - 1, a / 2);
    }
  }

  // The low byte of `c | color`: the character, a byte, touches no other bits.
  function LowByte(c: Byte, color: Word): (r: Byte) {
    BitOrRange(8, c, color % 256);
    assert Pow2(8) == 256;
    BitOr(8, c, color % 256)
  }

  // `c | color` cut to the 16 bits of a cell.
  function CellOf(g: Glyph): (r: Cell) {
    g.color / 256 % 256 * 256 + LowByte(g.c, g.color)
  }

  // With a colour that leaves the low byte alone, as the attributes do, the cell shows the
  // character in its low byte and the colour in its high byte.
  lemma CellShows(g: Glyph)
    requires g.color % 256 == 0 && g.color < 0x1_0000
    ensures CellOf(g) == g.color + g.c
  {
    assert Pow2(8) == 256;
    BitOrZero(8, g.c);
  }

  // Bit k of a number.
  function Bit(x: nat, k: nat): bool
    decreases k
  {
    if k == 0 then x % 2 == 1 else Bit(x / 2, k - 1)
  }

  lemma {:induction false} BitOrBits(n: nat, a: nat, b: nat, k: nat)
    requires k < n
    ensures Bit(BitOr(n, a, b), k) <==> Bit(a, k) || Bit(b, k)
  {
    if k == 0 {
    } else {
      assert BitOr(n, a, b) / 2 == BitOr(n - 1, a / 2, b / 2);
      BitOrBits(n - 1, a / 2, b / 2, k - 1);
    }
  }

  // The lowest n bits of x are those of r, the others those of q.
  lemma {:induction false} BitsSplit(x: nat, q: nat, r: nat, n: nat, k: nat)
    requires x == Pow2(n) * q + r && r < Pow2(n)
    ensures Bit(x, k) == if k < n then Bit(r, k) else Bit(q, k - n)
    decreases n
  {
    if n == 0 {
    } else {
      var p := Pow2(n - 1) * q;
      assert Pow2(n) * q == 2 * p;
      assert x / 2 == p + r / 2 && x % 2 == r % 2;
      if k > 0 {
        BitsSplit(x / 2, q, r / 2, n - 1, k - 1);
      }
    }
  }

  // Bit by bit, for every colour: a cell is `c | color` cut to its sixteen bits.
  lemma CellBits(g: Glyph, k: nat)
    requires k < 16
    ensures Bit(CellOf(g), k) <==> Bit(g.c, k) || Bit(g.color, k)
  {
    assert Pow2(8) == 256 by {
      assert Pow2(4) == 16;
    }
    var low, high := LowByte(g.c, g.color), g.color / 256 % 256;
    BitsSplit(CellOf(g), high, low, 8, k);
    BitsSplit(g.color, g.color / 256, g.color % 256, 8, k);
    BitsSplit(g.c, 0, g.c, 8, k);
    if k < 8 {
      BitOrBits(8, g.c, g.color % 256, k);
    } else {
      BitsSplit(g.color / 256, g.color / 256 / 256, high, 8, k - 8);
      ZeroBits(k - 8);
    }
  }

  lemma {:induction false} ZeroBits(k: nat)
    ensures !Bit(0, k)
  {
    if k == 0 {
    } else {
      ZeroBits(k - 1);
    }
  }

  /* One character */

  datatype Screen = Screen(cells: seq<Cell>, cursor: nat)

  ghost predicate OnScreen(s: Screen) {
    |s.cells| == CELLS && s.cursor <= CELLS
  }

  // The start of the next row.
  function NextRow(cursor: nat): (r: nat)
    ensures cursor < r <= cursor + COLUMNS && r % COLUMNS == 0
    ensures cursor < CELLS ==> r <= CELLS
  {
    cursor - cursor % COLUMNS + COLUMNS
  }

  // A character at the end of the console wraps to its beginning; a newline blanks the
  // rest of the row.
  ghost function PutGlyph(s: Screen, g: Glyph): (r: Screen)
    requires OnScreen(s)
    ensures OnScreen(r)
  {
    var cursor := if s.cursor == CELLS then 0 else s.cursor;
    if g.c == NEWLINE then
      Screen(Blank(s.cells, cursor, NextRow(cursor), CellOf(Glyph(SPACE, g.color))), NextRow(cursor))
    else Screen(s.cells[cursor := CellOf(g)], cursor + 1)
  }

  ghost function Blank(cells: seq<Cell>, lo: nat, hi: nat, c: Cell): (r: seq<Cell>)
    requires lo <= hi <= |cells|
    ensures |r| == |cells|
  {
    cells[..lo] + seq(hi - lo, _ => c) + cells[hi..]
  }

  ghost function PutAll(s: Screen, glyphs: seq<Glyph>): (r: Screen)
    requires OnScreen(s)
    ensures OnScreen(r)
  {
    if glyphs == [] then s
    else PutGlyph(PutAll(s, glyphs[..|glyphs| - 1]), glyphs[|glyphs| - 1])
  }

  lemma {:induction false} PutAllAppend(s: Screen, a: seq<Glyph>, b: seq<Glyph>)
    requires OnScreen(s)
    ensures PutAll(s, a + b) == PutAll(PutAll(s, a), b)
  {
    if b == [] {
      assert a + b == a;
    } else {
      assert (a + b)[..|a + b| - 1] == a + b[..|b| - 1];
      PutAllAppend(s, a, b[..|b| - 1]);
    }
  }

  // A newline, cell by cell: every cell from the cursor to the end of its row of 80 becomes
  // a blank in the colour, no other cell changes, and the cursor goes to the next row; from
  // the end of the console it is the first row.
  lemma NewlineInFull(s: Screen, color: Word)
    requires OnScreen(s)
    ensures var r := PutGlyph(s, Glyph(10, color));
      var from := if s.cursor == 2000 then 0 else s.cursor;
      && |r.cells| == 2000
      && from < r.cursor <= from + 80 && r.cursor % 80 == 0
      && (forall k :: from <= k < r.cursor ==> r.cells[k] == CellOf(Glyph(32, color)))
      && (color % 256 == 0 && color < 0x1_0000 ==> forall k :: from <= k < r.cursor ==> r.cells[k] == color + 32)
      && (forall k :: 0 <= k < 2000 && !(from <= k < r.cursor) ==> r.cells[k] == s.cells[k])
  {
    if color % 256 == 0 && color < 0x1_0000 {
      CellShows(Glyph(32, color));
    }
  }

  // Any other character changes the cell under the cursor alone, cell 0 from the end of the
  // console.
  lemma CharacterInFull(s: Screen, c: Byte, color: Word)
    requires OnScreen(s) && c != 10
    ensures var r := PutGlyph(s, Glyph(c, color));
      var at := if s.cursor == 2000 then 0 else s.cursor;
      && |r.cells| == 2000 && r.cursor == at + 1
      && r.cells[at] == CellOf(Glyph(c, color))
      && (color % 256 == 0 && color < 0x1_0000 ==> r.cells[at] == color + c)
      && (forall k :: 0 <= k < 2000 && k != at ==> r.cells[k] == s.cells[k])
  {
    if color % 256 == 0 && color < 0x1_0000 {
      CellShows(Glyph(c, color));
    }
  }

  // From any cursor in the closed range of the console, any stream ends in that range and
  // leaves the console its size; a newline always lands on a row boundary.
  lemma CursorSafety(s: Screen, glyphs: seq<Glyph>)
    requires OnScreen(s)
    ensures OnScreen(PutAll(s, glyphs))
    ensures glyphs != [] && glyphs[|glyphs| - 1].c == NEWLINE ==> PutAll(s, glyphs).cursor % COLUMNS == 0
    ensures glyphs != [] ==> 0 < PutAll(s, glyphs).cursor
  {
  }

  function CellsOf(glyphs: seq<Glyph>): (c: seq<Cell>)
    ensures |c| == |glyphs|
  {
    seq(|glyphs|, k requires 0 <= k < |glyphs| => CellOf(glyphs[k]))
  }

  // Text without newlines that fits before the end of the console appears cell by cell
  // from the cursor on, and changes nothing else.
  lemma {:induction false} PlainText(s: Screen, glyphs: seq<Glyph>)
    requires OnScreen(s) && s.cursor + |glyphs| <= CELLS
    requires forall k :: 0 <= k < |glyphs| ==> glyphs[k].c != NEWLINE
    ensures PutAll(s, glyphs) ==
      Screen(s.cells[..s.cursor] + CellsOf(glyphs) + s.cells[s.cursor + |glyphs|..], s.cursor + |glyphs|)
  {
    if glyphs == [] {
      assert s.cells[..s.cursor] + CellsOf([]) + s.cells[s.cursor..] == s.cells;
    } else {
      var n := |glyphs| - 1;
      PlainText(s, glyphs[..n]);
      var t := PutAll(s, glyphs[..n]);
      assert t.cells[t.cursor := CellOf(glyphs[n])] ==
        s.cells[..s.cursor] + CellsOf(glyphs) + s.cells[s.cursor + |glyphs|..];
    }
  }

  // console_putc
  method PutC(cells: array<Cell>, start: nat, c: Byte, color: Word) returns (cursor: nat)
    requires cells.Length == CELLS && start <= CELLS
    modifies cells
    ensures Screen(cells[..], cursor) == PutGlyph(Screen(old(cells[..]), start), Glyph(c, color))
  {
    cursor := start;
    if cursor >= CELLS {
      cursor := 0;
    }
    if c == NEWLINE {
      cursor := BlankRow(cells, cursor, color);
    } else {
      cells[cursor] := CellOf(Glyph(c, color));
      cursor := cursor + 1;
    }
  }

  // The loop of a newline.
  method BlankRow(cells: array<Cell>, start: nat, color: Word) returns (cursor: nat)
    requires cells.Length == CELLS && start < CELLS
    modifies cells
    ensures cursor == NextRow(start)
    ensures cells[..] == Blank(old(cells[..]), start, cursor, CellOf(Glyph(SPACE, color)))
  {
    cursor := start;
    var pos := cursor % COLUMNS;
    while pos != COLUMNS
      invariant 0 <= pos <= COLUMNS && start <= cursor && cursor + COLUMNS - pos == NextRow(start)
      invariant cells[..] == Blank(old(cells[..]), start, cursor, CellOf(Glyph(SPACE, color)))
      decreases COLUMNS - pos
    {
      cells[cursor] := CellOf(Glyph(SPACE, color));
      cursor := cursor + 1;
      pos := pos + 1;
    }
  }

  ghost function Put(s: Screen, text: seq<Byte>, color: Word): (r: Screen)
    requires OnScreen(s)
    ensures OnScreen(r)
  {
    PutAll(s, Paint(text, color))
  }

  // A loop that puts a string.
  method PutText(cells: array<Cell>, start: nat, text: seq<Byte>, color: Word) returns (cursor: nat)
    requires cells.Length == CELLS && start <= CELLS
    modifies cells
    ensures OnScreen(Screen(old(cells[..]), start))
    ensures Screen(cells[..], cursor) == Put(Screen(old(cells[..]), start), text, color)
  {
    ghost var s := Screen(cells[..], start);
    ghost var glyphs := Paint(text, color);
    cursor := start;
    var len := 0;
    while len < |text|
      invariant 0 <= len <= |text|
      invariant Screen(cells[..], cursor) == PutAll(s, glyphs[..len])
    {
      PutOneMore(s, glyphs, len);
      cursor := PutC(cells, cursor, text[len], color);
      len := len + 1;
    }
    assert glyphs[..len] == glyphs;
  }

  lemma PutOneMore(s: Screen, glyphs: seq<Glyph>, len: nat)
    requires OnScreen(s) && len < |glyphs|
    ensures PutAll(s, glyphs[..len + 1]) == PutGlyph(PutAll(s, glyphs[..len]), glyphs[len])
  {
    assert glyphs[..len + 1][..len] == glyphs[..len];
  }

  // Putting one text after another.
  lemma PutBoth(s: Screen, a: seq<Byte>, b: seq<Byte>, color: Word)
    requires OnScreen(s)
    ensures Put(Put(s, a, color), b, color) == Put(s, a + b, color)
  {
    assert Paint(a + b, color) == Paint(a, color) + Paint(b, color);
    PutAllAppend(s, Paint(a, color), Paint(b, color));
  }

  lemma PutFive(s: Screen, a: seq<Byte>, b: seq<Byte>, c: seq<Byte>, d: seq<Byte>, e: seq<Byte>, color: Word)
    requires OnScreen(s)
    ensures Put(Put(Put(Put(Put(s, a, color), b, color), c, color), d, color), e, color) ==
            Put(s, a + b + c + d + e, color)
  {
    PutBoth(s, a, b, color);
    PutBoth(s, a + b, c, color);
    PutBoth(s, a + b + c, d, color);
    PutBoth(s, a + b + c + d, e, color);
  }

  method PutRepeat(cells: array<Cell>, start: nat, c: Byte, n: int, color: Word) returns (cursor: nat)
    requires cells.Length == CELLS && start <= CELLS
    modifies cells
    ensures OnScreen(Screen(old(cells[..]), start)) && cursor <= CELLS
    ensures Screen(cells[..], cursor) == Put(Screen(old(cells[..]), start), Repeat(c, n), color)
  {
    cursor := PutText(cells, start, Repeat(c, n), color);
  }

  // The length, the sign character and the zeros of a field.
  method Measure(spec: Spec, d: Datum) returns (text: seq<Byte>, negative: seq<Byte>, zeros: int)
    ensures text == Shown(spec, d) && negative == Sign(spec, d) && zeros == ZeroCount(spec, d)
  {
    var len := if 0 <= spec.precision < |d.text| then spec.precision else |d.text|;
    text := d.text[..len];
    if d.numeric && d.negative {
      negative := [MINUS];
    } else if spec.flags.plus {
      negative := [PLUS];
    } else if spec.flags.space {
      negative := [SPACE];
    } else {
      negative := [];
    }
    if d.numeric && spec.precision > len {
      zeros := spec.precision - len;
    } else if spec.flags.zero && !spec.flags.left && d.numeric && spec.precision < 0 && len + |negative| < spec.width {
      zeros := spec.width - len - |negative|;
    } else {
      zeros := 0;
    }
  }

  // The second half of the loop body of console_vprintf: one field.
  method PutField(cells: array<Cell>, start: nat, spec: Spec, d: Datum, color: Word) returns (cursor: nat)
    requires cells.Length == CELLS && start <= CELLS
    modifies cells
    ensures OnScreen(Screen(old(cells[..]), start)) && cursor <= CELLS
    ensures Screen(cells[..], cursor) == Put(Screen(old(cells[..]), start), Field(spec, d), color)
  {
    var text, negative, zeros := Measure(spec, d);
    var width := spec.width - (|text| + zeros + |negative|);
    FieldParts(spec, d);
    cursor := PutParts(cells, start, spec.flags.left, width, negative, zeros, text, color);
  }

  // The emitting loops of a field.
  method PutParts(cells: array<Cell>, start: nat, left: bool, pads: int, sign: seq<Byte>, zeros: int,
                  text: seq<Byte>, color: Word)
    returns (cursor: nat)
    requires cells.Length == CELLS && start <= CELLS
    modifies cells
    ensures OnScreen(Screen(old(cells[..]), start)) && cursor <= CELLS
    ensures Screen(cells[..], cursor) == Put(Screen(old(cells[..]), start), Parts(left, pads, sign, zeros, text), color)
  {
    ghost var s := Screen(cells[..], start);
    var width := pads;
    cursor := start;
    if !left {
      cursor := PutRepeat(cells, cursor, SPACE, width, color);
      width := 0;
    }
    ghost var before, after := Repeat(SPACE, if left then 0 else pads), Repeat(SPACE, width);
    assert Put(s, [], color) == s;
    cursor := PutText(cells, cursor, sign, color);
    cursor := PutRepeat(cells, cursor, ZERO, zeros, color);
    cursor := PutText(cells, cursor, text, color);
    cursor := PutRepeat(cells, cursor, SPACE, width, color);
    PutFive(s, before, sign, Repeat(ZERO, zeros), text, after, color);
  }

  /* Reading the format */

  method ScanFlags(fmt: seq<Byte>, start: nat) returns (flags: Flags, i: nat)
    requires start <= |fmt|
    ensures (flags, i) == ReadFlags(fmt, start, NO_FLAGS)
  {
    flags, i := NO_FLAGS, start;
    while i < |fmt| && IsFlag(fmt[i])
      invariant i <= |fmt| && ReadFlags(fmt, start, NO_FLAGS) == ReadFlags(fmt, i, flags)
    {
      flags := WithFlag(flags, fmt[i]);
      i := i + 1;
    }
  }

  method ScanNumber(fmt: seq<Byte>, start: nat) returns (n: nat, i: nat)
    requires start <= |fmt|
    ensures (n, i) == ReadNumber(fmt, start, 0)
  {
    n, i := 0, start;
    while i < |fmt| && IsDecimal(fmt[i])
      invariant i <= |fmt| && ReadNumber(fmt, start, 0) == ReadNumber(fmt, i, n)
    {
      n := 10 * n + (fmt[i] - 48);
      i := i + 1;
    }
  }

  method ScanSpec(fmt: seq<Byte>, start: nat, args: seq<Arg>, k0: nat) returns (spec: Spec, i: nat, k: nat)
    requires start <= |fmt|
    ensures (spec, i, k) == ReadSpec(fmt, start, args, k0)
  {
    var flags;
    flags, i := ScanFlags(fmt, start);
    k := k0;
    var width: int := -1;
    if 49 <= CharAt(fmt, i) <= 57 {
      width, i := ScanNumber(fmt, i);
    } else if CharAt(fmt, i) == STAR {
      width := Signed(WordArg(args, k));
      i, k := i + 1, k + 1;
    }
    var precision: int := -1;
    if CharAt(fmt, i) == DOT {
      i := i + 1;
      if IsDecimal(CharAt(fmt, i)) {
        precision, i := ScanNumber(fmt, i);
      } else if CharAt(fmt, i) == STAR {
        precision := Signed(WordArg(args, k));
        i, k := i + 1, k + 1;
      }
      if precision < 0 {
        precision := 0;
      }
    }
    spec := Spec(flags, width, precision);
  }

  // The switch on the conversion character, with the number buffer.
  method ConvertArg(numbuf: array<Byte>, c: Byte, precision: int, args: seq<Arg>, k: nat) returns (d: Datum, taken: nat)
    requires numbuf.Length == 20
    modifies numbuf
    ensures (d, taken) == Convert(c, precision, args, k)
  {
    taken := 1;
    if c == 100 {
      var x := Signed(WordArg(args, k));
      var data := FillNumbuf(numbuf, Magnitude(x), 10, UPPER_DIGITS, precision);
      d := Datum(numbuf[data..19], true, x < 0);
    } else if c == 117 {
      var data := FillNumbuf(numbuf, WordArg(args, k), 10, UPPER_DIGITS, precision);
      d := Datum(numbuf[data..19], true, false);
    } else if c == 120 {
      var data := FillNumbuf(numbuf, WordArg(args, k), 16, LOWER_DIGITS, precision);
      d := Datum(numbuf[data..19], true, false);
    } else if c == 88 {
      var data := FillNumbuf(numbuf, WordArg(args, k), 16, UPPER_DIGITS, precision);
      d := Datum(numbuf[data..19], true, false);
    } else if c == 115 {
      d := Datum(StrArg(args, k), false, false);
    } else if c == 99 {
      numbuf[0] := WordArg(args, k) % 256;
      numbuf[1] := 0;
      assert numbuf[..1] == [WordArg(args, k) % 256];
      d := Datum(CString(numbuf[..1]), false, false);
    } else {
      d, taken := Datum([if c != 0 then c else PERCENT], false, false), 0;
    }
  }

  // One turn of the loop at a '%': the field, and where to go on.
  method PrintDirective(cells: array<Cell>, start: nat, numbuf: array<Byte>, fmt: seq<Byte>, i: nat, args: seq<Arg>,
                        k: nat, color: Word)
    returns (cursor: nat, d: Directive)
    requires cells.Length == CELLS && start <= CELLS && numbuf.Length == 20 && i <= |fmt|
    modifies cells, numbuf
    ensures d == ReadDirective(fmt, i, args, k, color)
    ensures OnScreen(Screen(old(cells[..]), start)) && cursor <= CELLS
    ensures Screen(cells[..], cursor) == Put(Screen(old(cells[..]), start), d.text, color)
  {
    ghost var s := Screen(cells[..], start);
    assert Put(s, [], color) == s;
    var spec, j, m := ScanSpec(fmt, i, args, k);
    var next := if CharAt(fmt, j) != 0 then j + 1 else j;
    if CharAt(fmt, j) == 67 {
      cursor, d := start, Directive([], next, m + 1, WordArg(args, m));
    } else {
      var datum, taken := ConvertArg(numbuf, CharAt(fmt, j), spec.precision, args, m);
      cursor := PutField(cells, start, spec, datum, color);
      d := Directive(Field(spec, datum), next, m + taken, color);
    }
  }

  // console_vprintf: the console receives the stream of the format and its arguments, from
  // any cursor in the closed range of the console, and the cursor ends in that range.
  method Vprintf(cells: array<Cell>, start: nat, color0: Word, fmt: seq<Byte>, args: seq<Arg>) returns (cursor: nat)
    requires cells.Length == CELLS && start <= CELLS
    modifies cells
    ensures OnScreen(Screen(old(cells[..]), start)) && cursor <= CELLS
    ensures Screen(cells[..], cursor) == PutAll(Screen(old(cells[..]), start), Expand(fmt, 0, args, 0, color0))
  {
    ghost var s := Screen(cells[..], start);
    ghost var done: seq<Glyph> := [];
    var numbuf := new Byte[20];
    var i, k, color := 0, 0, color0;
    cursor := start;
    while CharAt(fmt, i) != 0
      invariant i <= |fmt| && fresh(numbuf) && OnScreen(s)
      invariant Screen(cells[..], cursor) == PutAll(s, done)
      invariant done + Expand(fmt, i, args, k, color) == Expand(fmt, 0, args, 0, color0)
      decreases |fmt| - i
    {
      ghost var text: seq<Glyph>;
      if fmt[i] != PERCENT {
        text := [Glyph(fmt[i], color)];
        PutOne(PutAll(s, done), text[0]);
        cursor := PutC(cells, cursor, fmt[i], color);
        i := i + 1;
      } else {
        var d;
        cursor, d := PrintDirective(cells, cursor, numbuf, fmt, i + 1, args, k, color);
        text := Paint(d.text, color);
        i, k, color := d.next, d.k, d.color;
      }
      PutAllAppend(s, done, text);
      MoreDone(done, text, Expand(fmt, i, args, k, color));
      done := done + text;
    }
    assert done + [] == done;
  }

  lemma PutOne(s: Screen, g: Glyph)
    requires OnScreen(s)
    ensures PutAll(s, [g]) == PutGlyph(s, g)
  {
    assert [g][..0] == [];
  }

  lemma MoreDone(done: seq<Glyph>, text: seq<Glyph>, rest: seq<Glyph>)
    ensures done + text + rest == done + (text + rest)
  {
  }

  /* A plain text, from its format to the cells */

  // Printing a text without directives and newlines that fits before the end of the console,
  // in an attribute colour: its characters stand in the cells from the cursor on, nothing
  // else changes, and the cursor stands after it.
  method PrintText(cells: array<Cell>, start: nat, color: Word, text: seq<Byte>) returns (cursor: nat)
    requires cells.Length == 2000 && start + |text| <= 2000
    requires color % 256 == 0 && color < 0x1_0000
    requires forall j :: 0 <= j < |text| ==> text[j] != 0 && text[j] != 10 && text[j] != 37
    modifies cells
    ensures cursor == start + |text|
    ensures forall k :: 0 <= k < 2000 ==>
      cells[k] == if start <= k < start + |text| then color + text[k - start] else old(cells[k])
  {
    ghost var s := Screen(cells[..], start);
    ghost var glyphs := Expand(text, 0, [], 0, color);
    cursor := Vprintf(cells, start, color, text, []);
    PlainFormat(text, [], color);
    PlainText(s, glyphs);
    forall k | 0 <= k < 2000
      ensures cells[k] == if start <= k < start + |text| then color + text[k - start] else s.cells[k]
    {
      TextCell(s, glyphs, text, color, k);
      assert cells[..][k] == cells[k];
    }
  }

  lemma TextCell(s: Screen, glyphs: seq<Glyph>, text: seq<Byte>, color: Word, k: nat)
    requires OnScreen(s) && s.cursor + |text| <= 2000 && |glyphs| == |text| && k < 2000
    requires color % 256 == 0 && color < 0x1_0000
    requires forall j :: 0 <= j < |text| ==> glyphs[j].c == text[j] && glyphs[j].color == color
    ensures (s.cells[..s.cursor] + CellsOf(glyphs) + s.cells[s.cursor + |glyphs|..])[k] ==
      if s.cursor <= k < s.cursor + |text| then color + text[k - s.cursor] else s.cells[k]
  {
    if s.cursor <= k < s.cursor + |text| {
      CellShows(glyphs[k - s.cursor]);
    }
  }
}
