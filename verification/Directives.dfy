// What each directive and each plain character of a format prints, said of the bytes.
module Directives {
  import opened Machine
  import opened Numbers
  import opened Format

  /* Plain text */

  // Neither '%' nor NUL from i up to j.
  ghost predicate Plain(fmt: seq<Byte>, i: nat, j: nat) {
    i <= j <= |fmt| && forall l :: i <= l < j ==> fmt[l] != 37 && fmt[l] != 0
  }

  lemma ExpandsPlain(fmt: seq<Byte>, i: nat, args: seq<Arg>, k: nat, color: Word)
    requires i < |fmt| && fmt[i] != 37 && fmt[i] != 0
    ensures Expand(fmt, i, args, k, color) == [Glyph(fmt[i], color)] + Expand(fmt, i + 1, args, k, color)
  {
  }

  // Wherever they stand in a format, plain characters are printed as they are, in the colour
  // of the moment, and the rest of the format goes on after them.
  lemma {:induction false} PlainPrints(fmt: seq<Byte>, i: nat, j: nat, args: seq<Arg>, k: nat, color: Word)
    requires Plain(fmt, i, j)
    ensures Expand(fmt, i, args, k, color) == Paint(fmt[i..j], color) + Expand(fmt, j, args, k, color)
    decreases j - i
  {
    if i == j {
      assert fmt[i..j] == [];
    } else {
      ExpandsPlain(fmt, i, args, k, color);
      PlainPrints(fmt, i + 1, j, args, k, color);
      OneMore(fmt, i, j, color, Expand(fmt, j, args, k, color));
    }
  }

  lemma OneMore(fmt: seq<Byte>, i: nat, j: nat, color: Word, rest: seq<Glyph>)
    requires i < j <= |fmt|
    ensures [Glyph(fmt[i], color)] + (Paint(fmt[i + 1..j], color) + rest) == Paint(fmt[i..j], color) + rest
  {
    assert Paint(fmt[i..j], color) == [Glyph(fmt[i], color)] + Paint(fmt[i + 1..j], color);
  }

  // A format without directives prints itself, in its colour.
  lemma PlainFormat(a: seq<Byte>, args: seq<Arg>, color: Word)
    requires Plain(a, 0, |a|)
    ensures var g := Expand(a, 0, args, 0, color);
      |g| == |a| && forall j :: 0 <= j < |a| ==> g[j].c == a[j] && g[j].color == color
  {
    PlainPrints(a, 0, |a|, args, 0, color);
    assert a[0..|a|] == a;
  }

  /* The directives */

  // A directive written as flags, width, precision and a character.
  lemma DirectiveReads(fmt: seq<Byte>, i: nat, flags: seq<Byte>, w: Count, p: Count, c: Byte,
                       args: seq<Arg>, k: nat, color: Word)
    requires AllFlags(flags) && (w.Given? ==> 0 < w.n) && Stops(c)
    requires At(fmt, i, flags + (CountText(w) + PrecisionText(p)) + [c])
    ensures ReadDirective(fmt, i, args, k, color) ==
      Act(c, Spec(FlagsIn(flags), CountValue(w, args, k), PrecisionValue(p, args, k + Takes(w))),
          i + |flags| + |CountText(w)| + |PrecisionText(p)|, args, k + Takes(w) + Takes(p), color)
  {
    var end := i + |flags| + |CountText(w)| + |PrecisionText(p)|;
    SpecAndCharacter(fmt, i, flags + (CountText(w) + PrecisionText(p)), c);
    SpecReadsBack(fmt, i, flags, w, p, args, k);
    ReadsAct(fmt, i, args, k, color,
             Spec(FlagsIn(flags), CountValue(w, args, k), PrecisionValue(p, args, k + Takes(w))),
             end, k + Takes(w) + Takes(p), c);
  }

  lemma SpecAndCharacter(fmt: seq<Byte>, i: nat, s: seq<Byte>, c: Byte)
    requires At(fmt, i, s + [c])
    ensures At(fmt, i, s) && i + |s| < |fmt| && fmt[i + |s|] == c
  {
    AtParts(fmt, i, s, [c]);
    HeadAt(fmt, i + |s|, [c]);
  }

  lemma ReadsAct(fmt: seq<Byte>, i: nat, args: seq<Arg>, k: nat, color: Word, spec: Spec, j: nat, m: nat, c: Byte)
    requires i <= |fmt| && ReadSpec(fmt, i, args, k) == (spec, j, m) && CharAt(fmt, j) == c
    ensures ReadDirective(fmt, i, args, k, color) == Act(c, spec, j, args, m, color)
  {
  }

  // Where text stands in its width: at the right, or at the left with a '-' flag (45).
  function Justified(flags: seq<Byte>, width: int, body: seq<Byte>): (s: seq<Byte>)
    ensures |s| == if width > |body| then width else |body|
    ensures width <= |body| ==> s == body
    ensures width > |body| && 45 in flags ==> s[..|body|] == body && forall j :: |body| <= j < |s| ==> s[j] == 32
    ensures width > |body| && 45 !in flags ==>
      s[width - |body|..] == body && forall j :: 0 <= j < width - |body| ==> s[j] == 32
  {
    var pads := Repeat(32, width - |body|);
    if 45 in flags then body + pads else pads + body
  }

  // The mark of the '+' (43) and ' ' (32) flags.
  function Mark(flags: seq<Byte>): seq<Byte> {
    if 43 in flags then [43] else if 32 in flags then [32] else []
  }

  function Cut(s: seq<Byte>, precision: int): seq<Byte> {
    if 0 <= precision < |s| then s[..precision] else s
  }

  lemma TextField(flags: seq<Byte>, width: int, precision: int, text: seq<Byte>)
    ensures Field(Spec(FlagsIn(flags), width, precision), Datum(text, false, false)) ==
      Justified(flags, width, Mark(flags) + Cut(text, precision))
  {
    var spec, d := Spec(FlagsIn(flags), width, precision), Datum(text, false, false);
    assert Sign(spec, d) + Repeat(ZERO, 0) + Shown(spec, d) == Mark(flags) + Cut(text, precision);
  }

  // %s (115): the argument up to its NUL, cut to the precision.
  lemma StringActs(flags: seq<Byte>, width: int, precision: int, args: seq<Arg>, m: nat, color: Word)
    requires m < |args| && args[m].Str?
    ensures Effect(115, Spec(FlagsIn(flags), width, precision), args, m, color) ==
      (Justified(flags, width, Mark(flags) + Cut(CString(args[m].s), precision)), m + 1, color)
  {
    TextField(flags, width, precision, CString(args[m].s));
  }

  // %c (99): the low byte of the argument, nothing for a zero byte.
  lemma CharacterActs(flags: seq<Byte>, width: int, args: seq<Arg>, m: nat, color: Word)
    ensures var c := WordArg(args, m) % 256;
      Effect(99, Spec(FlagsIn(flags), width, -1), args, m, color) ==
        (Justified(flags, width, Mark(flags) + (if c == 0 then [] else [c])), m + 1, color)
  {
    var c: Byte := WordArg(args, m) % 256;
    OneCharacter(c);
    ConvertsCharacter(args, m);
    TextField(flags, width, -1, CString([c]));
  }

  lemma ConvertsCharacter(args: seq<Arg>, m: nat)
    ensures Convert(99, -1, args, m) == (Datum(CString([WordArg(args, m) % 256]), false, false), 1)
  {
  }

  lemma OneCharacter(c: Byte)
    ensures CString([c]) == if c == 0 then [] else [c]
  {
    assert [c][1..] == [];
  }

  // %C (67) prints nothing and sets the colour of what follows.
  lemma ColorActs(spec: Spec, args: seq<Arg>, m: nat, color: Word)
    ensures Effect(67, spec, args, m, color) == ([], m + 1, WordArg(args, m))
  {
  }

  // Any other character stands for itself and takes no argument; "%%" prints '%'.
  lemma OtherActs(flags: seq<Byte>, width: int, c: Byte, args: seq<Arg>, m: nat, color: Word)
    requires c !in [0, 67, 88, 99, 100, 115, 117, 120]
    ensures Effect(c, Spec(FlagsIn(flags), width, -1), args, m, color) ==
      (Justified(flags, width, Mark(flags) + [c]), m, color)
  {
    TextField(flags, width, -1, [c]);
  }

  // A format that ends inside a directive prints '%' (37) for it, and no more.
  lemma EndPrintsPercent(fmt: seq<Byte>, args: seq<Arg>, k: nat, color: Word)
    ensures Expand(fmt + [37], |fmt|, args, k, color) == [Glyph(37, color)]
  {
    var f := fmt + [37];
    var d := ReadDirective(f, |f|, args, k, color);
    assert ReadFlags(f, |f|, NO_FLAGS) == (NO_FLAGS, |f|);
    SpecOf(f, |f|, args, k, NO_FLAGS, |f|, -1, |f|, k);
    TextField([], -1, -1, [37]);
    assert d.text == [37] && d.next == |f|;
  }

  function NumberWithPrecision(flags: seq<Byte>, width: int, precision: nat, c: Byte, w: Word): seq<Byte>
    requires IsNumeric(c)
  {
    var v := Meaning(c, w);
    var digits := if precision == 0 then [] else Cut(Digits(Abs(v), BaseOf(c), TableOf(c)), precision);
    Justified(flags, width, SignText(flags, v) + Repeat(48, precision - |digits|) + digits)
  }

  // A number with a precision: its last digits are cut off when there are more of them than
  // the precision, zeros come before them when there are fewer, and a '0' flag adds none.
  lemma PrecisionActs(flags: seq<Byte>, width: int, precision: nat, c: Byte, args: seq<Arg>, m: nat, color: Word)
    requires IsNumeric(c)
    ensures Effect(c, Spec(FlagsIn(flags), width, precision), args, m, color) ==
      (NumberWithPrecision(flags, width, precision, c, WordArg(args, m)), m + 1, color)
  {
    var w := WordArg(args, m);
    var v := Meaning(c, w);
    AbsoluteIsAbs(c, w);
    var d := Datum(NumText(Abs(v), BaseOf(c), TableOf(c), precision), true, v < 0);
    ConvertsWithPrecision(c, precision, args, m, d);
    EffectOf(c, Spec(FlagsIn(flags), width, precision), args, m, color, d);
    PrecisionField(flags, width, precision, Abs(v), BaseOf(c), TableOf(c), v);
  }

  lemma AbsoluteIsAbs(c: Byte, w: Word)
    requires IsNumeric(c)
    ensures Absolute(c, w) == Abs(Meaning(c, w))
  {
  }

  lemma EffectOf(c: Byte, spec: Spec, args: seq<Arg>, m: nat, color: Word, d: Datum)
    requires c != 67 && Convert(c, spec.precision, args, m) == (d, 1)
    ensures Effect(c, spec, args, m, color) == (Field(spec, d), m + 1, color)
  {
  }

  lemma ConvertsWithPrecision(c: Byte, precision: nat, args: seq<Arg>, m: nat, d: Datum)
    requires IsNumeric(c)
    requires var w := WordArg(args, m);
      d == Datum(NumText(Absolute(c, w), BaseOf(c), TableOf(c), precision), true, Meaning(c, w) < 0)
    ensures Convert(c, precision, args, m) == (d, 1)
  {
  }

  lemma PrecisionField(flags: seq<Byte>, width: int, precision: nat, n: nat, base: nat, table: seq<Byte>, v: int)
    requires ValidBase(base) && ValidTable(table)
    ensures
      var digits := if precision == 0 then [] else Cut(Digits(n, base, table), precision);
      Field(Spec(FlagsIn(flags), width, precision), Datum(NumText(n, base, table, precision), true, v < 0)) ==
        Justified(flags, width, SignText(flags, v) + Repeat(48, precision - |digits|) + digits)
  {
    var text := NumText(n, base, table, precision);
    CutText(n, base, table, precision);
    PartsOfNumber(flags, width, precision, text, v);
  }

  lemma CutText(n: nat, base: nat, table: seq<Byte>, precision: nat)
    requires ValidBase(base) && ValidTable(table)
    ensures Cut(NumText(n, base, table, precision), precision) ==
      if precision == 0 then [] else Cut(Digits(n, base, table), precision)
  {
  }

  lemma PartsOfNumber(flags: seq<Byte>, width: int, precision: nat, text: seq<Byte>, v: int)
    ensures var digits := Cut(text, precision);
      Field(Spec(FlagsIn(flags), width, precision), Datum(text, true, v < 0)) ==
        Justified(flags, width, SignText(flags, v) + Repeat(48, precision - |digits|) + digits)
  {
    var digits := Cut(text, precision);
    var spec, d := Spec(FlagsIn(flags), width, precision), Datum(text, true, v < 0);
    SignLength(spec, flags, d, v);
    ZerosOfNumber(spec, d);
    JustifiedField(spec, d, flags, SignText(flags, v), precision - |digits|, digits);
  }

  lemma JustifiedField(spec: Spec, d: Datum, flags: seq<Byte>, sign: seq<Byte>, zeros: int, text: seq<Byte>)
    requires spec.flags == FlagsIn(flags) && 0 <= zeros
    requires sign == Sign(spec, d) && zeros == ZeroCount(spec, d) && text == Shown(spec, d)
    ensures Field(spec, d) == Justified(flags, spec.width, sign + Repeat(48, zeros) + text)
  {
    FieldIs(spec, d, sign, zeros, text);
    JustifiedParts(spec.flags.left, spec.width - (|text| + zeros + |sign|), flags, spec.width, sign, zeros, text);
  }

  lemma FieldIs(spec: Spec, d: Datum, sign: seq<Byte>, zeros: int, text: seq<Byte>)
    requires sign == Sign(spec, d) && zeros == ZeroCount(spec, d) && text == Shown(spec, d)
    ensures Field(spec, d) == Parts(spec.flags.left, spec.width - (|text| + zeros + |sign|), sign, zeros, text)
  {
    FieldParts(spec, d);
  }

  lemma ZerosOfNumber(spec: Spec, d: Datum)
    requires d.numeric && 0 <= spec.precision
    ensures Shown(spec, d) == Cut(d.text, spec.precision)
    ensures ZeroCount(spec, d) == spec.precision - |Cut(d.text, spec.precision)|
  {
  }

  lemma JustifiedParts(left: bool, pads: int, flags: seq<Byte>, width: int,
                       sign: seq<Byte>, zeros: int, text: seq<Byte>)
    requires 0 <= zeros && left == (45 in flags) && pads == width - (|text| + zeros + |sign|)
    ensures Parts(left, pads, sign, zeros, text) == Justified(flags, width, sign + Repeat(48, zeros) + text)
  {
    var blanks := Repeat(32, pads);
    Regroup4(if left then [] else blanks, sign, Repeat(48, zeros), text, if left then blanks else []);
    assert Repeat(32, 0) == [];
  }

  lemma Regroup4(a: seq<Byte>, b: seq<Byte>, c: seq<Byte>, d: seq<Byte>, e: seq<Byte>)
    ensures a + b + c + d + e == a + (b + c + d) + e
    ensures a == [] ==> a + b + c + d + e == b + c + d + e
    ensures e == [] ==> a + b + c + d + e == a + (b + c + d)
  {
  }

  /* Some formats in full */

  lemma DigitsOf42()
    ensures Digits(42, 10, UPPER_DIGITS) == [52, 50] && Digits(5, 10, UPPER_DIGITS) == [53]
    ensures Digits(0xbeef, 16, LOWER_DIGITS) == [98, 101, 101, 102]
  {
    assert Digits(4, 10, UPPER_DIGITS) == [52];
    assert Digits(0xb, 16, LOWER_DIGITS) == [98];
    assert Digits(0xbe, 16, LOWER_DIGITS) == [98, 101];
    assert Digits(0xbee, 16, LOWER_DIGITS) == [98, 101, 101];
  }

  lemma FiveWide(flag: Byte)
    ensures [37] + ([flag] + CountText(Given(5)) + [100]) == [37, flag, 53, 100]
  {
    assert Digits(5, 10, UPPER_DIGITS) == [53];
  }

  lemma FieldsOf42()
    ensures NumberField([48], 5, [], [52, 50]) == [48, 48, 48, 52, 50]
    ensures NumberField([45], 5, [], [52, 50]) == [52, 50, 32, 32, 32]
  {
    assert Repeat(48, 3) == [48, 48, 48];
    assert Repeat(32, 3) == [32, 32, 32];
  }

  lemma FiveWideOf42(flag: Byte, color: Word)
    requires flag == 45 || flag == 48
    ensures Expand([37, flag, 53, 100], 0, [Num(42)], 0, color) ==
      Paint(NumberField([flag], 5, [], Digits(42, 10, UPPER_DIGITS)), color)
  {
    PrintsNumber([flag], Given(5), 100, [Num(42)], color);
    FiveWide(flag);
  }

  // "%05d" and "%-5d" of 42, "%x" of 0xbeef: "00042", "42   " and "beef".
  lemma ZerosInFull(color: Word)
    ensures Expand([37, 48, 53, 100], 0, [Num(42)], 0, color) == Paint([48, 48, 48, 52, 50], color)
  {
    FiveWideOf42(48, color);
    DigitsOf42();
    FieldsOf42();
  }

  lemma LeftInFull(color: Word)
    ensures Expand([37, 45, 53, 100], 0, [Num(42)], 0, color) == Paint([52, 50, 32, 32, 32], color)
  {
    FiveWideOf42(45, color);
    DigitsOf42();
    FieldsOf42();
  }

  lemma HexInFull(color: Word)
    ensures Expand([37, 120], 0, [Num(0xbeef)], 0, color) == Paint([98, 101, 101, 102], color)
  {
    DigitsOf42();
    PrintsNumber([], Absent, 120, [Num(0xbeef)], color);
    assert [37] + ([] + CountText(Absent) + [120]) == [37, 120];
    assert NumberField([], -1, [], [98, 101, 101, 102]) == [98, 101, 101, 102];
  }

  // The digit characters: '0' to '9', then letters of the case asked for.
  lemma DigitCharacters(d: nat)
    requires d < 16
    ensures UPPER_DIGITS[d] == (if d < 10 then 48 + d else 55 + d)
    ensures LOWER_DIGITS[d] == (if d < 10 then 48 + d else 87 + d)
  {
  }
}
