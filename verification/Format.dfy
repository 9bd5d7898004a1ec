// What console_vprintf prints, as a stream of coloured characters: the reading of a
// conversion specification and the layout of one field.
module Format {
  import opened Machine
  import opened Numbers

  const SPACE: Byte := 32
  const PLUS: Byte := 43
  const MINUS: Byte := 45
  const PERCENT: Byte := 37
  const STAR: Byte := 42
  const DOT: Byte := 46

  // A variadic argument. One that is missing, or read as the other kind, is undefined in C;
  // here it reads as 0 or as the empty string.
  datatype Arg = Num(w: Word) | Str(s: seq<Byte>)

  function WordArg(args: seq<Arg>, k: nat): Word {
    if k < |args| && args[k].Num? then args[k].w else 0
  }

  function StrArg(args: seq<Arg>, k: nat): seq<Byte> {
    if k < |args| && args[k].Str? then CString(args[k].s) else []
  }

  // The characters before the first NUL.
  function CString(s: seq<Byte>): (r: seq<Byte>)
    ensures r <= s && (forall j :: 0 <= j < |r| ==> r[j] != 0) && (|r| == |s| || s[|r|] == 0)
  {
    if s == [] || s[0] == 0 then [] else [s[0]] + CString(s[1..])
  }

  function Signed(w: Word): int {
    if w < 0x8000_0000 then w else w - WORD
  }

  // `x > 0 ? x : -x` as the unsigned argument of fill_numbuf; -INT_MIN wraps to itself.
  function Magnitude(x: int): (m: Word)
    requires -0x8000_0000 <= x < 0x8000_0000
    ensures m == if x < 0 then -x else x
  {
    (if x > 0 then x else -x) % WORD
  }

  datatype Flags = Flags(alt: bool, zero: bool, left: bool, space: bool, plus: bool)
  const NO_FLAGS := Flags(false, false, false, false, false)

  datatype Spec = Spec(flags: Flags, width: int, precision: int)

  function CharAt(fmt: seq<Byte>, i: nat): Byte {
    if i < |fmt| then fmt[i] else 0
  }

  predicate IsFlag(c: Byte) {
    c == 35 || c == ZERO || c == MINUS || c == SPACE || c == PLUS
  }

  function WithFlag(f: Flags, c: Byte): Flags
    requires IsFlag(c)
  {
    if c == 35 then f.(alt := true)
    else if c == ZERO then f.(zero := true)
    else if c == MINUS then f.(left := true)
    else if c == SPACE then f.(space := true)
    else f.(plus := true)
  }

  function ReadFlags(fmt: seq<Byte>, i: nat, f: Flags): (r: (Flags, nat))
    requires i <= |fmt|
    ensures i <= r.1 <= |fmt| && !IsFlag(CharAt(fmt, r.1))
    decreases |fmt| - i
  {
    if i < |fmt| && IsFlag(fmt[i]) then ReadFlags(fmt, i + 1, WithFlag(f, fmt[i])) else (f, i)
  }

  predicate IsDecimal(c: Byte) {
    48 <= c <= 57
  }

  function ReadNumber(fmt: seq<Byte>, i: nat, n: nat): (r: (nat, nat))
    requires i <= |fmt|
    ensures i <= r.1 <= |fmt| && !IsDecimal(CharAt(fmt, r.1))
    decreases |fmt| - i
  {
    if i < |fmt| && IsDecimal(fmt[i]) then ReadNumber(fmt, i + 1, 10 * n + (fmt[i] - 48)) else (n, i)
  }

  // Value, next position, next argument.
  function ReadWidth(fmt: seq<Byte>, i: nat, args: seq<Arg>, k: nat): (r: (int, nat, nat))
    requires i <= |fmt|
    ensures i <= r.1 <= |fmt|
  {
    if 49 <= CharAt(fmt, i) <= 57 then var (n, j) := ReadNumber(fmt, i, 0); (n, j, k)
    else if CharAt(fmt, i) == STAR then (Signed(WordArg(args, k)), i + 1, k + 1)
    else (-1, i, k)
  }

  function ReadPrecision(fmt: seq<Byte>, i: nat, args: seq<Arg>, k: nat): (r: (int, nat, nat))
    requires i <= |fmt|
    ensures i <= r.1 <= |fmt| && -1 <= r.0
  {
    if CharAt(fmt, i) != DOT then (-1, i, k)
    else if IsDecimal(CharAt(fmt, i + 1)) then var (n, j) := ReadNumber(fmt, i + 1, 0); (n, j, k)
    else if CharAt(fmt, i + 1) == STAR then
      var p := Signed(WordArg(args, k));
      (if p < 0 then 0 else p, i + 2, k + 1)
    else (0, i + 1, k)
  }

  /* One field */

  function Repeat(c: Byte, n: int): (s: seq<Byte>)
    ensures |s| == (if n < 0 then 0 else n) && forall j :: 0 <= j < |s| ==> s[j] == c
  {
    Fill(c, if n < 0 then 0 else n)
  }

  // The converted datum, and what of it is printed.
  datatype Datum = Datum(text: seq<Byte>, numeric: bool, negative: bool)

  function Shown(spec: Spec, d: Datum): (s: seq<Byte>)
    ensures s <= d.text
  {
    if 0 <= spec.precision < |d.text| then d.text[..spec.precision] else d.text
  }

  function Sign(spec: Spec, d: Datum): (s: seq<Byte>)
    ensures |s| <= 1
  {
    if d.numeric && d.negative then [MINUS]
    else if spec.flags.plus then [PLUS]
    else if spec.flags.space then [SPACE]
    else []
  }

  function ZeroCount(spec: Spec, d: Datum): int {
    var len, sign := |Shown(spec, d)|, |Sign(spec, d)|;
    if d.numeric && spec.precision > len then spec.precision - len
    else if spec.flags.zero && !spec.flags.left && d.numeric && spec.precision < 0 && len + sign < spec.width
    then spec.width - len - sign
    else 0
  }

  // Pads, sign, zeros, digits; the pads last when left-justified.
  function Field(spec: Spec, d: Datum): seq<Byte> {
    var body := Sign(spec, d) + Repeat(ZERO, ZeroCount(spec, d)) + Shown(spec, d);
    var pads := Repeat(SPACE, spec.width - |body|);
    if spec.flags.left then body + pads else pads + body
  }

  /* The stream */

  datatype Glyph = Glyph(c: Byte, color: Word)

  function Paint(s: seq<Byte>, color: Word): (g: seq<Glyph>)
    ensures |g| == |s|
  {
    seq(|s|, j requires 0 <= j < |s| => Glyph(s[j], color))
  }

  // What a conversion character makes of the next argument: the datum, and how many
  // arguments it takes.
  function Convert(c: Byte, precision: int, args: seq<Arg>, k: nat): (r: (Datum, nat)) {
    if c == 100 then          // 'd'
      var x := Signed(WordArg(args, k));
      (Datum(NumText(Magnitude(x), 10, UPPER_DIGITS, precision), true, x < 0), 1)
    else if c == 117 then     // 'u'
      (Datum(NumText(WordArg(args, k), 10, UPPER_DIGITS, precision), true, false), 1)
    else if c == 120 then     // 'x'
      (Datum(NumText(WordArg(args, k), 16, LOWER_DIGITS, precision), true, false), 1)
    else if c == 88 then      // 'X'
      (Datum(NumText(WordArg(args, k), 16, UPPER_DIGITS, precision), true, false), 1)
    else if c == 115 then     // 's'
      (Datum(StrArg(args, k), false, false), 1)
    else if c == 99 then      // 'c'
      (Datum(CString([WordArg(args, k) % 256]), false, false), 1)
    else                      // any other character, or '%' at the end of the format
      (Datum([if c != 0 then c else PERCENT], false, false), 0)
  }

  // One directive, from the character after its '%': what it prints, where the format and
  // the arguments go on, and the colour from there.
  datatype Directive = Directive(text: seq<Byte>, next: nat, k: nat, color: Word)

  function ReadSpec(fmt: seq<Byte>, i: nat, args: seq<Arg>, k: nat): (r: (Spec, nat, nat))
    requires i <= |fmt|
    ensures i <= r.1 <= |fmt|
  {
    var (flags, i1) := ReadFlags(fmt, i, NO_FLAGS);
    var (width, i2, k2) := ReadWidth(fmt, i1, args, k);
    var (precision, i3, k3) := ReadPrecision(fmt, i2, args, k2);
    (Spec(flags, width, precision), i3, k3)
  }

  // What the conversion character c prints after its specification, where the arguments go
  // on, and the colour from there.
  function Effect(c: Byte, spec: Spec, args: seq<Arg>, m: nat, color: Word): (e: (seq<Byte>, nat, Word)) {
    if c == 67 then  // 'C'
      ([], m + 1, WordArg(args, m))
    else
      var (datum, taken) := Convert(c, spec.precision, args, m);
      (Field(spec, datum), m + taken, color)
  }

  function Act(c: Byte, spec: Spec, j: nat, args: seq<Arg>, m: nat, color: Word): (d: Directive)
    ensures d.next == if c != 0 then j + 1 else j
  {
    var e := Effect(c, spec, args, m, color);
    Directive(e.0, if c != 0 then j + 1 else j, e.1, e.2)
  }

  function ReadDirective(fmt: seq<Byte>, i: nat, args: seq<Arg>, k: nat, color: Word): (d: Directive)
    requires i <= |fmt|
    ensures i <= d.next <= |fmt|
  {
    var (spec, j, m) := ReadSpec(fmt, i, args, k);
    Act(CharAt(fmt, j), spec, j, args, m, color)
  }

  // The whole format, which ends at its first NUL.
  function Expand(fmt: seq<Byte>, i: nat, args: seq<Arg>, k: nat, color: Word): seq<Glyph>
    requires i <= |fmt|
    decreases |fmt| - i
  {
    if CharAt(fmt, i) == 0 then []
    else if fmt[i] != PERCENT then [Glyph(fmt[i], color)] + Expand(fmt, i + 1, args, k, color)
    else
      var d := ReadDirective(fmt, i + 1, args, k, color);
      Paint(d.text, color) + Expand(fmt, d.next, args, d.k, d.color)
  }

  /* Reading a number back from its field */

  function SkipSpaces(s: seq<Byte>): seq<Byte> {
    if s != [] && s[0] == SPACE then SkipSpaces(s[1..]) else s
  }

  function LeadingDigits(s: seq<Byte>, base: nat): seq<Byte> {
    if s != [] && IsDigit(s[0], base) then [s[0]] + LeadingDigits(s[1..], base) else []
  }

  // Blanks, an optional sign, digits; whatever follows is ignored.
  function Parse(s: seq<Byte>, base: nat): int {
    ParseSigned(SkipSpaces(s), base)
  }

  function ParseSigned(t: seq<Byte>, base: nat): int {
    if t != [] && t[0] == MINUS then -ValueOf(LeadingDigits(t[1..], base), base)
    else if t != [] && t[0] == PLUS then ValueOf(LeadingDigits(t[1..], base), base)
    else ValueOf(LeadingDigits(t, base), base)
  }

  lemma {:induction false} SkipPads(n: int, s: seq<Byte>)
    requires s == [] || s[0] != SPACE
    ensures SkipSpaces(Repeat(SPACE, n) + s) == s
  {
    var t := Repeat(SPACE, n) + s;
    if n > 0 {
      assert t[1..] == Repeat(SPACE, n - 1) + s;
      SkipPads(n - 1, s);
    } else {
      assert t == s;
    }
  }

  lemma {:induction false} DigitsLead(s: seq<Byte>, rest: seq<Byte>, base: nat)
    requires forall k :: 0 <= k < |s| ==> IsDigit(s[k], base)
    requires rest == [] || !IsDigit(rest[0], base)
    ensures LeadingDigits(s + rest, base) == s
  {
    if s == [] {
      assert s + rest == rest;
    } else {
      assert (s + rest)[1..] == s[1..] + rest;
      DigitsLead(s[1..], rest, base);
    }
  }

  lemma {:induction false} LeadingZeros(n: int, s: seq<Byte>, base: nat)
    ensures ValueOf(Repeat(ZERO, n) + s, base) == ValueOf(s, base)
  {
    var t := Repeat(ZERO, n) + s;
    if s != [] {
      assert t[..|t| - 1] == Repeat(ZERO, n) + s[..|s| - 1];
      LeadingZeros(n, s[..|s| - 1], base);
    } else if n > 0 {
      assert t[..|t| - 1] == Repeat(ZERO, n - 1) + s;
      LeadingZeros(n - 1, s, base);
    } else {
      assert t == s;
    }
  }

  function WithSign(negative: bool, v: int): int {
    if negative then -v else v
  }

  // The part of a field from its zeros on.
  function Tail(zeros: int, digits: seq<Byte>, m: int): seq<Byte> {
    Repeat(ZERO, zeros) + digits + Repeat(SPACE, m)
  }

  ghost predicate AllDigits(digits: seq<Byte>, base: nat) {
    ValidBase(base) && digits != [] && forall k :: 0 <= k < |digits| ==> IsDigit(digits[k], base)
  }

  lemma TailReads(zeros: int, digits: seq<Byte>, m: int, base: nat)
    requires AllDigits(digits, base)
    ensures var t := Tail(zeros, digits, m);
      t != [] && IsDigit(t[0], base) && ValueOf(LeadingDigits(t, base), base) == ValueOf(digits, base)
  {
    var number := Repeat(ZERO, zeros) + digits;
    assert Tail(zeros, digits, m) == number + Repeat(SPACE, m);
    DigitsLead(number, Repeat(SPACE, m), base);
    LeadingZeros(zeros, digits, base);
  }

  lemma SignReads(sign: seq<Byte>, t: seq<Byte>, base: nat)
    requires sign == [] || sign == [PLUS] || sign == [MINUS]
    requires ValidBase(base) && t != [] && IsDigit(t[0], base)
    ensures ParseSigned(sign + t, base) == WithSign(sign == [MINUS], ValueOf(LeadingDigits(t, base), base))
    ensures (sign + t)[0] != SPACE
  {
    if sign == [] {
      UnsignedReads(t, base);
      assert sign + t == t;
    } else if sign == [PLUS] {
      CharsApart(PLUS, sign, t);
    } else {
      CharsApart(MINUS, sign, t);
    }
  }

  lemma UnsignedReads(t: seq<Byte>, base: nat)
    requires ValidBase(base) && t != [] && IsDigit(t[0], base)
    ensures ParseSigned(t, base) == ValueOf(LeadingDigits(t, base), base) && t[0] != SPACE
  {
  }

  lemma CharsApart(c: Byte, sign: seq<Byte>, t: seq<Byte>)
    requires sign == [c]
    ensures (sign + t)[0] == c && (sign + t)[1..] == t
  {
  }

  lemma MorePads(n: int, t: seq<Byte>)
    ensures Repeat(SPACE, n) + ([SPACE] + t) == Repeat(SPACE, if n < 0 then 1 else n + 1) + t
  {
  }

  // A field made of pads, a sign, zeros and digits, pads again, reads back as its number.
  lemma FieldReadsBack(n: int, sign: seq<Byte>, zeros: int, digits: seq<Byte>, m: int, base: nat)
    requires AllDigits(digits, base)
    requires sign == [] || sign == [PLUS] || sign == [MINUS] || sign == [SPACE]
    ensures Parse(Repeat(SPACE, n) + (sign + Tail(zeros, digits, m)), base)
      == WithSign(sign == [MINUS], ValueOf(digits, base))
  {
    var t := Tail(zeros, digits, m);
    TailReads(zeros, digits, m, base);
    if sign == [SPACE] {
      MorePads(n, t);
      SkipPads(if n < 0 then 1 else n + 1, t);
      SignReads([], t, base);
      assert [] + t == t;
    } else {
      SignReads(sign, t, base);
      SkipPads(n, sign + t);
    }
  }

  // The length of a field: its width, or the sign with as many digits as there are or as
  // the precision asks for, whichever is more.
  lemma FieldLength(spec: Spec, d: Datum)
    ensures
      var shown := |Shown(spec, d)|;
      var natural := |Sign(spec, d)| + (if d.numeric && spec.precision > shown then spec.precision else shown);
      |Field(spec, d)| == if spec.width > natural then spec.width else natural
  {
  }

  // The order of the emitting loops.
  function Parts(left: bool, pads: int, sign: seq<Byte>, zeros: int, text: seq<Byte>): seq<Byte> {
    var before, after := if left then 0 else pads, if left then pads else 0;
    Repeat(SPACE, before) + sign + Repeat(ZERO, zeros) + text + Repeat(SPACE, after)
  }

  function PadCount(spec: Spec, d: Datum): int {
    spec.width - (|Shown(spec, d)| + ZeroCount(spec, d) + |Sign(spec, d)|)
  }

  lemma FieldParts(spec: Spec, d: Datum)
    ensures Field(spec, d) ==
      Parts(spec.flags.left, PadCount(spec, d), Sign(spec, d), ZeroCount(spec, d), Shown(spec, d))
  {
  }

  lemma PartsTail(left: bool, pads: int, sign: seq<Byte>, zeros: int, text: seq<Byte>)
    ensures
      var before, after := if left then 0 else pads, if left then pads else 0;
      Parts(left, pads, sign, zeros, text) == Repeat(SPACE, before) + (sign + Tail(zeros, text, after))
  {
  }

  predicate IsNumeric(c: Byte) {
    c == 100 || c == 117 || c == 120 || c == 88
  }

  function BaseOf(c: Byte): nat {
    if c == 100 || c == 117 then 10 else 16
  }

  function TableOf(c: Byte): seq<Byte> {
    if c == 120 then LOWER_DIGITS else UPPER_DIGITS
  }

  // The number whose digits are printed.
  function Absolute(c: Byte, w: Word): Word {
    if c == 100 then Magnitude(Signed(w)) else w
  }

  // What %d, %u, %x and %X mean by a word.
  function Meaning(c: Byte, w: Word): int {
    if c == 100 then Signed(w) else w
  }

  // What the conversion of a number hands to the layout.
  lemma ConvertsNumber(c: Byte, args: seq<Arg>, k: nat)
    requires IsNumeric(c)
    ensures var w := WordArg(args, k);
      Convert(c, -1, args, k) ==
        (Datum(Digits(Absolute(c, w), BaseOf(c), TableOf(c)), true, c == 100 && Signed(w) < 0), 1)
  {
  }

  lemma SignOfNumber(spec: Spec, d: Datum)
    requires d.numeric
    ensures var sign := Sign(spec, d);
      && (sign == [] || sign == [PLUS] || sign == [MINUS] || sign == [SPACE])
      && (sign == [MINUS] <==> d.negative)
  {
  }

  lemma NumberReadsBack(spec: Spec, d: Datum, magnitude: nat, base: nat, table: seq<Byte>)
    requires spec.precision < 0 && d.numeric && ValidBase(base) && ValidTable(table)
    requires d.text == Digits(magnitude, base, table)
    ensures Parse(Field(spec, d), base) == WithSign(d.negative, magnitude)
  {
    var sign, zeros, pads := Sign(spec, d), ZeroCount(spec, d), PadCount(spec, d);
    var before, after := if spec.flags.left then 0 else pads, if spec.flags.left then pads else 0;
    assert AllDigits(d.text, base) && ValueOf(d.text, base) == magnitude by {
      DigitsRoundTrip(magnitude, base, table);
    }
    SignOfNumber(spec, d);
    FieldReadsBack(before, sign, zeros, d.text, after, base);
    FieldParts(spec, d);
    PartsTail(spec.flags.left, pads, sign, zeros, d.text);
  }

  // With no precision, and any flags and width, the field of a number parses back to the
  // argument and is as long as it has to be.
  lemma NumberRoundTrip(c: Byte, flags: Flags, width: int, args: seq<Arg>, k: nat)
    requires IsNumeric(c)
    ensures
      var (datum, taken) := Convert(c, -1, args, k);
      var spec := Spec(flags, width, -1);
      var natural := |datum.text| + |Sign(spec, datum)|;
      && Parse(Field(spec, datum), BaseOf(c)) == Meaning(c, WordArg(args, k))
      && |Field(spec, datum)| == (if width > natural then width else natural)
      && |datum.text| <= 10
  {
    var w := WordArg(args, k);
    var datum, spec := Convert(c, -1, args, k).0, Spec(flags, width, -1);
    ConvertsNumber(c, args, k);
    NumberReadsBack(spec, datum, Absolute(c, w), BaseOf(c), TableOf(c));
    FieldLength(spec, datum);
    WordDigitsFit(Absolute(c, w), BaseOf(c), TableOf(c));
  }

  /* Reading a specification as it is written */

  // fmt has s at i.
  ghost predicate At(fmt: seq<Byte>, i: nat, s: seq<Byte>) {
    i + |s| <= |fmt| && forall j :: 0 <= j < |s| ==> fmt[i + j] == s[j]
  }

  lemma HeadAt(fmt: seq<Byte>, i: nat, s: seq<Byte>)
    requires At(fmt, i, s) && s != []
    ensures i < |fmt| && CharAt(fmt, i) == s[0]
  {
    assert fmt[i + 0] == s[0];
  }

  lemma AtParts(fmt: seq<Byte>, i: nat, a: seq<Byte>, b: seq<Byte>)
    requires At(fmt, i, a + b)
    ensures At(fmt, i, a) && At(fmt, i + |a|, b)
  {
    forall j | 0 <= j < |a| ensures fmt[i + j] == a[j] {
      assert fmt[i + j] == (a + b)[j];
    }
    forall j | 0 <= j < |b| ensures fmt[i + |a| + j] == b[j] {
      assert fmt[i + (|a| + j)] == (a + b)[|a| + j];
    }
  }

  lemma AtThree(fmt: seq<Byte>, i: nat, a: seq<Byte>, b: seq<Byte>, c: seq<Byte>)
    requires At(fmt, i, a + (b + c))
    ensures At(fmt, i, a) && At(fmt, i + |a|, b) && At(fmt, i + |a| + |b|, c)
  {
    AtParts(fmt, i, a, b + c);
    AtParts(fmt, i + |a|, b, c);
  }

  // The flags that occur in s.
  function FlagsIn(s: seq<Byte>): Flags {
    Flags(35 in s, ZERO in s, MINUS in s, SPACE in s, PLUS in s)
  }

  function Both(f: Flags, g: Flags): Flags {
    Flags(f.alt || g.alt, f.zero || g.zero, f.left || g.left, f.space || g.space, f.plus || g.plus)
  }

  ghost predicate AllFlags(s: seq<Byte>) {
    forall j :: 0 <= j < |s| ==> IsFlag(s[j])
  }

  lemma {:induction false} FlagsRead(fmt: seq<Byte>, i: nat, s: seq<Byte>, f: Flags)
    requires At(fmt, i, s) && AllFlags(s) && !IsFlag(CharAt(fmt, i + |s|))
    ensures ReadFlags(fmt, i, f) == (Both(f, FlagsIn(s)), i + |s|)
    decreases |s|
  {
    if s == [] {
    } else {
      assert s == [s[0]] + s[1..];
      AtParts(fmt, i, [s[0]], s[1..]);
      FlagsRead(fmt, i + 1, s[1..], WithFlag(f, s[0]));
      assert Both(WithFlag(f, s[0]), FlagsIn(s[1..])) == Both(f, FlagsIn(s));
    }
  }

  // s up to j is read already and amounts to n.
  lemma {:induction false} NumberRead(fmt: seq<Byte>, i: nat, s: seq<Byte>, j: nat, n: nat)
    requires At(fmt, i, s) && AllDigits(s, 10) && !IsDecimal(CharAt(fmt, i + |s|))
    requires j <= |s| && n == ValueOf(s[..j], 10)
    ensures ReadNumber(fmt, i + j, n) == (ValueOf(s, 10), i + |s|)
    decreases |s| - j
  {
    if j < |s| {
      assert s[..j + 1][..j] == s[..j];
      assert IsDigit(s[j], 10);
      NumberRead(fmt, i, s, j + 1, 10 * n + (s[j] - 48));
    } else {
      assert s[..j] == s;
    }
  }

  // A width or a precision: not written, written in decimal, or a star.
  datatype Count = Absent | Given(n: nat) | FromArg

  function CountText(w: Count): seq<Byte> {
    match w
    case Absent => []
    case Given(n) => Digits(n, 10, UPPER_DIGITS)
    case FromArg => [STAR]
  }

  function Takes(w: Count): nat {
    if w.FromArg? then 1 else 0
  }

  function CountValue(w: Count, args: seq<Arg>, k: nat): int {
    match w
    case Absent => -1
    case Given(n) => n
    case FromArg => Signed(WordArg(args, k))
  }

  function PrecisionText(p: Count): seq<Byte> {
    if p.Absent? then [] else [DOT] + CountText(p)
  }

  // A negative precision from an argument counts as zero.
  function PrecisionValue(p: Count, args: seq<Arg>, k: nat): int {
    var v := CountValue(p, args, k);
    if !p.Absent? && v < 0 then 0 else v
  }

  // Neither a flag nor a part of a width or precision.
  predicate Stops(c: Byte) {
    !IsFlag(c) && !IsDecimal(c) && c != STAR && c != DOT
  }

  lemma GivenDigits(n: nat)
    ensures var s := Digits(n, 10, UPPER_DIGITS);
      AllDigits(s, 10) && ValueOf(s, 10) == n && IsDecimal(s[0]) && (s[0] == ZERO ==> n == 0)
  {
    DigitsRoundTrip(n, 10, UPPER_DIGITS);
  }

  // Zero cannot be written as a width: its digit is a flag.
  lemma WidthRead(fmt: seq<Byte>, i: nat, w: Count, args: seq<Arg>, k: nat)
    requires At(fmt, i, CountText(w)) && (w.Given? ==> 0 < w.n)
    requires var c := CharAt(fmt, i + |CountText(w)|); Stops(c) || c == DOT
    ensures ReadWidth(fmt, i, args, k) == (CountValue(w, args, k), i + |CountText(w)|, k + Takes(w))
    ensures !IsFlag(CharAt(fmt, i))
  {
    match w
    case Absent =>
    case Given(n) => GivenWidthRead(fmt, i, n, args, k);
    case FromArg => StarWidthRead(fmt, i, args, k);
  }

  lemma GivenWidthRead(fmt: seq<Byte>, i: nat, n: nat, args: seq<Arg>, k: nat)
    requires At(fmt, i, CountText(Given(n))) && 0 < n
    requires !IsDecimal(CharAt(fmt, i + |CountText(Given(n))|))
    ensures ReadWidth(fmt, i, args, k) == (n as int, i + |CountText(Given(n))|, k)
    ensures !IsFlag(CharAt(fmt, i))
  {
    GivenRead(fmt, i, n);
  }

  lemma StarWidthRead(fmt: seq<Byte>, i: nat, args: seq<Arg>, k: nat)
    requires At(fmt, i, [STAR])
    ensures ReadWidth(fmt, i, args, k) == (Signed(WordArg(args, k)), i + 1, k + 1)
    ensures !IsFlag(CharAt(fmt, i))
  {
    HeadAt(fmt, i, [STAR]);
  }

  lemma PrecisionRead(fmt: seq<Byte>, i: nat, p: Count, args: seq<Arg>, k: nat)
    requires At(fmt, i, PrecisionText(p)) && Stops(CharAt(fmt, i + |PrecisionText(p)|))
    ensures ReadPrecision(fmt, i, args, k) == (PrecisionValue(p, args, k), i + |PrecisionText(p)|, k + Takes(p))
    ensures var c := CharAt(fmt, i); Stops(c) || c == DOT
  {
    if !p.Absent? {
      AtParts(fmt, i, [DOT], CountText(p));
      HeadAt(fmt, i, [DOT]);
      if p.Given? {
        GivenRead(fmt, i + 1, p.n);
      } else {
        HeadAt(fmt, i + 1, [STAR]);
      }
    }
  }

  lemma GivenRead(fmt: seq<Byte>, i: nat, n: nat)
    requires At(fmt, i, CountText(Given(n))) && !IsDecimal(CharAt(fmt, i + |CountText(Given(n))|))
    ensures IsDecimal(CharAt(fmt, i)) && (0 < n ==> CharAt(fmt, i) != ZERO)
    ensures ReadNumber(fmt, i, 0) == (n, i + |CountText(Given(n))|)
  {
    var s := CountText(Given(n));
    GivenDigits(n);
    HeadAt(fmt, i, s);
    assert s[..0] == [];
    NumberRead(fmt, i, s, 0, 0);
  }

  // Flags in any order and number, then a width, then a precision, are read as written.
  lemma SpecReadsBack(fmt: seq<Byte>, i: nat, flags: seq<Byte>, w: Count, p: Count, args: seq<Arg>, k: nat)
    requires AllFlags(flags) && (w.Given? ==> 0 < w.n)
    requires At(fmt, i, flags + (CountText(w) + PrecisionText(p)))
    requires Stops(CharAt(fmt, i + |flags| + |CountText(w)| + |PrecisionText(p)|))
    ensures ReadSpec(fmt, i, args, k) ==
      (Spec(FlagsIn(flags), CountValue(w, args, k), PrecisionValue(p, args, k + Takes(w))),
       i + |flags| + |CountText(w)| + |PrecisionText(p)|,
       k + Takes(w) + Takes(p))
  {
    var i1 := i + |flags|;
    AtThree(fmt, i, flags, CountText(w), PrecisionText(p));
    SpecReads(fmt, i, flags, w, p, args, k, i1, i1 + |CountText(w)|);
  }

  lemma SpecReads(fmt: seq<Byte>, i: nat, flags: seq<Byte>, w: Count, p: Count, args: seq<Arg>, k: nat,
                  i1: nat, i2: nat)
    requires AllFlags(flags) && (w.Given? ==> 0 < w.n)
    requires i1 == i + |flags| && i2 == i1 + |CountText(w)|
    requires At(fmt, i, flags) && At(fmt, i1, CountText(w)) && At(fmt, i2, PrecisionText(p))
    requires Stops(CharAt(fmt, i2 + |PrecisionText(p)|))
    ensures ReadSpec(fmt, i, args, k) ==
      (Spec(FlagsIn(flags), CountValue(w, args, k), PrecisionValue(p, args, k + Takes(w))),
       i2 + |PrecisionText(p)|, k + Takes(w) + Takes(p))
  {
    PrecisionRead(fmt, i2, p, args, k + Takes(w));
    WidthRead(fmt, i1, w, args, k);
    AllFlagsRead(fmt, i, flags);
    SpecOf(fmt, i, args, k, FlagsIn(flags), i1, CountValue(w, args, k), i2, k + Takes(w));
  }

  lemma AllFlagsRead(fmt: seq<Byte>, i: nat, s: seq<Byte>)
    requires At(fmt, i, s) && AllFlags(s) && !IsFlag(CharAt(fmt, i + |s|))
    ensures ReadFlags(fmt, i, NO_FLAGS) == (FlagsIn(s), i + |s|)
  {
    FlagsRead(fmt, i, s, NO_FLAGS);
  }

  // A specification is read in its three parts.
  lemma SpecOf(fmt: seq<Byte>, i: nat, args: seq<Arg>, k: nat, flags: Flags, i1: nat, width: int, i2: nat, k2: nat)
    requires i <= |fmt| && i1 <= |fmt| && i2 <= |fmt|
    requires ReadFlags(fmt, i, NO_FLAGS) == (flags, i1) && ReadWidth(fmt, i1, args, k) == (width, i2, k2)
    ensures var (precision, i3, k3) := ReadPrecision(fmt, i2, args, k2);
      ReadSpec(fmt, i, args, k) == (Spec(flags, width, precision), i3, k3)
  {
  }

  /* A number from its format to its field and back */

  function SignText(flags: seq<Byte>, v: int): seq<Byte> {
    if v < 0 then [MINUS]
    else if PLUS in flags then [PLUS]
    else if SPACE in flags then [SPACE]
    else []
  }

  // Blanks fill the width after the number with a '-' flag, zeros between sign and digits
  // with a '0' flag, else blanks before.
  function NumberField(flags: seq<Byte>, width: int, sign: seq<Byte>, digits: seq<Byte>): seq<Byte> {
    var room := width - |sign| - |digits|;
    if MINUS in flags then sign + digits + Repeat(SPACE, room)
    else if ZERO in flags then sign + Repeat(ZERO, room) + digits
    else Repeat(SPACE, room) + sign + digits
  }

  lemma FieldOfNumber(flags: seq<Byte>, width: int, d: Datum, v: int)
    requires d.numeric && (d.negative <==> v < 0)
    ensures Field(Spec(FlagsIn(flags), width, -1), d) == NumberField(flags, width, SignText(flags, v), d.text)
  {
  }

  function Abs(v: int): nat {
    if v < 0 then -v else v
  }

  lemma NumberSpecReads(fmt: seq<Byte>, i: nat, flags: seq<Byte>, w: Count, c: Byte, args: seq<Arg>, k: nat)
    requires AllFlags(flags) && (w.Given? ==> 0 < w.n) && IsNumeric(c)
    requires At(fmt, i, flags + CountText(w) + [c])
    ensures var end := i + |flags| + |CountText(w)|;
      && CharAt(fmt, end) == c
      && ReadSpec(fmt, i, args, k) == (Spec(FlagsIn(flags), CountValue(w, args, k), -1), end, k + Takes(w))
  {
    AtParts(fmt, i, flags + CountText(w), [c]);
    HeadAt(fmt, i + |flags| + |CountText(w)|, [c]);
    assert flags + CountText(w) == flags + (CountText(w) + PrecisionText(Absent));
    SpecReadsBack(fmt, i, flags, w, Absent, args, k);
  }

  // The field of a number, given what its specification says.
  lemma NumberText(c: Byte, flags: seq<Byte>, width: int, args: seq<Arg>, m: nat)
    requires IsNumeric(c)
    ensures
      var text := Field(Spec(FlagsIn(flags), width, -1), Convert(c, -1, args, m).0);
      var v := Meaning(c, WordArg(args, m));
      var sign, digits := SignText(flags, v), Digits(Abs(v), BaseOf(c), TableOf(c));
      var natural := |sign| + |digits|;
      && text == NumberField(flags, width, sign, digits)
      && Parse(text, BaseOf(c)) == v
      && |text| == (if width > natural then width else natural)
      && |digits| <= 10
  {
    var v := Meaning(c, WordArg(args, m));
    var datum := Convert(c, -1, args, m).0;
    assert Absolute(c, WordArg(args, m)) == Abs(v);
    ConvertsNumber(c, args, m);
    FieldOfNumber(flags, width, datum, v);
    NumberRoundTrip(c, FlagsIn(flags), width, args, m);
    SignLength(Spec(FlagsIn(flags), width, -1), flags, datum, v);
  }

  lemma SignLength(spec: Spec, flags: seq<Byte>, d: Datum, v: int)
    requires spec.flags == FlagsIn(flags) && d.numeric && (d.negative <==> v < 0)
    ensures Sign(spec, d) == SignText(flags, v)
  {
  }

  lemma DirectiveOf(fmt: seq<Byte>, i: nat, args: seq<Arg>, k: nat, color: Word, spec: Spec, j: nat, m: nat)
    requires i <= |fmt| && j < |fmt| && ReadSpec(fmt, i, args, k) == (spec, j, m) && IsNumeric(fmt[j])
    ensures ReadDirective(fmt, i, args, k, color) ==
      Directive(Field(spec, Convert(fmt[j], spec.precision, args, m).0), j + 1, m + 1, color)
  {
  }

  // '%', any flags, a width or none, and d, u, x or X: what is printed, that it parses back
  // to the argument, its length, and where format and arguments go on.
  lemma NumberFromFormat(fmt: seq<Byte>, i: nat, flags: seq<Byte>, w: Count, c: Byte, args: seq<Arg>, k: nat,
                         color: Word)
    requires AllFlags(flags) && (w.Given? ==> 0 < w.n) && IsNumeric(c)
    requires At(fmt, i, flags + CountText(w) + [c])
    ensures
      var d := ReadDirective(fmt, i, args, k, color);
      var v, width := Meaning(c, WordArg(args, k + Takes(w))), CountValue(w, args, k);
      var sign, digits := SignText(flags, v), Digits(Abs(v), BaseOf(c), TableOf(c));
      var natural := |sign| + |digits|;
      && d.text == NumberField(flags, width, sign, digits)
      && Parse(d.text, BaseOf(c)) == v
      && |d.text| == (if width > natural then width else natural)
      && |digits| <= 10
      && d.next == i + |flags| + |CountText(w)| + 1
      && d.k == k + Takes(w) + 1 && d.color == color
  {
    var end, width, m := i + |flags| + |CountText(w)|, CountValue(w, args, k), k + Takes(w);
    NumberSpecReads(fmt, i, flags, w, c, args, k);
    DirectiveOf(fmt, i, args, k, color, Spec(FlagsIn(flags), width, -1), end, m);
    NumberText(c, flags, width, args, m);
  }

  // The width that is left for the pads, which the code keeps in an int, is one unless the
  // width is within eleven of the least int.
  lemma NumberWidthFits(c: Byte, flags: seq<Byte>, width: int, args: seq<Arg>, m: nat)
    requires IsNumeric(c) && -0x8000_0000 + 11 <= width < 0x8000_0000
    ensures -0x8000_0000 <= PadCount(Spec(FlagsIn(flags), width, -1), Convert(c, -1, args, m).0) < 0x8000_0000
  {
    NumberRoundTrip(c, FlagsIn(flags), width, args, m);
  }

  // A format that is one such directive prints exactly that field.
  lemma PrintsNumber(flags: seq<Byte>, w: Count, c: Byte, args: seq<Arg>, color: Word)
    requires AllFlags(flags) && (w.Given? ==> 0 < w.n) && IsNumeric(c)
    ensures
      var v := Meaning(c, WordArg(args, Takes(w)));
      Expand([PERCENT] + (flags + CountText(w) + [c]), 0, args, 0, color) ==
      Paint(NumberField(flags, CountValue(w, args, 0), SignText(flags, v),
                        Digits(Abs(v), BaseOf(c), TableOf(c))), color)
  {
    var fmt := [PERCENT] + (flags + CountText(w) + [c]);
    assert At(fmt, 1, flags + CountText(w) + [c]);
    NumberFromFormat(fmt, 1, flags, w, c, args, 0, color);
    var d := ReadDirective(fmt, 1, args, 0, color);
    assert d.next == |fmt|;
    assert Expand(fmt, d.next, args, d.k, d.color) == [];
  }

  /* Nothing after a NUL is read */

  // a is what comes before the first NUL of fmt.
  ghost predicate Before(a: seq<Byte>, fmt: seq<Byte>) {
    a == CString(fmt)
  }

  lemma SameChars(a: seq<Byte>, fmt: seq<Byte>)
    requires Before(a, fmt)
    ensures |a| <= |fmt| && forall i: nat :: i <= |a| ==> CharAt(a, i) == CharAt(fmt, i)
    ensures forall i: nat :: CharAt(a, i) == 0 <==> |a| <= i
  {
  }

  lemma {:induction false} FlagsBefore(a: seq<Byte>, fmt: seq<Byte>, i: nat, f: Flags)
    requires Before(a, fmt) && i <= |a|
    ensures ReadFlags(fmt, i, f) == ReadFlags(a, i, f)
    decreases |a| - i
  {
    SameChars(a, fmt);
    assert CharAt(a, i) == CharAt(fmt, i);
    if IsFlag(CharAt(a, i)) {
      FlagsBefore(a, fmt, i + 1, WithFlag(f, a[i]));
    }
  }

  lemma {:induction false} NumberBefore(a: seq<Byte>, fmt: seq<Byte>, i: nat, n: nat)
    requires Before(a, fmt) && i <= |a|
    ensures ReadNumber(fmt, i, n) == ReadNumber(a, i, n)
    decreases |a| - i
  {
    SameChars(a, fmt);
    assert CharAt(a, i) == CharAt(fmt, i);
    if IsDecimal(CharAt(a, i)) {
      NumberBefore(a, fmt, i + 1, 10 * n + (a[i] - 48));
    }
  }

  lemma WidthBefore(a: seq<Byte>, fmt: seq<Byte>, i: nat, args: seq<Arg>, k: nat)
    requires Before(a, fmt) && i <= |a|
    ensures |a| <= |fmt| && ReadWidth(fmt, i, args, k) == ReadWidth(a, i, args, k)
  {
    SameChars(a, fmt);
    NumberBefore(a, fmt, i, 0);
    assert CharAt(a, i) == CharAt(fmt, i);
  }

  lemma PrecisionBefore(a: seq<Byte>, fmt: seq<Byte>, i: nat, args: seq<Arg>, k: nat)
    requires Before(a, fmt) && i <= |a|
    ensures |a| <= |fmt| && ReadPrecision(fmt, i, args, k) == ReadPrecision(a, i, args, k)
  {
    SameChars(a, fmt);
    assert CharAt(a, i) == CharAt(fmt, i);
    if CharAt(a, i) == DOT {
      NumberBefore(a, fmt, i + 1, 0);
      assert CharAt(a, i + 1) == CharAt(fmt, i + 1);
    }
  }

  lemma SpecBefore(a: seq<Byte>, fmt: seq<Byte>, i: nat, args: seq<Arg>, k: nat)
    requires Before(a, fmt) && i <= |a|
    ensures |a| <= |fmt| && ReadSpec(fmt, i, args, k) == ReadSpec(a, i, args, k)
  {
    FlagsBefore(a, fmt, i, NO_FLAGS);
    var (flags, i1) := ReadFlags(a, i, NO_FLAGS);
    WidthBefore(a, fmt, i1, args, k);
    var (width, i2, k2) := ReadWidth(a, i1, args, k);
    PrecisionBefore(a, fmt, i2, args, k2);
    SpecOf(a, i, args, k, flags, i1, width, i2, k2);
    SpecOf(fmt, i, args, k, flags, i1, width, i2, k2);
  }

  lemma DirectiveBefore(a: seq<Byte>, fmt: seq<Byte>, i: nat, args: seq<Arg>, k: nat, color: Word)
    requires Before(a, fmt) && i <= |a|
    ensures |a| <= |fmt| && ReadDirective(fmt, i, args, k, color) == ReadDirective(a, i, args, k, color)
  {
    SameChars(a, fmt);
    SpecBefore(a, fmt, i, args, k);
    var j := ReadSpec(a, i, args, k).1;
    assert CharAt(a, j) == CharAt(fmt, j);
  }

  lemma {:induction false} NulEnds(fmt: seq<Byte>, i: nat, args: seq<Arg>, k: nat, color: Word)
    requires i <= |CString(fmt)|
    ensures Expand(fmt, i, args, k, color) == Expand(CString(fmt), i, args, k, color)
    decreases |CString(fmt)| - i
  {
    var a := CString(fmt);
    SameChars(a, fmt);
    assert CharAt(a, i) == CharAt(fmt, i);
    if i == |a| {
    } else {
      if a[i] == PERCENT {
        DirectiveBefore(a, fmt, i + 1, args, k, color);
        var d := ReadDirective(a, i + 1, args, k, color);
        NulEnds(fmt, d.next, args, d.k, d.color);
      } else {
        NulEnds(fmt, i + 1, args, k, color);
      }
    }
  }
}
