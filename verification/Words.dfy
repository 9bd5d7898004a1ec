// 32-bit words as the bit vectors the lottery scrambles and as the numbers it divides.
module Words {
  import opened Machine

  // The number a 32-bit word stands for, read bit by bit.
  function Value(x: bv32): (v: nat)
    decreases x
  {
    if x == 0 then 0 else 2 * Value(x >> 1) + (if x & 1 == 1 then 1 else 0)
  }

  function WordOf(v: nat): bv32 {
    if v == 0 then 0 else (WordOf(v / 2) << 1) | (if v % 2 == 1 then 1 else 0)
  }

  lemma {:induction false} ValueFits(x: bv32, m: bv32)
    requires x <= m && m & (m + 1) == 0
    ensures Value(x) <= Value(m)
    decreases x
  {
    if x == 0 {
    } else {
      ValueFits(x >> 1, m >> 1);
    }
  }

  lemma {:induction false} WordFits(v: nat, m: bv32)
    requires v <= Value(m) && m & (m + 1) == 0
    ensures WordOf(v) <= m
  {
    if v == 0 {
    } else {
      assert Value(m) == 2 * Value(m >> 1) + 1;
      WordFits(v / 2, m >> 1);
    }
  }

  lemma Append(x: bv32, c: bv32)
    requires x <= 0x7fff_ffff && c <= 1
    ensures ((x << 1) | c) >> 1 == x && ((x << 1) | c) & 1 == c
    ensures Value((x << 1) | c) == 2 * Value(x) + (if c == 1 then 1 else 0)
  {
    if (x << 1) | c == 0 {
      assert x == 0 && c == 0;
    }
  }

  lemma Halves(x: bv32)
    ensures ((x >> 1) << 1) | (x & 1) == x && x >> 1 <= 0x7fff_ffff && x & 1 <= 1
    ensures x != 0 ==> x >> 1 < x
  {
  }

  lemma AllOnes()
    ensures Value(0xffff_ffff) == 0xffff_ffff
  {
    Append(0x0, 1);
    Append(0x1, 1);
    Append(0x3, 1);
    Append(0x7, 1);
    Append(0xf, 1);
    Append(0x1f, 1);
    Append(0x3f, 1);
    Append(0x7f, 1);
    Append(0xff, 1);
    Append(0x1ff, 1);
    Append(0x3ff, 1);
    Append(0x7ff, 1);
    Append(0xfff, 1);
    Append(0x1fff, 1);
    Append(0x3fff, 1);
    Append(0x7fff, 1);
    Append(0xffff, 1);
    Append(0x1ffff, 1);
    Append(0x3ffff, 1);
    Append(0x7ffff, 1);
    Append(0xfffff, 1);
    Append(0x1fffff, 1);
    Append(0x3fffff, 1);
    Append(0x7fffff, 1);
    Append(0xffffff, 1);
    Append(0x1ffffff, 1);
    Append(0x3ffffff, 1);
    Append(0x7ffffff, 1);
    Append(0xfffffff, 1);
    Append(0x1fffffff, 1);
    Append(0x3fffffff, 1);
    Append(0x7fffffff, 1);
  }

  lemma WordOfDouble(v: nat, c: bv32)
    requires c <= 1
    ensures WordOf(2 * v + (if c == 1 then 1 else 0)) == (WordOf(v) << 1) | c
  {
    var w := 2 * v + (if c == 1 then 1 else 0);
    assert w / 2 == v;
  }

  lemma Rejoin(h: bv32, c: bv32)
    requires h <= 0x7fff_ffff && c <= 1 && WordOf(Value(h)) == h
    ensures WordOf(Value((h << 1) | c)) == (h << 1) | c
  {
    Append(h, c);
    WordOfDouble(Value(h), c);
  }

  lemma FromHalf(x: bv32, h: bv32, c: bv32)
    requires x == (h << 1) | c && h <= 0x7fff_ffff && c <= 1
    requires WordOf(Value(h)) == h
    ensures WordOf(Value(x)) == x
  {
    Rejoin(h, c);
  }

  lemma Zero(x: bv32)
    requires x == 0
    ensures WordOf(Value(x)) == x
  {
  }

  lemma {:induction false} WordOfValue(x: bv32)
    ensures WordOf(Value(x)) == x
    decreases x
  {
    var h := x >> 1;
    Halves(x);
    if h == 0 {
      Zero(h);
    } else {
      WordOfValue(h);
    }
    FromHalf(x, h, x & 1);
  }

  lemma {:induction false} ValueOfWord(v: nat, m: bv32)
    requires v <= Value(m) && m & (m + 1) == 0
    ensures Value(WordOf(v)) == v
  {
    if v == 0 {
    } else {
      WordFits(v / 2, m >> 1);
      ValueOfWord(v / 2, m >> 1);
    }
  }

  lemma ValueInRange(x: bv32)
    ensures Value(x) < WORD
  {
    ValueFits(x, 0xffff_ffff);
    AllOnes();
  }

  lemma ValueOfWordOf(v: Word)
    ensures Value(WordOf(v)) == v
  {
    AllOnes();
    ValueOfWord(v, 0xffff_ffff);
  }

  // The numbers of x and of a ^ b are the same.
  ghost predicate IsXor(x: bv32, a: bv32, b: bv32) {
    Value(x) == Value(a ^ b)
  }

  // It is so for x == a ^ b only.
  lemma OnlyXor(x: bv32, a: bv32, b: bv32)
    requires IsXor(x, a, b)
    ensures x == a ^ b
  {
    WordOfValue(x);
    WordOfValue(a ^ b);
  }

  /* The number of a word from its hexadecimal digits */

  lemma AppendTo(x: bv32, c: bv32, y: bv32)
    requires x <= 0x7fff_ffff && c <= 1 && y == (x << 1) | c
    ensures Value(y) == 2 * Value(x) + One(c == 1)
  {
    Append(x, c);
  }

  lemma AppendFour(x: bv32, a: bv32, b: bv32, c: bv32, d: bv32, x1: bv32, x2: bv32, x3: bv32, x4: bv32)
    requires a <= 1 && b <= 1 && c <= 1 && d <= 1
    requires x <= 0x7fff_ffff && x1 <= 0x7fff_ffff && x2 <= 0x7fff_ffff && x3 <= 0x7fff_ffff
    requires x1 == (x << 1) | a && x2 == (x1 << 1) | b && x3 == (x2 << 1) | c && x4 == (x3 << 1) | d
    ensures Value(x4) == 16 * Value(x) + 8 * One(a == 1) + 4 * One(b == 1) + 2 * One(c == 1) + One(d == 1)
  {
    AppendTo(x, a, x1);
    AppendTo(x1, b, x2);
    AppendTo(x2, c, x3);
    AppendTo(x3, d, x4);
  }

  // One hexadecimal digit more.
  lemma AppendDigit(x: bv32, d: bv32, y: bv32)
    requires x <= 0xfff_ffff && d <= 0xf && y == (x << 4) | d
    ensures Value(y) == 16 * Value(x) + Value(d)
  {
    var a, b, c, e := (d >> 3) & 1, (d >> 2) & 1, (d >> 1) & 1, d & 1;
    FourBits(x, d, y, a, b, c, e);
    AppendBits(x, a, b, c, e, y);
    AppendBits(0, a, b, c, e, d);
  }

  lemma AppendBits(x: bv32, a: bv32, b: bv32, c: bv32, d: bv32, y: bv32)
    requires a <= 1 && b <= 1 && c <= 1 && d <= 1 && x <= 0xfff_ffff
    requires y == (((((((x << 1) | a) << 1) | b) << 1) | c) << 1) | d
    ensures Value(y) == 16 * Value(x) + 8 * One(a == 1) + 4 * One(b == 1) + 2 * One(c == 1) + One(d == 1)
  {
    var x1 := (x << 1) | a;
    var x2 := (x1 << 1) | b;
    var x3 := (x2 << 1) | c;
    AppendFour(x, a, b, c, d, x1, x2, x3, y);
  }

  lemma FourBits(x: bv32, d: bv32, y: bv32, a: bv32, b: bv32, c: bv32, e: bv32)
    requires x <= 0xfff_ffff && d <= 0xf && y == (x << 4) | d
    requires a == (d >> 3) & 1 && b == (d >> 2) & 1 && c == (d >> 1) & 1 && e == d & 1
    ensures y == (((((((x << 1) | a) << 1) | b) << 1) | c) << 1) | e
    ensures d == (((((((0 << 1) | a) << 1) | b) << 1) | c) << 1) | e
    ensures a <= 1 && b <= 1 && c <= 1 && e <= 1
  {
  }

  // The last hexadecimal digit.
  lemma LastDigit(y: bv32, x: bv32)
    requires x == y >> 4
    ensures Value(y) == 16 * Value(x) + Value(y & 0xf)
  {
    var d := y & 0xf;
    SplitDigit(y, x, d);
    AppendDigit(x, d, y);
  }

  lemma SplitDigit(y: bv32, x: bv32, d: bv32)
    requires x == y >> 4 && d == y & 0xf
    ensures x <= 0xfff_ffff && d <= 0xf && y == (x << 4) | d
  {
  }

  // The number of a word from its hexadecimal digits; a to g are what is left of it when
  // they are taken off one by one.
  lemma HexWord(y: bv32, a: bv32, b: bv32, c: bv32, d: bv32, e: bv32, f: bv32, g: bv32)
    requires a == y >> 4 && b == a >> 4 && c == b >> 4 && d == c >> 4 && e == d >> 4 && f == e >> 4 && g == f >> 4
    ensures Value(y) ==
      0x1000_0000 * Value(g) + 0x100_0000 * Value(f & 0xf) + 0x10_0000 * Value(e & 0xf) + 0x1_0000 * Value(d & 0xf)
      + 0x1000 * Value(c & 0xf) + 0x100 * Value(b & 0xf) + 0x10 * Value(a & 0xf) + Value(y & 0xf)
  {
    LastDigit(y, a);
    LastDigit(a, b);
    LastDigit(b, c);
    LastDigit(c, d);
    LastDigit(d, e);
    LastDigit(e, f);
    LastDigit(f, g);
  }

  lemma HexDigits()
    ensures Value(0) == 0 && Value(1) == 1 && Value(2) == 2 && Value(3) == 3
    ensures Value(4) == 4 && Value(5) == 5 && Value(6) == 6 && Value(7) == 7
    ensures Value(8) == 8 && Value(9) == 9 && Value(10) == 10 && Value(11) == 11
    ensures Value(12) == 12 && Value(13) == 13 && Value(14) == 14 && Value(15) == 15
  {
  }
}
