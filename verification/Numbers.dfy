// Digit strings: what fill_numbuf writes, and reading them back.
module Numbers {
  import opened Machine

  const ZERO: Byte := 48        // '0'
  const UPPER_DIGITS: seq<Byte> := [48, 49, 50, 51, 52, 53, 54, 55, 56, 57, 65, 66, 67, 68, 69, 70]
  const LOWER_DIGITS: seq<Byte> := [48, 49, 50, 51, 52, 53, 54, 55, 56, 57, 97, 98, 99, 100, 101, 102]

  predicate ValidTable(table: seq<Byte>) {
    table == UPPER_DIGITS || table == LOWER_DIGITS
  }

  predicate ValidBase(base: nat) {
    base == 10 || base == 16
  }

  // val / base and val % base, for the two bases there are.
  function Quotient(val: nat, base: nat): (q: nat)
    requires ValidBase(base)
    ensures q <= val && (q == 0 <==> val < base) && (val >= base ==> q < val)
  {
    if base == 10 then val / 10 else val / 16
  }

  function Remainder(val: nat, base: nat): (r: nat)
    requires ValidBase(base)
    ensures r < base && r < 16 && (val < base ==> r == val)
  {
    if base == 10 then val % 10 else val % 16
  }

  lemma QuotientRemainder(val: nat, base: nat)
    requires ValidBase(base)
    ensures Quotient(val, base) * base + Remainder(val, base) == val
  {
    if base == 10 {
      assert val / 10 * 10 + val % 10 == val;
    } else {
      assert val / 16 * 16 + val % 16 == val;
    }
  }

  // The usual notation of a number.
  function Digits(val: nat, base: nat, table: seq<Byte>): (s: seq<Byte>)
    requires ValidBase(base) && ValidTable(table)
    ensures |s| > 0
  {
    if val < base then [table[val]]
    else Digits(Quotient(val, base), base, table) + [table[Remainder(val, base)]]
  }

  // The value of one digit character, of either case.
  function DigitValue(c: Byte): (v: int) {
    if 48 <= c <= 57 then c - 48
    else if 65 <= c <= 70 then c - 55
    else if 97 <= c <= 102 then c - 87
    else -1
  }

  predicate IsDigit(c: Byte, base: nat) {
    0 <= DigitValue(c) < base
  }

  function ValueOf(s: seq<Byte>, base: nat): (v: int) {
    if s == [] then 0 else ValueOf(s[..|s| - 1], base) * base + DigitValue(s[|s| - 1])
  }

  lemma TableInverts(table: seq<Byte>, d: nat)
    requires ValidTable(table) && d < 16
    ensures DigitValue(table[d]) == d && (table[d] == ZERO <==> d == 0)
  {
  }

  // Reading the digits gives back the number; they are digits; and only zero itself begins
  // with a zero.
  lemma {:induction false} DigitsRoundTrip(val: nat, base: nat, table: seq<Byte>)
    requires ValidBase(base) && ValidTable(table)
    ensures var s := Digits(val, base, table);
      && ValueOf(s, base) == val
      && (forall k :: 0 <= k < |s| ==> IsDigit(s[k], base))
      && (s[0] == ZERO ==> s == [ZERO] && val == 0)
  {
    var s := Digits(val, base, table);
    if val < base {
      TableInverts(table, val);
      assert s[..0] == [];
      assert ValueOf(s, base) == ValueOf(s[..0], base) * base + DigitValue(s[0]);
    } else {
      DigitsRoundTrip(Quotient(val, base), base, table);
      TableInverts(table, Remainder(val, base));
      QuotientRemainder(val, base);
      assert s[..|s| - 1] == Digits(Quotient(val, base), base, table);
    }
  }

  function Pow10(k: nat): nat {
    if k == 0 then 1 else 10 * Pow10(k - 1)
  }

  lemma {:induction false} DigitsFit(val: nat, base: nat, table: seq<Byte>, k: nat)
    requires ValidBase(base) && ValidTable(table) && 0 < k && val < Pow10(k)
    ensures |Digits(val, base, table)| <= k
  {
    assert Pow10(1) == 10;
    if val < base {
    } else {
      assert Quotient(val, base) < Pow10(k - 1);
      DigitsFit(Quotient(val, base), base, table, k - 1);
    }
  }

  // At most ten digits, so the twenty bytes of the buffer are enough.
  lemma WordDigitsFit(val: Word, base: nat, table: seq<Byte>)
    requires ValidBase(base) && ValidTable(table)
    ensures |Digits(val, base, table)| <= 10
  {
    assert Pow10(5) == 100000;
    assert Pow10(10) == 10000000000;
    DigitsFit(val, base, table, 10);
  }

  // What is printed of a number before padding: nothing for zero with precision 0.
  function NumText(val: nat, base: nat, table: seq<Byte>, precision: int): seq<Byte>
    requires ValidBase(base) && ValidTable(table)
  {
    if precision == 0 && val == 0 then [] else Digits(val, base, table)
  }

  lemma Regroup(a: seq<Byte>, d: Byte, b: seq<Byte>)
    ensures (a + [d]) + b == a + ([d] + b)
  {
  }

  // Moving one digit from the number to the string built so far.
  lemma OneDigit(v: nat, base: nat, table: seq<Byte>, done: seq<Byte>)
    requires ValidBase(base) && ValidTable(table)
    ensures var q, more := Quotient(v, base), [table[Remainder(v, base)]] + done;
      Digits(v, base, table) + done == if q != 0 then Digits(q, base, table) + more else more
  {
    if v >= base {
      Regroup(Digits(Quotient(v, base), base, table), table[Remainder(v, base)], done);
    }
  }

  // The do-while loop: the digits end up just before the terminating NUL.
  method WriteDigits(buf: array<Byte>, end: nat, val: Word, base: nat, table: seq<Byte>) returns (start: nat)
    requires ValidBase(base) && ValidTable(table)
    requires |Digits(val, base, table)| <= end <= buf.Length
    modifies buf
    ensures start <= end && buf[start..end] == Digits(val, base, table)
    ensures forall k :: 0 <= k < buf.Length && !(start <= k < end) ==> buf[k] == old(buf[k])
  {
    ghost var all, done: seq<Byte> := Digits(val, base, table), [];
    start := end;
    var v: nat, more := val, true;
    while more
      invariant start + |done| == end
      invariant all == if more then Digits(v, base, table) + done else done
      invariant buf[start..end] == done
      invariant forall k :: 0 <= k < buf.Length && !(start <= k < end) ==> buf[k] == old(buf[k])
      decreases more, v
    {
      OneDigit(v, base, table, done);
      start := start - 1;
      buf[start] := table[Remainder(v, base)];
      done := [table[Remainder(v, base)]] + done;
      v := Quotient(v, base);
      more := v != 0;
    }
  }

  // The buffer is filled from its end; the rest of it is not touched.
  method FillNumbuf(buf: array<Byte>, val: Word, base: nat, table: seq<Byte>, precision: int) returns (start: nat)
    requires buf.Length == 20 && ValidBase(base) && ValidTable(table)
    modifies buf
    ensures 9 <= start < 20 && buf[19] == 0
    ensures buf[start..19] == NumText(val, base, table, precision)
    ensures forall k :: 0 <= k < start ==> buf[k] == old(buf[k])
  {
    WordDigitsFit(val, base, table);
    start := 19;
    buf[start] := 0;
    if precision != 0 || val != 0 {
      start := WriteDigits(buf, 19, val, base, table);
    }
  }
}
