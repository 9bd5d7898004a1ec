// Machine words of the 32-bit target and the small types every other module uses.
module Machine {
  const WORD := 0x1_0000_0000
  const SECTOR := 512
  const PAGE := 4096

  type Word = x: int | 0 <= x < WORD
  type Byte = x: int | 0 <= x < 256
  type Cell = x: int | 0 <= x < 0x1_0000   // one 16-bit cell of the CGA console

  datatype Option<+T> = None | Some(value: T)

  // 1 for an event that is counted.
  function One(b: bool): nat {
    if b then 1 else 0
  }

  // n copies of a byte.
  function Fill(c: Byte, n: nat): (s: seq<Byte>)
    ensures |s| == n && forall k :: 0 <= k < n ==> s[k] == c
  {
    seq(n, _ => c)
  }

  // Adding to a sum that was already cut to 32 bits.
  lemma SumWraps(a: nat, b: nat)
    ensures (a % WORD + b) % WORD == (a + b) % WORD
  {
    var k := a / WORD;
    assert a + b == k * WORD + (a % WORD + b);
  }

  lemma SameQuotient(d: nat, q: nat, r: nat, q': nat, r': nat)
    requires q * d + r == q' * d + r' && r < d && r' < d
    ensures q == q' && r == r'
  {
    if q' < q {
      MulGrows(q' + 1, q, d);
    } else if q < q' {
      MulGrows(q + 1, q', d);
    }
  }

  lemma {:induction false} MulGrows(a: nat, b: nat, d: nat)
    requires a <= b
    ensures a * d <= b * d
  {
  }

  lemma DivUnique(x: nat, d: nat, q: nat, r: nat)
    requires 0 < d && x == q * d + r && r < d
    ensures x / d == q && x % d == r
  {
    SameQuotient(d, q, r, x / d, x % d);
  }
}
