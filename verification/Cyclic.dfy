// Walking round a table of n slots with `pid = (pid + 1) % n`.
module Cyclic {

  // The slot reached from a after k single steps.
  function Slot(n: nat, a: nat, k: nat): (s: nat)
    requires a < n && k <= n
    ensures s < n
  {
    if a + k < n then a + k else a + k - n
  }

  // How many single steps lead from a to b, a whole turn when they are the same slot.
  function Ahead(n: nat, a: nat, b: nat): (d: nat)
    requires a < n && b < n
    ensures 1 <= d <= n && Slot(n, a, d) == b
  {
    if a < b then b - a else b + n - a
  }

  // The same walk taken backwards.
  function Behind(n: nat, a: nat, b: nat): (d: nat)
    requires a < n && b < n
    ensures 1 <= d <= n && Slot(n, b, d) == a
  {
    Ahead(n, b, a)
  }

  // The position of b in the order a, a+1, ..., a-1 that starts with a itself.
  function Position(n: nat, a: nat, b: nat): (d: nat)
    requires a < n && b < n
    ensures d < n && Slot(n, a, d) == b
  {
    if a <= b then b - a else b + n - a
  }

  // The remainder operator of the source is this walk.
  lemma StepIsRemainder(n: nat, a: nat)
    requires a < n
    ensures (a + 1) % n == Slot(n, a, 1)
  {
    if a + 1 < n {
    } else {
      assert a + 1 == n;
    }
  }
}
