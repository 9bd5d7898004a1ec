// Algorithm 7: which process owns which tickets, and how many of the 2^32 values of the
// cycle counter let it win.
module Lottery {
  import opened Machine
  import opened Processes
  import opened Temper
  import opened Steps
  import TemperBits

  // The nearest runnable slot below i, or slot 0.
  function PreviousRunnable(ps: seq<Proc>, i: nat): (q: nat)
    requires i <= |ps|
    ensures q <= i && (q == 0 || (q < i && RunnableAt(ps, q)))
    ensures forall j :: q < j < i ==> !RunnableAt(ps, j)
  {
    if i <= 1 then 0
    else if RunnableAt(ps, i - 1) then i - 1
    else PreviousRunnable(ps, i - 1)
  }

  // The tickets of a runnable process run from Low up to Prefix: its own, and those of
  // the non-runnable slots just before it.
  function Low(ps: seq<Proc>, p: nat): (t: nat)
    requires p < |ps|
  {
    Prefix(ps, PreviousRunnable(ps, p))
  }

  predicate Owns(ps: seq<Proc>, p: nat, ticket: nat) {
    p < |ps| && 1 <= p && RunnableAt(ps, p) && Low(ps, p) <= ticket < Prefix(ps, p)
  }

  // The tickets that have an owner: all those below the prefix of the last runnable process.
  function Owned(ps: seq<Proc>): (t: nat)
    requires 2 <= |ps|
  {
    var last := PreviousRunnable(ps, |ps|);
    Prefix(ps, last)
  }

  // Slot 0 holds no tickets, and the 32-bit total reaches up to the last owned ticket.
  predicate TicketsKept(ps: seq<Proc>) {
    2 <= |ps| && ps[0].lotteryAmt == 0 && Owned(ps) <= Total(ps)
  }

  lemma {:induction false} PrefixMonotone(ps: seq<Proc>, i: nat, j: nat)
    requires i <= j < |ps|
    ensures Prefix(ps, i) <= Prefix(ps, j)
    decreases j
  {
    if i == j {
    } else {
      PrefixMonotone(ps, i, j - 1);
    }
  }

  // Without wrap-around in the total every ticket is kept.
  lemma NoOverflowKeeps(ps: seq<Proc>)
    requires 2 <= |ps| && ps[0].lotteryAmt == 0 && Tickets(ps) < WORD
    ensures TicketsKept(ps)
  {
    var last := PreviousRunnable(ps, |ps|);
    PrefixMonotone(ps, last, |ps| - 1);
  }

  // When the tickets are kept no sum up to a runnable link wraps.
  lemma SumsFit(ps: seq<Proc>, p: nat)
    requires TicketsKept(ps) && 1 <= p && RunnableAt(ps, p)
    ensures Prefix(ps, p) <= Owned(ps) < WORD
  {
    PrefixMonotone(ps, p, PreviousRunnable(ps, |ps|));
  }

  lemma FiresBelowPrefix(ps: seq<Proc>, ticket: nat, p: nat)
    requires TicketsKept(ps) && ticket < Total(ps) && 1 <= p
    ensures Fires(ps, ticket, p) <==> RunnableAt(ps, p) && ticket < Prefix(ps, p)
  {
    if RunnableAt(ps, p) {
      SumsFit(ps, p);
      if p == |ps| - 1 {
        assert Tickets(ps) == Prefix(ps, p);
      }
    }
  }

  // The first process the chain selects is the owner of the ticket.
  lemma WinnerOwns(ps: seq<Proc>, ticket: nat, p: nat)
    requires TicketsKept(ps) && ticket < Total(ps)
    ensures ChainWinner(ps, ticket, p) <==> Owns(ps, p, ticket)
  {
    forall i: nat | 1 <= i ensures Fires(ps, ticket, i) <==> RunnableAt(ps, i) && ticket < Prefix(ps, i) {
      FiresBelowPrefix(ps, ticket, i);
    }
    if 1 <= p && RunnableAt(ps, p) {
      var q := PreviousRunnable(ps, p);
      if Low(ps, p) <= ticket {
        forall i: nat | Fires(ps, ticket, i) ensures p <= i {
          if i < p {
            PrefixMonotone(ps, i, q);
          }
        }
      } else {
        assert q >= 1 && Fires(ps, ticket, q);
      }
    }
  }

  ghost predicate Unowned(ps: seq<Proc>, ticket: nat) {
    forall p :: !Owns(ps, p, ticket)
  }

  // A ticket is owned exactly when it lies below the prefix of the last runnable process.
  lemma {:induction false} OwnerBelow(ps: seq<Proc>, i: nat, ticket: nat)
    requires i <= |ps| && 0 < |ps|
    ensures ticket < Prefix(ps, PreviousRunnable(ps, i)) <==> exists p: nat :: p < i && Owns(ps, p, ticket)
  {
    var last := PreviousRunnable(ps, i);
    if last == 0 {
    } else {
      OwnerBelow(ps, last, ticket);
      PrefixMonotone(ps, PreviousRunnable(ps, last), last);
      if Low(ps, last) <= ticket < Prefix(ps, last) {
        assert Owns(ps, last, ticket);
      }
    }
  }

  // A ticket is redrawn exactly when it lies at or above the prefix of the last runnable
  // process.
  lemma RedrawTickets(ps: seq<Proc>, ticket: nat)
    requires TicketsKept(ps) && ticket < Total(ps)
    ensures Redraws(ps, ticket) <==> Owned(ps) <= ticket
  {
    TicketsPartition(ps, ticket);
    OwnerBelow(ps, |ps|, ticket);
  }

  // Every ticket is won by exactly one runnable process or redrawn.
  lemma TicketsPartition(ps: seq<Proc>, ticket: nat)
    requires TicketsKept(ps) && ticket < Total(ps)
    ensures Redraws(ps, ticket) <==> Unowned(ps, ticket)
    ensures forall p: nat, q: nat :: Owns(ps, p, ticket) && Owns(ps, q, ticket) ==> p == q
  {
    forall p: nat ensures ChainWinner(ps, ticket, p) <==> Owns(ps, p, ticket) {
      WinnerOwns(ps, ticket, p);
    }
    if !Redraws(ps, ticket) {
      var q: nat :| Fires(ps, ticket, q);
      FirstFiring(ps, ticket, q);
    }
  }

  // Every owner wins with each ticket it owns.
  ghost predicate OwnersWin(ps: seq<Proc>)
    requires 0 < |ps|
  {
    forall p: nat, ticket: nat :: Owns(ps, p, ticket) ==> ticket < Total(ps) && ChainWinner(ps, ticket, p)
  }

  // Owners win exactly when the 32-bit total reaches up to the last owned ticket.
  lemma OwnershipIsExact(ps: seq<Proc>)
    requires 2 <= |ps| && ps[0].lotteryAmt == 0
    ensures OwnersWin(ps) <==> Owned(ps) <= Total(ps)
  {
    if TicketsKept(ps) {
      forall p: nat, ticket: nat | Owns(ps, p, ticket)
        ensures ticket < Total(ps) && ChainWinner(ps, ticket, p)
      {
        SumsFit(ps, p);
        WinnerOwns(ps, ticket, p);
      }
    } else {
      OwnerBelow(ps, |ps|, Total(ps));
      var p: nat :| Owns(ps, p, Total(ps));
    }
  }

  /* When the lottery redraws for ever */

  // With its tickets kept the lottery can end exactly when a ticket is owned.
  lemma LotterySelectable(ps: seq<Proc>)
    requires TicketsKept(ps)
    ensures Selectable(LOTTERY, ps) <==> 0 < Owned(ps)
  {
    if 0 < Total(ps) {
      RedrawTickets(ps, 0);
    }
  }

  // Otherwise no value of the cycle counter lets any process win, and some value does when
  // it can.
  lemma RedrawsForever(ps: seq<Proc>)
    requires 0 < |ps| && 0 < Total(ps)
    ensures Selectable(LOTTERY, ps) <==>
      exists seed: Word :: !Redraws(ps, Scramble(seed) % Total(ps))
  {
    if Selectable(LOTTERY, ps) {
      ScrambleIsPermutation(0);
      var seed := Unscramble(0);
      assert Scramble(seed) % Total(ps) == 0;
      assert !Redraws(ps, Scramble(seed) % Total(ps));
    }
    if seed: Word :| !Redraws(ps, Scramble(seed) % Total(ps)) {
      var i: nat :| Fires(ps, Scramble(seed) % Total(ps), i);
      assert Fires(ps, 0, i);
    }
  }

  // It happens: process 1 runs without tickets, process 2 has exited with one.
  lemma ExitedTicketsRedraw()
    ensures
      var ps := [Holder(0, 0).(state := Empty), Holder(1, 0), Holder(2, 1).(state := Zombie)];
      && TicketsKept(ps) && AnyRunnable(ps)
      && !Selectable(LOTTERY, ps)
      && forall seed: Word :: Redraws(ps, Scramble(seed) % Tickets(ps))
  {
    var ps := [Holder(0, 0).(state := Empty), Holder(1, 0), Holder(2, 1).(state := Zombie)];
    assert Prefix(ps, 0) == 0 && Prefix(ps, 1) == 0 && Prefix(ps, 2) == 1;
    assert PreviousRunnable(ps, 3) == 1;
    assert RunnableAt(ps, 1);
    LotterySelectable(ps);
    RedrawsForever(ps);
  }

  // With every process runnable each one owns exactly its own amount.
  lemma AllRunnableOwnTheirOwn(ps: seq<Proc>, p: nat)
    requires 1 <= p < |ps| && forall i :: 1 <= i < |ps| ==> RunnableAt(ps, i)
    ensures Prefix(ps, p) - Low(ps, p) == ps[p].lotteryAmt
  {
  }

  function Holder(pid: nat, tickets: Word): Proc {
    Proc(pid, Regs(0, 0, Frame(Head, 0)), 0, 1, 1, tickets, Runnable, 0)
  }

  // It can fail: here three runnable processes hold 2^31, 2^31 and 1 tickets, the 32-bit
  // total is 1, and process 1 wins every draw.
  lemma OverflowLosesTickets()
    ensures
      var ps := [Holder(0, 0).(state := Empty), Holder(1, 0x8000_0000), Holder(2, 0x8000_0000), Holder(3, 1)];
      && !TicketsKept(ps) && !OwnersWin(ps) && Total(ps) == 1
      && forall ticket: nat :: ticket < Total(ps) ==> ChainWinner(ps, ticket, 1)
  {
    var ps := [Holder(0, 0).(state := Empty), Holder(1, 0x8000_0000), Holder(2, 0x8000_0000), Holder(3, 1)];
    assert Prefix(ps, 1) == 0x8000_0000;
    assert Prefix(ps, 2) == WORD;
    assert Prefix(ps, 3) == WORD + 1;
    assert Fires(ps, 0, 1);
    assert PreviousRunnable(ps, 4) == 3;
    OwnershipIsExact(ps);
  }

  // The four-way chain as it is written, with unsigned sums that wrap.
  lemma FourWayChain(ps: seq<Proc>, ticket: nat, p: nat)
    requires |ps| == 5
    ensures
      var a, b, c := ps[1].lotteryAmt, ps[2].lotteryAmt, ps[3].lotteryAmt;
      ChainWinner(ps, ticket, p) <==>
        if ticket < a && ps[1].state == Runnable then p == 1
        else if ticket < (a + b) % 0x1_0000_0000 && ps[2].state == Runnable then p == 2
        else if ticket < (a + b + c) % 0x1_0000_0000 && ps[3].state == Runnable then p == 3
        else ps[4].state == Runnable && p == 4
  {
    FourLinks(ps, ticket);
    if Fires(ps, ticket, 1) {
      assert ChainWinner(ps, ticket, 1);
    } else if Fires(ps, ticket, 2) {
      assert ChainWinner(ps, ticket, 2);
    } else if Fires(ps, ticket, 3) {
      assert ChainWinner(ps, ticket, 3);
    } else if Fires(ps, ticket, 4) {
      assert ChainWinner(ps, ticket, 4);
    }
  }

  lemma FourLinks(ps: seq<Proc>, ticket: nat)
    requires |ps| == 5
    ensures var a, b, c := ps[1].lotteryAmt, ps[2].lotteryAmt, ps[3].lotteryAmt;
      && (forall q: nat :: Fires(ps, ticket, q) ==> q == 1 || q == 2 || q == 3 || q == 4)
      && (Fires(ps, ticket, 1) <==> ticket < a && ps[1].state == Runnable)
      && (Fires(ps, ticket, 2) <==> ticket < (a + b) % 0x1_0000_0000 && ps[2].state == Runnable)
      && (Fires(ps, ticket, 3) <==> ticket < (a + b + c) % 0x1_0000_0000 && ps[3].state == Runnable)
      && (Fires(ps, ticket, 4) <==> ps[4].state == Runnable)
  {
    assert Prefix(ps, 0) == 0;
    assert Prefix(ps, 1) == ps[1].lotteryAmt;
    assert Prefix(ps, 2) == Prefix(ps, 1) + ps[2].lotteryAmt;
    assert Prefix(ps, 3) == Prefix(ps, 2) + ps[3].lotteryAmt;
  }

  // The total of five slots.
  lemma TotalOfFive(ps: seq<Proc>)
    requires |ps| == 5
    ensures Total(ps) ==
      (ps[0].lotteryAmt + ps[1].lotteryAmt + ps[2].lotteryAmt + ps[3].lotteryAmt + ps[4].lotteryAmt) % 0x1_0000_0000
  {
    assert Prefix(ps, 0) == 0;
    assert Prefix(ps, 1) == ps[1].lotteryAmt;
    assert Prefix(ps, 2) == Prefix(ps, 1) + ps[2].lotteryAmt;
    assert Prefix(ps, 3) == Prefix(ps, 2) + ps[3].lotteryAmt;
  }

  // Four runnable processes with a ticket each.
  function FourTickets(): (ps: seq<Proc>)
    ensures |ps| == 5
  {
    [Holder(0, 0).(state := Empty), Holder(1, 1), Holder(2, 1), Holder(3, 1), Holder(4, 1)]
  }

  // One draw worked out: with the counter at 2048 process 2 wins.
  lemma SeedExample()
    ensures Total(FourTickets()) == 4 && Scramble(2048) == 0x404_0881
    ensures ChainWinner(FourTickets(), 0x404_0881 % 4, 2)
  {
    TemperBits.ScrambleOfBits();
    TotalOfFive(FourTickets());
    FourWayChain(FourTickets(), 1, 2);
  }

  /* Counting */

  // The values below m whose remainder by total falls in [lo, hi).
  ghost function Residues(m: nat, total: nat, lo: nat, hi: nat): (s: set<int>)
    requires 0 < total
  {
    set w: int | 0 <= w < m && lo <= w % total < hi
  }

  function Clamp(x: int, top: nat): (r: nat)
    ensures r <= top
  {
    if x < 0 then 0 else if x < top then x else top
  }

  lemma DivStep(m: nat, total: nat)
    requires 0 < total
    ensures m % total + 1 < total ==> (m + 1) / total == m / total && (m + 1) % total == m % total + 1
    ensures m % total + 1 == total ==> (m + 1) / total == m / total + 1 && (m + 1) % total == 0
  {
    var q, r := m / total, m % total;
    assert m + 1 == q * total + (r + 1);
    if r + 1 < total {
      DivUnique(m + 1, total, q, r + 1);
    } else {
      assert m + 1 == (q + 1) * total + 0;
      DivUnique(m + 1, total, q + 1, 0);
    }
  }

  lemma {:induction false} ResidueCount(m: nat, total: nat, lo: nat, hi: nat)
    requires 0 < total && lo <= hi <= total
    ensures |Residues(m, total, lo, hi)| == m / total * (hi - lo) + Clamp(m % total - lo, hi - lo)
  {
    if m == 0 {
      assert Residues(0, total, lo, hi) == {};
    } else {
      var k := m - 1;
      ResidueCount(k, total, lo, hi);
      DivStep(k, total);
      if lo <= k % total < hi {
        assert Residues(m, total, lo, hi) == Residues(k, total, lo, hi) + {k};
      } else {
        assert Residues(m, total, lo, hi) == Residues(k, total, lo, hi);
      }
      assert (k / total + 1) * (hi - lo) == k / total * (hi - lo) + (hi - lo);
    }
  }

  // The seeds with which the chain dispatches p.
  ghost function WinningSeeds(ps: seq<Proc>, p: nat): (s: set<int>)
    requires 0 < |ps| && 0 < Total(ps)
  {
    set v: int | 0 <= v < WORD && ChainWinner(ps, Scramble(v) % Total(ps), p)
  }

  // All 32-bit numbers.
  ghost function AllWords(): set<int> {
    Residues(WORD, 1, 0, 1)
  }

  lemma {:induction false} InjectionSize(a: set<int>, b: set<int>, f: int -> int)
    requires a <= AllWords()
    requires forall x :: x in a ==> f(x) in b
    requires forall x, y :: x in a && y in a && f(x) == f(y) ==> x == y
    ensures |a| <= |b|
    decreases a
  {
    if a == {} {
    } else {
      var x :| x in a;
      InjectionSize(a - {x}, b - {f(x)}, f);
    }
  }

  lemma SeedsAreResidues(ps: seq<Proc>, p: nat)
    requires TicketsKept(ps) && 0 < Total(ps)
    requires 1 <= p && RunnableAt(ps, p)
    ensures |WinningSeeds(ps, p)| == |Residues(WORD, Total(ps), Low(ps, p), Prefix(ps, p))|
  {
    var seeds, residues := WinningSeeds(ps, p), Residues(WORD, Total(ps), Low(ps, p), Prefix(ps, p));
    var f := (v: int) => if 0 <= v < WORD then Scramble(v) else v;
    var g := (v: int) => if 0 <= v < WORD then Unscramble(v) else v;
    forall v: Word
      ensures Unscramble(Scramble(v)) == v && Scramble(Unscramble(v)) == v
      ensures v in seeds <==> Scramble(v) in residues
    {
      ScrambleIsPermutation(v);
      WinnerOwns(ps, Scramble(v) % Total(ps), p);
    }
    InjectionSize(seeds, residues, f);
    InjectionSize(residues, seeds, g);
  }

  // Over all 2^32 seeds a runnable process that owns t tickets of a total L wins between
  // t * floor(2^32 / L) and t * ceil(2^32 / L) of them.
  lemma Fairness(ps: seq<Proc>, p: nat)
    requires TicketsKept(ps) && 0 < Total(ps)
    requires 1 <= p && RunnableAt(ps, p)
    ensures var owned := Prefix(ps, p) - Low(ps, p);
      && owned * (WORD / Total(ps)) <= |WinningSeeds(ps, p)|
      && |WinningSeeds(ps, p)| <= owned * ((WORD + Total(ps) - 1) / Total(ps))
  {
    var total, lo, hi := Total(ps), Low(ps, p), Prefix(ps, p);
    PrefixMonotone(ps, PreviousRunnable(ps, p), p);
    SumsFit(ps, p);
    SeedsAreResidues(ps, p);
    ResidueBounds(WORD, total, lo, hi);
  }

  lemma ResidueBounds(m: nat, total: nat, lo: nat, hi: nat)
    requires 0 < total && lo <= hi <= total
    ensures (hi - lo) * (m / total) <= |Residues(m, total, lo, hi)| <= (hi - lo) * ((m + total - 1) / total)
  {
    ResidueCount(m, total, lo, hi);
    Ceiling(m, total, hi - lo, Clamp(m % total - lo, hi - lo));
  }

  lemma Ceiling(m: nat, total: nat, owned: nat, rest: nat)
    requires 0 < total && rest <= owned && (m % total == 0 ==> rest == 0)
    ensures owned * (m / total) <= m / total * owned + rest <= owned * ((m + total - 1) / total)
  {
    var q, r := m / total, m % total;
    if r == 0 {
      DivUnique(m + total - 1, total, q, total - 1);
    } else {
      assert m + total - 1 == (q + 1) * total + (r - 1);
      DivUnique(m + total - 1, total, q + 1, r - 1);
      assert owned * (q + 1) == owned * q + owned;
    }
  }
}
