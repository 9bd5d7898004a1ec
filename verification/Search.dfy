// The search loops of schedule(), one method an algorithm. A loop of the source that
// never exits is cut where its variables have come back to values they already had;
// the method then answers None.
module Search {
  import opened Machine
  import opened Cyclic
  import opened Processes
  import opened Temper

  // Algorithm 0 and, started at slot 0, the search of algorithm 2.
  method RoundRobin(procs: array<Proc>, current: nat) returns (r: Option<nat>)
    requires current < procs.Length
    ensures r.None? <==> !AnyRunnable(procs[..])
    ensures r.Some? ==> NextRunnable(procs[..], current, r.value)
  {
    var n, pid, step := procs.Length, current, 0;
    while step < n
      invariant step <= n && pid == Slot(n, current, step)
      invariant forall q :: RunnableAt(procs[..], q) ==> step < Ahead(n, current, q)
    {
      StepIsRemainder(n, pid);
      pid, step := (pid + 1) % n, step + 1;
      if procs[pid].state.Runnable? {
        assert RunnableAt(procs[..], pid);
        return Some(pid);
      }
    }
    return None;
  }

  // Algorithm 2: `pid = 1` and then the test before the step.
  method Strict(procs: array<Proc>) returns (r: Option<nat>)
    requires 2 <= procs.Length
    ensures r.None? <==> !AnyRunnable(procs[..])
    ensures r.Some? ==> NextRunnable(procs[..], 0, r.value)
  {
    var n, pid, step := procs.Length, 1, 1;
    while step <= n
      invariant 1 <= step <= n + 1
      invariant step <= n ==> pid == Slot(n, 0, step)
      invariant forall q :: RunnableAt(procs[..], q) ==> step <= Ahead(n, 0, q)
    {
      if procs[pid].state.Runnable? {
        assert RunnableAt(procs[..], pid);
        return Some(pid);
      }
      StepIsRemainder(n, pid);
      pid, step := (pid + 1) % n, step + 1;
    }
    return None;
  }

  // One pass of the do-while of algorithm 4A: from `start` over the n-1 other slots.
  method PriorityPass(procs: array<Proc>, start: nat) returns (pid: nat, firstPid: nat)
    requires start < procs.Length
    ensures pid == Slot(procs.Length, start, procs.Length - 1)
    ensures firstPid < procs.Length
    ensures RunnableAt(procs[..], firstPid) <==> Opens(procs[..], start)
    ensures Opens(procs[..], start) ==> LastBest(procs[..], start, firstPid)
  {
    var n := procs.Length;
    ghost var ps := procs[..];
    var firstPriority := procs[start].priority;
    pid, firstPid := start, start;
    var i := 0;
    while i < n - 1
      invariant 0 <= i <= n - 1 && pid == Slot(n, start, i)
      invariant firstPid < n && firstPriority == ps[firstPid].priority <= ps[start].priority
      invariant firstPid == start || (RunnableAt(ps, firstPid) && Ahead(n, start, firstPid) <= i)
      // every slot scanned so far is no better, and strictly worse when scanned later
      invariant forall q :: RunnableAt(ps, q) && Ahead(n, start, q) <= i ==>
        firstPriority <= ps[q].priority
      invariant forall q :: RunnableAt(ps, q) && Ahead(n, start, q) <= i ==>
        || (firstPid != start && Ahead(n, start, q) <= Ahead(n, start, firstPid))
        || firstPriority < ps[q].priority
    {
      StepIsRemainder(n, pid);
      pid := (pid + 1) % n;
      if procs[pid].state.Runnable? && procs[pid].priority <= firstPriority {
        firstPid, firstPriority := pid, procs[pid].priority;
      }
      i := i + 1;
    }
    assert forall q :: RunnableAt(ps, q) ==> q == start || Ahead(n, start, q) <= n - 1;
  }

  method Priority(procs: array<Proc>, current: nat) returns (r: Option<nat>)
    requires current < procs.Length
    ensures r.None? <==> !AnyRunnable(procs[..])
    ensures r.Some? ==> PriorityChoice(procs[..], current, r.value)
  {
    var n: nat, pid: nat, passes: nat := procs.Length, current, 0;
    ghost var ps := procs[..];
    while passes < n
      invariant passes <= n && pid < n
      invariant passes < n ==> Position(n, pid, current) == passes
      invariant forall t: nat :: t < n && Position(n, t, current) < passes ==> !Opens(ps, t)
    {
      ghost var s := pid;
      var firstPid;
      pid, firstPid := PriorityPass(procs, pid);
      passes := passes + 1;
      if procs[firstPid].state.Runnable? {
        assert PassStart(ps, current, s) && LastBest(ps, s, firstPid);
        return Some(firstPid);
      }
    }
    forall q | RunnableAt(ps, q) ensures false {
      assert Opens(ps, q);
    }
    return None;
  }

  // Algorithm 4B, first loop: the first eligible process after `start`, which is itself
  // not looked at.
  method FindEligible(procs: array<Proc>, start: nat) returns (pid: nat)
    requires start < procs.Length
    ensures pid < procs.Length
    ensures Eligible(procs[..], pid) ==>
      forall q :: Eligible(procs[..], q) ==>
        Ahead(procs.Length, start, pid) <= Ahead(procs.Length, start, q)
    ensures !Eligible(procs[..], pid) ==>
      && pid == Slot(procs.Length, start, procs.Length - 1)
      && forall q :: Eligible(procs[..], q) ==> q == start
  {
    var n := procs.Length;
    pid := start;
    var i := 0;
    while i < n - 1
      invariant 0 <= i <= n - 1 && pid == Slot(n, start, i)
      invariant forall q :: Eligible(procs[..], q) ==> i < Ahead(n, start, q)
    {
      StepIsRemainder(n, pid);
      pid := (pid + 1) % n;
      if procs[pid].state.Runnable? && procs[pid].shareLeft > 0 {
        break;
      }
      i := i + 1;
    }
  }

  // Second loop: the largest share among the eligible, scanning once round from `start`.
  method FindLargestShare(procs: array<Proc>, start: nat) returns (firstPid: nat)
    requires start < procs.Length && Eligible(procs[..], start)
    ensures LargestShare(procs[..], start, firstPid)
  {
    var n := procs.Length;
    ghost var ps := procs[..];
    var pid := start;
    firstPid := start;
    var firstPriority := procs[start].shareAmt;
    var i := 0;
    while i < n - 1
      invariant 0 <= i <= n - 1 && pid == Slot(n, start, i)
      invariant Eligible(ps, firstPid) && firstPriority == ps[firstPid].shareAmt
      invariant Position(n, start, firstPid) <= i
      invariant forall q :: Eligible(ps, q) && Position(n, start, q) <= i ==>
        || ps[q].shareAmt < firstPriority
        || (ps[q].shareAmt == firstPriority && Position(n, start, firstPid) <= Position(n, start, q))
    {
      StepIsRemainder(n, pid);
      pid := (pid + 1) % n;
      if procs[pid].state.Runnable? && procs[pid].shareLeft > 0 && procs[pid].shareAmt > firstPriority {
        firstPid, firstPriority := pid, procs[pid].shareAmt;
      }
      i := i + 1;
    }
  }

  // Third loop: start a new round.
  method StartRound(procs: array<Proc>)
    requires 0 < procs.Length
    modifies procs
    ensures procs[..] == Refill(old(procs[..]))
  {
    for i := 1 to procs.Length
      invariant forall j :: 0 <= j < procs.Length ==>
        procs[j] == if 0 < j < i then old(procs[j]).(shareLeft := old(procs[j]).shareAmt) else old(procs[j])
    {
      procs[i] := procs[i].(shareLeft := procs[i].shareAmt);
    }
  }

  // Whichever slot a pass of the search opens at, the winner it finds is the same as seen
  // from the current process: no eligible process lies between the two.
  lemma SameWinner(ps: seq<Proc>, current: nat, from: nat, p: nat)
    requires current < |ps| && from < |ps|
    requires LargestShare(ps, from, p)
    requires forall q :: Eligible(ps, q) ==> Position(|ps|, current, from) <= Position(|ps|, current, q)
    ensures LargestShare(ps, current, p)
  {
    forall q | Eligible(ps, q)
      ensures Position(|ps|, from, q) == Position(|ps|, current, q) - Position(|ps|, current, from)
    {
    }
  }

  method Pay(procs: array<Proc>, p: nat)
    requires Eligible(procs[..], p)
    modifies procs
    ensures procs[..] == Charge(old(procs[..]), p)
  {
    procs[p] := procs[p].(shareLeft := procs[p].shareLeft - 1);
  }

  // One turn of the endless loop: its two scans, without the payment.
  method SharePass(procs: array<Proc>, current: nat, start: nat) returns (pid: nat, winner: Option<nat>)
    requires current < procs.Length && start < procs.Length
    // the slot order from `current` and the order of this pass agree on the eligible
    requires forall p, q | Eligible(procs[..], p) && Eligible(procs[..], q) && p != start ::
      Ahead(procs.Length, start, p) <= Ahead(procs.Length, start, q) ==>
        Position(procs.Length, current, p) <= Position(procs.Length, current, q)
    ensures pid < procs.Length
    ensures winner.Some? ==> LargestShare(procs[..], current, winner.value)
    ensures winner.None? ==>
      && pid == Slot(procs.Length, start, procs.Length - 1)
      && forall q :: Eligible(procs[..], q) ==> q == start
  {
    pid := FindEligible(procs, start);
    winner := None;
    if procs[pid].state.Runnable? && procs[pid].shareLeft > 0 {
      assert Eligible(procs[..], pid);
      var firstPid := FindLargestShare(procs, pid);
      SameWinner(procs[..], current, pid, firstPid);
      winner := Some(firstPid);
    }
  }

  // A second refill in the same call changes nothing.
  lemma RefillTwice(ps: seq<Proc>)
    ensures Refill(Refill(ps)) == Refill(ps)
  {
  }

  method Share(procs: array<Proc>, current: nat) returns (r: Option<nat>)
    requires 2 <= procs.Length && current < procs.Length
    modifies procs
    ensures r.None? <==> !AnyEligible(RoundTable(old(procs[..])))
    ensures r.None? ==> procs[..] == RoundTable(old(procs[..]))
    ensures r.Some? ==>
      && ShareChoice(old(procs[..]), current, r.value)
      && Eligible(RoundTable(old(procs[..])), r.value)
      && procs[..] == Charge(RoundTable(old(procs[..])), r.value)
  {
    ghost var ps := procs[..];
    if procs[current].shareLeft > 0 && procs[current].state.Runnable? {
      assert Eligible(ps, current);
      Pay(procs, current);
      return Some(current);
    }
    assert !Eligible(ps, current);
    ghost var before: nat := Slot(procs.Length, current, procs.Length - 1);
    var pid, passes := current, 0;
    while passes < 3
      invariant 0 <= passes <= 3 && pid < procs.Length
      invariant procs[..] == if passes == 0 then ps else Refill(ps)
      invariant passes == 0 ==> pid == current
      invariant passes == 1 ==> pid == before
      invariant passes > 0 ==> !AnyEligible(ps)
      invariant passes == 2 ==> pid == Slot(procs.Length, before, procs.Length - 1)
      invariant passes == 2 ==> forall q :: Eligible(Refill(ps), q) ==> q == before
      invariant passes == 3 ==> !AnyEligible(Refill(ps))
    {
      var winner;
      pid, winner := SharePass(procs, current, pid);
      if winner.Some? {
        Pay(procs, winner.value);
        return winner;
      }
      RefillTwice(ps);
      StartRound(procs);
      passes := passes + 1;
    }
    return None;
  }

  // Algorithm 7: the if-chain over the tickets, for a table of any length.
  method Chain(procs: array<Proc>, ticket: Word) returns (r: Option<nat>)
    requires 2 <= procs.Length
    ensures r.None? <==> Redraws(procs[..], ticket)
    ensures r.Some? ==> ChainWinner(procs[..], ticket, r.value)
  {
    var n := procs.Length;
    ghost var ps := procs[..];
    var sum: Word := 0;
    var i := 1;
    while i < n
      invariant 1 <= i <= n
      invariant sum == Prefix(ps, i - 1) % WORD
      invariant forall q: nat :: q < i ==> !Fires(ps, ticket, q)
    {
      SumWraps(Prefix(ps, i - 1), ps[i].lotteryAmt);
      sum := (sum + procs[i].lotteryAmt) % WORD;
      if (ticket < sum || i == n - 1) && procs[i].state.Runnable? {
        assert Fires(ps, ticket, i);
        return Some(i);
      }
      i := i + 1;
    }
    return None;
  }

  // The sum of all tickets, as a 32-bit word.
  method LotteryTotal(procs: array<Proc>) returns (total: Word)
    requires 0 < procs.Length
    ensures total == Total(procs[..])
  {
    ghost var ps := procs[..];
    total := 0;
    for i := 0 to procs.Length
      invariant i == 0 ==> total == 0
      invariant i > 0 ==> total == (ps[0].lotteryAmt + Prefix(ps, i - 1)) % WORD
    {
      if i > 0 {
        SumWraps(ps[0].lotteryAmt + Prefix(ps, i - 1), ps[i].lotteryAmt);
      }
      total := (total + procs[i].lotteryAmt) % WORD;
    }
  }

  // Draw until a ticket wins. `seeds` are the values the cycle counter will show; None
  // means that all of them were redrawn.
  method Draw(procs: array<Proc>, total: Word, seeds: seq<Word>) returns (r: Option<nat>, ghost k: nat)
    requires 2 <= procs.Length && 0 < total
    ensures k <= |seeds| && forall j :: 0 <= j < k ==> Redraws(procs[..], Scramble(seeds[j]) % total)
    ensures r.None? <==> forall j :: 0 <= j < |seeds| ==> Redraws(procs[..], Scramble(seeds[j]) % total)
    ensures r.None? ==> k == |seeds|
    ensures r.Some? ==> k < |seeds| && ChainWinner(procs[..], Scramble(seeds[k]) % total, r.value)
  {
    k := 0;
    for i := 0 to |seeds|
      invariant k == i && forall j :: 0 <= j < k ==> Redraws(procs[..], Scramble(seeds[j]) % total)
    {
      var ticket := Scramble(seeds[i]) % total;
      r := Chain(procs, ticket);
      if r.Some? {
        return;
      }
      k := k + 1;
    }
    r := None;
  }
}
