// The spin-lock variant without clock interrupts: the same output as the system-call
// variant under algorithms 0 and 2.
module LockOrder {
  import opened Machine
  import opened Cyclic
  import opened SpinLock
  import opened PrintLog
  import Order

  // A process that a scheduler can run.
  predicate LiveAt(threads: seq<Thread>, p: int) {
    0 <= p < |threads| && !threads[p].pc.Gone?
  }

  // The first one when stepping forward from `from`.
  ghost predicate NextLive(threads: seq<Thread>, from: nat, p: nat)
    requires from < |threads|
  {
    && LiveAt(threads, p)
    && forall q :: LiveAt(threads, q) ==> Ahead(|threads|, from, p) <= Ahead(|threads|, from, q)
  }

  // No clock: the kernel dispatches only when it is entered, and then runs the next live
  // process after `running` (algorithm 0) or the lowest one (algorithm 2).
  ghost predicate CoopStep(strict: bool, rounds: nat, chars: seq<Cell>, s: LState, s': LState) {
    && LStep(rounds, chars, s, Own, s')
    && (s.threads[s.running].pc.Yield? || s.threads[s.running].pc.Exit? ==>
         (exists p :: LiveAt(s'.threads, p)) ==> NextLive(s'.threads, if strict then 0 else s.running, s'.running))
  }

  ghost predicate CoopStepAt(strict: bool, rounds: nat, chars: seq<Cell>, states: seq<LState>, i: nat) {
    i + 1 < |states| ==> CoopStep(strict, rounds, chars, states[i], states[i + 1])
  }

  ghost predicate CoopRun(strict: bool, rounds: nat, chars: seq<Cell>, states: seq<LState>) {
    && 0 < |states| && LInit(rounds, chars, states[0])
    && forall i: nat :: CoopStepAt(strict, rounds, chars, states, i)
  }

  function CoopLog(states: seq<LState>, t: nat): (log: seq<nat>)
    requires t < |states|
  {
    if t == 0 then []
    else if Appends(states[t - 1], Own) then CoopLog(states, t - 1) + [states[t - 1].running]
    else CoopLog(states, t - 1)
  }

  // In its loop, or about to exit, and in iteration i.
  predicate Working(rounds: nat, th: Thread, i: nat) {
    th.i == i && !th.pc.Gone? && (th.pc.Exit? <==> i == rounds)
  }

  // Waiting at its loop head.
  predicate Waiting(rounds: nat, th: Thread, i: nat) {
    th.pc == LoopHead(rounds, i) && th.i == i
  }

  /* Algorithm 0 */

  // Process j+1 is in iteration m; those before it are past that iteration.
  ghost predicate Turn(rounds: nat, s: LState, log: seq<nat>, n: nat, m: nat, j: nat)
    requires 0 < n
  {
    && j < n && m <= rounds && |s.threads| == n + 1
    && s.running == j + 1 && s.threads[0].pc.Gone?
    && Working(rounds, s.threads[j + 1], m)
    && (forall p :: 1 <= p <= j ==>
         if m < rounds then Waiting(rounds, s.threads[p], m + 1) else s.threads[p].pc.Gone?)
    && (forall p :: j + 1 < p <= n ==> Waiting(rounds, s.threads[p], m))
    && log == Order.Turns(n, if m < rounds then n * m + j + One(Finished(s.threads[j + 1]) > m) else n * rounds)
  }

  lemma TurnLog(rounds: nat, n: nat, m: nat, j: nat)
    requires j < n && m < rounds
    ensures Order.Turns(n, n * m + j + 1) == Order.Turns(n, n * m + j) + [j + 1]
    ensures j + 1 == n ==> n * m + j + 1 == n * (m + 1)
  {
    Order.TurnsGrow(n, m, j);
  }

  // An instruction inside the iteration.
  lemma TurnWithin(rounds: nat, chars: seq<Cell>, s: LState, s': LState, log: seq<nat>, n: nat, m: nat, j: nat)
    requires CoopStep(false, rounds, chars, s, s') && 0 < n && Turn(rounds, s, log, n, m, j)
    requires !s.threads[s.running].pc.Yield? && !s.threads[s.running].pc.Exit?
    ensures Turn(rounds, s', if Appends(s, Own) then log + [s.running] else log, n, m, j)
  {
    TurnLog(rounds, n, m, j);
    assert forall p :: 0 <= p <= n && p != j + 1 ==> s'.threads[p] == s.threads[p];
  }

  // Entering the kernel: the next process, or the next iteration, or nobody is left.
  lemma TurnOver(rounds: nat, chars: seq<Cell>, s: LState, s': LState, log: seq<nat>, n: nat, m: nat, j: nat)
    requires CoopStep(false, rounds, chars, s, s') && 0 < n && Turn(rounds, s, log, n, m, j)
    requires s.threads[s.running].pc.Yield? || s.threads[s.running].pc.Exit?
    ensures if j + 1 < n then Turn(rounds, s', log, n, m, j + 1)
            else if m < rounds then Turn(rounds, s', log, n, m + 1, 0)
            else AllGone(s'.threads) && log == Order.Turns(n, n * rounds)
  {
    assert forall p :: 0 <= p <= n && p != j + 1 ==> s'.threads[p] == s.threads[p];
    if m < rounds {
      TurnLog(rounds, n, m, j);
    }
    if j + 1 < n {
      assert LiveAt(s'.threads, j + 2) && Ahead(n + 1, j + 1, j + 2) == 1;
    } else if m < rounds {
      assert LiveAt(s'.threads, 1) && Ahead(n + 1, n, 1) == 2;
      assert !LiveAt(s'.threads, 0);
    }
  }

  ghost predicate SomeTurn(rounds: nat, s: LState, log: seq<nat>, n: nat)
    requires 0 < n
  {
    || (exists m: nat, j: nat :: Turn(rounds, s, log, n, m, j))
    || (AllGone(s.threads) && |s.threads| == n + 1 && log == Order.Turns(n, n * rounds))
  }

  lemma {:induction false} TurnsInOrder(rounds: nat, chars: seq<Cell>, states: seq<LState>, n: nat, t: nat)
    requires CoopRun(false, rounds, chars, states) && t < |states| && 0 < n && |chars| == n + 1
    ensures SomeTurn(rounds, states[t], CoopLog(states, t), n)
  {
    if t == 0 {
      assert n * 0 == 0;
      assert Turn(rounds, states[0], [], n, 0, 0);
    } else {
      TurnsInOrder(rounds, chars, states, n, t - 1);
      assert CoopStepAt(false, rounds, chars, states, t - 1);
      NextTurn(rounds, chars, states[t - 1], states[t], CoopLog(states, t - 1), n);
    }
  }

  lemma NextTurn(rounds: nat, chars: seq<Cell>, s: LState, s': LState, log: seq<nat>, n: nat)
    requires CoopStep(false, rounds, chars, s, s') && 0 < n && SomeTurn(rounds, s, log, n)
    ensures SomeTurn(rounds, s', if Appends(s, Own) then log + [s.running] else log, n)
  {
    var m: nat, j: nat :| Turn(rounds, s, log, n, m, j);
    if s.threads[s.running].pc.Yield? || s.threads[s.running].pc.Exit? {
      TurnOver(rounds, chars, s, s', log, n, m, j);
    } else {
      TurnWithin(rounds, chars, s, s', log, n, m, j);
    }
  }

  /* Algorithm 2 */

  // Process p works; those before it have exited, those after it have not begun.
  ghost predicate Block(rounds: nat, s: LState, log: seq<nat>, p: nat) {
    && 1 <= p < |s.threads| && s.running == p
    && (forall q :: 0 <= q < p ==> s.threads[q].pc.Gone?)
    && s.threads[p].i <= rounds && Working(rounds, s.threads[p], s.threads[p].i)
    && (forall q :: p < q < |s.threads| ==> Waiting(rounds, s.threads[q], 0))
    && log == Order.Blocks(rounds, rounds * (p - 1) + Finished(s.threads[p]))
  }

  // An instruction inside an iteration.
  lemma BlockWithin(rounds: nat, chars: seq<Cell>, s: LState, s': LState, log: seq<nat>, p: nat)
    requires CoopStep(true, rounds, chars, s, s') && Block(rounds, s, log, p)
    requires !s.threads[p].pc.Yield? && !s.threads[p].pc.Exit?
    ensures Block(rounds, s', if Appends(s, Own) then log + [s.running] else log, p)
  {
    assert forall q :: 0 <= q < |s.threads| && q != p ==> s'.threads[q] == s.threads[q];
    if s.threads[p].pc.Advance? {
      Order.BlocksGrow(rounds, p, s.threads[p].i);
    }
  }

  // Entering the kernel: the process goes on, or the next one begins, or nobody is left.
  lemma BlockOver(rounds: nat, chars: seq<Cell>, s: LState, s': LState, log: seq<nat>, p: nat)
    requires CoopStep(true, rounds, chars, s, s') && Block(rounds, s, log, p)
    requires s.threads[p].pc.Yield? || s.threads[p].pc.Exit?
    ensures if s.threads[p].pc.Yield? then Block(rounds, s', log, p)
            else if p + 1 < |s.threads| then Block(rounds, s', log, p + 1)
            else AllGone(s'.threads) && log == Order.Blocks(rounds, rounds * p)
  {
    assert forall q :: 0 <= q < |s.threads| && q != p ==> s'.threads[q] == s.threads[q];
    if s.threads[p].pc.Yield? {
      assert LiveAt(s'.threads, p) && Ahead(|s.threads|, 0, p) == p;
      assert s'.running == p;
    } else {
      assert rounds * p == rounds * (p - 1) + rounds;
      if p + 1 < |s.threads| {
        assert LiveAt(s'.threads, p + 1) && Ahead(|s.threads|, 0, p + 1) == p + 1;
        assert s'.running == p + 1;
      }
    }
  }

  ghost predicate SomeBlock(rounds: nat, s: LState, log: seq<nat>) {
    || (exists p: nat :: Block(rounds, s, log, p))
    || (AllGone(s.threads) && |s.threads| > 0 && log == Order.Blocks(rounds, rounds * (|s.threads| - 1)))
  }

  lemma {:induction false} BlocksInOrder(rounds: nat, chars: seq<Cell>, states: seq<LState>, t: nat)
    requires CoopRun(true, rounds, chars, states) && t < |states| && 2 <= |chars|
    ensures SomeBlock(rounds, states[t], CoopLog(states, t))
  {
    if t == 0 {
      assert Block(rounds, states[0], [], 1);
    } else {
      BlocksInOrder(rounds, chars, states, t - 1);
      assert CoopStepAt(true, rounds, chars, states, t - 1);
      NextBlock(rounds, chars, states[t - 1], states[t], CoopLog(states, t - 1));
    }
  }

  lemma NextBlock(rounds: nat, chars: seq<Cell>, s: LState, s': LState, log: seq<nat>)
    requires CoopStep(true, rounds, chars, s, s') && SomeBlock(rounds, s, log)
    ensures SomeBlock(rounds, s', if Appends(s, Own) then log + [s.running] else log)
  {
    var p: nat :| Block(rounds, s, log, p);
    if s.threads[p].pc.Yield? || s.threads[p].pc.Exit? {
      BlockOver(rounds, chars, s, s', log, p);
    } else {
      BlockWithin(rounds, chars, s, s', log, p);
    }
  }

  /* The console */

  function OwnEvents(t: nat): (events: seq<Event>)
    ensures |events| == t
  {
    seq(t, _ => Own)
  }

  // A run without clock ticks is a run of the lock variant with the same log.
  lemma CoopIsRun(strict: bool, rounds: nat, chars: seq<Cell>, states: seq<LState>)
    requires CoopRun(strict, rounds, chars, states)
    ensures LRun(rounds, chars, states, OwnEvents(|states| - 1))
  {
    var events := OwnEvents(|states| - 1);
    forall i: nat ensures LStepAt(rounds, chars, states, events, i) {
      assert CoopStepAt(strict, rounds, chars, states, i);
    }
  }

  lemma {:induction false} CoopLogIsLog(states: seq<LState>, t: nat)
    requires t < |states|
    ensures CoopLog(states, t) == LockLog(states, OwnEvents(|states| - 1), t)
  {
    if t == 0 {
    } else {
      CoopLogIsLog(states, t - 1);
    }
  }

  lemma CoopShowsLog(strict: bool, rounds: nat, chars: seq<Cell>, states: seq<LState>, t: nat)
    requires CoopRun(strict, rounds, chars, states) && t < |states|
    ensures LockConsistent(rounds, chars, states[t], CoopLog(states, t))
  {
    CoopIsRun(strict, rounds, chars, states);
    CoopLogIsLog(states, t);
    LockRunShowsLog(rounds, chars, states, OwnEvents(|states| - 1), t);
  }

  // At every time of a run without clock ticks, cell k holds the character of process
  // (k mod n) + 1 under algorithm 0 and of process (k div R) + 1 under algorithm 2.
  lemma LockOutput(strict: bool, rounds: nat, chars: seq<Cell>, states: seq<LState>, n: nat, t: nat, k: nat)
    requires CoopRun(strict, rounds, chars, states) && t < |states| && 0 < n && |chars| == n + 1
    requires 0 < rounds && k < states[t].cursor
    ensures
      var author := if strict then k / rounds + 1 else k % n + 1;
      author <= n && k in states[t].cells && states[t].cells[k] == chars[author]
  {
    CoopShowsLog(strict, rounds, chars, states, t);
    var log := CoopLog(states, t);
    if strict {
      BlocksInOrder(rounds, chars, states, t);
      BlockEntry(rounds, states[t], log, k);
    } else {
      TurnsInOrder(rounds, chars, states, n, t);
      TurnEntry(rounds, states[t], log, n, k);
    }
  }

  lemma TurnEntry(rounds: nat, s: LState, log: seq<nat>, n: nat, k: nat)
    requires 0 < n && SomeTurn(rounds, s, log, n) && k < |log|
    ensures log[k] == k % n + 1
  {
  }

  lemma BlockEntry(rounds: nat, s: LState, log: seq<nat>, k: nat)
    requires 0 < rounds && SomeBlock(rounds, s, log) && k < |log|
    ensures log[k] == k / rounds + 1
  {
  }

  /* The end of the run */

  // The others wait at their loop heads or have exited.
  ghost predicate OthersOutside(s: LState) {
    forall p :: 0 <= p < |s.threads| && p != s.running ==> !Inside(s.threads[p])
  }

  lemma NobodySpins(s: LState)
    requires Exclusion(s) && OthersOutside(s)
    ensures !Spins(s)
  {
  }

  lemma SomeTurnOthers(rounds: nat, s: LState, log: seq<nat>, n: nat)
    requires 0 < n && SomeTurn(rounds, s, log, n)
    ensures OthersOutside(s)
  {
  }

  lemma SomeBlockOthers(rounds: nat, s: LState, log: seq<nat>)
    requires SomeBlock(rounds, s, log)
    ensures OthersOutside(s)
  {
  }

  // Without clock ticks no swap ever fails.
  lemma {:induction false} CoopNeverSpins(strict: bool, rounds: nat, chars: seq<Cell>, states: seq<LState>, t: nat)
    requires CoopRun(strict, rounds, chars, states) && t < |states|
    ensures !Spins(states[t])
  {
    OthersAreOutside(strict, rounds, chars, states, t);
    CoopShowsLog(strict, rounds, chars, states, t);
    NobodySpins(states[t]);
  }

  lemma {:induction false} OthersAreOutside(strict: bool, rounds: nat, chars: seq<Cell>, states: seq<LState>, t: nat)
    requires CoopRun(strict, rounds, chars, states) && t < |states|
    ensures OthersOutside(states[t])
  {
    if strict {
      BlocksInOrder(rounds, chars, states, t);
      SomeBlockOthers(rounds, states[t], CoopLog(states, t));
    } else {
      TurnsInOrder(rounds, chars, states, |chars| - 1, t);
      SomeTurnOthers(rounds, states[t], CoopLog(states, t), |chars| - 1);
    }
  }

  // Six instructions for each print and the exit.
  function TotalWork(rounds: nat, n: nat): nat {
    n * (6 * rounds + 1)
  }

  lemma {:induction false} FirstWork(rounds: nat, threads: seq<Thread>)
    requires 1 <= |threads| && threads[0].pc.Gone?
    requires forall p :: 1 <= p < |threads| ==> threads[p] == Thread(LoopHead(rounds, 0), 0, 0)
    ensures Work(rounds, threads) == TotalWork(rounds, |threads| - 1)
  {
    var n := |threads| - 1;
    if n == 0 {
      assert threads[..0] == [];
    } else {
      FirstWork(rounds, threads[..n]);
      assert TotalWork(rounds, n) == TotalWork(rounds, n - 1) + (6 * rounds + 1);
    }
  }

  lemma {:induction false} CoopWork(strict: bool, rounds: nat, chars: seq<Cell>, states: seq<LState>, t: nat)
    requires CoopRun(strict, rounds, chars, states) && t < |states|
    ensures Work(rounds, states[t].threads) + t == TotalWork(rounds, |chars| - 1)
  {
    if t == 0 {
      FirstWork(rounds, states[0].threads);
    } else {
      CoopWork(strict, rounds, chars, states, t - 1);
      CoopNeverSpins(strict, rounds, chars, states, t - 1);
      CoopShowsLog(strict, rounds, chars, states, t - 1);
      assert CoopStepAt(strict, rounds, chars, states, t - 1);
      StepWork(rounds, chars, states[t - 1], Own, states[t]);
    }
  }

  lemma {:induction false} NearestLive(threads: seq<Thread>, from: nat, p: nat) returns (q: nat)
    requires from < |threads| && LiveAt(threads, p)
    ensures NextLive(threads, from, q)
    decreases Ahead(|threads|, from, p)
  {
    q := p;
    if r: nat :| LiveAt(threads, r) && Ahead(|threads|, from, r) < Ahead(|threads|, from, p) {
      q := NearestLive(threads, from, r);
    }
  }

  // While the running process has not exited there is a next step.
  lemma CoopStepExists(strict: bool, rounds: nat, chars: seq<Cell>, s: LState) returns (s': LState)
    requires |chars| == |s.threads| && LiveCurrent(s)
    ensures CoopStep(strict, rounds, chars, s, s')
  {
    var t := Instruction(rounds, chars, s);
    var q := s.running;
    if s.threads[q].pc.Yield? || s.threads[q].pc.Exit? {
      if !AllGone(t.threads) {
        var p: nat :| p < |t.threads| && !t.threads[p].pc.Gone?;
        q := NearestLive(t.threads, if strict then 0 else s.running, p);
        assert LiveAt(t.threads, q);
      }
    } else {
      assert !t.threads[q].pc.Gone?;
    }
    s' := t.(running := q);
  }

  // The lock variant without clock ticks, at the end: a run that cannot go on has taken
  // exactly n*(6R+1) instructions, all processes have exited, and the console holds the
  // same output as that of the system-call variant.
  lemma {:induction false} LockHalts(strict: bool, rounds: nat, chars: seq<Cell>, states: seq<LState>, n: nat)
    requires CoopRun(strict, rounds, chars, states) && |chars| == n + 1
    ensures var s := states[|states| - 1];
      var log := CoopLog(states, |states| - 1);
      || (exists s' :: CoopStep(strict, rounds, chars, s, s'))
      || (&& AllGone(s.threads) && s.lock == 0
          && |states| - 1 == TotalWork(rounds, n)
          && log == (if strict then Order.Blocks(rounds, n * rounds) else Order.Turns(n, n * rounds))
          && Shows(chars, s.cells, s.cursor, log))
  {
    var t := |states| - 1;
    var s := states[t];
    CoopIsRun(strict, rounds, chars, states);
    CurrentIsLive(rounds, chars, states, OwnEvents(t), t);
    CoopShowsLog(strict, rounds, chars, states, t);
    if AllGone(s.threads) {
      CoopWork(strict, rounds, chars, states, t);
      WorkLeft(rounds, s.threads);
      LockCompletion(rounds, chars, states, OwnEvents(t));
      CoopLogIsLog(states, t);
      FinalLog(strict, rounds, chars, states, n);
    } else {
      var s' := CoopStepExists(strict, rounds, chars, s);
    }
  }

  lemma TurnsEnd(rounds: nat, s: LState, log: seq<nat>, n: nat)
    requires 0 < n && SomeTurn(rounds, s, log, n) && AllGone(s.threads)
    ensures log == Order.Turns(n, n * rounds)
  {
  }

  lemma BlocksEnd(rounds: nat, s: LState, log: seq<nat>, n: nat)
    requires SomeBlock(rounds, s, log) && AllGone(s.threads) && |s.threads| == n + 1
    ensures log == Order.Blocks(rounds, n * rounds)
  {
    assert rounds * n == n * rounds;
  }

  lemma {:induction false} FinalLog(strict: bool, rounds: nat, chars: seq<Cell>, states: seq<LState>, n: nat)
    requires CoopRun(strict, rounds, chars, states) && |chars| == n + 1
    requires AllGone(states[|states| - 1].threads)
    ensures CoopLog(states, |states| - 1) ==
      if strict then Order.Blocks(rounds, n * rounds) else Order.Turns(n, n * rounds)
  {
    var t := |states| - 1;
    if strict {
      CoopShowsLog(strict, rounds, chars, states, t);
      BlocksInOrder(rounds, chars, states, t);
      BlocksEnd(rounds, states[t], CoopLog(states, t), n);
    } else {
      TurnsInOrder(rounds, chars, states, n, t);
      TurnsEnd(rounds, states[t], CoopLog(states, t), n);
    }
  }
}
