// Runs without clock interrupts: the exact order of the output under algorithms 0 and 2.
module Order {
  import opened Machine
  import opened Cyclic
  import opened Processes
  import opened Steps
  import opened Apps
  import Finishing
  import opened PrintLog

  ghost predicate Cooperative(alg: int, rounds: nat, chars: seq<Cell>, states: seq<KState>, regs: seq<Regs>,
                              ticks: seq<Tick>) {
    && AppRun(alg, rounds, chars, states, regs, ticks)
    && forall i :: 0 <= i < |ticks| ==> ticks[i] == Call
  }

  // Process cur runs; the processes up to `done` have made `more` calls, the others `fewer`.
  ghost predicate Standing(s: KState, cur: nat, done: nat, more: nat, fewer: nat) {
    && s.current == cur
    && forall p :: 1 <= p < |s.procs| ==>
         Made(s.procs[p]) == if p <= done then more else fewer
  }

  lemma PlaceByCalls(rounds: nat, q: Proc)
    requires InLoop(rounds, q)
    ensures q.state.Runnable? <==> Made(q) <= 2 * rounds
    ensures Made(q) <= 2 * rounds + 1
  {
  }

  // One cooperative step from s to s': the caller makes the next call of its script.
  ghost predicate Turn(alg: int, rounds: nat, s: KState, s': KState, log: seq<nat>, log': seq<nat>) {
    && |s'.procs| == |s.procs| && s.current < |s.procs|
    && (forall p :: 0 <= p < |s.procs| ==> Made(s'.procs[p]) == Made(s.procs[p]) + One(p == s.current))
    && (forall p :: RunnableAt(s'.procs, p) <==> 1 <= p < |s'.procs| && Made(s'.procs[p]) <= 2 * rounds)
    && log' == (if ScriptCall(rounds, Made(s.procs[s.current])) == INT_SYS_PRINT then log + [s.current] else log)
    && (alg == ROUND_ROBIN ==> NextRunnable(s'.procs, s.current, s'.current))
    && (alg == STRICT ==> NextRunnable(s'.procs, 0, s'.current))
  }

  lemma CoopStep(alg: int, rounds: nat, chars: seq<Cell>, states: seq<KState>, regs: seq<Regs>, ticks: seq<Tick>,
                 t: nat)
    requires Cooperative(alg, rounds, chars, states, regs, ticks) && t < |regs|
    ensures Turn(alg, rounds, states[t], states[t + 1], Log(states, regs, t), Log(states, regs, t + 1))
  {
    RunShowsLog(alg, rounds, chars, states, regs, ticks, t);
    RunShowsLog(alg, rounds, chars, states, regs, ticks, t + 1);
    EntryOf(alg, rounds, chars, states, regs, ticks, t);
    MadeStep(alg, rounds, chars, states[t], ticks[t], states[t + 1]);
    CallersRunnable(rounds, states[t + 1]);
  }

  lemma CallersRunnable(rounds: nat, s: KState)
    requires Good(s) && AllInLoop(rounds, s.procs)
    ensures forall p :: RunnableAt(s.procs, p) <==> 1 <= p < |s.procs| && Made(s.procs[p]) <= 2 * rounds
  {
    forall p: nat | 1 <= p < |s.procs| ensures RunnableAt(s.procs, p) <==> Made(s.procs[p]) <= 2 * rounds {
      PlaceByCalls(rounds, s.procs[p]);
    }
  }

  /* Algorithm 0 */

  // Prints among the first m calls of an application.
  function PrintsIn(rounds: nat, m: nat): nat {
    if m >= 2 * rounds then rounds else (m + 1) / 2
  }

  // 1, 2, ..., n, 1, 2, ...
  function Turns(n: nat, len: nat): (s: seq<nat>)
    requires 0 < n
    ensures |s| == len
  {
    seq(len, k requires 0 <= k => k % n + 1)
  }

  function LogLength(rounds: nat, n: nat, m: nat, j: nat): nat {
    n * PrintsIn(rounds, m) + (if m % 2 == 0 && m < 2 * rounds then j else 0)
  }

  lemma TurnsGrow(n: nat, q: nat, j: nat)
    requires j < n
    ensures Turns(n, n * q + j + 1) == Turns(n, n * q + j) + [j + 1]
  {
    DivUnique(n * q + j, n, q, j);
  }

  // What call m of process j + 1 adds to the turns.
  lemma NextLogLength(rounds: nat, n: nat, m: nat, j: nat)
    requires j < n && m <= 2 * rounds
    ensures
      var next := if j + 1 < n then LogLength(rounds, n, m, j + 1) else LogLength(rounds, n, m + 1, 0);
      next == LogLength(rounds, n, m, j) + One(ScriptCall(rounds, m) == INT_SYS_PRINT)
    ensures ScriptCall(rounds, m) == INT_SYS_PRINT ==>
      Turns(n, LogLength(rounds, n, m, j) + 1) == Turns(n, LogLength(rounds, n, m, j)) + [j + 1]
  {
    var q := PrintsIn(rounds, m);
    if ScriptCall(rounds, m) == INT_SYS_PRINT {
      TurnsGrow(n, q, j);
      assert n * (q + 1) == n * q + n;
    } else {
      assert PrintsIn(rounds, m + 1) == q;
    }
  }

  // The state and log after m full turns and j more calls.
  ghost predicate AfterTurns(rounds: nat, s: KState, log: seq<nat>, n: nat, m: nat, j: nat)
    requires 0 < n
  {
    && m <= 2 * rounds && j < n && |s.procs| == n + 1
    && Standing(s, j + 1, j, m + 1, m)
    && log == Turns(n, LogLength(rounds, n, m, j))
  }

  lemma NextTurn(rounds: nat, s: KState, s': KState, log: seq<nat>, log': seq<nat>, n: nat, m: nat, j: nat)
    requires 0 < n && Turn(ROUND_ROBIN, rounds, s, s', log, log')
    requires AfterTurns(rounds, s, log, n, m, j)
    ensures if j + 1 < n then AfterTurns(rounds, s', log', n, m, j + 1)
            else AfterTurns(rounds, s', log', n, m + 1, 0)
  {
    NextLogLength(rounds, n, m, j);
    var ps := s'.procs;
    if j + 1 < n {
      assert RunnableAt(ps, j + 2) && Ahead(n + 1, j + 1, j + 2) == 1;
    } else {
      assert RunnableAt(ps, s'.current);
      assert RunnableAt(ps, 1) && Ahead(n + 1, n, 1) == 2;
      assert !RunnableAt(ps, 0);
    }
  }

  lemma TurnAt(rounds: nat, chars: seq<Cell>, states: seq<KState>, regs: seq<Regs>, ticks: seq<Tick>, n: nat,
               t: nat, m: nat, j: nat)
    requires Cooperative(ROUND_ROBIN, rounds, chars, states, regs, ticks)
    requires 0 < n && t < |regs| && AfterTurns(rounds, states[t], Log(states, regs, t), n, m, j)
    ensures if j + 1 < n then AfterTurns(rounds, states[t + 1], Log(states, regs, t + 1), n, m, j + 1)
            else AfterTurns(rounds, states[t + 1], Log(states, regs, t + 1), n, m + 1, 0)
  {
    CoopStep(ROUND_ROBIN, rounds, chars, states, regs, ticks, t);
    NextTurn(rounds, states[t], states[t + 1], Log(states, regs, t), Log(states, regs, t + 1), n, m, j);
  }

  lemma FirstTurn(rounds: nat, s: KState, n: nat)
    requires Booted(s) && 0 < n && |s.procs| == n + 1
    ensures AfterTurns(rounds, s, [], n, 0, 0)
    ensures AfterBlocks(rounds, s, [], 1, 0)
  {
  }

  lemma {:induction false} RoundRobinState(rounds: nat, chars: seq<Cell>, states: seq<KState>, regs: seq<Regs>,
                                           ticks: seq<Tick>, n: nat, t: nat)
    returns (m: nat, j: nat)
    requires Cooperative(ROUND_ROBIN, rounds, chars, states, regs, ticks)
    requires 0 < n && |chars| == n + 1 && t <= |regs|
    ensures t == m * n + j && AfterTurns(rounds, states[t], Log(states, regs, t), n, m, j)
  {
    if t == 0 {
      FirstTurn(rounds, states[0], n);
      m, j := 0, 0;
    } else {
      m, j := RoundRobinState(rounds, chars, states, regs, ticks, n, t - 1);
      TurnAt(rounds, chars, states, regs, ticks, n, t - 1, m, j);
      NextTurnTime(n, m, j);
      if j + 1 < n {
        j := j + 1;
      } else {
        m, j := m + 1, 0;
      }
    }
  }

  lemma NextTurnTime(n: nat, m: nat, j: nat)
    requires j < n
    ensures m * n + j + 1 == if j + 1 < n then m * n + (j + 1) else (m + 1) * n
  {
  }

  // With no clock interrupts algorithm 0 prints 1, 2, ..., n over and over: at every time
  // of the run cell k holds the character of process (k mod n) + 1.
  lemma RoundRobinOutput(rounds: nat, chars: seq<Cell>, states: seq<KState>, regs: seq<Regs>, ticks: seq<Tick>,
                         n: nat, t: nat, k: nat)
    requires Cooperative(ROUND_ROBIN, rounds, chars, states, regs, ticks)
    requires 0 < n && |chars| == n + 1 && t <= |regs| && k < states[t].cursor
    ensures k in states[t].cells && states[t].cells[k] == chars[k % n + 1]
  {
    var m, j := RoundRobinState(rounds, chars, states, regs, ticks, n, t);
    RunShowsLog(ROUND_ROBIN, rounds, chars, states, regs, ticks, t);
  }

  /* Algorithm 2 */

  // rounds copies of 1, then of 2, ...
  function Blocks(rounds: nat, len: nat): (s: seq<nat>)
    ensures |s| == len
  {
    seq(len, k requires 0 <= k => if rounds == 0 then 0 else k / rounds + 1)
  }

  // Process p runs and has made c calls; those below it have exited, the others not begun.
  ghost predicate AfterBlocks(rounds: nat, s: KState, log: seq<nat>, p: nat, c: nat) {
    && 1 <= p < |s.procs| && c <= 2 * rounds && s.current == p
    && (forall q :: 1 <= q < |s.procs| ==>
         Made(s.procs[q]) == if q < p then 2 * rounds + 1 else if q == p then c else 0)
    && log == Blocks(rounds, rounds * (p - 1) + PrintsIn(rounds, c))
  }

  lemma BlocksGrow(rounds: nat, p: nat, c: nat)
    requires 1 <= p && c < rounds
    ensures Blocks(rounds, rounds * (p - 1) + c + 1) == Blocks(rounds, rounds * (p - 1) + c) + [p]
  {
    DivUnique(rounds * (p - 1) + c, rounds, p - 1, c);
  }

  lemma NextBlocks(rounds: nat, p: nat, c: nat)
    requires 1 <= p && c <= 2 * rounds
    ensures
      var len := rounds * (p - 1) + PrintsIn(rounds, c);
      var next :=
        if c < 2 * rounds then rounds * (p - 1) + PrintsIn(rounds, c + 1) else rounds * p + PrintsIn(rounds, 0);
      if ScriptCall(rounds, c) == INT_SYS_PRINT then Blocks(rounds, next) == Blocks(rounds, len) + [p]
      else next == len
  {
    if ScriptCall(rounds, c) == INT_SYS_PRINT {
      BlocksGrow(rounds, p, c / 2);
      assert PrintsIn(rounds, c) == c / 2 && PrintsIn(rounds, c + 1) == c / 2 + 1;
    } else {
      assert rounds * p == rounds * (p - 1) + rounds;
    }
  }

  lemma NextInBlock(rounds: nat, s: KState, s': KState, log: seq<nat>, log': seq<nat>, p: nat, c: nat)
    requires Turn(STRICT, rounds, s, s', log, log') && AfterBlocks(rounds, s, log, p, c)
    ensures if c < 2 * rounds then AfterBlocks(rounds, s', log', p, c + 1)
            else AfterBlocks(rounds, s', log', p + 1, 0)
  {
    NextBlocks(rounds, p, c);
    var ps := s'.procs;
    assert forall q :: 1 <= q < |ps| ==> Ahead(|ps|, 0, q) == q;
    assert RunnableAt(ps, s'.current);
    if c < 2 * rounds {
      assert RunnableAt(ps, p);
    } else {
      assert p < s'.current;
      assert RunnableAt(ps, p + 1);
    }
  }

  lemma BlockAt(rounds: nat, chars: seq<Cell>, states: seq<KState>, regs: seq<Regs>, ticks: seq<Tick>, t: nat,
                p: nat, c: nat)
    requires Cooperative(STRICT, rounds, chars, states, regs, ticks)
    requires t < |regs| && AfterBlocks(rounds, states[t], Log(states, regs, t), p, c)
    ensures if c < 2 * rounds then AfterBlocks(rounds, states[t + 1], Log(states, regs, t + 1), p, c + 1)
            else AfterBlocks(rounds, states[t + 1], Log(states, regs, t + 1), p + 1, 0)
  {
    CoopStep(STRICT, rounds, chars, states, regs, ticks, t);
    NextInBlock(rounds, states[t], states[t + 1], Log(states, regs, t), Log(states, regs, t + 1), p, c);
  }

  lemma {:induction false} StrictState(rounds: nat, chars: seq<Cell>, states: seq<KState>, regs: seq<Regs>,
                                       ticks: seq<Tick>, t: nat)
    returns (p: nat, c: nat)
    requires Cooperative(STRICT, rounds, chars, states, regs, ticks) && t <= |regs|
    ensures AfterBlocks(rounds, states[t], Log(states, regs, t), p, c)
  {
    if t == 0 {
      FirstTurn(rounds, states[0], |chars| - 1);
      p, c := 1, 0;
    } else {
      p, c := StrictState(rounds, chars, states, regs, ticks, t - 1);
      BlockAt(rounds, chars, states, regs, ticks, t - 1, p, c);
      if c < 2 * rounds {
        c := c + 1;
      } else {
        p, c := p + 1, 0;
      }
    }
  }

  // With no clock interrupts algorithm 2 prints the applications one after the other: at
  // every time of the run cell k holds the character of process (k div R) + 1.
  lemma StrictOutput(rounds: nat, chars: seq<Cell>, states: seq<KState>, regs: seq<Regs>, ticks: seq<Tick>, t: nat,
                     k: nat)
    requires Cooperative(STRICT, rounds, chars, states, regs, ticks)
    requires 0 < rounds && t <= |regs| && k < states[t].cursor
    ensures k / rounds + 1 < |chars|
    ensures k in states[t].cells && states[t].cells[k] == chars[k / rounds + 1]
  {
    var p, c := StrictState(rounds, chars, states, regs, ticks, t);
    RunShowsLog(STRICT, rounds, chars, states, regs, ticks, t);
    var log := Log(states, regs, t);
    assert log[k] == k / rounds + 1;
  }

  /* Turnaround */

  // The last of n*R entries that names process i.
  ghost predicate LastEntry(log: seq<nat>, i: nat, k: nat) {
    k < |log| && log[k] == i && forall j :: k < j < |log| ==> log[j] != i
  }

  // Positions of the last entries, counted from 1: n*(R-1)+i in turns, i*R in blocks.
  lemma LastTurn(rounds: nat, n: nat, i: nat)
    requires 0 < rounds && 1 <= i <= n
    ensures LastEntry(Turns(n, n * rounds), i, n * (rounds - 1) + i - 1)
  {
    assert n * rounds == n * (rounds - 1) + n;
    var k := n * (rounds - 1) + i - 1;
    forall j | k <= j < n * rounds ensures j % n == i - 1 + (j - k) {
      DivUnique(j, n, rounds - 1, i - 1 + (j - k));
    }
  }

  lemma LastInBlock(rounds: nat, n: nat, i: nat)
    requires 0 < rounds && 1 <= i <= n
    ensures LastEntry(Blocks(rounds, n * rounds), i, i * rounds - 1)
  {
    var l := i * rounds - 1;
    assert l == (i - 1) * rounds + (rounds - 1);
    DivUnique(l, rounds, i - 1, rounds - 1);
    MulGrows(i, n, rounds);
    forall j | l < j < n * rounds ensures j / rounds >= i {
      LaterBlock(rounds, i, j);
    }
  }

  lemma LaterBlock(rounds: nat, i: nat, j: nat)
    requires 0 < rounds && i * rounds <= j
    ensures j / rounds >= i
  {
    var q := j / rounds;
    assert (q + 1) * rounds == q * rounds + rounds;
    if q < i {
      MulGrows(q + 1, i, rounds);
    }
  }

  // The last call of the run leaves nothing runnable.
  ghost predicate Halts(alg: int, rounds: nat, chars: seq<Cell>, states: seq<KState>, regs: seq<Regs>,
                        ticks: seq<Tick>) {
    && Cooperative(alg, rounds, chars, states, regs, ticks)
    && var s := states[|regs|];
       && s.current < |chars| && |s.procs| == |chars|
       && !AnyRunnable(Final(rounds, chars, s).procs)
  }

  // The kernel state the last call leaves.
  function Final(rounds: nat, chars: seq<Cell>, s: KState): KState
    requires s.current < |chars| && |s.procs| == |chars|
  {
    Handle(s, Entry(rounds, chars, s, Call))
  }

  // Such runs exist: from every booted state under each of the five algorithms.
  lemma HaltingRunExists(alg: int, rounds: nat, chars: seq<Cell>, s: KState)
    returns (states: seq<KState>, regs: seq<Regs>, ticks: seq<Tick>)
    requires Booted(s) && |chars| == |s.procs| < WORD
    requires alg in {ROUND_ROBIN, STRICT, PRIORITY, SHARE, LOTTERY}
    ensures Halts(alg, rounds, chars, states, regs, ticks) && states[0] == s
  {
    states, regs, ticks := Finishing.RunCanComplete(alg, rounds, chars, [s], [], []);
  }

  lemma HaltedLog(alg: int, rounds: nat, chars: seq<Cell>, states: seq<KState>, regs: seq<Regs>, ticks: seq<Tick>,
                  n: nat)
    requires Halts(alg, rounds, chars, states, regs, ticks) && 0 < n && |chars| == n + 1
    ensures var h := Final(rounds, chars, states[|regs|]);
      h.cursor == n * rounds && Shows(chars, h.cells, h.cursor, Log(states, regs, |regs|))
  {
    Completion(alg, rounds, chars, states, regs, ticks, Call);
  }

  lemma IsTurns(rounds: nat, s: KState, log: seq<nat>, n: nat, m: nat, j: nat)
    requires 0 < n && AfterTurns(rounds, s, log, n, m, j)
    ensures log == Turns(n, |log|)
  {
  }

  lemma IsBlocks(rounds: nat, s: KState, log: seq<nat>, p: nat, c: nat)
    requires AfterBlocks(rounds, s, log, p, c)
    ensures log == Blocks(rounds, |log|)
  {
  }

  // Algorithm 0 without clock interrupts, at the end: the prints are 1, 2, ..., n over and
  // over, R times.
  lemma RoundRobinFinalLog(rounds: nat, chars: seq<Cell>, states: seq<KState>, regs: seq<Regs>, ticks: seq<Tick>,
                           n: nat)
    requires Halts(ROUND_ROBIN, rounds, chars, states, regs, ticks) && 0 < n && |chars| == n + 1
    ensures Log(states, regs, |regs|) == Turns(n, n * rounds)
  {
    var m, j := RoundRobinState(rounds, chars, states, regs, ticks, n, |regs|);
    IsTurns(rounds, states[|regs|], Log(states, regs, |regs|), n, m, j);
    HaltedLog(ROUND_ROBIN, rounds, chars, states, regs, ticks, n);
  }

  // So cell k shows process (k mod n) + 1, for all k < n*R.
  lemma RoundRobinFinalCell(rounds: nat, chars: seq<Cell>, states: seq<KState>, regs: seq<Regs>, ticks: seq<Tick>,
                            n: nat, k: nat)
    requires Halts(ROUND_ROBIN, rounds, chars, states, regs, ticks) && 0 < n && |chars| == n + 1
    requires k < n * rounds
    ensures var h := Final(rounds, chars, states[|regs|]);
      k in h.cells && h.cells[k] == chars[k % n + 1]
  {
    RoundRobinFinalLog(rounds, chars, states, regs, ticks, n);
    HaltedLog(ROUND_ROBIN, rounds, chars, states, regs, ticks, n);
    assert Turns(n, n * rounds)[k] == k % n + 1;
  }

  // And process i makes its last print at position n*(R-1)+i.
  lemma RoundRobinTurnaround(rounds: nat, chars: seq<Cell>, states: seq<KState>, regs: seq<Regs>, ticks: seq<Tick>,
                             n: nat, i: nat)
    requires Halts(ROUND_ROBIN, rounds, chars, states, regs, ticks) && |chars| == n + 1
    requires 0 < rounds && 1 <= i <= n
    ensures LastEntry(Log(states, regs, |regs|), i, n * (rounds - 1) + i - 1)
  {
    RoundRobinFinalLog(rounds, chars, states, regs, ticks, n);
    LastTurn(rounds, n, i);
  }

  // Algorithm 2 without clock interrupts, at the end: R times 1, then R times 2, and so on.
  lemma StrictFinalLog(rounds: nat, chars: seq<Cell>, states: seq<KState>, regs: seq<Regs>, ticks: seq<Tick>, n: nat)
    requires Halts(STRICT, rounds, chars, states, regs, ticks) && 0 < n && |chars| == n + 1
    ensures Log(states, regs, |regs|) == Blocks(rounds, n * rounds)
  {
    var p, c := StrictState(rounds, chars, states, regs, ticks, |regs|);
    IsBlocks(rounds, states[|regs|], Log(states, regs, |regs|), p, c);
    HaltedLog(STRICT, rounds, chars, states, regs, ticks, n);
  }

  // So cell k shows process (k div R) + 1, for all k < n*R.
  lemma StrictFinalCell(rounds: nat, chars: seq<Cell>, states: seq<KState>, regs: seq<Regs>, ticks: seq<Tick>,
                        n: nat, k: nat)
    requires Halts(STRICT, rounds, chars, states, regs, ticks) && 0 < n && |chars| == n + 1
    requires 0 < rounds && k < n * rounds
    ensures k / rounds + 1 <= n
    ensures var h := Final(rounds, chars, states[|regs|]);
      k in h.cells && h.cells[k] == chars[k / rounds + 1]
  {
    StrictFinalLog(rounds, chars, states, regs, ticks, n);
    HaltedLog(STRICT, rounds, chars, states, regs, ticks, n);
    assert Blocks(rounds, n * rounds)[k] == k / rounds + 1;
  }

  // And process i makes its last print at position i*R.
  lemma StrictTurnaround(rounds: nat, chars: seq<Cell>, states: seq<KState>, regs: seq<Regs>, ticks: seq<Tick>,
                         n: nat, i: nat)
    requires Halts(STRICT, rounds, chars, states, regs, ticks) && |chars| == n + 1
    requires 0 < rounds && 1 <= i <= n
    ensures LastEntry(Log(states, regs, |regs|), i, i * rounds - 1)
  {
    StrictFinalLog(rounds, chars, states, regs, ticks, n);
    LastInBlock(rounds, n, i);
  }
}
