// Whole runs of the kernel: any programs, any interrupts, in any order.
module Runs {
  import opened Machine
  import opened Cyclic
  import opened Processes
  import opened Steps

  // regs[i] are the registers with which process states[i].current enters the kernel.
  ghost predicate Run(alg: int, states: seq<KState>, regs: seq<Regs>) {
    && |states| == |regs| + 1
    && Good(states[0])
    && forall i: nat :: StepAt(alg, states, regs, i)
  }

  ghost predicate StepAt(alg: int, states: seq<KState>, regs: seq<Regs>, i: nat)
    requires |states| == |regs| + 1
  {
    i < |regs| ==> Step(alg, states[i], regs[i], states[i + 1])
  }

  lemma StepOf(alg: int, states: seq<KState>, regs: seq<Regs>, i: nat)
    requires Run(alg, states, regs) && i < |regs|
    ensures Step(alg, states[i], regs[i], states[i + 1])
  {
    assert StepAt(alg, states, regs, i);
  }

  // How often p was dispatched by the steps that lead from states[lo] to states[hi].
  function Count(states: seq<KState>, p: nat, lo: nat, hi: nat): (c: nat)
    requires lo <= hi < |states|
    ensures c <= hi - lo
  {
    if lo == hi then 0
    else Count(states, p, lo, hi - 1) + (if states[hi].current == p then 1 else 0)
  }

  lemma {:induction false} EveryStateIsGood(alg: int, states: seq<KState>, regs: seq<Regs>, i: nat)
    requires Run(alg, states, regs) && i < |states|
    ensures Good(states[i]) && |states[i].procs| == |states[0].procs|
  {
    if i == 0 {
    } else {
      EveryStateIsGood(alg, states, regs, i - 1);
      StepOf(alg, states, regs, i - 1);
      StepKeepsGood(alg, states[i - 1], regs[i - 1], states[i]);
      StepNeverRevives(alg, states[i - 1], regs[i - 1], states[i]);
    }
  }

  // What is runnable late in a run was runnable all along.
  lemma {:induction false} RunnableBefore(alg: int, states: seq<KState>, regs: seq<Regs>, i: nat, j: nat, p: nat)
    requires Run(alg, states, regs) && i <= j < |states|
    requires RunnableAt(states[j].procs, p)
    ensures RunnableAt(states[i].procs, p)
    decreases j
  {
    if i == j {
    } else {
      EveryStateIsGood(alg, states, regs, j - 1);
      StepOf(alg, states, regs, j - 1);
      StepNeverRevives(alg, states[j - 1], regs[j - 1], states[j]);
      RunnableBefore(alg, states, regs, i, j - 1, p);
    }
  }

  lemma {:induction false} ExitedForGood(alg: int, states: seq<KState>, regs: seq<Regs>, i: nat, j: nat, p: nat)
    requires Run(alg, states, regs) && i <= j < |states|
    requires p < |states[i].procs| && states[i].procs[p].state.Zombie?
    ensures p < |states[j].procs| && states[j].procs[p].state.Zombie?
    ensures states[j].procs[p].exitStatus == states[i].procs[p].exitStatus
    decreases j
  {
    if i == j {
    } else {
      ExitedForGood(alg, states, regs, i, j - 1, p);
      EveryStateIsGood(alg, states, regs, j - 1);
      StepOf(alg, states, regs, j - 1);
      StepNeverRevives(alg, states[j - 1], regs[j - 1], states[j]);
    }
  }

  // p is not dispatched between states i and j.
  ghost predicate Away(states: seq<KState>, p: nat, i: nat, j: nat) {
    i < j < |states| && forall k :: i < k < j ==> states[k].current != p
  }

  // A process gets back the registers with which it last entered the kernel, whatever the
  // others did in between.
  lemma RegistersRestored(alg: int, states: seq<KState>, regs: seq<Regs>, p: nat, i: nat, j: nat)
    requires Run(alg, states, regs) && Away(states, p, i, j)
    requires states[i].current == p && states[j].current == p
    ensures states[j].cpu == regs[i]
  {
    RegistersKept(alg, states, regs, p, i, j);
    EveryStateIsGood(alg, states, regs, j);
  }

  lemma {:induction false} RegistersKept(alg: int, states: seq<KState>, regs: seq<Regs>, p: nat, i: nat, j: nat)
    requires Run(alg, states, regs) && Away(states, p, i, j) && states[i].current == p
    ensures p < |states[j].procs| && states[j].procs[p].regs == regs[i]
    decreases j
  {
    EveryStateIsGood(alg, states, regs, j - 1);
    StepOf(alg, states, regs, j - 1);
    var h := Handle(states[j - 1], regs[j - 1]);
    DispatchKeeps(alg, h.procs, h.current, states[j].current, states[j].procs);
    if i + 1 < j {
      RegistersKept(alg, states, regs, p, i, j - 1);
    }
  }

  /* Taking turns: algorithms 0 and 4A */

  function Dist(n: nat, forward: bool, a: nat, b: nat): nat
    requires a < n && b < n
  {
    if forward then Ahead(n, a, b) else Behind(n, a, b)
  }

  // Whether p comes before q on the walk that starts at a.
  function Sooner(n: nat, forward: bool, a: nat, p: nat, q: nat): (d: int)
    requires a < n && p < n && q < n
    ensures 0 <= d <= 1
  {
    if Dist(n, forward, a, p) < Dist(n, forward, a, q) then 1 else 0
  }

  // A move to the nearest of a group of slots swaps whose turn it is exactly when it is
  // a move to p or to q.
  lemma TurnTaken(n: nat, forward: bool, a: nat, c: nat, p: nat, q: nat)
    requires a < n && c < n && p < n && q < n && p != q
    requires Dist(n, forward, a, c) <= Dist(n, forward, a, p)
    requires Dist(n, forward, a, c) <= Dist(n, forward, a, q)
    ensures One(c == p) - One(c == q) == Sooner(n, forward, a, p, q) - Sooner(n, forward, c, p, q)
  {
  }

  // Round robin: over any stretch of a run two processes that are still runnable at its
  // end were dispatched equally often, or once more the one whose turn came first.
  lemma {:induction false} RoundRobinBalance(states: seq<KState>, regs: seq<Regs>, p: nat, q: nat, lo: nat, hi: nat)
    requires Run(ROUND_ROBIN, states, regs) && lo <= hi < |states| && p != q
    requires RunnableAt(states[hi].procs, p) && RunnableAt(states[hi].procs, q)
    ensures states[lo].current < |states[lo].procs| == |states[hi].procs|
    ensures states[hi].current < |states[hi].procs|
    ensures var n := |states[lo].procs|;
      Count(states, p, lo, hi) - Count(states, q, lo, hi) ==
      Sooner(n, true, states[lo].current, p, q) - Sooner(n, true, states[hi].current, p, q)
    decreases hi
  {
    EveryStateIsGood(ROUND_ROBIN, states, regs, lo);
    EveryStateIsGood(ROUND_ROBIN, states, regs, hi);
    if lo == hi {
    } else {
      EveryStateIsGood(ROUND_ROBIN, states, regs, hi - 1);
      RunnableBefore(ROUND_ROBIN, states, regs, hi - 1, hi, p);
      RunnableBefore(ROUND_ROBIN, states, regs, hi - 1, hi, q);
      RoundRobinBalance(states, regs, p, q, lo, hi - 1);
      StepOf(ROUND_ROBIN, states, regs, hi - 1);
      TurnTaken(|states[hi].procs|, true, states[hi - 1].current, states[hi].current, p, q);
    }
  }

  lemma RoundRobinWindow(states: seq<KState>, regs: seq<Regs>, p: nat, q: nat, lo: nat, hi: nat)
    requires Run(ROUND_ROBIN, states, regs) && lo <= hi < |states|
    requires RunnableAt(states[hi].procs, p) && RunnableAt(states[hi].procs, q)
    ensures -1 <= Count(states, p, lo, hi) - Count(states, q, lo, hi) <= 1
  {
    if p != q {
      RoundRobinBalance(states, regs, p, q, lo, hi);
    }
  }

  // Between two consecutive dispatches of p every other process that is still runnable
  // is dispatched exactly once.
  lemma RoundRobinAlternates(states: seq<KState>, regs: seq<Regs>, p: nat, q: nat, i: nat, j: nat)
    requires Run(ROUND_ROBIN, states, regs) && i < j < |states| && p != q
    requires states[i].current == p && states[j].current == p && Count(states, p, i, j) == 1
    requires RunnableAt(states[j].procs, q)
    ensures Count(states, q, i, j) == 1
  {
    EveryStateIsGood(ROUND_ROBIN, states, regs, j);
    RoundRobinBalance(states, regs, p, q, i, j);
  }

  // Strict priority: the dispatched pids never decrease.
  lemma StrictNondecreasing(states: seq<KState>, regs: seq<Regs>, i: nat, j: nat)
    requires Run(STRICT, states, regs) && 1 <= i <= j < |states|
    ensures states[i].current <= states[j].current
  {
    EveryStateIsGood(STRICT, states, regs, i - 1);
    EveryStateIsGood(STRICT, states, regs, i);
    EveryStateIsGood(STRICT, states, regs, j);
    RunnableBefore(STRICT, states, regs, i, j, states[j].current);
    StepOf(STRICT, states, regs, i - 1);
    assert NextRunnable(states[i].procs, 0, states[i].current);
  }

  /* Algorithm 4A */

  // From a runnable process the choice is its nearest predecessor among the tied best,
  // and itself only when it is the sole one.
  lemma PriorityTie(ps: seq<Proc>, cur: nat, p: nat)
    requires RunnableAt(ps, cur) && PriorityChoice(ps, cur, p)
    ensures LastBest(ps, cur, p)
    ensures p == cur ==> forall q :: Best(ps, q) ==> q == cur
  {
    var s: nat :| PassStart(ps, cur, s) && LastBest(ps, s, p);
    assert Opens(ps, cur) && Position(|ps|, cur, cur) == 0;
    assert s == cur;
  }

  // No process exits or changes its priority from state lo to state hi.
  ghost predicate Steady(states: seq<KState>, regs: seq<Regs>, lo: nat, hi: nat) {
    && lo <= hi <= |regs|
    && forall i :: lo <= i < hi ==>
         regs[i].intno != INT_SYS_EXIT && regs[i].intno != INT_SYS_PRIORITY
  }

  ghost predicate SameRanks(ps: seq<Proc>, ps': seq<Proc>) {
    && |ps| == |ps'|
    && forall p :: 0 <= p < |ps| ==> ps'[p].state == ps[p].state && ps'[p].priority == ps[p].priority
  }

  // What 4A dispatches is a best process.
  lemma DispatchedIsBest(states: seq<KState>, regs: seq<Regs>, i: nat)
    requires Run(PRIORITY, states, regs) && 1 <= i < |states|
    ensures Best(states[i].procs, states[i].current)
  {
    EveryStateIsGood(PRIORITY, states, regs, i - 1);
    StepOf(PRIORITY, states, regs, i - 1);
  }

  // Once a best process runs, only best processes are dispatched, each at its turn.
  lemma {:induction false} TiedTakeTurns(states: seq<KState>, regs: seq<Regs>, lo: nat, hi: nat)
    requires Run(PRIORITY, states, regs) && Steady(states, regs, lo, hi)
    requires 1 <= lo || Best(states[lo].procs, states[lo].current)
    ensures SameRanks(states[lo].procs, states[hi].procs)
    ensures Best(states[lo].procs, states[hi].current)
    ensures lo < hi ==> states[hi - 1].current < |states[lo].procs|
    ensures lo < hi ==> LastBest(states[lo].procs, states[hi - 1].current, states[hi].current)
    decreases hi
  {
    if lo == hi {
      if 1 <= lo {
        DispatchedIsBest(states, regs, lo);
      }
    } else {
      TiedTakeTurns(states, regs, lo, hi - 1);
      EveryStateIsGood(PRIORITY, states, regs, hi - 1);
      StepOf(PRIORITY, states, regs, hi - 1);
      var s, s' := states[hi - 1], states[hi];
      var h := Handle(s, regs[hi - 1]);
      assert SameRanks(s.procs, h.procs);
      PriorityTie(h.procs, h.current, s'.current);
      SameRanksSameBest(states[lo].procs, h.procs, h.current, s'.current);
    }
  }

  lemma SameRanksSameBest(ps: seq<Proc>, ps': seq<Proc>, cur: nat, p: nat)
    requires SameRanks(ps, ps') && cur < |ps| && LastBest(ps', cur, p)
    ensures LastBest(ps, cur, p)
    ensures forall q :: Best(ps, q) <==> Best(ps', q)
  {
    forall q ensures Best(ps, q) <==> Best(ps', q) {
      forall r ensures RunnableAt(ps, r) <==> RunnableAt(ps', r) {
      }
    }
  }

  lemma {:induction false} TiedBalance(states: seq<KState>, regs: seq<Regs>, p: nat, q: nat, lo: nat, hi: nat)
    requires Run(PRIORITY, states, regs) && Steady(states, regs, lo, hi)
    requires 1 <= lo || Best(states[lo].procs, states[lo].current)
    requires Best(states[lo].procs, p) && Best(states[lo].procs, q) && p != q
    ensures states[lo].current < |states[lo].procs| && states[hi].current < |states[lo].procs|
    ensures var n := |states[lo].procs|;
      Count(states, p, lo, hi) - Count(states, q, lo, hi) ==
      Sooner(n, false, states[lo].current, p, q) - Sooner(n, false, states[hi].current, p, q)
    decreases hi
  {
    TiedTakeTurns(states, regs, lo, lo);
    TiedTakeTurns(states, regs, lo, hi);
    if lo == hi {
    } else {
      TiedBalance(states, regs, p, q, lo, hi - 1);
      TiedTakeTurns(states, regs, lo, hi - 1);
      TiedTurn(states[lo].procs, states[hi - 1].current, states[hi].current, p, q);
    }
  }

  lemma TiedTurn(ps: seq<Proc>, cur: nat, c: nat, p: nat, q: nat)
    requires cur < |ps| && LastBest(ps, cur, c) && Best(ps, p) && Best(ps, q) && p != q
    ensures One(c == p) - One(c == q) ==
      Sooner(|ps|, false, cur, p, q) - Sooner(|ps|, false, c, p, q)
  {
    TurnTaken(|ps|, false, cur, c, p, q);
  }

  // The number of best processes among slots 0 to i-1, and their dispatches in all.
  ghost function BestBelow(ps: seq<Proc>, i: nat): (k: nat)
    requires i <= |ps|
  {
    if i == 0 then 0 else BestBelow(ps, i - 1) + One(Best(ps, i - 1))
  }

  ghost function BestDispatches(states: seq<KState>, i: nat, lo: nat, hi: nat): (k: nat)
    requires lo <= hi < |states| && i <= |states[lo].procs|
  {
    if i == 0 then 0 else
      var c := if Best(states[lo].procs, i - 1) then Count(states, i - 1, lo, hi) else 0;
      BestDispatches(states, i - 1, lo, hi) + c
  }

  lemma {:induction false} OneMoreDispatch(states: seq<KState>, i: nat, lo: nat, hi: nat)
    requires lo < hi < |states| && i <= |states[lo].procs|
    ensures BestDispatches(states, i, lo, hi) == BestDispatches(states, i, lo, hi - 1) +
      One(states[hi].current < i && Best(states[lo].procs, states[hi].current))
  {
    if i == 0 {
    } else {
      OneMoreDispatch(states, i - 1, lo, hi);
    }
  }

  lemma {:induction false} NoDispatchYet(states: seq<KState>, i: nat, lo: nat)
    requires lo < |states| && i <= |states[lo].procs|
    ensures BestDispatches(states, i, lo, lo) == 0
  {
    if i == 0 {
    } else {
      NoDispatchYet(states, i - 1, lo);
    }
  }

  lemma {:induction false} AllDispatchesAreBest(states: seq<KState>, regs: seq<Regs>, lo: nat, hi: nat)
    requires Run(PRIORITY, states, regs) && Steady(states, regs, lo, hi)
    requires 1 <= lo || Best(states[lo].procs, states[lo].current)
    ensures BestDispatches(states, |states[lo].procs|, lo, hi) == hi - lo
    decreases hi
  {
    if lo == hi {
      NoDispatchYet(states, |states[lo].procs|, lo);
    } else {
      AllDispatchesAreBest(states, regs, lo, hi - 1);
      OneMoreDispatch(states, |states[lo].procs|, lo, hi);
      TiedTakeTurns(states, regs, lo, hi);
    }
  }

  // With counts that differ by at most one from that of p, the total shows what p has.
  lemma {:induction false} TotalNear(states: seq<KState>, i: nat, lo: nat, hi: nat, p: nat)
    requires lo <= hi < |states| && i <= |states[lo].procs| && Best(states[lo].procs, p)
    requires forall q: nat :: Best(states[lo].procs, q) ==>
      -1 <= Count(states, q, lo, hi) - Count(states, p, lo, hi) <= 1
    ensures Count(states, p, lo, hi) == 0 ==>
      BestDispatches(states, i, lo, hi) <= BestBelow(states[lo].procs, i) - One(p < i)
    ensures Count(states, p, lo, hi) >= 2 ==>
      BestDispatches(states, i, lo, hi) >= BestBelow(states[lo].procs, i) + One(p < i)
  {
    if i == 0 {
    } else {
      TotalNear(states, i - 1, lo, hi, p);
    }
  }

  // Every k consecutive dispatches give each of the k tied best processes exactly one.
  lemma TiedRotate(states: seq<KState>, regs: seq<Regs>, lo: nat, hi: nat, p: nat)
    requires Run(PRIORITY, states, regs) && Steady(states, regs, lo, hi)
    requires 1 <= lo || Best(states[lo].procs, states[lo].current)
    requires hi - lo == BestBelow(states[lo].procs, |states[lo].procs|)
    requires Best(states[lo].procs, p)
    ensures Count(states, p, lo, hi) == 1
  {
    forall q: nat | Best(states[lo].procs, q)
      ensures -1 <= Count(states, q, lo, hi) - Count(states, p, lo, hi) <= 1
    {
      if q != p {
        TiedBalance(states, regs, q, p, lo, hi);
      }
    }
    AllDispatchesAreBest(states, regs, lo, hi);
    TotalNear(states, |states[lo].procs|, lo, hi, p);
  }
}
