// Every run of the applications, however many clock ticks it has had, can be continued to
// its completion.
module Finishing {
  import opened Machine
  import opened Processes
  import opened Steps
  import opened Runs
  import opened Apps

  lemma AppRunAppend(alg: int, rounds: nat, chars: seq<Cell>,
                     states: seq<KState>, regs: seq<Regs>, ticks: seq<Tick>, tick: Tick, s': KState)
    requires AppRun(alg, rounds, chars, states, regs, ticks)
    requires states[|regs|].current < |chars|
    requires Step(alg, states[|regs|], Entry(rounds, chars, states[|regs|], tick), s')
    ensures AppRun(alg, rounds, chars, states + [s'],
                   regs + [Entry(rounds, chars, states[|regs|], tick)], ticks + [tick])
  {
    var states', regs' := states + [s'], regs + [Entry(rounds, chars, states[|regs|], tick)];
    var ticks' := ticks + [tick];
    forall i: nat ensures StepAt(alg, states', regs', i) {
      if i < |regs| {
        StepOf(alg, states, regs, i);
      }
    }
    forall i: nat ensures EntryAt(rounds, chars, states', regs', ticks', i) {
      if i < |regs| {
        assert EntryAt(rounds, chars, states, regs, ticks, i);
      }
    }
  }

  // The last call of the run leaves the system completed.
  ghost predicate EndsCompleted(rounds: nat, chars: seq<Cell>, states: seq<KState>, regs: seq<Regs>)
    requires |states| == |regs| + 1
  {
    var s := states[|regs|];
    && s.current < |chars| && |s.procs| == |chars|
    && var h := Handle(s, Entry(rounds, chars, s, Call));
       !AnyRunnable(h.procs) && Completed(rounds, chars, h, Log(states, regs, |regs|))
  }

  // Every run, however many clock ticks it has had, can be continued by calls alone to one
  // that completes, under each of the five algorithms.
  lemma {:induction false} RunCanComplete(alg: int, rounds: nat, chars: seq<Cell>,
                                          states: seq<KState>, regs: seq<Regs>, ticks: seq<Tick>)
    returns (states': seq<KState>, regs': seq<Regs>, ticks': seq<Tick>)
    requires AppRun(alg, rounds, chars, states, regs, ticks) && |chars| < WORD
    requires alg in {ROUND_ROBIN, STRICT, PRIORITY, SHARE, LOTTERY}
    ensures AppRun(alg, rounds, chars, states', regs', ticks')
    ensures states <= states' && regs <= regs' && ticks <= ticks'
    ensures forall i :: |ticks| <= i < |ticks'| ==> ticks'[i] == Call
    ensures EndsCompleted(rounds, chars, states', regs')
    decreases (|chars| - 1) * (2 * rounds + 1) - CallCount(ticks, |ticks|)
  {
    HaltedMeansCompleted(alg, rounds, chars, states, regs, ticks, Call);
    if CanCall(alg, rounds, chars, states, regs) {
      states', regs', ticks' := CallOnce(alg, rounds, chars, states, regs, ticks);
      states', regs', ticks' := RunCanComplete(alg, rounds, chars, states', regs', ticks');
    } else {
      states', regs', ticks' := states, regs, ticks;
    }
  }

  ghost predicate CanCall(alg: int, rounds: nat, chars: seq<Cell>, states: seq<KState>, regs: seq<Regs>)
    requires |states| == |regs| + 1 && states[|regs|].current < |chars|
  {
    exists s' :: Step(alg, states[|regs|], Entry(rounds, chars, states[|regs|], Call), s')
  }

  lemma CallOnce(alg: int, rounds: nat, chars: seq<Cell>,
                    states: seq<KState>, regs: seq<Regs>, ticks: seq<Tick>)
    returns (states': seq<KState>, regs': seq<Regs>, ticks': seq<Tick>)
    requires AppRun(alg, rounds, chars, states, regs, ticks) && states[|regs|].current < |chars|
    requires CanCall(alg, rounds, chars, states, regs)
    ensures AppRun(alg, rounds, chars, states', regs', ticks')
    ensures states <= states' && regs <= regs' && ticks' == ticks + [Call]
    ensures CallCount(ticks', |ticks'|) == CallCount(ticks, |ticks|) + 1
    ensures CallCount(ticks', |ticks'|) <= (|chars| - 1) * (2 * rounds + 1)
  {
    var reg := Entry(rounds, chars, states[|regs|], Call);
    var s' :| Step(alg, states[|regs|], reg, s');
    AppRunAppend(alg, rounds, chars, states, regs, ticks, Call, s');
    states', regs', ticks' := states + [s'], regs + [reg], ticks + [Call];
    SameCallCount(ticks, [Call], |ticks|);
    CallsAreBounded(alg, rounds, chars, states', regs', ticks');
  }

  lemma {:induction false} SameCallCount(ticks: seq<Tick>, more: seq<Tick>, t: nat)
    requires t <= |ticks|
    ensures CallCount(ticks + more, t) == CallCount(ticks, t)
  {
    if t == 0 {
    } else {
      SameCallCount(ticks, more, t - 1);
    }
  }
}
