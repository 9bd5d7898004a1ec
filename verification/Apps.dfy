// The applications on top of the kernel, in the variant that prints by system call. An
// application is the sequence of its entries into the kernel: between two of them it only
// touches its own registers, which the kernel saves and restores.
module Apps {
  import opened Machine
  import opened Processes
  import opened Steps
  import opened Runs
  import opened PrintLog

  datatype Tick = Call | Clock

  // The registers with which an application that stands at `cpu` makes its next call, for
  // a loop of `rounds` iterations printing c.
  function AppCall(rounds: nat, c: Cell, cpu: Regs): Regs {
    match cpu.frame.point
    case Head =>
      if cpu.frame.i < rounds
      then Regs(INT_SYS_PRINT, c, Frame(Printed, cpu.frame.i))
      else Regs(INT_SYS_EXIT, 0, cpu.frame)
    case Printed => Regs(INT_SYS_YIELD, cpu.eax, Frame(Head, cpu.frame.i + 1))
  }

  function Entry(rounds: nat, chars: seq<Cell>, s: KState, tick: Tick): Regs
    requires s.current < |chars|
  {
    if tick.Clock? then s.cpu.(intno := INT_CLOCK)
    else AppCall(rounds, chars[s.current], s.cpu)
  }

  // A run in which every entry is a clock tick or the next call of the running application.
  ghost predicate AppRun(alg: int, rounds: nat, chars: seq<Cell>, states: seq<KState>, regs: seq<Regs>,
                         ticks: seq<Tick>) {
    && Run(alg, states, regs)
    && |ticks| == |regs|
    && Booted(states[0]) && |chars| == |states[0].procs|
    && forall i: nat :: EntryAt(rounds, chars, states, regs, ticks, i)
  }

  ghost predicate EntryAt(rounds: nat, chars: seq<Cell>, states: seq<KState>, regs: seq<Regs>, ticks: seq<Tick>, i: nat)
    requires |states| == |regs| + 1 && |ticks| == |regs|
  {
    i < |regs| && states[i].current < |chars| ==> regs[i] == Entry(rounds, chars, states[i], ticks[i])
  }

  /* The script of an application */

  // Call number m of an application, counted from 0.
  function ScriptCall(rounds: nat, m: nat): int {
    if m >= 2 * rounds then INT_SYS_EXIT else if m % 2 == 0 then INT_SYS_PRINT else INT_SYS_YIELD
  }

  // rounds times print then yield, then exit.
  function Script(rounds: nat): (s: seq<int>)
    ensures |s| == 2 * rounds + 1
  {
    seq(2 * rounds + 1, m requires 0 <= m => ScriptCall(rounds, m))
  }

  // The calls a process has made, read off its saved place.
  function Made(q: Proc): nat {
    2 * q.regs.frame.i + (if q.regs.frame.point.Printed? then 1 else 0) + (if q.state.Zombie? then 1 else 0)
  }

  function Prints(q: Proc): nat {
    q.regs.frame.i + (if q.regs.frame.point.Printed? then 1 else 0)
  }

  // A place the loop can reach.
  predicate InLoop(rounds: nat, q: Proc) {
    var f := q.regs.frame;
    match q.state
    case Runnable => f.i < rounds || (f.i == rounds && f.point.Head?)
    case Zombie => f == Frame(Head, rounds) && q.exitStatus == 0
    case _ => false
  }

  ghost predicate AllInLoop(rounds: nat, ps: seq<Proc>) {
    forall p :: 1 <= p < |ps| ==> InLoop(rounds, ps[p]) && ps[p].shareAmt == ps[p].lotteryAmt == 1
  }

  // What one entry changes: only the caller's place, by one call of its script, and the
  // console by the printed cell.
  lemma EntryStep(rounds: nat, chars: seq<Cell>, s: KState, tick: Tick)
    requires Good(s) && AllInLoop(rounds, s.procs) && |chars| == |s.procs|
    ensures var reg := Entry(rounds, chars, s, tick);
      var h := Handle(s, reg);
      && KnownInterrupt(reg.intno)
      && AllInLoop(rounds, h.procs)
      && (tick.Clock? ==> Made(h.procs[s.current]) == Made(s.procs[s.current]))
      && (tick.Call? ==>
        && Made(h.procs[s.current]) == Made(s.procs[s.current]) + 1
        && reg.intno == ScriptCall(rounds, Made(s.procs[s.current])))
      && (forall p :: 0 <= p < |s.procs| && p != s.current ==> h.procs[p] == s.procs[p])
      && Prints(h.procs[s.current]) == Prints(s.procs[s.current]) + One(reg.intno == INT_SYS_PRINT)
      && h.cursor == s.cursor + One(reg.intno == INT_SYS_PRINT)
      && h.cells == if reg.intno == INT_SYS_PRINT then s.cells[s.cursor := chars[s.current]] else s.cells
  {
    assert RunnableAt(s.procs, s.current) && 1 <= s.current;
  }

  // The processes that printed, in order, up to state t.
  ghost function Log(states: seq<KState>, regs: seq<Regs>, t: nat): (log: seq<nat>)
    requires t <= |regs| < |states|
  {
    if t == 0 then []
    else if regs[t - 1].intno == INT_SYS_PRINT then Log(states, regs, t - 1) + [states[t - 1].current]
    else Log(states, regs, t - 1)
  }

  // The system calls of p up to state t.
  ghost function CallsOf(states: seq<KState>, regs: seq<Regs>, p: nat, t: nat): (calls: seq<int>)
    requires t <= |regs| < |states|
  {
    if t == 0 then []
    else if states[t - 1].current == p && regs[t - 1].intno != INT_CLOCK
    then CallsOf(states, regs, p, t - 1) + [regs[t - 1].intno]
    else CallsOf(states, regs, p, t - 1)
  }

  ghost predicate Tally(ps: seq<Proc>, log: seq<nat>) {
    forall p: nat :: 1 <= p < |ps| ==> multiset(log)[p] == Prints(ps[p])
  }

  // One step of a run of applications keeps all of it.
  ghost predicate Consistent(rounds: nat, chars: seq<Cell>, s: KState, log: seq<nat>) {
    && Good(s) && |chars| == |s.procs|
    && AllInLoop(rounds, s.procs)
    && Shows(chars, s.cells, s.cursor, log)
    && Tally(s.procs, log)
  }

  // The same after the dispatch: one call more for the caller.
  lemma MadeStep(alg: int, rounds: nat, chars: seq<Cell>, s: KState, tick: Tick, s': KState)
    requires Good(s) && AllInLoop(rounds, s.procs) && |chars| == |s.procs|
    requires Step(alg, s, Entry(rounds, chars, s, tick), s')
    ensures |s'.procs| == |s.procs| && AllInLoop(rounds, s'.procs)
    ensures forall p :: 0 <= p < |s.procs| ==>
      Made(s'.procs[p]) == Made(s.procs[p]) + One(tick.Call? && p == s.current)
    ensures tick.Call? ==> Entry(rounds, chars, s, tick).intno == ScriptCall(rounds, Made(s.procs[s.current]))
  {
    var h := Handle(s, Entry(rounds, chars, s, tick));
    EntryStep(rounds, chars, s, tick);
    DispatchKeeps(alg, h.procs, h.current, s'.current, s'.procs);
  }

  // And for the console: one print more when the call was a print.
  lemma PrintStep(alg: int, rounds: nat, chars: seq<Cell>, s: KState, tick: Tick, s': KState)
    requires Good(s) && AllInLoop(rounds, s.procs) && |chars| == |s.procs|
    requires Step(alg, s, Entry(rounds, chars, s, tick), s')
    ensures |s'.procs| == |s.procs|
    ensures
      var printed := Entry(rounds, chars, s, tick).intno == INT_SYS_PRINT;
      && (forall p :: 0 <= p < |s.procs| ==> Prints(s'.procs[p]) == Prints(s.procs[p]) + One(printed && p == s.current))
      && s'.cursor == s.cursor + One(printed)
      && s'.cells == if printed then s.cells[s.cursor := chars[s.current]] else s.cells
  {
    var h := Handle(s, Entry(rounds, chars, s, tick));
    EntryStep(rounds, chars, s, tick);
    DispatchKeeps(alg, h.procs, h.current, s'.current, s'.procs);
  }

  // The system-call variant refines the append-only log: a print appends its author, every
  // other step leaves the log alone.
  lemma SysPrintRefinesLog(alg: int, rounds: nat, chars: seq<Cell>, s: KState, tick: Tick, s': KState, log: seq<nat>)
    requires Consistent(rounds, chars, s, log)
    requires Step(alg, s, Entry(rounds, chars, s, tick), s')
    ensures
      var printed := Entry(rounds, chars, s, tick).intno == INT_SYS_PRINT;
      Consistent(rounds, chars, s', if printed then log + [s.current] else log)
  {
    StepKeepsGood(alg, s, Entry(rounds, chars, s, tick), s');
    MadeStep(alg, rounds, chars, s, tick, s');
    PrintStep(alg, rounds, chars, s, tick, s');
    TallyStep(s.procs, s'.procs, log, s.current, Entry(rounds, chars, s, tick).intno == INT_SYS_PRINT);
    ShowsStep(chars, s.cells, s.cursor, log, s.current);
  }

  lemma TallyStep(ps: seq<Proc>, ps': seq<Proc>, log: seq<nat>, cur: nat, printed: bool)
    requires Tally(ps, log) && |ps'| == |ps|
    requires forall p :: 0 <= p < |ps| ==> Prints(ps'[p]) == Prints(ps[p]) + One(printed && p == cur)
    ensures Tally(ps', if printed then log + [cur] else log)
  {
  }

  lemma EntryOf(alg: int, rounds: nat, chars: seq<Cell>, states: seq<KState>, regs: seq<Regs>, ticks: seq<Tick>, i: nat)
    requires AppRun(alg, rounds, chars, states, regs, ticks) && i < |regs|
    ensures Good(states[i]) && |states[i].procs| == |chars|
    ensures regs[i] == Entry(rounds, chars, states[i], ticks[i])
    ensures Step(alg, states[i], regs[i], states[i + 1])
  {
    EveryStateIsGood(alg, states, regs, i);
    StepOf(alg, states, regs, i);
    assert EntryAt(rounds, chars, states, regs, ticks, i);
  }

  lemma {:induction false} RunShowsLog(alg: int, rounds: nat, chars: seq<Cell>, states: seq<KState>,
                                       regs: seq<Regs>, ticks: seq<Tick>, t: nat)
    requires AppRun(alg, rounds, chars, states, regs, ticks) && t <= |regs|
    ensures Consistent(rounds, chars, states[t], Log(states, regs, t))
  {
    if t == 0 {
    } else {
      RunShowsLog(alg, rounds, chars, states, regs, ticks, t - 1);
      EntryOf(alg, rounds, chars, states, regs, ticks, t - 1);
      SysPrintRefinesLog(alg, rounds, chars, states[t - 1], ticks[t - 1], states[t], Log(states, regs, t - 1));
    }
  }

  lemma RunStaysInLoop(alg: int, rounds: nat, chars: seq<Cell>, states: seq<KState>, regs: seq<Regs>,
                       ticks: seq<Tick>, t: nat)
    requires AppRun(alg, rounds, chars, states, regs, ticks) && t <= |regs|
    ensures Good(states[t]) && |chars| == |states[t].procs| && AllInLoop(rounds, states[t].procs)
  {
    RunShowsLog(alg, rounds, chars, states, regs, ticks, t);
  }

  // In every state of a run a process that has exited has done so with status 0.
  lemma ExitStatusIsZero(alg: int, rounds: nat, chars: seq<Cell>, states: seq<KState>, regs: seq<Regs>,
                         ticks: seq<Tick>, t: nat, p: nat)
    requires AppRun(alg, rounds, chars, states, regs, ticks) && t <= |regs|
    requires 1 <= p < |states[t].procs| && states[t].procs[p].state == Zombie
    ensures states[t].procs[p].exitStatus == 0
  {
    RunStaysInLoop(alg, rounds, chars, states, regs, ticks, t);
  }

  // The script in numbers of interrupts: 53 then 48, rounds times, then 49.
  lemma ScriptInNumbers(rounds: nat, i: nat)
    ensures |Script(rounds)| == 2 * rounds + 1 && Script(rounds)[2 * rounds] == 49
    ensures i < rounds ==> Script(rounds)[2 * i] == 53 && Script(rounds)[2 * i + 1] == 48
  {
  }

  // The registers of the calls: the character for a print, the status 0 for an exit.
  lemma CallsInNumbers(rounds: nat, c: Cell, cpu: Regs)
    ensures var call := AppCall(rounds, c, cpu);
      && (call.intno == 53 <==> cpu.frame.point == Head && cpu.frame.i < rounds)
      && (call.intno == 48 <==> cpu.frame.point == Printed)
      && (call.intno == 49 <==> cpu.frame.point == Head && cpu.frame.i >= rounds)
      && (call.intno == 53 ==> call.eax == c)
      && (call.intno == 49 ==> call.eax == 0)
  {
  }

  lemma {:induction false} MadeInScript(alg: int, rounds: nat, chars: seq<Cell>, states: seq<KState>,
                                        regs: seq<Regs>, ticks: seq<Tick>, p: nat, t: nat)
    requires AppRun(alg, rounds, chars, states, regs, ticks) && t <= |regs| && 1 <= p < |chars|
    ensures |states[t].procs| == |chars| && Made(states[t].procs[p]) <= 2 * rounds + 1
    ensures t == 0 ==> Made(states[t].procs[p]) == 0
    ensures t > 0 ==> |states[t - 1].procs| == |chars|
    ensures t > 0 ==>
      var m := Made(states[t - 1].procs[p]);
      if states[t - 1].current == p && regs[t - 1].intno != INT_CLOCK
      then Made(states[t].procs[p]) == m + 1 && regs[t - 1].intno == ScriptCall(rounds, m)
      else Made(states[t].procs[p]) == m
  {
    RunStaysInLoop(alg, rounds, chars, states, regs, ticks, t);
    if t > 0 {
      RunStaysInLoop(alg, rounds, chars, states, regs, ticks, t - 1);
      EntryOf(alg, rounds, chars, states, regs, ticks, t - 1);
      MadeStep(alg, rounds, chars, states[t - 1], ticks[t - 1], states[t]);
    }
  }

  // Under any algorithm and with any clock ticks, the calls of a process are a prefix of
  // its script: its place is restored as it was saved.
  lemma {:induction false} CallsFollowScript(alg: int, rounds: nat, chars: seq<Cell>, states: seq<KState>,
                                             regs: seq<Regs>, ticks: seq<Tick>, p: nat, t: nat)
    requires AppRun(alg, rounds, chars, states, regs, ticks) && t <= |regs| && 1 <= p < |chars|
    ensures |states[t].procs| == |chars| && Made(states[t].procs[p]) <= 2 * rounds + 1
    ensures CallsOf(states, regs, p, t) == Script(rounds)[..Made(states[t].procs[p])]
  {
    MadeInScript(alg, rounds, chars, states, regs, ticks, p, t);
    if t == 0 {
    } else {
      CallsFollowScript(alg, rounds, chars, states, regs, ticks, p, t - 1);
      var m := Made(states[t - 1].procs[p]);
      if m < 2 * rounds + 1 {
        assert Script(rounds)[..m] + [ScriptCall(rounds, m)] == Script(rounds)[..m + 1];
      }
    }
  }

  /* Halting */

  function CallCount(ticks: seq<Tick>, t: nat): (c: nat)
    requires t <= |ticks|
  {
    if t == 0 then 0 else CallCount(ticks, t - 1) + One(ticks[t - 1].Call?)
  }

  function MadeBelow(ps: seq<Proc>, i: nat): (sum: nat)
    requires i <= |ps|
  {
    if i <= 1 then 0 else MadeBelow(ps, i - 1) + Made(ps[i - 1])
  }

  lemma {:induction false} MadeBelowStep(ps: seq<Proc>, ps': seq<Proc>, caller: nat, d: nat, i: nat)
    requires |ps| == |ps'| && i <= |ps| && 1 <= caller
    requires forall p :: 0 <= p < |ps| ==> Made(ps'[p]) == Made(ps[p]) + (if p == caller then d else 0)
    ensures MadeBelow(ps', i) == MadeBelow(ps, i) + (if caller < i then d else 0)
  {
    if i <= 1 {
    } else {
      MadeBelowStep(ps, ps', caller, d, i - 1);
    }
  }

  lemma {:induction false} MadeBelowBound(ps: seq<Proc>, bound: nat, i: nat)
    requires i <= |ps| && forall p :: 1 <= p < |ps| ==> Made(ps[p]) <= bound
    ensures MadeBelow(ps, i) <= (if i <= 1 then 0 else (i - 1) * bound)
  {
    if i <= 1 {
    } else {
      MadeBelowBound(ps, bound, i - 1);
      assert (i - 1) * bound == (i - 2) * bound + bound;
    }
  }

  lemma {:induction false} NothingMadeYet(ps: seq<Proc>, i: nat)
    requires i <= |ps| && forall p :: 1 <= p < |ps| ==> Made(ps[p]) == 0
    ensures MadeBelow(ps, i) == 0
  {
    if i <= 1 {
    } else {
      NothingMadeYet(ps, i - 1);
    }
  }

  // The calls of a run are counted by the places of the processes, so there are at most
  // 2R+1 of them for each process, whatever the clock does.
  lemma {:induction false} CallsAreCounted(alg: int, rounds: nat, chars: seq<Cell>, states: seq<KState>,
                                           regs: seq<Regs>, ticks: seq<Tick>, t: nat)
    requires AppRun(alg, rounds, chars, states, regs, ticks) && t <= |regs|
    ensures |states[t].procs| == |chars|
    ensures CallCount(ticks, t) == MadeBelow(states[t].procs, |chars|)
  {
    RunStaysInLoop(alg, rounds, chars, states, regs, ticks, t);
    if t == 0 {
      NothingMadeYet(states[0].procs, |chars|);
    } else {
      CallsAreCounted(alg, rounds, chars, states, regs, ticks, t - 1);
      RunStaysInLoop(alg, rounds, chars, states, regs, ticks, t - 1);
      EntryOf(alg, rounds, chars, states, regs, ticks, t - 1);
      TotalStep(alg, rounds, chars, states[t - 1], ticks[t - 1], states[t]);
    }
  }

  lemma TotalStep(alg: int, rounds: nat, chars: seq<Cell>, s: KState, tick: Tick, s': KState)
    requires Good(s) && AllInLoop(rounds, s.procs) && |chars| == |s.procs|
    requires Step(alg, s, Entry(rounds, chars, s, tick), s')
    ensures |s'.procs| == |chars|
    ensures MadeBelow(s'.procs, |chars|) == MadeBelow(s.procs, |chars|) + One(tick.Call?)
  {
    MadeStep(alg, rounds, chars, s, tick, s');
    MadeBelowStep(s.procs, s'.procs, s.current, if tick.Call? then 1 else 0, |chars|);
  }

  lemma CallsAreBounded(alg: int, rounds: nat, chars: seq<Cell>, states: seq<KState>, regs: seq<Regs>, ticks: seq<Tick>)
    requires AppRun(alg, rounds, chars, states, regs, ticks)
    ensures CallCount(ticks, |regs|) <= (|chars| - 1) * (2 * rounds + 1)
  {
    var t := |regs|;
    RunStaysInLoop(alg, rounds, chars, states, regs, ticks, t);
    CallsAreCounted(alg, rounds, chars, states, regs, ticks, t);
    MadeBelowBound(states[t].procs, 2 * rounds + 1, |chars|);
  }

  // Whatever enters the kernel next, either some process can be dispatched or none is
  // runnable: no search spins, and the lottery has a winning ticket, before all have exited.
  lemma NeverStuck(alg: int, rounds: nat, chars: seq<Cell>, states: seq<KState>, regs: seq<Regs>, ticks: seq<Tick>,
                   tick: Tick)
    requires AppRun(alg, rounds, chars, states, regs, ticks) && |chars| < WORD
    requires alg in {ROUND_ROBIN, STRICT, PRIORITY, SHARE, LOTTERY}
    ensures var s := states[|regs|];
      && 2 <= |s.procs| == |chars| && s.current < |s.procs|
      && var h := Handle(s, Entry(rounds, chars, s, tick));
         AnyRunnable(h.procs) ==> exists p: nat, ps' :: Dispatches(alg, h.procs, h.current, p, ps')
  {
    var s := states[|regs|];
    RunShowsLog(alg, rounds, chars, states, regs, ticks, |regs|);
    EntryStep(rounds, chars, s, tick);
    var h := Handle(s, Entry(rounds, chars, s, tick));
    if r: nat :| RunnableAt(h.procs, r) {
      LoopSelectable(alg, rounds, h.procs, r);
      DispatchExists(alg, h.procs, h.current);
    }
  }

  // A runnable process in its loop has a positive amount under 4B and a ticket in the lottery.
  lemma LoopSelectable(alg: int, rounds: nat, ps: seq<Proc>, r: nat)
    requires GoodTable(ps) && AllInLoop(rounds, ps) && |ps| < WORD && RunnableAt(ps, r)
    ensures Selectable(alg, ps)
  {
    assert r >= 1;
    if alg == SHARE {
      if !AnyEligible(ps) {
        assert Eligible(Refill(ps), r);
      }
    } else if alg == LOTTERY {
      OneTicketEach(rounds, ps, |ps| - 1);
      OneTicketEach(rounds, ps, r);
      assert Fires(ps, 0, r);
    }
  }

  lemma {:induction false} OneTicketEach(rounds: nat, ps: seq<Proc>, i: nat)
    requires AllInLoop(rounds, ps) && i < |ps|
    ensures Prefix(ps, i) == i
  {
    if i == 0 {
    } else {
      OneTicketEach(rounds, ps, i - 1);
    }
  }

  ghost predicate Completed(rounds: nat, chars: seq<Cell>, h: KState, log: seq<nat>) {
    && 1 <= |chars| == |h.procs|
    && (forall p :: 1 <= p < |chars| ==>
         h.procs[p].state.Zombie? && h.procs[p].exitStatus == 0 && Made(h.procs[p]) == 2 * rounds + 1)
    && (forall p: nat :: 1 <= p < |chars| ==> multiset(log)[p] == rounds)
    && h.cursor == (|chars| - 1) * rounds
    && Shows(chars, h.cells, h.cursor, log)
    && ((|chars| - 1) * rounds <= 2000 ==> forall k: nat :: k in h.cells ==> k < 2000)
  }

  // When nothing is runnable any more, every process has run its whole script and the
  // console holds R copies of each character in (n-1)*R distinct cells.
  lemma Completion(alg: int, rounds: nat, chars: seq<Cell>, states: seq<KState>, regs: seq<Regs>, ticks: seq<Tick>,
                   tick: Tick)
    requires AppRun(alg, rounds, chars, states, regs, ticks)
    requires states[|regs|].current < |chars| && |states[|regs|].procs| == |chars|
    requires !AnyRunnable(Handle(states[|regs|], Entry(rounds, chars, states[|regs|], tick)).procs)
    ensures
      var h := Handle(states[|regs|], Entry(rounds, chars, states[|regs|], tick));
      Completed(rounds, chars, h, Log(states, regs, |regs|))
  {
    var s := states[|regs|];
    var log := Log(states, regs, |regs|);
    RunShowsLog(alg, rounds, chars, states, regs, ticks, |regs|);
    EntryStep(rounds, chars, s, tick);
    var h := Handle(s, Entry(rounds, chars, s, tick));
    assert !RunnableAt(h.procs, s.current);
    forall p | 1 <= p < |chars| ensures h.procs[p].state.Zombie? {
      assert !RunnableAt(h.procs, p);
    }
    AuthorsInRange(alg, rounds, chars, states, regs, ticks, |regs|);
    LogLength(log, rounds, |chars| - 1);
  }

  // The step that a dispatch of p completes.
  function After(h: KState, p: nat, ps': seq<Proc>): KState
    requires p < |ps'|
  {
    h.(procs := ps', current := p, cpu := ps'[p].regs)
  }

  // The halting theorem: under each of the five algorithms a run whose last process cannot
  // enter the kernel once more and leave it again has completed.
  lemma HaltedMeansCompleted(alg: int, rounds: nat, chars: seq<Cell>, states: seq<KState>, regs: seq<Regs>,
                             ticks: seq<Tick>, tick: Tick)
    requires AppRun(alg, rounds, chars, states, regs, ticks) && |chars| < WORD
    requires alg in {ROUND_ROBIN, STRICT, PRIORITY, SHARE, LOTTERY}
    ensures var s := states[|regs|];
      && s.current < |chars| && |s.procs| == |chars|
      && ((exists s' :: Step(alg, s, Entry(rounds, chars, s, tick), s')) <==>
          AnyRunnable(Handle(s, Entry(rounds, chars, s, tick)).procs))
      && ((exists s' :: Step(alg, s, Entry(rounds, chars, s, tick), s')) ||
          Completed(rounds, chars, Handle(s, Entry(rounds, chars, s, tick)), Log(states, regs, |regs|)))
  {
    var s := states[|regs|];
    RunShowsLog(alg, rounds, chars, states, regs, ticks, |regs|);
    EntryStep(rounds, chars, s, tick);
    var h := Handle(s, Entry(rounds, chars, s, tick));
    if AnyRunnable(h.procs) {
      NeverStuck(alg, rounds, chars, states, regs, ticks, tick);
      var p: nat, ps' :| Dispatches(alg, h.procs, h.current, p, ps');
      DispatchKeeps(alg, h.procs, h.current, p, ps');
      assert Step(alg, s, Entry(rounds, chars, s, tick), After(h, p, ps'));
    } else {
      Completion(alg, rounds, chars, states, regs, ticks, tick);
    }
  }

  lemma {:induction false} AuthorsInRange(alg: int, rounds: nat, chars: seq<Cell>, states: seq<KState>,
                                          regs: seq<Regs>, ticks: seq<Tick>, t: nat)
    requires AppRun(alg, rounds, chars, states, regs, ticks) && t <= |regs|
    ensures forall k :: 0 <= k < |Log(states, regs, t)| ==> 1 <= Log(states, regs, t)[k] < |chars|
  {
    if t == 0 {
    } else {
      AuthorsInRange(alg, rounds, chars, states, regs, ticks, t - 1);
      EntryOf(alg, rounds, chars, states, regs, ticks, t - 1);
    }
  }
}
