// The variant of the applications that guards the shared cursor with a spin lock. The
// machine instructions of the processes interleave in any way: a clock interrupt may come
// between any two of them and the kernel may then run any process that has not exited.
module SpinLock {
  import opened Machine
  import opened PrintLog

  // Where a process stands in `while (atomic_swap(&lock, 1)); *cursorpos++ = c;
  // atomic_swap(&lock, 0); sys_yield();` and after its loop.
  datatype Pc = Swap | Load | Store | Advance | Release | Yield | Exit | Gone

  // i counts the iterations; `at` is the cursor value the process has loaded.
  datatype Thread = Thread(pc: Pc, i: nat, at: nat)

  datatype LState = LState(
    lock: Word,
    cursor: nat,
    cells: map<nat, Cell>,
    threads: seq<Thread>,
    running: nat)

  // xchg: store the new value and return the old one, in one step.
  function AtomicSwap(s: LState, val: Word): (r: (LState, Word)) {
    (s.(lock := val), s.lock)
  }

  function LoopHead(rounds: nat, i: nat): Pc {
    if i < rounds then Swap else Exit
  }

  // The next instruction of the running process.
  function Instruction(rounds: nat, chars: seq<Cell>, s: LState): (s': LState)
    requires s.running < |s.threads| == |chars|
  {
    var th := s.threads[s.running];
    match th.pc
    case Swap =>
      var (t, was) := AtomicSwap(s, 1);
      t.(threads := s.threads[s.running := th.(pc := if was == 0 then Load else Swap)])
    case Load => s.(threads := s.threads[s.running := th.(pc := Store, at := s.cursor)])
    case Store =>
      s.(cells := s.cells[th.at := chars[s.running]], threads := s.threads[s.running := th.(pc := Advance)])
    case Advance =>
      s.(cursor := th.at + 1, threads := s.threads[s.running := th.(pc := Release)])
    case Release =>
      AtomicSwap(s, 0).0.(threads := s.threads[s.running := th.(pc := Yield)])
    case Yield =>
      s.(threads := s.threads[s.running := th.(pc := LoopHead(rounds, th.i + 1), i := th.i + 1)])
    case Exit => s.(threads := s.threads[s.running := th.(pc := Gone)])
    case Gone => s
  }

  // Instruction: the process takes its next step, after which the kernel dispatches when
  // the step entered it. Timer: the kernel dispatches.
  datatype Event = Own | Timer

  ghost predicate LStep(rounds: nat, chars: seq<Cell>, s: LState, e: Event, s': LState) {
    && s.running < |s.threads| == |chars|
    && !s.threads[s.running].pc.Gone?
    && var t := if e.Own? then Instruction(rounds, chars, s) else s;
       && s' == t.(running := s'.running)
       && s'.running < |s.threads|
       && (e.Own? && !s.threads[s.running].pc.Yield? && !s.threads[s.running].pc.Exit? ==> s'.running == s.running)
       && (if AllGone(s'.threads) then s'.running == s.running else !s'.threads[s'.running].pc.Gone?)
  }

  ghost predicate AllGone(threads: seq<Thread>) {
    forall p :: 0 <= p < |threads| ==> threads[p].pc.Gone?
  }

  ghost predicate LInit(rounds: nat, chars: seq<Cell>, s: LState) {
    && s.lock == 0 && s.cursor == 0 && s.cells == map[]
    && 2 <= |s.threads| == |chars| && s.running == 1
    && s.threads[0] == Thread(Gone, rounds, 0)
    && forall p :: 1 <= p < |s.threads| ==> s.threads[p] == Thread(LoopHead(rounds, 0), 0, 0)
  }

  predicate Inside(th: Thread) {
    th.pc.Load? || th.pc.Store? || th.pc.Advance? || th.pc.Release?
  }

  // At most one process is inside the update, and the lock word is 1 exactly then.
  ghost predicate Exclusion(s: LState) {
    && (forall p, q | 0 <= p < |s.threads| && 0 <= q < |s.threads| ::
          Inside(s.threads[p]) && Inside(s.threads[q]) ==> p == q)
    && (s.lock == 1 <==> exists p :: 0 <= p < |s.threads| && Inside(s.threads[p]))
    && (s.lock == 0 || s.lock == 1)
  }

  // A process past its load holds the current cursor; only the cells before the cursor,
  // and the one a process is about to move it over, are written.
  ghost predicate CursorHeld(chars: seq<Cell>, s: LState)
    requires |chars| == |s.threads|
  {
    && (forall p :: 0 <= p < |s.threads| && (s.threads[p].pc.Store? || s.threads[p].pc.Advance?) ==>
          s.threads[p].at == s.cursor)
    && (forall p :: 0 <= p < |s.threads| && s.threads[p].pc.Advance? ==>
          s.cursor in s.cells && s.cells[s.cursor] == chars[p])
    && (forall k: nat :: k in s.cells ==>
          k < s.cursor || (k == s.cursor && exists p :: 0 <= p < |s.threads| && s.threads[p].pc.Advance?))
  }

  ghost predicate Looping(rounds: nat, s: LState) {
    forall p :: 0 <= p < |s.threads| ==>
      if s.threads[p].pc.Exit? || s.threads[p].pc.Gone? then s.threads[p].i == rounds
      else s.threads[p].i < rounds
  }

  ghost predicate LInv(rounds: nat, chars: seq<Cell>, s: LState) {
    |chars| == |s.threads| && Exclusion(s) && CursorHeld(chars, s) && Looping(rounds, s)
  }

  // Prints a process has finished.
  function Finished(th: Thread): nat {
    th.i + (if th.pc.Release? || th.pc.Yield? then 1 else 0)
  }

  lemma InstructionKeepsExclusion(rounds: nat, chars: seq<Cell>, s: LState)
    requires Exclusion(s) && s.running < |s.threads| == |chars|
    ensures Exclusion(Instruction(rounds, chars, s))
  {
    var s' := Instruction(rounds, chars, s);
    assert forall p :: 0 <= p < |s.threads| && p != s.running ==> s'.threads[p] == s.threads[p];
    assert s.threads[s.running].pc.Swap? && s.lock == 0 ==> Inside(s'.threads[s.running]);
    if Inside(s.threads[s.running]) && !s.threads[s.running].pc.Release? {
      assert Inside(s'.threads[s.running]);
    } else if p :| 0 <= p < |s.threads| && Inside(s.threads[p]) && p != s.running {
      assert Inside(s'.threads[p]);
    }
  }

  lemma StepKeepsExclusion(rounds: nat, chars: seq<Cell>, s: LState, e: Event, s': LState)
    requires Exclusion(s) && LStep(rounds, chars, s, e, s')
    ensures Exclusion(s')
  {
    if e.Own? {
      InstructionKeepsExclusion(rounds, chars, s);
    }
  }

  lemma InstructionKeepsCursor(rounds: nat, chars: seq<Cell>, s: LState)
    requires Exclusion(s) && s.running < |s.threads| == |chars| && CursorHeld(chars, s)
    ensures CursorHeld(chars, Instruction(rounds, chars, s))
  {
    var r, s' := s.running, Instruction(rounds, chars, s);
    assert forall p :: 0 <= p < |s.threads| && p != r ==> s'.threads[p] == s.threads[p];
    if s.threads[r].pc.Advance? {
      assert forall p :: 0 <= p < |s.threads| && p != r ==> !Inside(s.threads[p]);
    } else if s.threads[r].pc.Store? {
      assert s'.threads[r].pc.Advance?;
    } else {
      forall p | 0 <= p < |s.threads| && s.threads[p].pc.Advance? ensures s'.threads[p].pc.Advance? {
      }
    }
  }

  lemma StepKeepsCursor(rounds: nat, chars: seq<Cell>, s: LState, e: Event, s': LState)
    requires Exclusion(s) && |chars| == |s.threads| && CursorHeld(chars, s) && LStep(rounds, chars, s, e, s')
    ensures CursorHeld(chars, s')
  {
    if e.Own? {
      InstructionKeepsCursor(rounds, chars, s);
    }
  }

  lemma StepKeepsLooping(rounds: nat, chars: seq<Cell>, s: LState, e: Event, s': LState)
    requires Looping(rounds, s) && LStep(rounds, chars, s, e, s')
    ensures Looping(rounds, s')
  {
  }

  lemma StepKeepsInv(rounds: nat, chars: seq<Cell>, s: LState, e: Event, s': LState)
    requires LInv(rounds, chars, s) && LStep(rounds, chars, s, e, s')
    ensures LInv(rounds, chars, s')
  {
    StepKeepsExclusion(rounds, chars, s, e, s');
    StepKeepsCursor(rounds, chars, s, e, s');
    StepKeepsLooping(rounds, chars, s, e, s');
  }

  // A print writes a cell that no print has written before.
  lemma StoreIsFresh(rounds: nat, chars: seq<Cell>, s: LState, p: nat)
    requires LInv(rounds, chars, s) && p < |s.threads| && s.threads[p].pc.Store?
    ensures s.threads[p].at == s.cursor && s.threads[p].at !in s.cells
  {
    assert Inside(s.threads[p]);
  }

  ghost predicate Text(chars: seq<Cell>, cells: map<nat, Cell>, cursor: nat, log: seq<nat>) {
    && cursor == |log|
    && forall k :: 0 <= k < |log| ==> k in cells && log[k] < |chars| && cells[k] == chars[log[k]]
  }

  ghost predicate LockTally(threads: seq<Thread>, log: seq<nat>) {
    && (forall p: nat :: 1 <= p < |threads| ==> multiset(log)[p] == Finished(threads[p]))
    && (forall k :: 0 <= k < |log| ==> 1 <= log[k] < |threads|)
  }

  // The cells before the cursor are the log.
  ghost predicate ShowsLog(chars: seq<Cell>, s: LState, log: seq<nat>) {
    Text(chars, s.cells, s.cursor, log) && LockTally(s.threads, log)
  }

  lemma LockTallyStep(threads: seq<Thread>, log: seq<nat>, r: nat, th: Thread, printed: bool)
    requires LockTally(threads, log) && 1 <= r < |threads|
    requires Finished(th) == Finished(threads[r]) + (if printed then 1 else 0)
    ensures LockTally(threads[r := th], if printed then log + [r] else log)
  {
  }

  predicate Appends(s: LState, e: Event) {
    e.Own? && s.running < |s.threads| && s.threads[s.running].pc.Advance?
  }

  lemma TextStep(rounds: nat, chars: seq<Cell>, s: LState, e: Event, s': LState, log: seq<nat>)
    requires |chars| == |s.threads| && CursorHeld(chars, s) && LStep(rounds, chars, s, e, s')
    requires Text(chars, s.cells, s.cursor, log)
    ensures Text(chars, s'.cells, s'.cursor, if Appends(s, e) then log + [s.running] else log)
  {
  }

  lemma FinishedStep(rounds: nat, chars: seq<Cell>, s: LState, e: Event, s': LState, log: seq<nat>)
    requires LStep(rounds, chars, s, e, s') && LockTally(s.threads, log)
    requires s.threads[0].pc.Gone?
    ensures LockTally(s'.threads, if Appends(s, e) then log + [s.running] else log)
    ensures |s'.threads| == |s.threads| && s'.threads[0].pc.Gone?
  {
    var r := s.running;
    if e.Own? {
      var th := s'.threads[r];
      assert s'.threads == s.threads[r := th];
      LockTallyStep(s.threads, log, r, th, s.threads[r].pc.Advance?);
    }
  }

  ghost predicate LockConsistent(rounds: nat, chars: seq<Cell>, s: LState, log: seq<nat>) {
    LInv(rounds, chars, s) && ShowsLog(chars, s, log) && 1 <= |s.threads| && s.threads[0].pc.Gone?
  }

  // The lock variant refines the log: the cursor write appends the running process, every
  // other step of any process leaves the log alone.
  lemma LockRefinesLog(rounds: nat, chars: seq<Cell>, s: LState, e: Event, s': LState, log: seq<nat>)
    requires LockConsistent(rounds, chars, s, log) && LStep(rounds, chars, s, e, s')
    ensures LockConsistent(rounds, chars, s', if Appends(s, e) then log + [s.running] else log)
  {
    StepKeepsInv(rounds, chars, s, e, s');
    TextStep(rounds, chars, s, e, s', log);
    FinishedStep(rounds, chars, s, e, s', log);
  }

  /* Whole runs */

  ghost predicate LStepAt(rounds: nat, chars: seq<Cell>, states: seq<LState>, events: seq<Event>, i: nat)
    requires |states| == |events| + 1
  {
    i < |events| ==> LStep(rounds, chars, states[i], events[i], states[i + 1])
  }

  ghost predicate LRun(rounds: nat, chars: seq<Cell>, states: seq<LState>, events: seq<Event>) {
    && |states| == |events| + 1
    && LInit(rounds, chars, states[0])
    && forall i: nat :: LStepAt(rounds, chars, states, events, i)
  }

  // The running process of state t executes an instruction that stands at pc.
  predicate Executes(states: seq<LState>, events: seq<Event>, t: nat, pc: Pc) {
    && t < |events| < |states|
    && events[t].Own? && states[t].running < |states[t].threads|
    && states[t].threads[states[t].running].pc == pc
  }

  function LockLog(states: seq<LState>, events: seq<Event>, t: nat): (log: seq<nat>)
    requires t <= |events| < |states|
  {
    if t == 0 then []
    else if Appends(states[t - 1], events[t - 1])
    then LockLog(states, events, t - 1) + [states[t - 1].running]
    else LockLog(states, events, t - 1)
  }

  lemma InitConsistent(rounds: nat, chars: seq<Cell>, s: LState)
    requires LInit(rounds, chars, s)
    ensures LockConsistent(rounds, chars, s, [])
  {
  }

  lemma LStepOf(rounds: nat, chars: seq<Cell>, states: seq<LState>, events: seq<Event>, i: nat)
    requires LRun(rounds, chars, states, events) && i < |events|
    ensures LStep(rounds, chars, states[i], events[i], states[i + 1])
  {
    assert LStepAt(rounds, chars, states, events, i);
  }

  // Under every interleaving the cells before the cursor are the prints so far, in order,
  // with mutual exclusion at every state.
  lemma {:induction false} LockRunShowsLog(rounds: nat, chars: seq<Cell>, states: seq<LState>, events: seq<Event>,
                                           t: nat)
    requires LRun(rounds, chars, states, events) && t <= |events|
    ensures LockConsistent(rounds, chars, states[t], LockLog(states, events, t))
  {
    if t == 0 {
      RunBegins(rounds, chars, states, events);
    } else {
      LockRunShowsLog(rounds, chars, states, events, t - 1);
      RunRefinesLog(rounds, chars, states, events, t);
    }
  }

  lemma RunBegins(rounds: nat, chars: seq<Cell>, states: seq<LState>, events: seq<Event>)
    requires LRun(rounds, chars, states, events)
    ensures LockConsistent(rounds, chars, states[0], LockLog(states, events, 0))
  {
    InitConsistent(rounds, chars, states[0]);
  }

  lemma RunRefinesLog(rounds: nat, chars: seq<Cell>, states: seq<LState>, events: seq<Event>, t: nat)
    requires LRun(rounds, chars, states, events) && 0 < t <= |events|
    requires LockConsistent(rounds, chars, states[t - 1], LockLog(states, events, t - 1))
    ensures LockConsistent(rounds, chars, states[t], LockLog(states, events, t))
  {
    LStepOf(rounds, chars, states, events, t - 1);
    LockRefinesLog(rounds, chars, states[t - 1], events[t - 1], states[t], LockLog(states, events, t - 1));
  }

  lemma {:induction false} CellsGrow(rounds: nat, chars: seq<Cell>, states: seq<LState>, events: seq<Event>, i: nat,
                                     j: nat)
    requires LRun(rounds, chars, states, events) && i <= j <= |events|
    ensures states[i].cells.Keys <= states[j].cells.Keys
    decreases j
  {
    if i == j {
    } else {
      CellsGrow(rounds, chars, states, events, i, j - 1);
      LStepOf(rounds, chars, states, events, j - 1);
    }
  }

  // No cell is written by two prints.
  lemma StoresAreDistinct(rounds: nat, chars: seq<Cell>, states: seq<LState>, events: seq<Event>, i: nat, j: nat)
    requires LRun(rounds, chars, states, events) && i < j
    requires Executes(states, events, i, Store) && Executes(states, events, j, Store)
    ensures states[i].threads[states[i].running].at != states[j].threads[states[j].running].at
  {
    LockRunShowsLog(rounds, chars, states, events, j);
    LStepOf(rounds, chars, states, events, i);
    var cell := states[i].threads[states[i].running].at;
    assert cell in states[i + 1].cells;
    CellsGrow(rounds, chars, states, events, i + 1, j);
    StoreIsFresh(rounds, chars, states[j], states[j].running);
  }

  // When every process has exited, the console holds R prints of each process in distinct
  // cells and nothing else, and the lock is free.
  lemma LockCompletion(rounds: nat, chars: seq<Cell>, states: seq<LState>, events: seq<Event>)
    requires LRun(rounds, chars, states, events)
    requires AllGone(states[|events|].threads)
    ensures
      var s := states[|events|];
      && s.lock == 0
      && s.cursor == (|chars| - 1) * rounds
      && Shows(chars, s.cells, s.cursor, LockLog(states, events, |events|))
      && forall p: nat :: 1 <= p < |chars| ==> multiset(LockLog(states, events, |events|))[p] == rounds
  {
    LockRunShowsLog(rounds, chars, states, events, |events|);
    LogLength(LockLog(states, events, |events|), rounds, |chars| - 1);
  }

  /* Reaching the end */

  // The instructions a process has still to execute, not counting swaps that fail.
  function Remaining(rounds: nat, th: Thread): (w: int) {
    var left := 6 * (rounds - th.i);
    match th.pc
    case Swap => left + 1
    case Load => left
    case Store => left - 1
    case Advance => left - 2
    case Release => left - 3
    case Yield => left - 4
    case Exit => 1
    case Gone => 0
  }

  function Work(rounds: nat, threads: seq<Thread>): (w: int) {
    if threads == [] then 0
    else Work(rounds, threads[..|threads| - 1]) + Remaining(rounds, threads[|threads| - 1])
  }

  lemma {:induction false} WorkUpdate(rounds: nat, threads: seq<Thread>, p: nat, th: Thread)
    requires p < |threads|
    ensures Work(rounds, threads[p := th]) ==
      Work(rounds, threads) - Remaining(rounds, threads[p]) + Remaining(rounds, th)
  {
    var n := |threads| - 1;
    if p < n {
      assert threads[p := th][..n] == threads[..n][p := th];
      WorkUpdate(rounds, threads[..n], p, th);
    } else {
      assert threads[p := th][..n] == threads[..n];
    }
  }

  // Work is never negative, and there is none left exactly when all have exited.
  lemma {:induction false} WorkLeft(rounds: nat, threads: seq<Thread>)
    requires forall p :: 0 <= p < |threads| ==>
      if threads[p].pc.Exit? || threads[p].pc.Gone? then threads[p].i == rounds else threads[p].i < rounds
    ensures 0 <= Work(rounds, threads)
    ensures Work(rounds, threads) == 0 <==> AllGone(threads)
  {
    if threads == [] {
    } else {
      var n := |threads| - 1;
      WorkLeft(rounds, threads[..n]);
      assert AllGone(threads) <==> AllGone(threads[..n]) && threads[n].pc.Gone?;
    }
  }

  // A swap that fails.
  predicate Spins(s: LState) {
    s.running < |s.threads| && s.threads[s.running].pc.Swap? && s.lock != 0
  }

  lemma InstructionWork(rounds: nat, chars: seq<Cell>, s: LState)
    requires Looping(rounds, s) && s.running < |s.threads| == |chars| && !s.threads[s.running].pc.Gone?
    ensures Work(rounds, Instruction(rounds, chars, s).threads) == Work(rounds, s.threads) - (if Spins(s) then 0 else 1)
  {
    var s' := Instruction(rounds, chars, s);
    assert s'.threads == s.threads[s.running := s'.threads[s.running]];
    WorkUpdate(rounds, s.threads, s.running, s'.threads[s.running]);
  }

  // Every instruction but a failing swap is work done; a clock interrupt is none.
  lemma StepWork(rounds: nat, chars: seq<Cell>, s: LState, e: Event, s': LState)
    requires Looping(rounds, s) && LStep(rounds, chars, s, e, s')
    ensures Work(rounds, s'.threads) == Work(rounds, s.threads) - (if e.Own? && !Spins(s) then 1 else 0)
  {
    if e.Own? {
      InstructionWork(rounds, chars, s);
    }
  }

  // The process to run for progress: the one inside the update if there is one.
  ghost predicate Helpful(s: LState, p: nat) {
    && p < |s.threads| && !s.threads[p].pc.Gone?
    && (s.threads[p].pc.Swap? ==> s.lock == 0)
  }

  lemma HelpfulExists(s: LState)
    requires Exclusion(s) && !AllGone(s.threads)
    ensures exists p: nat :: Helpful(s, p)
  {
    if s.lock == 1 {
      var p: nat :| p < |s.threads| && Inside(s.threads[p]);
      assert Helpful(s, p);
    } else {
      var p: nat :| p < |s.threads| && !s.threads[p].pc.Gone?;
      assert Helpful(s, p);
    }
  }

  // After an instruction the kernel can dispatch as it has to.
  lemma OwnStepExists(rounds: nat, chars: seq<Cell>, s: LState) returns (s': LState)
    requires |chars| == |s.threads| && LiveCurrent(s)
    ensures LStep(rounds, chars, s, Own, s')
  {
    var t := Instruction(rounds, chars, s);
    var q := s.running;
    if !AllGone(t.threads) && t.threads[q].pc.Gone? {
      q :| 0 <= q < |t.threads| && !t.threads[q].pc.Gone?;
    }
    s' := t.(running := q);
  }

  // No deadlock: from any state that is not the end, one clock interrupt and one
  // instruction do some work.
  lemma Progress(rounds: nat, chars: seq<Cell>, s: LState) returns (mid: LState, s': LState)
    requires LInv(rounds, chars, s) && LiveCurrent(s)
    ensures LStep(rounds, chars, s, Timer, mid) && LStep(rounds, chars, mid, Own, s')
    ensures 0 <= Work(rounds, s'.threads) == Work(rounds, s.threads) - 1
  {
    HelpfulExists(s);
    var p: nat :| Helpful(s, p);
    mid := s.(running := p);
    s' := OwnStepExists(rounds, chars, mid);
    StepWork(rounds, chars, mid, Own, s');
    StepKeepsLooping(rounds, chars, mid, Own, s');
    WorkLeft(rounds, s'.threads);
  }

  // The running process has not exited, unless all have.
  lemma CurrentIsLive(rounds: nat, chars: seq<Cell>, states: seq<LState>, events: seq<Event>, t: nat)
    requires LRun(rounds, chars, states, events) && t <= |events|
    ensures AllGone(states[t].threads) || LiveCurrent(states[t])
  {
    if t > 0 {
      LStepOf(rounds, chars, states, events, t - 1);
    }
  }

  // Every run can be continued to one in which all processes have exited.
  lemma {:induction false} LockRunCanFinish(rounds: nat, chars: seq<Cell>, states: seq<LState>, events: seq<Event>)
    returns (states': seq<LState>, events': seq<Event>)
    requires LRun(rounds, chars, states, events)
    ensures LRun(rounds, chars, states', events')
    ensures states <= states' && events <= events'
    ensures AllGone(states'[|events'|].threads)
    decreases Work(rounds, states[|events|].threads)
  {
    var s := states[|events|];
    CurrentIsLive(rounds, chars, states, events, |events|);
    if AllGone(s.threads) {
      states', events' := states, events;
    } else {
      states', events' := OneStepNearer(rounds, chars, states, events);
      states', events' := LockRunCanFinish(rounds, chars, states', events');
    }
  }

  lemma OneStepNearer(rounds: nat, chars: seq<Cell>, states: seq<LState>, events: seq<Event>)
    returns (states': seq<LState>, events': seq<Event>)
    requires LRun(rounds, chars, states, events) && LiveCurrent(states[|events|])
    ensures LRun(rounds, chars, states', events')
    ensures states <= states' && events <= events'
    ensures 0 <= Work(rounds, states'[|events'|].threads) < Work(rounds, states[|events|].threads)
  {
    LockRunShowsLog(rounds, chars, states, events, |events|);
    var mid, next := Progress(rounds, chars, states[|events|]);
    RunAppend(rounds, chars, states, events, Timer, mid);
    RunAppend(rounds, chars, states + [mid], events + [Timer], Own, next);
    states', events' := states + [mid] + [next], events + [Timer] + [Own];
  }

  predicate LiveCurrent(s: LState) {
    s.running < |s.threads| && !s.threads[s.running].pc.Gone?
  }

  lemma RunAppend(rounds: nat, chars: seq<Cell>, states: seq<LState>, events: seq<Event>, e: Event, s': LState)
    requires LRun(rounds, chars, states, events) && LStep(rounds, chars, states[|events|], e, s')
    ensures LRun(rounds, chars, states + [s'], events + [e])
  {
    forall i: nat ensures LStepAt(rounds, chars, states + [s'], events + [e], i) {
      if i < |events| {
        LStepOf(rounds, chars, states, events, i);
      }
    }
  }
}
