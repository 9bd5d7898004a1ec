// The spin-lock variant under algorithm 0 with clock interrupts: waiting for the lock comes
// to an end. A process that finds the lock taken spins until the clock interrupts it, and
// round robin then reaches the process that holds the lock.
module LockLiveness {
  import opened Machine
  import opened Cyclic
  import opened SpinLock
  import LockOrder

  // Whenever the kernel is entered it runs the next live process.
  ghost predicate TurnAt(states: seq<LState>, events: seq<Event>, i: nat)
    requires |states| == |events| + 1
  {
    && i < |events|
    && states[i].running < |states[i].threads| == |states[i + 1].threads|
    && Enters(states[i], events[i]) && !AllGone(states[i + 1].threads)
    ==> LockOrder.NextLive(states[i + 1].threads, states[i].running, states[i + 1].running)
  }

  predicate Enters(s: LState, e: Event)
    requires s.running < |s.threads|
  {
    e.Timer? || s.threads[s.running].pc.Yield? || s.threads[s.running].pc.Exit?
  }

  ghost predicate TurnRun(rounds: nat, chars: seq<Cell>, states: seq<LState>, events: seq<Event>) {
    && LRun(rounds, chars, states, events)
    && forall i: nat :: TurnAt(states, events, i)
  }

  // The clock interrupts among events lo to hi - 1.
  function Clocks(events: seq<Event>, lo: nat, hi: nat): (c: nat)
    requires lo <= hi <= |events|
  {
    if lo == hi then 0 else Clocks(events, lo, hi - 1) + One(events[hi - 1].Timer?)
  }

  // After each clock interrupt the dispatched process executes at least one instruction.
  ghost predicate Patient(events: seq<Event>, lo: nat, hi: nat)
    requires lo <= hi <= |events|
  {
    forall i :: lo <= i < hi && events[i].Timer? ==> i + 1 < hi && events[i + 1].Own?
  }

  // What LockRunShowsLog says of one state, as far as it is needed here.
  ghost predicate Sound(rounds: nat, n: nat, s: LState) {
    && |s.threads| == n + 1 && s.threads[0].pc.Gone?
    && Exclusion(s) && Looping(rounds, s)
    && (AllGone(s.threads) || LiveCurrent(s))
  }

  lemma EveryStateIsSound(rounds: nat, chars: seq<Cell>, states: seq<LState>, events: seq<Event>, n: nat, t: nat)
    requires TurnRun(rounds, chars, states, events) && |chars| == n + 1 && t <= |events|
    ensures Sound(rounds, n, states[t])
  {
    LockRunShowsLog(rounds, chars, states, events, t);
    CurrentIsLive(rounds, chars, states, events, t);
  }

  lemma {:induction false} WorkNeverGrows(rounds: nat, chars: seq<Cell>, states: seq<LState>, events: seq<Event>,
                                          n: nat, lo: nat, hi: nat)
    requires TurnRun(rounds, chars, states, events) && |chars| == n + 1 && lo <= hi <= |events|
    ensures Work(rounds, states[hi].threads) <= Work(rounds, states[lo].threads)
    decreases hi
  {
    if lo == hi {
    } else {
      WorkNeverGrows(rounds, chars, states, events, n, lo, hi - 1);
      EveryStateIsSound(rounds, chars, states, events, n, hi - 1);
      LStepOf(rounds, chars, states, events, hi - 1);
      StepWork(rounds, chars, states[hi - 1], events[hi - 1], states[hi]);
    }
  }

  // A step that does no work is a clock interrupt or a failing swap.
  lemma IdleStep(rounds: nat, chars: seq<Cell>, n: nat, s: LState, e: Event, s': LState)
    requires Sound(rounds, n, s) && LStep(rounds, chars, s, e, s')
    requires Work(rounds, s'.threads) == Work(rounds, s.threads)
    ensures s'.threads == s.threads && s'.lock == s.lock
    ensures e.Own? ==> Spins(s) && s'.running == s.running
  {
    StepWork(rounds, chars, s, e, s');
  }

  // No work is done from lo to hi.
  ghost predicate Idle(rounds: nat, states: seq<LState>, lo: nat, hi: nat) {
    lo <= hi < |states| && Work(rounds, states[hi].threads) == Work(rounds, states[lo].threads)
  }

  lemma IdleBetween(rounds: nat, chars: seq<Cell>, states: seq<LState>, events: seq<Event>,
                    n: nat, lo: nat, t: nat, hi: nat)
    requires TurnRun(rounds, chars, states, events) && |chars| == n + 1
    requires lo <= t < hi <= |events| && Idle(rounds, states, lo, hi)
    ensures states[t + 1].threads == states[t].threads && states[t + 1].lock == states[t].lock
    ensures events[t].Own? ==> Spins(states[t]) && states[t + 1].running == states[t].running
  {
    WorkNeverGrows(rounds, chars, states, events, n, lo, t);
    WorkNeverGrows(rounds, chars, states, events, n, t, t + 1);
    WorkNeverGrows(rounds, chars, states, events, n, t + 1, hi);
    EveryStateIsSound(rounds, chars, states, events, n, t);
    LStepOf(rounds, chars, states, events, t);
    IdleStep(rounds, chars, n, states[t], events[t], states[t + 1]);
  }

  /* How far the holder of the lock is */

  // Dispatches from process a to process b among the processes 1 to n, at most.
  function Distance(n: nat, a: nat, b: nat): (d: nat)
    requires 1 <= a <= n && 1 <= b <= n
    ensures 1 <= d <= n
  {
    if a < b then b - a else b + n - a
  }

  // A dispatch to the next live process does not pass a live one.
  lemma Nearer(n: nat, a: nat, r: nat, h: nat)
    requires 1 <= a <= n && 1 <= r <= n && 1 <= h <= n && r != h
    requires Ahead(n + 1, a, r) <= Ahead(n + 1, a, h)
    ensures Distance(n, r, h) < Distance(n, a, h)
  {
  }

  // The kernel has just dispatched the holder, or each clock interrupt so far has brought it
  // nearer.
  ghost predicate Approaching(states: seq<LState>, events: seq<Event>, n: nat, lo: nat, t: nat, h: nat)
    requires lo <= t <= |events| < |states| && 1 <= h <= n
  {
    && 1 <= states[lo].running <= n && 1 <= states[t].running <= n
    && (|| (lo < t && events[t - 1].Timer? && states[t].running == h)
        || Distance(n, states[t].running, h) + Clocks(events, lo, t) <= Distance(n, states[lo].running, h))
  }

  lemma {:induction false} HolderApproaches(rounds: nat, chars: seq<Cell>, states: seq<LState>, events: seq<Event>,
                                            n: nat, lo: nat, t: nat, hi: nat, h: nat)
    requires TurnRun(rounds, chars, states, events) && |chars| == n + 1
    requires lo <= t <= hi <= |events| && lo < hi && Idle(rounds, states, lo, hi) && Patient(events, lo, hi)
    requires 1 <= h <= n && |states[lo].threads| == n + 1 && Inside(states[lo].threads[h])
    ensures states[t].threads == states[lo].threads
    ensures Approaching(states, events, n, lo, t, h)
    decreases t
  {
    if t == lo {
      EveryStateIsSound(rounds, chars, states, events, n, lo);
    } else {
      HolderApproaches(rounds, chars, states, events, n, lo, t - 1, hi, h);
      IdleBetween(rounds, chars, states, events, n, lo, t - 1, hi);
      if events[t - 1].Timer? {
        DispatchApproaches(rounds, chars, states, events, n, t - 1, h);
      }
    }
  }

  lemma DispatchApproaches(rounds: nat, chars: seq<Cell>, states: seq<LState>, events: seq<Event>,
                           n: nat, t: nat, h: nat)
    requires TurnRun(rounds, chars, states, events) && |chars| == n + 1 && t < |events| && events[t].Timer?
    requires 1 <= h <= n && |states[t].threads| == n + 1 && Inside(states[t].threads[h])
    requires 1 <= states[t].running <= n
    ensures 1 <= states[t + 1].running <= n
    ensures states[t + 1].running == h ||
            Distance(n, states[t + 1].running, h) < Distance(n, states[t].running, h)
  {
    EveryStateIsSound(rounds, chars, states, events, n, t + 1);
    LStepOf(rounds, chars, states, events, t);
    assert TurnAt(states, events, t);
    assert LockOrder.LiveAt(states[t + 1].threads, h);
    var r := states[t + 1].running;
    if r != h {
      Nearer(n, states[t].running, r, h);
    }
  }

  // With the lock free only clock interrupts do no work.
  lemma {:induction false} FreeMeansClocks(rounds: nat, chars: seq<Cell>, states: seq<LState>, events: seq<Event>,
                                           n: nat, lo: nat, t: nat, hi: nat)
    requires TurnRun(rounds, chars, states, events) && |chars| == n + 1
    requires lo <= t <= hi <= |events| && Idle(rounds, states, lo, hi) && states[lo].lock == 0
    ensures states[t].lock == 0 && forall i :: lo <= i < t ==> events[i].Timer?
    decreases t
  {
    if t == lo {
    } else {
      FreeMeansClocks(rounds, chars, states, events, n, lo, t - 1, hi);
      IdleBetween(rounds, chars, states, events, n, lo, t - 1, hi);
    }
  }

  // In any stretch with n clock interrupts, each followed by an instruction, work is done.
  lemma TurnsMakeProgress(rounds: nat, chars: seq<Cell>, states: seq<LState>, events: seq<Event>,
                          n: nat, lo: nat, hi: nat)
    requires TurnRun(rounds, chars, states, events) && |chars| == n + 1
    requires lo <= hi <= |events| && Patient(events, lo, hi) && n <= Clocks(events, lo, hi)
    ensures Work(rounds, states[hi].threads) < Work(rounds, states[lo].threads)
  {
    assert 1 <= n;
    assert lo < hi;
    EveryStateIsSound(rounds, chars, states, events, n, lo);
    WorkNeverGrows(rounds, chars, states, events, n, lo, hi);
    if Idle(rounds, states, lo, hi) {
      if states[lo].lock == 0 {
        FreeMeansClocks(rounds, chars, states, events, n, lo, hi, hi);
        assert false;
      } else {
        var h: nat :| h < |states[lo].threads| && Inside(states[lo].threads[h]);
        HolderApproaches(rounds, chars, states, events, n, lo, hi, hi, h);
        assert false;
      }
    }
  }

  /* How long it can take */

  lemma {:induction false} ClocksAdd(events: seq<Event>, lo: nat, mid: nat, hi: nat)
    requires lo <= mid <= hi <= |events|
    ensures Clocks(events, lo, hi) == Clocks(events, lo, mid) + Clocks(events, mid, hi)
    decreases hi
  {
    if mid == hi {
    } else {
      ClocksAdd(events, lo, mid, hi - 1);
    }
  }

  // Cutting off the first n clock interrupts, with the instruction after the last of them.
  lemma {:induction false} Cut(events: seq<Event>, lo: nat, t: nat, hi: nat, n: nat) returns (mid: nat)
    requires lo <= t <= hi <= |events| && Patient(events, lo, hi)
    requires Clocks(events, lo, t) < n <= Clocks(events, lo, hi)
    ensures lo <= mid <= hi && Clocks(events, lo, mid) == n
    ensures Patient(events, lo, mid) && Patient(events, mid, hi)
    decreases hi - t
  {
    if Clocks(events, lo, t + 1) < n {
      mid := Cut(events, lo, t + 1, hi, n);
    } else {
      mid := t + 2;
    }
  }

  // The clock interrupts there can be while `done` instructions are executed.
  function Allowed(n: nat, done: nat): nat {
    n * (done + 1)
  }

  lemma AllowedGrows(n: nat, done: nat, more: nat)
    requires done <= more
    ensures Allowed(n, done) <= Allowed(n, more)
  {
    MulGrows(done + 1, more + 1, n);
  }

  lemma AllowedNext(n: nat, done: nat)
    ensures Allowed(n, done) + n == Allowed(n, done + 1) && n <= Allowed(n, done)
  {
    MulGrows(1, done + 1, n);
  }

  // The work done from state lo to state hi.
  function Done(rounds: nat, states: seq<LState>, lo: nat, hi: nat): int
    requires lo <= hi < |states|
  {
    Work(rounds, states[lo].threads) - Work(rounds, states[hi].threads)
  }

  // Timer interrupts are bounded by the work done.
  lemma {:induction false} ClocksAgainstWork(rounds: nat, chars: seq<Cell>, states: seq<LState>, events: seq<Event>,
                                             n: nat, lo: nat, hi: nat)
    requires TurnRun(rounds, chars, states, events) && |chars| == n + 1
    requires lo <= hi <= |events| && Patient(events, lo, hi)
    ensures 0 <= Done(rounds, states, lo, hi)
    ensures Clocks(events, lo, hi) < Allowed(n, Done(rounds, states, lo, hi))
    decreases hi - lo
  {
    WorkNeverGrows(rounds, chars, states, events, n, lo, hi);
    if Clocks(events, lo, hi) < n {
      AllowedNext(n, Done(rounds, states, lo, hi));
    } else {
      assert 1 <= n;
      var mid := Cut(events, lo, lo, hi, n);
      TurnsMakeProgress(rounds, chars, states, events, n, lo, mid);
      ClocksAgainstWork(rounds, chars, states, events, n, mid, hi);
      ClocksAdd(events, lo, mid, hi);
      AllowedNext(n, Done(rounds, states, mid, hi));
      AllowedGrows(n, Done(rounds, states, mid, hi) + 1, Done(rounds, states, lo, hi));
    }
  }

  // What is done of all the work: nothing is left exactly when all processes have exited.
  lemma WorkDone(rounds: nat, chars: seq<Cell>, states: seq<LState>, events: seq<Event>, n: nat)
    requires TurnRun(rounds, chars, states, events) && |chars| == n + 1
    ensures var done := Done(rounds, states, 0, |events|);
      && 0 <= done <= LockOrder.TotalWork(rounds, n)
      && (done == LockOrder.TotalWork(rounds, n) <==> AllGone(states[|events|].threads))
  {
    var t := |events|;
    LockOrder.FirstWork(rounds, states[0].threads);
    WorkNeverGrows(rounds, chars, states, events, n, 0, t);
    EveryStateIsSound(rounds, chars, states, events, n, t);
    WorkLeft(rounds, states[t].threads);
  }

  // Liveness: under round robin every run in which each dispatched process executes at least
  // one instruction sees fewer than n * (n*(6R+1) + 1) clock interrupts.
  lemma ClocksAreBounded(rounds: nat, chars: seq<Cell>, states: seq<LState>, events: seq<Event>, n: nat)
    requires TurnRun(rounds, chars, states, events) && |chars| == n + 1
    requires Patient(events, 0, |events|)
    ensures Clocks(events, 0, |events|) < Allowed(n, LockOrder.TotalWork(rounds, n))
  {
    WorkDone(rounds, chars, states, events, n);
    ClocksAgainstWork(rounds, chars, states, events, n, 0, |events|);
    AllowedGrows(n, Done(rounds, states, 0, |events|), LockOrder.TotalWork(rounds, n));
  }

  // A run that has not ended can go on, with an instruction or a clock interrupt.
  lemma TurnStepExists(rounds: nat, chars: seq<Cell>, s: LState, e: Event) returns (s': LState)
    requires |chars| == |s.threads| && LiveCurrent(s)
    ensures LStep(rounds, chars, s, e, s')
    ensures Enters(s, e) && !AllGone(s'.threads) ==> LockOrder.NextLive(s'.threads, s.running, s'.running)
  {
    if e.Own? {
      s' := LockOrder.CoopStepExists(false, rounds, chars, s);
      if p: nat :| p < |s'.threads| && !s'.threads[p].pc.Gone? {
        assert LockOrder.LiveAt(s'.threads, p);
      }
    } else {
      var q := LockOrder.NearestLive(s.threads, s.running, s.running);
      s' := s.(running := q);
    }
  }

  lemma TurnRunAppend(rounds: nat, chars: seq<Cell>, states: seq<LState>, events: seq<Event>, e: Event, s': LState)
    requires TurnRun(rounds, chars, states, events) && LStep(rounds, chars, states[|events|], e, s')
    requires var s := states[|events|];
      Enters(s, e) && !AllGone(s'.threads) ==> LockOrder.NextLive(s'.threads, s.running, s'.running)
    ensures TurnRun(rounds, chars, states + [s'], events + [e])
  {
    RunAppend(rounds, chars, states, events, e, s');
    forall i: nat ensures TurnAt(states + [s'], events + [e], i) {
      if i < |events| {
        assert TurnAt(states, events, i);
      }
    }
  }

  lemma {:induction false} SameClocks(events: seq<Event>, more: seq<Event>, t: nat)
    requires t <= |events|
    ensures Clocks(events + more, 0, t) == Clocks(events, 0, t)
  {
    if t == 0 {
    } else {
      SameClocks(events, more, t - 1);
    }
  }

  // A clock interrupt and an instruction, or an instruction alone.
  lemma OneTurn(rounds: nat, chars: seq<Cell>, states: seq<LState>, events: seq<Event>, n: nat)
    returns (states': seq<LState>, events': seq<Event>)
    requires TurnRun(rounds, chars, states, events) && |chars| == n + 1 && Patient(events, 0, |events|)
    requires !AllGone(states[|events|].threads)
    ensures TurnRun(rounds, chars, states', events') && Patient(events', 0, |events'|)
    ensures states <= states' && events <= events'
    ensures Clocks(events', 0, |events'|) == Clocks(events, 0, |events|) + 1
  {
    var s := states[|events|];
    EveryStateIsSound(rounds, chars, states, events, n, |events|);
    var mid := TurnStepExists(rounds, chars, s, Timer);
    TurnRunAppend(rounds, chars, states, events, Timer, mid);
    var s' := TurnStepExists(rounds, chars, mid, Own);
    TurnRunAppend(rounds, chars, states + [mid], events + [Timer], Own, s');
    states', events' := states + [mid] + [s'], events + [Timer] + [Own];
    SameClocks(events, [Timer], |events|);
    SameClocks(events + [Timer], [Own], |events| + 1);
    assert Clocks(events + [Timer], 0, |events| + 1) == Clocks(events, 0, |events|) + 1;
    assert Clocks(events', 0, |events| + 2) == Clocks(events', 0, |events| + 1);
  }

  // So a run that goes on with the clock interrupting before every instruction ends.
  lemma {:induction false} TurnRunFinishes(rounds: nat, chars: seq<Cell>, states: seq<LState>, events: seq<Event>,
                                           n: nat)
    returns (states': seq<LState>, events': seq<Event>)
    requires TurnRun(rounds, chars, states, events) && |chars| == n + 1 && Patient(events, 0, |events|)
    ensures TurnRun(rounds, chars, states', events') && Patient(events', 0, |events'|)
    ensures states <= states' && events <= events'
    ensures AllGone(states'[|events'|].threads)
    decreases Allowed(n, LockOrder.TotalWork(rounds, n)) - Clocks(events, 0, |events|)
  {
    states', events' := states, events;
    if AllGone(states[|events|].threads) {
    } else {
      states', events' := OneTurn(rounds, chars, states, events, n);
      ClocksAreBounded(rounds, chars, states', events', n);
      states', events' := TurnRunFinishes(rounds, chars, states', events', n);
    }
  }
}
