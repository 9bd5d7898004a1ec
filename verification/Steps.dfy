// interrupt() and schedule() as one step of the kernel's state, what every step keeps,
// and when a step exists.
module Steps {
  import opened Machine
  import opened Cyclic
  import opened Processes

  const INT_CLOCK := 32
  const INT_SYS_YIELD := 48
  const INT_SYS_EXIT := 49
  const INT_SYS_PRIORITY := 50
  const INT_SYS_SHARE := 51
  const INT_SYS_LOTTERY := 52
  const INT_SYS_PRINT := 53

  const ROUND_ROBIN := 0
  const STRICT := 2
  const PRIORITY := 41
  const SHARE := 42
  const LOTTERY := 7

  // `cpu` holds the registers that run() has restored; `cells` the console cells written
  // since console_clear(), by their distance from the first one.
  datatype KState = KState(
    procs: seq<Proc>,
    current: nat,
    cpu: Regs,
    cursor: nat,
    cells: map<nat, Cell>)

  predicate KnownInterrupt(intno: int) {
    intno == INT_CLOCK || INT_SYS_YIELD <= intno <= INT_SYS_PRINT
  }

  // What interrupt() does before it calls schedule().
  function Handle(s: KState, reg: Regs): (h: KState)
    requires s.current < |s.procs|
    ensures h.current == s.current && |h.procs| == |s.procs|
  {
    var saved := s.procs[s.current].(regs := reg);
    var updated :=
      if reg.intno == INT_SYS_EXIT then saved.(state := Zombie, exitStatus := reg.eax)
      else if reg.intno == INT_SYS_PRIORITY then saved.(priority := reg.eax)
      else if reg.intno == INT_SYS_SHARE then saved.(shareAmt := reg.eax, shareLeft := reg.eax)
      else if reg.intno == INT_SYS_LOTTERY then saved.(lotteryAmt := reg.eax)
      else saved;
    var h := s.(procs := s.procs[s.current := updated]);
    if reg.intno == INT_SYS_PRINT
    then h.(cursor := s.cursor + 1, cells := s.cells[s.cursor := reg.eax % 0x1_0000])
    else h
  }

  // schedule() may choose p and leave the table as ps'.
  ghost predicate Dispatches(alg: int, ps: seq<Proc>, cur: nat, p: nat, ps': seq<Proc>)
    requires 2 <= |ps| && cur < |ps|
  {
    if alg == ROUND_ROBIN then NextRunnable(ps, cur, p) && ps' == ps
    else if alg == STRICT then NextRunnable(ps, 0, p) && ps' == ps
    else if alg == PRIORITY then PriorityChoice(ps, cur, p) && ps' == ps
    else if alg == SHARE then
      ShareChoice(ps, cur, p) && Eligible(RoundTable(ps), p) && ps' == Charge(RoundTable(ps), p)
    else if alg == LOTTERY then
      (exists ticket: nat :: ticket < Total(ps) && ChainWinner(ps, ticket, p)) && ps' == ps
    else false
  }

  // One interrupt, handled and followed by a dispatch: run() restores the registers that
  // were saved for the chosen process.
  ghost predicate Step(alg: int, s: KState, reg: Regs, s': KState) {
    && 2 <= |s.procs| && s.current < |s.procs|
    && KnownInterrupt(reg.intno)
    && var h := Handle(s, reg);
       && Dispatches(alg, h.procs, h.current, s'.current, s'.procs)
       && RunnableAt(s'.procs, s'.current)
       && s' == h.(procs := s'.procs, current := s'.current, cpu := s'.procs[s'.current].regs)
  }

  ghost predicate GoodTable(ps: seq<Proc>) {
    && 2 <= |ps|
    && (forall p :: 0 <= p < |ps| ==> ps[p].pid == p)
    && ps[0].state.Empty? && ps[0].lotteryAmt == 0
    && (forall p :: 0 <= p < |ps| ==> ps[p].shareLeft <= ps[p].shareAmt)
  }

  ghost predicate Good(s: KState) {
    && GoodTable(s.procs)
    && RunnableAt(s.procs, s.current)
    && s.cpu == s.procs[s.current].regs
  }

  // The state start() leaves.
  ghost predicate Booted(s: KState) {
    && Good(s) && s.current == 1 && s.cursor == 0 && s.cells == map[]
    && forall p :: 1 <= p < |s.procs| ==>
         && s.procs[p].state.Runnable? && s.procs[p].regs.frame == Frame(Head, 0)
         && s.procs[p].shareAmt == s.procs[p].lotteryAmt == 1
  }

  // What a dispatch leaves of a table: everything but the shares.
  ghost predicate SharesOnly(ps: seq<Proc>, ps': seq<Proc>) {
    && |ps'| == |ps|
    && forall p :: 0 <= p < |ps| ==>
         ps'[p] == ps[p].(shareLeft := ps'[p].shareLeft)
  }

  lemma DispatchKeeps(alg: int, ps: seq<Proc>, cur: nat, p: nat, ps': seq<Proc>)
    requires 2 <= |ps| && cur < |ps| && Dispatches(alg, ps, cur, p, ps')
    ensures RunnableAt(ps, p) && SharesOnly(ps, ps')
    ensures GoodTable(ps) ==> GoodTable(ps')
  {
  }

  // The effect of an interrupt before the dispatch, field by field: only the caller's
  // record changes; it stays runnable unless it exits; a call sets the one amount it is
  // for, and a new share amount is there to spend at once; only a print writes the console.
  // In numbers of interrupts: 32 the clock, 48 yield, 49 exit, 50 priority, 51 share,
  // 52 lottery, 53 print.
  lemma HandleEffect(s: KState, reg: Regs)
    requires Good(s)
    ensures KnownInterrupt(reg.intno) <==> reg.intno in {32, 48, 49, 50, 51, 52, 53}
    ensures var h := Handle(s, reg);
      var q, q' := s.procs[s.current], h.procs[s.current];
      && GoodTable(h.procs)
      && h.current == s.current && |h.procs| == |s.procs| && h.cpu == s.cpu
      && (forall p :: 0 <= p < |s.procs| && p != s.current ==> h.procs[p] == s.procs[p])
      && q'.regs == reg
      && (RunnableAt(h.procs, s.current) <==> reg.intno != 49)
      && (q'.state.Zombie? ==> q'.exitStatus == reg.eax)
      && (reg.intno != 49 ==> q'.exitStatus == q.exitStatus)
      && q'.priority == (if reg.intno == 50 then reg.eax else q.priority)
      && q'.shareAmt == (if reg.intno == 51 then reg.eax else q.shareAmt)
      && q'.shareLeft == (if reg.intno == 51 then q'.shareAmt else q.shareLeft)
      && q'.lotteryAmt == (if reg.intno == 52 then reg.eax else q.lotteryAmt)
      && h.cursor - s.cursor == One(reg.intno == 53)
      && (forall k: nat :: k != s.cursor ==>
            (k in h.cells <==> k in s.cells) && (k in s.cells ==> h.cells[k] == s.cells[k]))
      && (reg.intno == 53 ==> s.cursor in h.cells && h.cells[s.cursor] == reg.eax % 0x1_0000)
  {
  }

  // The invariant of every run, under every algorithm and for every program: the word a
  // process puts in its registers is unconstrained.
  lemma StepKeepsGood(alg: int, s: KState, reg: Regs, s': KState)
    requires Good(s) && Step(alg, s, reg, s')
    ensures Good(s')
  {
    var h := Handle(s, reg);
    HandleEffect(s, reg);
    DispatchKeeps(alg, h.procs, h.current, s'.current, s'.procs);
  }

  // No process becomes runnable again, and an exited one stays as it is.
  lemma StepNeverRevives(alg: int, s: KState, reg: Regs, s': KState)
    requires Good(s) && Step(alg, s, reg, s')
    ensures |s'.procs| == |s.procs|
    ensures forall p :: RunnableAt(s'.procs, p) ==> RunnableAt(s.procs, p)
    ensures forall p :: 0 <= p < |s.procs| && s.procs[p].state.Zombie? ==>
      s'.procs[p].(shareLeft := 0) == s.procs[p].(shareLeft := 0)
  {
    var h := Handle(s, reg);
    DispatchKeeps(alg, h.procs, h.current, s'.current, s'.procs);
  }

  /* When a dispatch exists, and that it is the only one */

  // Some ticket can be drawn with which a link of the chain fires; the smallest is enough.
  ghost predicate TicketWins(ps: seq<Proc>)
    requires 0 < |ps|
  {
    && 0 < Total(ps)
    && exists i: nat :: Fires(ps, 0, i)
  }

  // The search of the algorithm can end: for 4B a process has share in the table it chooses
  // from, for the lottery the chain lets some process win.
  ghost predicate Selectable(alg: int, ps: seq<Proc>)
    requires 0 < |ps|
  {
    if alg == SHARE then AnyEligible(RoundTable(ps))
    else if alg == LOTTERY then TicketWins(ps)
    else AnyRunnable(ps)
  }

  lemma {:induction false} NearestExists(ps: seq<Proc>, from: nat, p: nat)
    requires from < |ps| && RunnableAt(ps, p)
    ensures exists q: nat :: NextRunnable(ps, from, q)
    decreases Ahead(|ps|, from, p)
  {
    if q: nat :| RunnableAt(ps, q) && Ahead(|ps|, from, q) < Ahead(|ps|, from, p) {
      NearestExists(ps, from, q);
    } else {
      assert NextRunnable(ps, from, p);
    }
  }

  lemma {:induction false} BestExists(ps: seq<Proc>, p: nat)
    requires RunnableAt(ps, p)
    ensures exists q: nat :: Best(ps, q)
    decreases ps[p].priority
  {
    if q: nat :| RunnableAt(ps, q) && ps[q].priority < ps[p].priority {
      BestExists(ps, q);
    } else {
      assert Best(ps, p);
    }
  }

  lemma {:induction false} LastBestExists(ps: seq<Proc>, s: nat, p: nat)
    requires s < |ps| && Best(ps, p)
    ensures exists q: nat :: LastBest(ps, s, q)
    decreases Behind(|ps|, s, p)
  {
    if q: nat :| Best(ps, q) && Behind(|ps|, s, q) < Behind(|ps|, s, p) {
      LastBestExists(ps, s, q);
    } else {
      assert LastBest(ps, s, p);
    }
  }

  lemma {:induction false} PassStartExists(ps: seq<Proc>, cur: nat, s: nat)
    requires cur < |ps| && s < |ps| && Opens(ps, s)
    ensures exists t: nat :: PassStart(ps, cur, t)
    decreases Position(|ps|, s, cur)
  {
    if t: nat :| t < |ps| && Opens(ps, t) && Position(|ps|, t, cur) < Position(|ps|, s, cur) {
      PassStartExists(ps, cur, t);
    } else {
      assert PassStart(ps, cur, s);
    }
  }

  lemma {:induction false} LargestShareExists(ps: seq<Proc>, cur: nat, p: nat)
    requires cur < |ps| && Eligible(ps, p)
    ensures exists q: nat :: LargestShare(ps, cur, q)
    decreases WORD - ps[p].shareAmt, Position(|ps|, cur, p)
  {
    if q: nat :| Eligible(ps, q) && ps[q].shareAmt > ps[p].shareAmt {
      LargestShareExists(ps, cur, q);
    } else if q: nat :| && Eligible(ps, q) && ps[q].shareAmt == ps[p].shareAmt
                        && Position(|ps|, cur, q) < Position(|ps|, cur, p)
    {
      LargestShareExists(ps, cur, q);
    } else {
      assert LargestShare(ps, cur, p);
    }
  }

  lemma {:induction false} FirstFiring(ps: seq<Proc>, ticket: nat, q: nat)
    requires Fires(ps, ticket, q)
    ensures exists p: nat :: ChainWinner(ps, ticket, p)
  {
    if j: nat :| j < q && Fires(ps, ticket, j) {
      FirstFiring(ps, ticket, j);
    } else {
      assert ChainWinner(ps, ticket, q);
    }
  }

  // Every algorithm dispatches some process exactly when its search can end.
  lemma DispatchExists(alg: int, ps: seq<Proc>, cur: nat)
    requires 2 <= |ps| && cur < |ps|
    requires alg in {ROUND_ROBIN, STRICT, PRIORITY, SHARE, LOTTERY}
    ensures Selectable(alg, ps) <==> exists p: nat, ps' :: Dispatches(alg, ps, cur, p, ps')
  {
    if alg == SHARE {
      ShareDispatchExists(ps, cur);
    } else if alg == LOTTERY {
      LotteryDispatchExists(ps, cur);
    } else if AnyRunnable(ps) {
      var r :| RunnableAt(ps, r);
      if alg == PRIORITY {
        PriorityDispatchExists(ps, cur, r);
      } else {
        var from := if alg == STRICT then 0 else cur;
        NearestExists(ps, from, r);
        var p: nat :| NextRunnable(ps, from, p);
        assert Dispatches(alg, ps, cur, p, ps);
      }
    }
  }

  lemma PriorityDispatchExists(ps: seq<Proc>, cur: nat, r: nat)
    requires 2 <= |ps| && cur < |ps| && RunnableAt(ps, r)
    ensures exists p: nat :: Dispatches(PRIORITY, ps, cur, p, ps)
  {
    BestExists(ps, r);
    var b: nat :| Best(ps, b);
    assert Opens(ps, r);
    PassStartExists(ps, cur, r);
    var s: nat :| PassStart(ps, cur, s);
    LastBestExists(ps, s, b);
    var p: nat :| LastBest(ps, s, p);
    assert Dispatches(PRIORITY, ps, cur, p, ps);
  }

  // A link that fires for any ticket fires for ticket 0.
  lemma LotteryDispatchExists(ps: seq<Proc>, cur: nat)
    requires 2 <= |ps| && cur < |ps|
    ensures Selectable(LOTTERY, ps) <==> exists p: nat, ps' :: Dispatches(LOTTERY, ps, cur, p, ps')
  {
    if TicketWins(ps) {
      var i: nat :| Fires(ps, 0, i);
      FirstFiring(ps, 0, i);
      var p: nat :| ChainWinner(ps, 0, p);
      assert Dispatches(LOTTERY, ps, cur, p, ps);
    }
    if p: nat, ps' :| Dispatches(LOTTERY, ps, cur, p, ps') {
      assert Fires(ps, 0, p);
    }
  }

  lemma ShareDispatchExists(ps: seq<Proc>, cur: nat)
    requires 2 <= |ps| && cur < |ps|
    ensures Selectable(SHARE, ps) <==> exists p: nat, ps' :: Dispatches(SHARE, ps, cur, p, ps')
  {
    var table := RoundTable(ps);
    if Eligible(ps, cur) {
      assert Dispatches(SHARE, ps, cur, cur, Charge(table, cur));
    } else if AnyEligible(table) {
      var r :| Eligible(table, r);
      LargestShareExists(table, cur, r);
      var p: nat :| LargestShare(table, cur, p);
      assert Dispatches(SHARE, ps, cur, p, Charge(table, p));
    }
  }

  ghost predicate AnyShareholder(ps: seq<Proc>) {
    exists p :: RunnableAt(ps, p) && ps[p].shareAmt > 0
  }

  // Algorithm 4B finds a process exactly when a runnable one has a positive amount; with
  // only zero amounts it spins although processes are runnable.
  lemma ShareSelectable(ps: seq<Proc>)
    requires GoodTable(ps)
    ensures Selectable(SHARE, ps) <==> AnyShareholder(ps)
  {
    if AnyEligible(ps) {
      var p :| Eligible(ps, p);
      assert RunnableAt(ps, p) && ps[p].shareAmt > 0;
    } else if AnyShareholder(ps) {
      var p :| RunnableAt(ps, p) && ps[p].shareAmt > 0;
      assert Eligible(Refill(ps), p);
    }
  }

  // A process that gives itself no share while it is the only runnable one leaves 4B
  // spinning on it.
  lemma ZeroShareSpins()
    ensures
      var s := KState([IdleSlot(), OneProcess()], 1, OneProcess().regs, 0, map[]);
      var h := Handle(s, Regs(INT_SYS_SHARE, 0, Frame(Head, 0)));
      Good(s) && AnyRunnable(h.procs) && !Selectable(SHARE, h.procs)
  {
    var s := KState([IdleSlot(), OneProcess()], 1, OneProcess().regs, 0, map[]);
    var h := Handle(s, Regs(INT_SYS_SHARE, 0, Frame(Head, 0)));
    assert RunnableAt(h.procs, 1);
    ShareSelectable(h.procs);
  }

  // A process that gives itself no tickets while it is the only runnable one leaves a
  // total of zero, by which the lottery divides.
  lemma ZeroTicketsDivide()
    ensures
      var s := KState([IdleSlot(), OneProcess()], 1, OneProcess().regs, 0, map[]);
      var h := Handle(s, Regs(INT_SYS_LOTTERY, 0, Frame(Head, 0)));
      Good(s) && AnyRunnable(h.procs) && Tickets(h.procs) == 0
  {
    var s := KState([IdleSlot(), OneProcess()], 1, OneProcess().regs, 0, map[]);
    var h := Handle(s, Regs(INT_SYS_LOTTERY, 0, Frame(Head, 0)));
    assert RunnableAt(h.procs, 1);
    assert Prefix(h.procs, 0) == 0 && Prefix(h.procs, 1) == 0;
  }

  // Slot 0, and a process as start() leaves it.
  function IdleSlot(): Proc {
    Proc(0, Regs(0, 0, Frame(Head, 0)), 0, 0, 0, 0, Empty, 0)
  }

  function OneProcess(): Proc {
    Proc(1, Regs(0, 0, Frame(Head, 0)), 0, 1, 1, 1, Runnable, 0)
  }

  /* The choice is the only one: equal distances mean equal slots */

  lemma AheadUnique(n: nat, a: nat, p: nat, q: nat)
    requires a < n && p < n && q < n && Ahead(n, a, p) == Ahead(n, a, q)
    ensures p == q
  {
  }

  lemma PositionUnique(n: nat, a: nat, p: nat, q: nat)
    requires a < n && p < n && q < n
    requires Position(n, a, p) == Position(n, a, q) || Position(n, p, a) == Position(n, q, a)
    ensures p == q
  {
  }

  lemma NearestUnique(ps: seq<Proc>, from: nat, p: nat, q: nat)
    requires from < |ps| && NextRunnable(ps, from, p) && NextRunnable(ps, from, q)
    ensures p == q
  {
    AheadUnique(|ps|, from, p, q);
  }

  lemma PassStartUnique(ps: seq<Proc>, cur: nat, s: nat, t: nat)
    requires cur < |ps| && PassStart(ps, cur, s) && PassStart(ps, cur, t)
    ensures s == t
  {
    PositionUnique(|ps|, cur, s, t);
  }

  lemma LastBestUnique(ps: seq<Proc>, s: nat, p: nat, q: nat)
    requires s < |ps| && LastBest(ps, s, p) && LastBest(ps, s, q)
    ensures p == q
  {
    assert Behind(|ps|, s, p) == Behind(|ps|, s, q);
    assert Slot(|ps|, p, Behind(|ps|, s, p)) == Slot(|ps|, q, Behind(|ps|, s, q)) == s;
  }

  lemma PriorityUnique(ps: seq<Proc>, cur: nat, p: nat, q: nat)
    requires cur < |ps| && PriorityChoice(ps, cur, p) && PriorityChoice(ps, cur, q)
    ensures p == q
  {
    var s: nat :| PassStart(ps, cur, s) && LastBest(ps, s, p);
    var t: nat :| PassStart(ps, cur, t) && LastBest(ps, t, q);
    PassStartUnique(ps, cur, s, t);
    LastBestUnique(ps, s, p, q);
  }

  lemma LargestShareUnique(ps: seq<Proc>, cur: nat, p: nat, q: nat)
    requires cur < |ps| && LargestShare(ps, cur, p) && LargestShare(ps, cur, q)
    ensures p == q
  {
    PositionUnique(|ps|, cur, p, q);
  }

  // Algorithms 0, 2, 4A and 4B leave no choice.
  lemma DispatchUnique(alg: int, ps: seq<Proc>, cur: nat, p: nat, ps': seq<Proc>, q: nat, ps'': seq<Proc>)
    requires 2 <= |ps| && cur < |ps| && alg != LOTTERY
    requires Dispatches(alg, ps, cur, p, ps') && Dispatches(alg, ps, cur, q, ps'')
    ensures p == q && ps' == ps''
  {
    if alg == ROUND_ROBIN {
      NearestUnique(ps, cur, p, q);
    } else if alg == STRICT {
      NearestUnique(ps, 0, p, q);
    } else if alg == PRIORITY {
      PriorityUnique(ps, cur, p, q);
    } else if !Eligible(ps, cur) {
      LargestShareUnique(RoundTable(ps), cur, p, q);
    }
  }
}
