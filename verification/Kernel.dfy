// The kernel as it runs: its variables updated in place by start(), interrupt(),
// schedule() and run().
module KernelCode {
  import opened Machine
  import opened Processes
  import opened Temper
  import opened Steps
  import Search

  // How a call of interrupt() leaves the kernel: a process runs; the search loop spins;
  // the lottery divides by zero, or has redrawn every seed so far; or the interrupt or
  // the algorithm is not one the kernel knows.
  datatype Outcome = Running | Spinning | DivideError | Redrawing | Stuck

  // Seed k is the first one that is not redrawn, and p wins with it.
  ghost predicate Draws(ps: seq<Proc>, total: nat, seeds: seq<Word>, k: nat, p: nat)
    requires 0 < total
  {
    && k < |seeds|
    && ChainWinner(ps, Scramble(seeds[k]) % total, p)
    && forall j :: 0 <= j < k ==> Redraws(ps, Scramble(seeds[j]) % total)
  }

  // How algorithm 7 ends on a table and the seeds it is shown. When no ticket wins it divides
  // by zero or redraws whatever the seeds are.
  ghost predicate LotteryEnds(ps: seq<Proc>, seeds: seq<Word>, o: Outcome, p: nat)
    requires |ps| > 0
  {
    var total := Total(ps);
    && (o.DivideError? <==> total == 0)
    && (o.Redrawing? <==> total != 0 && forall k :: 0 <= k < |seeds| ==> Redraws(ps, Scramble(seeds[k]) % total))
    && (o.Running? ==> total != 0 && Selectable(LOTTERY, ps) && exists k: nat :: Draws(ps, total, seeds, k, p))
    && (!Selectable(LOTTERY, ps) ==> o == if total == 0 then DivideError else Redrawing)
    && !o.Spinning? && !o.Stuck?
  }

  // The first seed that is not redrawn decides.
  lemma DrawnEnds(ps: seq<Proc>, seeds: seq<Word>, k: nat, p: nat)
    requires 2 <= |ps| && 0 < Total(ps) && Draws(ps, Total(ps), seeds, k, p)
    ensures LotteryEnds(ps, seeds, Running, p)
    ensures Dispatches(LOTTERY, ps, 0, p, ps)
  {
    var ticket := Scramble(seeds[k]) % Total(ps);
    assert Fires(ps, ticket, p);
    assert Fires(ps, 0, p);
  }

  lemma RedrawnEnds(ps: seq<Proc>, seeds: seq<Word>, p: nat)
    requires 2 <= |ps| && 0 < Total(ps)
    requires forall k :: 0 <= k < |seeds| ==> Redraws(ps, Scramble(seeds[k]) % Total(ps))
    ensures LotteryEnds(ps, seeds, Redrawing, p)
  {
  }

  class Kernel {
    const procs: array<Proc>
    const algorithm: int
    var current: nat
    var cpu: Regs
    var cursor: nat
    var cells: map<nat, Cell>

    ghost predicate Valid()
      reads this, procs
    {
      2 <= procs.Length && current < procs.Length
    }

    ghost function Snapshot(): KState
      reads this, procs
    {
      KState(procs[..], current, cpu, cursor, cells)
    }

    // start(): the table, the shared variables and the first dispatch, for n - 1
    // applications whose entry frame the loader has found.
    constructor (n: nat, algorithm: int)
      requires 2 <= n
      ensures Valid() && fresh(procs) && this.algorithm == algorithm
      ensures Booted(Snapshot()) && procs.Length == n
      ensures forall p :: 1 <= p < n ==>
        procs[p] == Proc(p, Regs(0, 0, Frame(Head, 0)), 0, 1, 1, 1, Runnable, 0)
    {
      var zero := Proc(0, Regs(0, 0, Frame(Head, 0)), 0, 0, 0, 0, Empty, 0);
      var table := new Proc[n](i => zero);
      this.procs := table;
      this.algorithm := algorithm;
      this.cursor := 0;
      this.cells := map[];
      this.current := 0;
      this.cpu := zero.regs;
      new;
      for i := 0 to n
        modifies procs
        invariant forall j :: 0 <= j < n ==> procs[j] == if j < i then zero.(pid := j) else zero
      {
        procs[i] := procs[i].(pid := i, state := Empty);
      }
      for i := 1 to n
        modifies procs
        invariant procs[0] == zero
        invariant forall j :: 1 <= j < i ==>
          procs[j] == zero.(pid := j, state := Runnable, shareAmt := 1, shareLeft := 1, lotteryAmt := 1)
        invariant forall j :: i <= j < n ==> procs[j] == zero.(pid := j)
      {
        procs[i] := procs[i].(state := Runnable, shareAmt := 1, shareLeft := 1, lotteryAmt := 1);
      }
      Run(1);
    }

    method Run(p: nat)
      requires p < procs.Length
      modifies this`current, this`cpu
      ensures current == p && cpu == procs[p].regs
    {
      current := p;
      cpu := procs[p].regs;
    }

    method Schedule(seeds: seq<Word>) returns (o: Outcome)
      requires Valid()
      modifies this`current, this`cpu, procs
      ensures Valid()
      ensures o.Running? ==>
        && Dispatches(algorithm, old(procs[..]), old(current), current, procs[..])
        && cpu == procs[current].regs
      ensures !o.Running? ==> current == old(current) && cpu == old(cpu)
      ensures o.Spinning? ==> procs[..] == if algorithm == SHARE then RoundTable(old(procs[..])) else old(procs[..])
      ensures algorithm in {ROUND_ROBIN, STRICT, PRIORITY, SHARE} ==>
        o == if Selectable(algorithm, old(procs[..])) then Running else Spinning
      ensures algorithm == LOTTERY ==>
        LotteryEnds(old(procs[..]), seeds, o, current)
      ensures algorithm !in {ROUND_ROBIN, STRICT, PRIORITY, SHARE, LOTTERY} ==> o.Stuck?
      ensures o.DivideError? || o.Redrawing? || o.Stuck? ==> procs[..] == old(procs[..])
    {
      var choice: Option<nat>;
      if algorithm == ROUND_ROBIN {
        choice := Search.RoundRobin(procs, current);
      } else if algorithm == STRICT {
        choice := Search.Strict(procs);
      } else if algorithm == PRIORITY {
        choice := Search.Priority(procs, current);
      } else if algorithm == SHARE {
        choice := Search.Share(procs, current);
      } else if algorithm == LOTTERY {
        o := Lottery(seeds);
        return;
      } else {
        return Stuck;
      }
      if choice.None? {
        return Spinning;
      }
      Run(choice.value);
      return Running;
    }

    // The lottery of schedule(), with the dispatch.
    method Lottery(seeds: seq<Word>) returns (o: Outcome)
      requires Valid()
      modifies this`current, this`cpu
      ensures LotteryEnds(procs[..], seeds, o, current)
      ensures o.Running? ==>
        Dispatches(LOTTERY, procs[..], old(current), current, procs[..]) && cpu == procs[current].regs
      ensures !o.Running? ==> current == old(current) && cpu == old(cpu)
    {
      var total := Search.LotteryTotal(procs);
      if total == 0 {
        return DivideError;
      }
      var choice, k := Search.Draw(procs, total, seeds);
      if choice.None? {
        RedrawnEnds(procs[..], seeds, current);
        return Redrawing;
      }
      DrawnEnds(procs[..], seeds, k, choice.value);
      Run(choice.value);
      return Running;
    }

    // Saving the registers, and the effect of the interrupt.
    method Enter(reg: Regs) returns (known: bool)
      requires Valid()
      modifies this`cursor, this`cells, procs
      ensures Valid()
      ensures known == KnownInterrupt(reg.intno)
      ensures Snapshot() == Handle(old(Snapshot()), reg)
    {
      known := true;
      ghost var s := Snapshot();
      procs[current] := procs[current].(regs := reg);
      if reg.intno == INT_SYS_YIELD {
      } else if reg.intno == INT_SYS_EXIT {
        procs[current] := procs[current].(state := Zombie, exitStatus := reg.eax);
      } else if reg.intno == INT_SYS_PRIORITY {
        procs[current] := procs[current].(priority := reg.eax);
      } else if reg.intno == INT_SYS_SHARE {
        procs[current] := procs[current].(shareAmt := reg.eax);
        procs[current] := procs[current].(shareLeft := procs[current].shareAmt);
      } else if reg.intno == INT_SYS_LOTTERY {
        procs[current] := procs[current].(lotteryAmt := reg.eax);
      } else if reg.intno == INT_SYS_PRINT {
        cells, cursor := cells[cursor := reg.eax % 0x1_0000], cursor + 1;
      } else if reg.intno == INT_CLOCK {
      } else {
        known := false;
      }
      assert Snapshot() == Handle(s, reg);
    }

    // A system call or a clock tick of the running process, with the registers it left.
    method Interrupt(reg: Regs, seeds: seq<Word>) returns (o: Outcome)
      requires Valid()
      modifies this, procs
      ensures Valid()
      ensures o.Running? ==> Step(algorithm, old(Snapshot()), reg, Snapshot())
      ensures KnownInterrupt(reg.intno) && algorithm in {ROUND_ROBIN, STRICT, PRIORITY, SHARE} ==>
        (o.Running? <==> Selectable(algorithm, Handle(old(Snapshot()), reg).procs))
      ensures KnownInterrupt(reg.intno) && !o.Running? ==>
        && var h := Handle(old(Snapshot()), reg);
           Snapshot() == if algorithm == SHARE then h.(procs := RoundTable(h.procs)) else h
      ensures KnownInterrupt(reg.intno) && algorithm == LOTTERY ==>
        LotteryEnds(Handle(old(Snapshot()), reg).procs, seeds, o, current)
      ensures !KnownInterrupt(reg.intno) ==> o.Stuck? && Snapshot() == Handle(old(Snapshot()), reg)
      ensures algorithm !in {ROUND_ROBIN, STRICT, PRIORITY, SHARE, LOTTERY} ==> o.Stuck?
    {
      var known := Enter(reg);
      if !known {
        return Stuck;
      }
      ghost var h := Snapshot();
      o := Schedule(seeds);
      if o.Running? {
        DispatchKeeps(algorithm, h.procs, h.current, current, procs[..]);
      }
    }
  }
}
