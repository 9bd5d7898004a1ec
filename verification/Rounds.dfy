// Proportional share over whole runs: what each process gets from one refill to the next,
// and over any stretch that begins at a refill.
module Rounds {
  import opened Machine
  import opened Processes
  import opened Steps
  import opened Runs

  // The step that starts from s begins a new round.
  ghost predicate Refills(s: KState, reg: Regs)
    requires s.current < |s.procs|
  {
    !AnyEligible(Handle(s, reg).procs)
  }

  predicate CallsShare(s: KState, reg: Regs, p: nat) {
    s.current == p && reg.intno == INT_SYS_SHARE
  }

  // p stays runnable up to state hi and does not call sys_share from state lo on.
  ghost predicate KeepsShare(states: seq<KState>, regs: seq<Regs>, p: nat, lo: nat, hi: nat) {
    && lo <= hi < |states| && hi <= |regs|
    && RunnableAt(states[hi].procs, p)
    && forall i :: lo <= i < hi ==> !CallsShare(states[i], regs[i], p)
  }

  // Share left to p after a step: refilled or not, less the unit paid for a dispatch.
  lemma ShareStep(s: KState, reg: Regs, s': KState, p: nat)
    requires Good(s) && Step(SHARE, s, reg, s')
    requires RunnableAt(s'.procs, p) && !CallsShare(s, reg, p)
    ensures RunnableAt(s.procs, p) && s'.procs[p].shareAmt == s.procs[p].shareAmt
    ensures Refills(s, reg) ==> s.procs[p].shareLeft == 0
    ensures s'.procs[p].shareLeft + One(s'.current == p) ==
      if Refills(s, reg) then s.procs[p].shareAmt else s.procs[p].shareLeft
  {
    var h := Handle(s, reg);
    DispatchKeeps(SHARE, h.procs, h.current, s'.current, s'.procs);
    assert RunnableAt(h.procs, p);
    if Refills(s, reg) {
      assert !Eligible(h.procs, p);
    }
  }

  // The refills among the steps from state lo to state hi.
  ghost function RefillCount(states: seq<KState>, regs: seq<Regs>, lo: nat, hi: nat): (c: nat)
    requires lo <= hi <= |regs| && |states| == |regs| + 1
  {
    if lo == hi then 0 else
      var s := states[hi - 1];
      RefillCount(states, regs, lo, hi - 1) + One(s.current < |s.procs| && Refills(s, regs[hi - 1]))
  }

  // The state is the first one after a refill: its own dispatch already counts.
  ghost predicate AfterRefill(states: seq<KState>, regs: seq<Regs>, f: nat) {
    && 1 <= f < |states| && f <= |regs|
    && states[f - 1].current < |states[f - 1].procs| && Refills(states[f - 1], regs[f - 1])
  }

  // ShareStep at step i of a run.
  lemma ShareStepAt(states: seq<KState>, regs: seq<Regs>, p: nat, lo: nat, hi: nat, i: nat)
    requires Run(SHARE, states, regs) && KeepsShare(states, regs, p, lo, hi) && lo <= i < hi
    ensures RunnableAt(states[i].procs, p) && RunnableAt(states[i + 1].procs, p)
    ensures states[i].current < |states[i].procs|
    ensures states[i + 1].procs[p].shareAmt == states[i].procs[p].shareAmt
    ensures Refills(states[i], regs[i]) ==> states[i].procs[p].shareLeft == 0
    ensures states[i + 1].procs[p].shareLeft + One(states[i + 1].current == p) ==
      if Refills(states[i], regs[i]) then states[i].procs[p].shareAmt else states[i].procs[p].shareLeft
  {
    EveryStateIsGood(SHARE, states, regs, i);
    RunnableBefore(SHARE, states, regs, i + 1, hi, p);
    StepOf(SHARE, states, regs, i);
    ShareStep(states[i], regs[i], states[i + 1], p);
  }

  // From a refill on, the dispatches of a process are its amount for every later refill
  // and what it has used up since the last one.
  lemma {:induction false} DispatchesSinceRefill(states: seq<KState>, regs: seq<Regs>, p: nat, f: nat, hi: nat)
    requires Run(SHARE, states, regs) && AfterRefill(states, regs, f) && f <= hi
    requires KeepsShare(states, regs, p, f - 1, hi)
    ensures RunnableAt(states[f].procs, p)
    ensures states[hi].procs[p].shareAmt == states[f].procs[p].shareAmt
    ensures Count(states, p, f - 1, hi) ==
      RefillCount(states, regs, f, hi) * states[f].procs[p].shareAmt
      + states[f].procs[p].shareAmt - states[hi].procs[p].shareLeft
    decreases hi
  {
    ShareStepAt(states, regs, p, f - 1, hi, hi - 1);
    if f < hi {
      DispatchesSinceRefill(states, regs, p, f, hi - 1);
      var refills := RefillCount(states, regs, f, hi - 1);
      NextRound(refills, states[f].procs[p].shareAmt);
      assert RefillCount(states, regs, f, hi) == refills + One(Refills(states[hi - 1], regs[hi - 1]));
    } else {
      assert Count(states, p, f - 1, f) == One(states[f].current == p);
    }
  }

  lemma NextRound(refills: nat, amt: nat)
    ensures (refills + 1) * amt == refills * amt + amt
  {
  }

  // Dispatch counts are in proportion to the share amounts, to within one round.
  lemma ProportionalShare(states: seq<KState>, regs: seq<Regs>, p: nat, q: nat, f: nat, hi: nat)
    requires Run(SHARE, states, regs) && AfterRefill(states, regs, f) && f <= hi
    requires KeepsShare(states, regs, p, f - 1, hi) && KeepsShare(states, regs, q, f - 1, hi)
    ensures
      var amtP, amtQ := states[hi].procs[p].shareAmt, states[hi].procs[q].shareAmt;
      -(amtP * amtQ) <= Count(states, p, f - 1, hi) * amtQ - Count(states, q, f - 1, hi) * amtP <= amtP * amtQ
  {
    DispatchesSinceRefill(states, regs, p, f, hi);
    DispatchesSinceRefill(states, regs, q, f, hi);
    EveryStateIsGood(SHARE, states, regs, hi);
    var a, b := states[hi].procs[p], states[hi].procs[q];
    CrossMultiply(RefillCount(states, regs, f, hi), a.shareAmt, b.shareAmt,
                  a.shareAmt - a.shareLeft, b.shareAmt - b.shareLeft);
  }

  lemma CrossMultiply(rounds: nat, amtP: nat, amtQ: nat, usedP: nat, usedQ: nat)
    requires usedP <= amtP && usedQ <= amtQ
    ensures -(amtP * amtQ) <= (rounds * amtP + usedP) * amtQ - (rounds * amtQ + usedQ) * amtP <= amtP * amtQ
  {
    assert (rounds * amtP + usedP) * amtQ == rounds * amtP * amtQ + usedP * amtQ;
    assert (rounds * amtQ + usedQ) * amtP == rounds * amtQ * amtP + usedQ * amtP;
    assert rounds * amtP * amtQ == rounds * amtQ * amtP;
    MulGrows(usedP, amtP, amtQ);
    MulGrows(usedQ, amtQ, amtP);
  }

  // A complete round dispatches p exactly as often as its share amount says.
  lemma RoundIsExact(states: seq<KState>, regs: seq<Regs>, p: nat, f: nat, g: nat)
    requires Run(SHARE, states, regs) && AfterRefill(states, regs, f)
    requires AfterRefill(states, regs, g) && f < g && RefillCount(states, regs, f, g - 1) == 0
    requires KeepsShare(states, regs, p, f - 1, g)
    ensures Count(states, p, f - 1, g - 1) == states[g].procs[p].shareAmt
  {
    ShareStepAt(states, regs, p, f - 1, g, g - 1);
    DispatchesSinceRefill(states, regs, p, f, g - 1);
  }

  // Once p has nothing left it is not dispatched again before the next refill.
  lemma {:induction false} SpentUntilRefill(states: seq<KState>, regs: seq<Regs>, p: nat, i: nat, j: nat)
    requires Run(SHARE, states, regs) && i <= j
    requires KeepsShare(states, regs, p, i, j) && RefillCount(states, regs, i, j) == 0
    requires RunnableAt(states[i].procs, p) && states[i].procs[p].shareLeft == 0
    ensures states[j].procs[p].shareLeft == 0
    ensures Count(states, p, i, j) == 0
    decreases j
  {
    if i == j {
    } else {
      ShareStepAt(states, regs, p, i, j, j - 1);
      SpentUntilRefill(states, regs, p, i, j - 1);
    }
  }

  // Within a round the dispatches of p are contiguous.
  lemma {:induction false} RoundIsContiguous(states: seq<KState>, regs: seq<Regs>, p: nat, i: nat, j: nat, k: nat)
    requires Run(SHARE, states, regs) && i <= k <= j
    requires KeepsShare(states, regs, p, i, j) && RefillCount(states, regs, i, j) == 0
    requires states[i].current == p && states[j].current == p
    ensures states[k].current == p
    decreases k
  {
    if i < k < j {
      RefillsSplit(states, regs, i, k, j);
      RefillsSplit(states, regs, i, k - 1, k);
      RoundIsContiguous(states, regs, p, i, j, k - 1);
      ShareStepAt(states, regs, p, i, j, k - 1);
      if states[k].current != p {
        PassedOver(states, regs, p, k - 1);
        SpentUntilRefill(states, regs, p, k, j);
      }
    }
  }

  // The running process is passed over only when it has nothing left.
  lemma PassedOver(states: seq<KState>, regs: seq<Regs>, p: nat, i: nat)
    requires Run(SHARE, states, regs) && i < |regs|
    requires states[i].current == p && states[i + 1].current != p
    requires RunnableAt(states[i + 1].procs, p) && !CallsShare(states[i], regs[i], p)
    requires states[i].current < |states[i].procs| && !Refills(states[i], regs[i])
    ensures states[i + 1].procs[p].shareLeft == 0
  {
    EveryStateIsGood(SHARE, states, regs, i);
    StepOf(SHARE, states, regs, i);
    ShareStep(states[i], regs[i], states[i + 1], p);
    assert !Eligible(Handle(states[i], regs[i]).procs, p);
  }

  lemma {:induction false} RefillsSplit(states: seq<KState>, regs: seq<Regs>, i: nat, k: nat, j: nat)
    requires i <= k <= j <= |regs| && |states| == |regs| + 1
    ensures RefillCount(states, regs, i, j) == RefillCount(states, regs, i, k) + RefillCount(states, regs, k, j)
    decreases j
  {
    if k == j {
    } else {
      RefillsSplit(states, regs, i, k, j - 1);
    }
  }
}
