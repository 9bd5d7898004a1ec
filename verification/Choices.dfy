// What each algorithm chooses, said of the slots of the table and nothing else: slots are
// reached by `(pid + k) % NPROCS`, states and amounts are read from the records.
module Choices {
  import opened Machine
  import opened Cyclic
  import opened Processes
  import opened Steps

  // The slot k steps after `from`, and k steps before it.
  function Forward(n: nat, from: nat, k: nat): (s: nat)
    requires 0 < n
  {
    (from + k) % n
  }

  function Backward(n: nat, from: nat, k: nat): (s: int)
    requires 0 < n
  {
    (from - k) % n
  }

  lemma ForwardIsSlot(n: nat, from: nat, k: nat)
    requires from < n && k <= n
    ensures Forward(n, from, k) == Slot(n, from, k)
  {
    if from + k >= n {
      DivUnique(from + k, n, 1, from + k - n);
    } else {
      DivUnique(from + k, n, 0, from + k);
    }
  }

  lemma BackwardReaches(n: nat, from: nat, k: nat, s: nat)
    requires from < n && k <= n && s < n && Slot(n, s, k) == from
    ensures Backward(n, from, k) == s
  {
    if s + k >= n {
      Wraps(from - k, n, s);
    } else {
      DivUnique(from - k, n, 0, s);
    }
  }

  lemma Wraps(x: int, n: nat, s: nat)
    requires 0 < n && s < n && x == s - n
    ensures x % n == s
  {
    var q, r := x / n, x % n;
    assert x == q * n + r;
    if q < -1 {
      MulGrows(2, -q, n);
    } else if q >= 0 {
      MulGrows(0, q, n);
    }
  }

  lemma BackwardInRange(n: nat, from: nat, k: nat)
    requires from < n && k <= n
    ensures 0 <= Backward(n, from, k) < n
    ensures Slot(n, Backward(n, from, k), k) == from
  {
    var s := if k <= from then from - k else from + n - k;
    BackwardReaches(n, from, k, s);
  }

  // Algorithm 0: the first runnable slot after the current one.
  lemma RoundRobinInFull(ps: seq<Proc>, cur: nat, p: nat, ps': seq<Proc>) returns (d: nat)
    requires 2 <= |ps| && cur < |ps| && Dispatches(0, ps, cur, p, ps')
    ensures 1 <= d <= |ps| && p == Forward(|ps|, cur, d) < |ps| && ps[p].state == Runnable
    ensures forall e :: 1 <= e < d && Forward(|ps|, cur, e) < |ps| ==> ps[Forward(|ps|, cur, e)].state != Runnable
    ensures ps' == ps
  {
    d := Ahead(|ps|, cur, p);
    ForwardIsSlot(|ps|, cur, d);
    forall e | 1 <= e < d && Forward(|ps|, cur, e) < |ps| ensures ps[Forward(|ps|, cur, e)].state != Runnable {
      ForwardIsSlot(|ps|, cur, e);
      assert Ahead(|ps|, cur, Forward(|ps|, cur, e)) == e;
    }
  }

  // Algorithm 2: the runnable process with the least pid; slot 0 would come last.
  lemma StrictInFull(ps: seq<Proc>, cur: nat, p: nat, ps': seq<Proc>)
    requires 2 <= |ps| && cur < |ps| && Dispatches(2, ps, cur, p, ps')
    ensures p < |ps| && ps[p].state == Runnable && ps' == ps
    ensures 1 <= p ==> forall q :: 1 <= q < p ==> ps[q].state != Runnable
    ensures p == 0 ==> forall q :: 1 <= q < |ps| ==> ps[q].state != Runnable
  {
    forall q | 1 <= q < |ps| && ps[q].state == Runnable ensures 1 <= p <= q {
      assert RunnableAt(ps, q);
    }
  }

  // Algorithm 4A: a runnable process of least priority value. The pass starts a steps
  // before the current slot, the first such slot that is runnable or has a runnable process
  // at or below its priority value; the choice is b steps before that start, the first of
  // the best met going backwards, and the start itself only after all others.
  lemma PriorityInFull(ps: seq<Proc>, cur: nat, p: nat, ps': seq<Proc>) returns (a: nat, start: nat, b: nat)
    requires 2 <= |ps| && cur < |ps| && Dispatches(41, ps, cur, p, ps')
    ensures p < |ps| && ps[p].state == Runnable && ps' == ps
    ensures forall q :: 0 <= q < |ps| && ps[q].state == Runnable ==> ps[p].priority <= ps[q].priority
    ensures a < |ps| && start == Backward(|ps|, cur, a) < |ps| && Passes(ps, start)
    ensures forall e :: 0 <= e < a ==> !Passes(ps, Backward(|ps|, cur, e))
    ensures 1 <= b <= |ps| && p == Backward(|ps|, start, b)
    ensures forall e :: 1 <= e < b ==> !Least(ps, Backward(|ps|, start, e))
  {
    var n := |ps|;
    start :| PassStart(ps, cur, start) && LastBest(ps, start, p);
    a, b := Position(n, start, cur), Behind(n, start, p);
    BackwardReaches(n, cur, a, start);
    BackwardReaches(n, start, b, p);
    PassesIsOpens(ps);
    forall e | 0 <= e < a ensures !Passes(ps, Backward(n, cur, e)) {
      BackwardInRange(n, cur, e);
      assert Position(n, Backward(n, cur, e), cur) == e;
    }
    forall e | 1 <= e < b ensures !Least(ps, Backward(n, start, e)) {
      BackwardInRange(n, start, e);
      assert Behind(n, start, Backward(n, start, e)) == e;
      if Least(ps, Backward(n, start, e)) {
        LeastIsBest(ps, Backward(n, start, e));
      }
    }
    forall q | 0 <= q < n && ps[q].state == Runnable ensures ps[p].priority <= ps[q].priority {
      assert RunnableAt(ps, q);
    }
  }

  // Runnable, or with somebody runnable at or below its priority value.
  ghost predicate Passes(ps: seq<Proc>, s: int) {
    && 0 <= s < |ps|
    && (ps[s].state == Runnable
        || exists q :: 0 <= q < |ps| && ps[q].state == Runnable && ps[q].priority <= ps[s].priority)
  }

  // Runnable, with the least priority value of the runnable processes.
  ghost predicate Least(ps: seq<Proc>, p: int) {
    && 0 <= p < |ps| && ps[p].state == Runnable
    && forall q :: 0 <= q < |ps| && ps[q].state == Runnable ==> ps[p].priority <= ps[q].priority
  }

  lemma PassesIsOpens(ps: seq<Proc>)
    ensures forall s: nat :: s < |ps| ==> (Passes(ps, s) <==> Opens(ps, s))
  {
    forall s: nat | s < |ps| ensures Passes(ps, s) <==> Opens(ps, s) {
      if q :| 0 <= q < |ps| && ps[q].state == Runnable && ps[q].priority <= ps[s].priority {
        assert RunnableAt(ps, q);
      }
    }
  }

  lemma LeastIsBest(ps: seq<Proc>, p: int)
    requires Least(ps, p)
    ensures Best(ps, p)
  {
  }

  // Algorithm 4B: the current process while it is runnable and has share left. Otherwise the
  // runnable process with share left of the largest amount, the first at or after the current
  // slot among equals; and when no runnable process has share left every slot but slot 0 is
  // first given its full amount. The choice pays one unit.
  lemma ShareInFull(ps: seq<Proc>, cur: nat, p: nat, ps': seq<Proc>) returns (table: seq<Proc>)
    requires 2 <= |ps| && cur < |ps| && Dispatches(42, ps, cur, p, ps')
    ensures p < |ps| == |table|
    ensures (ps[cur].state == Runnable && ps[cur].shareLeft > 0) ==> p == cur
    ensures forall q :: 0 <= q < |ps| ==>
      if 1 <= q && NobodyHasShare(ps) then table[q] == ps[q].(shareLeft := ps[q].shareAmt) else table[q] == ps[q]
    ensures table[p].state == Runnable && table[p].shareLeft > 0
    ensures (ps[cur].state == Runnable && ps[cur].shareLeft > 0) ||
      forall q :: 0 <= q < |ps| && table[q].state == Runnable && table[q].shareLeft > 0 ==>
        || table[q].shareAmt < table[p].shareAmt
        || (table[q].shareAmt == table[p].shareAmt && StepsTo(|ps|, cur, p) <= StepsTo(|ps|, cur, q))
    ensures ps' == table[p := table[p].(shareLeft := table[p].shareLeft - 1)]
  {
    table := RoundTable(ps);
    var n := |ps|;
    ShareOrNobody(ps);
    if !Eligible(ps, cur) {
      forall q | 0 <= q < n && table[q].state == Runnable && table[q].shareLeft > 0
        ensures table[q].shareAmt <= table[p].shareAmt
        ensures table[q].shareAmt == table[p].shareAmt ==> StepsTo(n, cur, p) <= StepsTo(n, cur, q)
      {
        assert Eligible(table, q);
        StepsAreForward(n, cur, p);
        StepsAreForward(n, cur, q);
      }
    }
  }

  ghost predicate NobodyHasShare(ps: seq<Proc>) {
    forall q :: 0 <= q < |ps| ==> ps[q].state != Runnable || ps[q].shareLeft == 0
  }

  lemma ShareOrNobody(ps: seq<Proc>)
    ensures AnyEligible(ps) <==> !NobodyHasShare(ps)
  {
    if !NobodyHasShare(ps) {
      var q :| 0 <= q < |ps| && !(ps[q].state != Runnable || ps[q].shareLeft == 0);
      assert Eligible(ps, q);
    }
  }

  // The least number of steps from one slot to another, none from a slot to itself.
  function StepsTo(n: nat, from: nat, to: nat): (k: int)
    requires 0 < n
  {
    (to - from) % n
  }

  lemma StepsAreForward(n: nat, from: nat, to: nat)
    requires from < n && to < n
    ensures StepsTo(n, from, to) == Position(n, from, to)
  {
    if from <= to {
      DivUnique(to - from, n, 0, to - from);
    } else {
      Wraps(to - from, n, to - from + n);
    }
  }
}
