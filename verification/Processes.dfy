// The process table of SchedOS and, for each scheduling algorithm, the one-line
// statement of which process its search is meant to find.
module Processes {
  import opened Machine
  import opened Cyclic

  datatype State = Empty | Runnable | Blocked | Zombie

  // Where an application stands in its loop: at the loop head, or past the print of
  // the current iteration. It stands for the saved instruction pointer and stack.
  datatype Point = Head | Printed
  datatype Frame = Frame(point: Point, i: nat)

  // registers_t: the interrupt number, %eax and the application's own place.
  datatype Regs = Regs(intno: int, eax: Word, frame: Frame)

  datatype Proc = Proc(
    pid: int,
    regs: Regs,
    priority: Word,
    shareAmt: Word,
    shareLeft: Word,
    lotteryAmt: Word,
    state: State,
    exitStatus: Word)

  predicate RunnableAt(ps: seq<Proc>, p: int) {
    0 <= p < |ps| && ps[p].state.Runnable?
  }

  ghost predicate AnyRunnable(ps: seq<Proc>) {
    exists p :: RunnableAt(ps, p)
  }

  /* Algorithms 0 and 2 */

  // p is the first runnable slot met when stepping forward from `from`.
  ghost predicate NextRunnable(ps: seq<Proc>, from: nat, p: nat)
    requires from < |ps|
  {
    && RunnableAt(ps, p)
    && forall q :: RunnableAt(ps, q) ==> Ahead(|ps|, from, p) <= Ahead(|ps|, from, q)
  }

  /* Algorithm 4A */

  ghost predicate Best(ps: seq<Proc>, p: int) {
    && RunnableAt(ps, p)
    && forall q :: RunnableAt(ps, q) ==> ps[p].priority <= ps[q].priority
  }

  // A pass of the search that starts at slot s comes out with a runnable process:
  // s is runnable, or some runnable process gets past the priority found at s.
  ghost predicate Opens(ps: seq<Proc>, s: nat)
    requires s < |ps|
  {
    RunnableAt(ps, s) || exists q :: RunnableAt(ps, q) && ps[q].priority <= ps[s].priority
  }

  // p is the last of the tied best processes in scan order from s: its nearest predecessor.
  ghost predicate LastBest(ps: seq<Proc>, s: nat, p: nat)
    requires s < |ps|
  {
    && Best(ps, p)
    && forall q :: Best(ps, q) ==> Behind(|ps|, s, p) <= Behind(|ps|, s, q)
  }

  // s is the nearest slot at or behind cur from which a pass succeeds.
  ghost predicate PassStart(ps: seq<Proc>, cur: nat, s: nat)
    requires cur < |ps|
  {
    && s < |ps|
    && Opens(ps, s)
    && forall t: nat :: t < |ps| && Position(|ps|, t, cur) < Position(|ps|, s, cur) ==> !Opens(ps, t)
  }

  ghost predicate PriorityChoice(ps: seq<Proc>, cur: nat, p: nat)
    requires cur < |ps|
  {
    exists s: nat :: PassStart(ps, cur, s) && LastBest(ps, s, p)
  }

  /* Algorithm 4B */

  predicate Eligible(ps: seq<Proc>, p: int) {
    RunnableAt(ps, p) && ps[p].shareLeft > 0
  }

  ghost predicate AnyEligible(ps: seq<Proc>) {
    exists p :: Eligible(ps, p)
  }

  // The loop that starts a new round: slot 0 is not touched.
  function Refill(ps: seq<Proc>): (r: seq<Proc>)
    ensures |r| == |ps|
  {
    seq(|ps|, i requires 0 <= i < |ps| =>
      if i == 0 then ps[0] else ps[i].(shareLeft := ps[i].shareAmt))
  }

  // The table the choice is made on: a new round begins exactly when no runnable
  // process has share left.
  ghost function RoundTable(ps: seq<Proc>): (r: seq<Proc>)
    ensures |r| == |ps|
  {
    if AnyEligible(ps) then ps else Refill(ps)
  }

  // The largest share amount among the eligible; on ties the first one at or after cur.
  ghost predicate LargestShare(ps: seq<Proc>, cur: nat, p: nat)
    requires cur < |ps|
  {
    && Eligible(ps, p)
    && forall q :: Eligible(ps, q) ==>
         || ps[q].shareAmt < ps[p].shareAmt
         || (ps[q].shareAmt == ps[p].shareAmt && Position(|ps|, cur, p) <= Position(|ps|, cur, q))
  }

  ghost predicate ShareChoice(ps: seq<Proc>, cur: nat, p: nat)
    requires cur < |ps|
  {
    if Eligible(ps, cur) then p == cur else LargestShare(RoundTable(ps), cur, p)
  }

  // The dispatched process pays one unit of share.
  function Charge(ps: seq<Proc>, p: nat): (r: seq<Proc>)
    requires p < |ps| && ps[p].shareLeft > 0
    ensures |r| == |ps|
  {
    ps[p := ps[p].(shareLeft := ps[p].shareLeft - 1)]
  }

  /* Algorithm 7 */

  // Tickets held by slots 1 to i.
  function Prefix(ps: seq<Proc>, i: nat): (sum: nat)
    requires i < |ps|
  {
    if i == 0 then 0 else Prefix(ps, i - 1) + ps[i].lotteryAmt
  }

  // lotteryTotal, which also counts slot 0, before it is cut to 32 bits.
  function Tickets(ps: seq<Proc>): (sum: nat)
    requires |ps| > 0
  {
    ps[0].lotteryAmt + Prefix(ps, |ps| - 1)
  }

  // The total as schedule() computes it.
  function Total(ps: seq<Proc>): (t: Word)
    requires |ps| > 0
  {
    Tickets(ps) % WORD
  }

  // Link i of the if-chain fires: its 32-bit sum exceeds the ticket (the last link has
  // no such test) and its process is runnable.
  predicate Fires(ps: seq<Proc>, ticket: nat, i: nat) {
    && 1 <= i
    && RunnableAt(ps, i)
    && (ticket < Prefix(ps, i) % WORD || i == |ps| - 1)
  }

  ghost predicate ChainWinner(ps: seq<Proc>, ticket: nat, p: nat) {
    && Fires(ps, ticket, p)
    && forall q: nat :: Fires(ps, ticket, q) ==> p <= q
  }

  ghost predicate Redraws(ps: seq<Proc>, ticket: nat) {
    forall q: nat :: !Fires(ps, ticket, q)
  }
}
