// The append-only log of prints that both variants of the application are to produce: the
// pids of the processes, in the order of their prints.
module PrintLog {
  import opened Machine

  // The console holds exactly the log: cell k the character of its k-th author.
  ghost predicate Shows(chars: seq<Cell>, cells: map<nat, Cell>, cursor: nat, log: seq<nat>) {
    && cursor == |log|
    && (forall k: nat :: k in cells <==> k < cursor)
    && (forall k :: 0 <= k < |log| ==> log[k] < |chars| && cells[k] == chars[log[k]])
  }

  lemma ShowsStep(chars: seq<Cell>, cells: map<nat, Cell>, cursor: nat, log: seq<nat>, cur: nat)
    requires Shows(chars, cells, cursor, log) && cur < |chars|
    ensures Shows(chars, cells[cursor := chars[cur]], cursor + 1, log + [cur])
  {
  }

  // A log over the authors 1 to n in which each occurs r times has n*r entries.
  lemma {:induction false} LogLength(log: seq<nat>, r: nat, n: nat)
    requires forall k :: 0 <= k < |log| ==> 1 <= log[k] <= n
    requires forall p: nat :: 1 <= p <= n ==> multiset(log)[p] == r
    ensures |log| == n * r
    decreases n
  {
    if n == 0 {
    } else {
      var rest := Without(log, n);
      WithoutCounts(log, n);
      LogLength(rest, r, n - 1);
      assert n * r == (n - 1) * r + r;
    }
  }

  function Without(log: seq<nat>, x: nat): (r: seq<nat>)
    ensures forall k :: 0 <= k < |r| ==> r[k] != x && r[k] in log
  {
    if log == [] then []
    else
      var last := log[|log| - 1];
      var r := Without(log[..|log| - 1], x);
      if last == x then r else r + [last]
  }

  lemma {:induction false} WithoutCounts(log: seq<nat>, x: nat)
    ensures |Without(log, x)| + multiset(log)[x] == |log|
    ensures forall p: nat :: p != x ==> multiset(Without(log, x))[p] == multiset(log)[p]
  {
    if log == [] {
    } else {
      var init, last := log[..|log| - 1], log[|log| - 1];
      WithoutCounts(init, x);
      assert log == init + [last];
      assert multiset(log) == multiset(init) + multiset{last};
    }
  }
}
