/** Orders of the numbers below a bound, as lists without repetitions. */
module Orders {

  predicate Within(order: seq<nat>, n: nat) { forall x | 0 <= x < |order| :: order[x] < n }

  /** The numbers below `n`, each listed once. */
  ghost predicate Lists(order: seq<nat>, n: nat) {
    && Within(order, n) && (forall i: nat | i < n :: i in order)
    && forall x, y | 0 <= x < y < |order| :: order[x] != order[y]
  }

  /** Leaving out one entry of a list without repetitions. */
  lemma Without(order: seq<nat>, x: nat)
    requires x < |order| && forall y, z | 0 <= y < z < |order| :: order[y] != order[z]
    ensures var rest := order[..x] + order[x + 1..];
            && (forall y | 0 <= y < |rest| :: rest[y] == order[if y < x then y else y + 1])
            && (forall i: nat :: i in rest <==> i in order && i != order[x])
  {
    var rest := order[..x] + order[x + 1..];
    forall i: nat | i in order && i != order[x] ensures i in rest {
      var y :| 0 <= y < |order| && order[y] == i;
      assert rest[if y < x then y else y - 1] == i;
    }
  }

  lemma {:induction false} ListsLength(order: seq<nat>, n: nat)
    requires Lists(order, n)
    ensures |order| == n
    decreases n
  {
    assert order != [] ==> order[0] < n;
    if n > 0 {
      assert n - 1 in order;
      var x :| 0 <= x < |order| && order[x] == n - 1;
      Without(order, x);
      ListsLength(order[..x] + order[x + 1..], n - 1);
    }
  }

  lemma Position(order: seq<nat>, n: nat, i: nat) returns (x: nat)
    requires Lists(order, n) && i < n
    ensures x < |order| && order[x] == i && forall y | 0 <= y < |order| && order[y] == i :: y == x
  {
    assert i in order;
    x :| 0 <= x < |order| && order[x] == i;
  }

  lemma ListedBefore(order: seq<nat>, n: nat, x: nat)
    requires Lists(order, n) && x <= |order|
    ensures forall y | 0 <= y < |order| :: order[y] in order[..x] <==> y < x
  {
    forall y | 0 <= y < |order| ensures order[y] in order[..x] <==> y < x {
      if y < x {
        assert order[..x][y] == order[y];
      }
    }
  }

  // ----- sorting -----

  ghost predicate SortedByRank(order: seq<nat>, rank: seq<int>) {
    Within(order, |rank|) && forall x, y | 0 <= x < y < |order| :: rank[order[x]] <= rank[order[y]]
  }

  lemma InsertedLists(order: seq<nat>, n: nat, x: nat)
    requires Lists(order, n) && x <= |order|
    ensures Lists(order[..x] + [n] + order[x..], n + 1)
  {
    var longer := order[..x] + [n] + order[x..];
    forall i: nat | i < n + 1 ensures i in longer {
      if i < n {
        assert i in order;
        var y :| 0 <= y < |order| && order[y] == i;
        assert longer[if y < x then y else y + 1] == i;
      } else {
        assert longer[x] == i;
      }
    }
  }

  lemma {:induction false} OrderByRank(rank: seq<int>, n: nat) returns (order: seq<nat>)
    requires n <= |rank|
    ensures Lists(order, n) && SortedByRank(order, rank)
  {
    if n == 0 {
      return [];
    }
    var shorter := OrderByRank(rank, n - 1);
    var x := 0;
    while x < |shorter| && rank[shorter[x]] <= rank[n - 1]
      invariant x <= |shorter| && forall y | 0 <= y < x :: rank[shorter[y]] <= rank[n - 1]
    {
      x := x + 1;
    }
    order := shorter[..x] + [n - 1] + shorter[x..];
    InsertedLists(shorter, n - 1, x);
    InsertedIsSorted(shorter, rank, n - 1, x);
  }

  lemma InsertedIsSorted(order: seq<nat>, rank: seq<int>, n: nat, x: nat)
    requires n < |rank| && x <= |order| && SortedByRank(order, rank)
    requires forall y | 0 <= y < x :: rank[order[y]] <= rank[n]
    requires x < |order| ==> rank[n] <= rank[order[x]]
    ensures SortedByRank(order[..x] + [n] + order[x..], rank)
  {
    forall y | x <= y < |order| ensures rank[n] <= rank[order[y]] {
    }
  }
}
