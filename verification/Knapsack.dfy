/** learning/algorithms/examples/graph_dp_lab.py: 0/1 knapsack over one array, overwritten downwards. */
module Knapsack {

  datatype Item = Item(weight: nat, value: int)

  /** take[i] says whether item i is in the collection. */
  ghost function Weight(items: seq<Item>, take: seq<bool>): nat
    requires |take| == |items|
  {
    if items == [] then 0
    else Weight(items[..|items| - 1], take[..|items| - 1]) + if take[|items| - 1] then items[|items| - 1].weight else 0
  }

  ghost function Value(items: seq<Item>, take: seq<bool>): int
    requires |take| == |items|
  {
    if items == [] then 0
    else Value(items[..|items| - 1], take[..|items| - 1]) + if take[|items| - 1] then items[|items| - 1].value else 0
  }

  ghost predicate Fits(items: seq<Item>, take: seq<bool>, capacity: nat) {
    |take| == |items| && Weight(items, take) <= capacity
  }

  /** v is the largest value of a sub-collection that fits. */
  ghost predicate IsBest(items: seq<Item>, capacity: nat, v: int) {
    && (exists take :: Fits(items, take, capacity) && Value(items, take) == v)
    && forall take :: Fits(items, take, capacity) ==> Value(items, take) <= v
  }

  /** Deciding about one more item: leave it, or take it on top of what fits beside it. */
  lemma OneMoreItem(items: seq<Item>, item: Item, capacity: nat, without: int, beside: int)
    requires IsBest(items, capacity, without)
    requires item.weight <= capacity ==> IsBest(items, capacity - item.weight, beside)
    ensures IsBest(items + [item], capacity,
                   if item.weight <= capacity && without < item.value + beside then item.value + beside else without)
  {
    var all := items + [item];
    assert all[..|all| - 1] == items;
    var best := if item.weight <= capacity && without < item.value + beside then item.value + beside else without;
    forall take | Fits(all, take, capacity) ensures Value(all, take) <= best {
      assert Fits(items, take[..|items|], if take[|items|] then capacity - item.weight else capacity);
    }
    if best == without {
      var take :| Fits(items, take, capacity) && Value(items, take) == without;
      Appended(items, item, take, false, capacity);
    } else {
      var take :| Fits(items, take, capacity - item.weight) && Value(items, take) == beside;
      Appended(items, item, take, true, capacity);
    }
  }

  lemma {:induction false} Appended(items: seq<Item>, item: Item, take: seq<bool>, last: bool, capacity: nat)
    requires |take| == |items|
    requires Weight(items, take) + (if last then item.weight else 0) <= capacity
    ensures Fits(items + [item], take + [last], capacity)
    ensures Value(items + [item], take + [last]) == Value(items, take) + if last then item.value else 0
  {
    var all, chosen := items + [item], take + [last];
    assert all[..|all| - 1] == items && chosen[..|all| - 1] == take;
  }

  method Knapsack01(capacity: nat, items: seq<Item>) returns (best: int)
    ensures IsBest(items, capacity, best)
  {
    hide IsBest;
    var dp := new int[capacity + 1](_ => 0);
    forall c: nat ensures IsBest([], c, 0) {
      NothingToTake(c);
    }
    for i := 0 to |items|
      invariant forall c: nat :: c <= capacity ==> IsBest(items[..i], c, dp[c])
    {
      var weight, value := items[i].weight, items[i].value;
      assert items[..i + 1] == items[..i] + [items[i]];
      var current := capacity;
      while current >= weight
        invariant current <= capacity && (current >= weight - 1 || current == capacity)
        invariant forall c: nat :: c <= capacity && c <= current ==> IsBest(items[..i], c, dp[c])
        invariant forall c: nat :: current < c <= capacity ==> IsBest(items[..i + 1], c, dp[c])
      {
        OneMoreItem(items[..i], items[i], current, dp[current], dp[current - weight]);
        dp[current] := if dp[current] >= value + dp[current - weight] then dp[current] else value + dp[current - weight];
        current := current - 1;
      }
      forall c: nat | c <= capacity ensures IsBest(items[..i + 1], c, dp[c]) {
        if c < weight {
          OneMoreItem(items[..i], items[i], c, dp[c], 0);
        }
      }
    }
    assert items[..|items|] == items;
    best := dp[capacity];
  }

  lemma NothingToTake(capacity: nat)
    ensures IsBest([], capacity, 0)
  {
    assert Fits([], [], capacity) && Value([], []) == 0;
  }
}
