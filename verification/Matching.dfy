/** When a list of demands can be met by distinct supplies: the counting condition behind device allocation. */
module Matching {
  import opened Collections

  ghost predicate Injective(sel: seq<nat>) {
    forall i, j | 0 <= i < j < |sel| :: sel[i] != sel[j]
  }

  /** sel[i] is the position of the supply that serves demand i. */
  ghost predicate Serves(sel: seq<nat>, demand: seq<int>, supply: seq<int>) {
    && |sel| == |demand| && Injective(sel)
    && forall i | 0 <= i < |sel| :: sel[i] < |supply| && supply[sel[i]] >= demand[i]
  }

  ghost predicate Servable(demand: seq<int>, supply: seq<int>) {
    exists sel :: Serves(sel, demand, supply)
  }

  /** How many entries are at least x. */
  ghost function AtLeast(s: seq<int>, x: int): nat {
    if s == [] then 0 else AtLeast(s[..|s| - 1], x) + if s[|s| - 1] >= x then 1 else 0
  }

  ghost function Above(supply: seq<int>, free: set<nat>, x: int): set<nat> {
    set p | p in free && p < |supply| && supply[p] >= x
  }

  ghost function Positions(n: nat): (r: set<nat>)
    ensures forall p: nat :: p in r <==> p < n
  {
    if n == 0 then {} else Positions(n - 1) + {n - 1}
  }

  lemma {:induction false} AboveCounts(supply: seq<int>, x: int)
    ensures |Above(supply, Positions(|supply|), x)| == AtLeast(supply, x)
  {
    hide Positions;
    var all := Above(supply, Positions(|supply|), x);
    if supply == [] {
      assert all == {};
    } else {
      var n := |supply| - 1;
      var rest := supply[..n];
      var fewer := Above(rest, Positions(n), x);
      AboveCounts(rest, x);
      assert n !in fewer;
      if supply[n] >= x {
        assert all == fewer + {n};
      } else {
        assert all == fewer;
      }
    }
  }

  /** The supplies chosen for the demands of at least x are that many distinct supplies of at least x. */
  lemma {:induction false} ChosenAbove(sel: seq<nat>, demand: seq<int>, supply: seq<int>,
                                       x: int) returns (chosen: set<nat>)
    requires Serves(sel, demand, supply)
    ensures |chosen| == AtLeast(demand, x) && chosen <= Above(supply, Positions(|supply|), x)
    ensures forall p | p in chosen :: p in sel
  {
    if sel == [] {
      chosen := {};
    } else {
      var n := |sel| - 1;
      chosen := ChosenAbove(sel[..n], demand[..n], supply, x);
      if demand[n] >= x {
        assert sel[n] !in sel[..n];
        chosen := chosen + {sel[n]};
      }
    }
  }

  /** Serving the largest demand that is left with its best fit keeps the counting condition. */
  lemma {:induction false} BestFitKeeps(demand: seq<int>, supply: seq<int>, free: set<nat>, p: nat, x: int)
    requires demand != [] && p in free && p < |supply|
    requires var q := demand[|demand| - 1];
      supply[p] >= q && forall o | o in free && o < |supply| && supply[o] >= q :: supply[o] >= supply[p]
    requires forall y :: AtLeast(demand, y) <= |Above(supply, free, y)|
    ensures AtLeast(demand[..|demand| - 1], x) <= |Above(supply, free - {p}, x)|
  {
    var q := demand[|demand| - 1];
    var now, later := Above(supply, free, x), Above(supply, free - {p}, x);
    if x > supply[p] {
      assert later == now;
    } else {
      assert p in now && later == now - {p};
      if x > q {
        assert now == Above(supply, free, q);
        AtLeastFalls(demand[..|demand| - 1], q, x);
        assert AtLeast(demand, q) == AtLeast(demand[..|demand| - 1], q) + 1;
      }
    }
  }

  lemma {:induction false} AtLeastFalls(s: seq<int>, x: int, y: int)
    requires x <= y
    ensures AtLeast(s, y) <= AtLeast(s, x) <= |s|
  {
    if s != [] {
      AtLeastFalls(s[..|s| - 1], x, y);
    }
  }

  lemma LeastAbove(supply: seq<int>, candidates: set<nat>) returns (p: nat)
    requires candidates != {} && forall o | o in candidates :: o < |supply|
    ensures p in candidates && forall o | o in candidates :: supply[o] >= supply[p]
    decreases |candidates|
  {
    p :| p in candidates;
    if candidates - {p} != {} {
      var other := LeastAbove(supply, candidates - {p});
      if supply[other] < supply[p] {
        p := other;
      }
    }
  }

  lemma {:induction false} BestFit(demand: seq<int>, supply: seq<int>, free: set<nat>) returns (sel: seq<nat>)
    requires forall y :: AtLeast(demand, y) <= |Above(supply, free, y)|
    ensures Serves(sel, demand, supply) && forall p | p in sel :: p in free
    decreases |demand|
  {
    sel := [];
    if demand != [] {
      var n := |demand| - 1;
      var q := demand[n];
      assert |Above(supply, free, q)| >= 1;
      var p := LeastAbove(supply, Above(supply, free, q));
      forall y ensures AtLeast(demand[..n], y) <= |Above(supply, free - {p}, y)| {
        BestFitKeeps(demand, supply, free, p, y);
      }
      var front := BestFit(demand[..n], supply, free - {p});
      sel := front + [p];
      forall i, j | 0 <= i < j < |sel| ensures sel[i] != sel[j] {
        assert front[i] in front;
      }
    }
  }

  ghost predicate Enough(demand: seq<int>, supply: seq<int>) {
    forall x :: AtLeast(demand, x) <= AtLeast(supply, x)
  }

  lemma {:induction false} ServedIsEnough(sel: seq<nat>, demand: seq<int>, supply: seq<int>, x: int)
    requires Serves(sel, demand, supply)
    ensures AtLeast(demand, x) <= AtLeast(supply, x)
  {
    var chosen := ChosenAbove(sel, demand, supply, x);
    SubsetSmaller(chosen, Above(supply, Positions(|supply|), x));
    AboveCounts(supply, x);
  }

  /** Demands can be served by distinct supplies if and only if, for every level,
      no more demands than supplies reach it. */
  lemma ServableExactly(demand: seq<int>, supply: seq<int>)
    ensures Servable(demand, supply) <==> Enough(demand, supply)
  {
    if Servable(demand, supply) {
      var sel :| Serves(sel, demand, supply);
      forall x ensures AtLeast(demand, x) <= AtLeast(supply, x) {
        ServedIsEnough(sel, demand, supply, x);
      }
    }
    if Enough(demand, supply) {
      forall y ensures AtLeast(demand, y) <= |Above(supply, Positions(|supply|), y)| {
        AboveCounts(supply, y);
      }
      var sel := BestFit(demand, supply, Positions(|supply|));
    }
  }

  // --- The same condition on sorted lists ---

  ghost predicate Descending(s: seq<int>) {
    forall i, j | 0 <= i < j < |s| :: s[i] >= s[j]
  }

  lemma {:induction false} AtLeastOfRest(a: seq<int>, v: int, b: seq<int>, x: int)
    ensures AtLeast(a + [v] + b, x) == AtLeast(a + b, x) + if v >= x then 1 else 0
  {
    if b == [] {
      assert a + b == a && (a + [v] + b)[..|a|] == a;
    } else {
      var n := |b| - 1;
      assert (a + [v] + b)[..|a| + 1 + n] == a + [v] + b[..n];
      assert (a + b)[..|a| + n] == a + b[..n];
      AtLeastOfRest(a, v, b[..n], x);
    }
  }

  lemma {:induction false} AtLeastPermutes(s: seq<int>, t: seq<int>, x: int)
    requires multiset(s) == multiset(t)
    ensures AtLeast(s, x) == AtLeast(t, x)
    decreases |s|
  {
    if s == [] {
      assert |multiset(t)| == 0;
    } else {
      var v := s[|s| - 1];
      var front := s[..|s| - 1];
      assert s == front + [v];
      assert v in multiset(t);
      var a, b := SplitAt(t, v);
      AtLeastOfRest(a, v, b, x);
      AtLeastPermutes(front, a + b, x);
    }
  }

  /** In a descending list the entries of at least x come first. */
  lemma {:induction false} DescendingCounts(s: seq<int>, x: int, i: nat)
    requires Descending(s) && i < |s|
    ensures AtLeast(s, x) > i <==> s[i] >= x
  {
    var n := |s| - 1;
    if s[n] >= x {
      AllAtLeast(s, x);
    } else if i < n {
      DescendingCounts(s[..n], x, i);
    } else {
      AtLeastFalls(s[..n], x, x);
    }
  }

  lemma {:induction false} AllAtLeast(s: seq<int>, x: int)
    requires forall i | 0 <= i < |s| :: s[i] >= x
    ensures AtLeast(s, x) == |s|
  {
    if s != [] {
      AllAtLeast(s[..|s| - 1], x);
    }
  }

  ghost predicate Dominates(s: seq<int>, d: seq<int>) {
    |d| <= |s| && forall i | 0 <= i < |d| :: s[i] >= d[i]
  }

  lemma EnoughDominates(d: seq<int>, s: seq<int>)
    requires Descending(d) && Descending(s) && Enough(d, s)
    ensures Dominates(s, d)
  {
    forall i: nat | i < |d| ensures i < |s| && s[i] >= d[i] {
      DominatedAt(d, s, i);
    }
    if |s| < |d| {
      DominatedAt(d, s, |s|);
    }
  }

  lemma DominatedAt(d: seq<int>, s: seq<int>, i: nat)
    requires Descending(d) && Descending(s) && Enough(d, s) && i < |d|
    ensures i < |s| && s[i] >= d[i]
  {
    DescendingCounts(d, d[i], i);
    AtLeastFalls(s, d[i], d[i]);
    assert AtLeast(d, d[i]) <= AtLeast(s, d[i]);
    DescendingCounts(s, d[i], i);
  }

  lemma {:induction false} DominatesIsEnough(d: seq<int>, s: seq<int>, x: int)
    requires Descending(d) && Descending(s) && Dominates(s, d)
    ensures AtLeast(d, x) <= AtLeast(s, x)
  {
    AtLeastFalls(d, x, x);
    if AtLeast(d, x) > 0 {
      var i := AtLeast(d, x) - 1;
      DescendingCounts(d, x, i);
      DescendingCounts(s, x, i);
    }
  }

  /** Demands can be served exactly when the sorted supplies dominate the sorted demands, position by position. */
  lemma ServableSorted(demand: seq<int>, supply: seq<int>, d: seq<int>, s: seq<int>)
    requires multiset(d) == multiset(demand) && multiset(s) == multiset(supply) && Descending(d) && Descending(s)
    ensures Servable(demand, supply) <==> Dominates(s, d)
  {
    ServableExactly(demand, supply);
    forall x ensures AtLeast(d, x) == AtLeast(demand, x) && AtLeast(s, x) == AtLeast(supply, x) {
      AtLeastPermutes(d, demand, x);
      AtLeastPermutes(s, supply, x);
    }
    assert Enough(demand, supply) <==> Enough(d, s) by {
      if Enough(demand, supply) {
        assert forall x :: AtLeast(demand, x) <= AtLeast(supply, x);
      }
      if Enough(d, s) {
        assert forall x :: AtLeast(d, x) <= AtLeast(s, x);
      }
    }
    if Enough(d, s) {
      EnoughDominates(d, s);
    }
    if Dominates(s, d) {
      forall x ensures AtLeast(d, x) <= AtLeast(s, x) {
        DominatesIsEnough(d, s, x);
      }
    }
  }
}
