/** learning/algorithms/examples/graph_dp_lab.py: the minimum-coin table and the greedy count. */
module Coins {
  import opened Arithmetic

  type Coin = c: nat | c >= 1 witness 1

  ghost function Total(pay: seq<nat>): nat {
    if pay == [] then 0 else pay[0] + Total(pay[1..])
  }

  /** `pay` is a sequence of coins, repetitions allowed, worth `value`. */
  ghost predicate IsPayment(coins: seq<Coin>, pay: seq<nat>, value: nat) {
    (forall c | c in pay :: c in coins) && Total(pay) == value
  }

  ghost predicate Payable(coins: seq<Coin>, value: nat) {
    exists pay :: IsPayment(coins, pay, value)
  }

  ghost predicate IsFewest(coins: seq<Coin>, value: nat, n: nat) {
    && (exists pay :: IsPayment(coins, pay, value) && |pay| == n)
    && forall pay :: IsPayment(coins, pay, value) ==> n <= |pay|
  }

  /** A table entry is the fewest coins, or amount + 1 exactly when the value cannot be paid. */
  ghost predicate IsEntry(coins: seq<Coin>, amount: nat, value: nat, n: nat) {
    if Payable(coins, value) then n <= value && IsFewest(coins, value, n) else n == amount + 1
  }

  // --- The table ---

  /** n is the least of amount + 1 and one more than the entries `coins` lead back to. */
  ghost predicate IsLeastStep(coins: seq<Coin>, dp: seq<nat>, value: nat, n: nat, amount: nat)
    requires value <= |dp|
  {
    && n <= amount + 1
    && (n == amount + 1 || exists c | c in coins :: c <= value && n == 1 + dp[value - c])
    && forall c | c in coins && c <= value :: n <= 1 + dp[value - c]
  }

  lemma NextCoin(coins: seq<Coin>, coin: Coin, dp: seq<nat>, value: nat, n: nat, amount: nat)
    requires value <= |dp| && IsLeastStep(coins, dp, value, n, amount)
    ensures var m := if coin <= value && 1 + dp[value - coin] < n then 1 + dp[value - coin] else n;
      IsLeastStep(coins + [coin], dp, value, m, amount)
  {
    assert forall c :: c in coins + [coin] <==> c in coins || c == coin;
    assert forall c | c in coins :: c in coins + [coin];
    assert coin in coins + [coin];
  }

  lemma EmptyEntry(coins: seq<Coin>, amount: nat)
    ensures IsEntry(coins, amount, 0, 0)
  {
    assert IsPayment(coins, [], 0);
  }

  lemma FirstStep(dp: seq<nat>, value: nat, amount: nat)
    requires value <= |dp|
    ensures IsLeastStep([], dp, value, amount + 1, amount)
  {}

  method MinCoinTable(amount: nat, coins: seq<Coin>) returns (dp: array<nat>)
    ensures fresh(dp) && dp.Length == amount + 1
    ensures forall v | 0 <= v <= amount :: IsEntry(coins, amount, v, dp[v])
  {
    hide IsEntry, IsLeastStep;
    dp := new nat[amount + 1](i => if i == 0 then 0 else amount + 1);
    EmptyEntry(coins, amount);
    for value := 1 to amount + 1
      invariant forall v | 0 <= v < value :: IsEntry(coins, amount, v, dp[v])
      invariant forall v | value <= v <= amount :: dp[v] == amount + 1
    {
      ghost var earlier := dp[..value];
      FirstStep(earlier, value, amount);
      for i := 0 to |coins|
        invariant dp[..value] == earlier
        invariant forall v | value < v <= amount :: dp[v] == amount + 1
        invariant IsLeastStep(coins[..i], earlier, value, dp[value], amount)
      {
        var coin := coins[i];
        NextCoin(coins[..i], coin, earlier, value, dp[value], amount);
        assert coins[..i + 1] == coins[..i] + [coin];
        if coin <= value {
          assert earlier[value - coin] == dp[value - coin];
          dp[value] := if dp[value] <= 1 + dp[value - coin] then dp[value] else 1 + dp[value - coin];
        }
      }
      assert coins[..|coins|] == coins;
      StepIsEntry(coins, amount, earlier, value, dp[value]);
    }
  }

  lemma {:induction false} PaymentBounds(coins: seq<Coin>, pay: seq<nat>)
    requires forall c | c in pay :: c in coins
    ensures |pay| <= Total(pay)
  {
    if pay != [] {
      PaymentBounds(coins, pay[1..]);
      assert pay[0] in pay;
    }
  }

  lemma StepIsEntry(coins: seq<Coin>, amount: nat, dp: seq<nat>, value: nat, n: nat)
    requires 1 <= value <= amount && |dp| == value
    requires forall v | 0 <= v < value :: IsEntry(coins, amount, v, dp[v])
    requires IsLeastStep(coins, dp, value, n, amount)
    ensures IsEntry(coins, amount, value, n)
  {
    hide IsLeastStep;
    forall pay | IsPayment(coins, pay, value) ensures n <= |pay| <= value {
      StepBounds(coins, amount, dp, value, n, pay);
    }
    StepPays(coins, amount, dp, value, n);
  }

  lemma StepBounds(coins: seq<Coin>, amount: nat, dp: seq<nat>, value: nat, n: nat, pay: seq<nat>)
    requires 1 <= value <= amount && |dp| == value
    requires forall v | 0 <= v < value :: IsEntry(coins, amount, v, dp[v])
    requires IsLeastStep(coins, dp, value, n, amount) && IsPayment(coins, pay, value)
    ensures n <= |pay| <= value
  {
    PaymentBounds(coins, pay);
    HeadPaid(coins, pay, value);
    var c: Coin, rest := pay[0], pay[1..];
    hide Total;
    assert IsEntry(coins, amount, value - c, dp[value - c]);
  }

  lemma StepPays(coins: seq<Coin>, amount: nat, dp: seq<nat>, value: nat, n: nat)
    requires 1 <= value <= amount && |dp| == value
    requires forall v | 0 <= v < value :: IsEntry(coins, amount, v, dp[v])
    requires IsLeastStep(coins, dp, value, n, amount)
    ensures n == amount + 1 || exists pay :: IsPayment(coins, pay, value) && |pay| == n
  {
    hide Total;
    if n <= amount {
      var c :| c in coins && c <= value && n == 1 + dp[value - c];
      assert IsEntry(coins, amount, value - c, dp[value - c]);
      var rest :| IsPayment(coins, rest, value - c) && |rest| == dp[value - c];
      PaysOneMore(coins, rest, value - c, c);
    }
  }

  // --- The greedy count ---

  function InsertDescending(x: Coin, s: seq<Coin>): (r: seq<Coin>)
    ensures multiset(r) == multiset(s) + multiset{x}
  {
    if s == [] || s[0] <= x then
      [x] + s
    else
      assert s == [s[0]] + s[1..];
      [s[0]] + InsertDescending(x, s[1..])
  }

  /** `sorted(coins, reverse=True)`. */
  function SortDescending(s: seq<Coin>): (r: seq<Coin>)
    ensures multiset(r) == multiset(s)
  {
    if s == [] then [] else
      assert s == [s[0]] + s[1..];
      InsertDescending(s[0], SortDescending(s[1..]))
  }

  ghost predicate Descending(s: seq<Coin>) {
    forall i, j | 0 <= i < j < |s| :: s[i] >= s[j]
  }

  lemma {:induction false} InsertKeepsOrder(x: Coin, s: seq<Coin>)
    requires Descending(s)
    ensures Descending(InsertDescending(x, s))
  {
    if s != [] && s[0] > x {
      InsertKeepsOrder(x, s[1..]);
      var r := InsertDescending(x, s[1..]);
      forall i | 0 <= i < |r| ensures s[0] >= r[i] {
        assert r[i] in multiset(r);
      }
    }
  }

  lemma {:induction false} SortOrders(s: seq<Coin>)
    ensures Descending(SortDescending(s))
    ensures forall c :: c in SortDescending(s) <==> c in s
  {
    if s != [] {
      SortOrders(s[1..]);
      InsertKeepsOrder(s[0], SortDescending(s[1..]));
    }
    forall c ensures c in SortDescending(s) <==> c in s {
      assert c in multiset(SortDescending(s)) <==> c in multiset(s);
    }
  }

  /** Coins taken and value left when each coin is used as often as it fits, in the given order. */
  ghost function Greedy(coins: seq<Coin>, amount: nat): (nat, nat)
  {
    if coins == [] then (0, amount)
    else
      var (n, rest) := Greedy(coins[1..], amount % coins[0]);
      (amount / coins[0] + n, rest)
  }

  lemma {:induction false} GreedyUnfolds(coins: seq<Coin>, amount: nat)
    requires coins != []
    ensures Greedy(coins, amount)
         == (amount / coins[0] + Greedy(coins[1..], amount % coins[0]).0, Greedy(coins[1..], amount % coins[0]).1)
  {}

  lemma {:induction false} GreedyEnds(amount: nat)
    ensures Greedy([], amount) == (0, amount)
  {}

  method GreedyCoinCount(amount: nat, coins: seq<Coin>) returns (count: nat)
    ensures count == Greedy(SortDescending(coins), amount).0
  {
    hide Greedy, SortDescending;
    var order := SortDescending(coins);
    count := 0;
    assert order[0..] == order;
    var left: nat := amount;
    for i := 0 to |order|
      invariant count + Greedy(order[i..], left).0 == Greedy(order, amount).0
    {
      assert order[i..][1..] == order[i + 1..];
      GreedyUnfolds(order[i..], left);
      count := count + left / order[i];
      left := left % order[i];
    }
    GreedyEnds(left);
  }

  lemma {:induction false} TotalOfRepeats(c: nat, n: nat, rest: seq<nat>)
    ensures Total(seq(n, _ => c) + rest) == n * c + Total(rest)
  {
    var pay := seq(n, _ => c) + rest;
    if n == 0 {
      assert pay == rest;
    } else {
      TotalOfRepeats(c, n - 1, rest);
      assert pay[1..] == seq(n - 1, _ => c) + rest;
      assert n * c == c + (n - 1) * c;
    }
  }

  /** What greedy takes is a payment of everything but the remainder. */
  lemma {:induction false} GreedyPays(coins: seq<Coin>, amount: nat) returns (pay: seq<nat>)
    ensures Greedy(coins, amount).1 <= amount
    ensures IsPayment(coins, pay, amount - Greedy(coins, amount).1) && |pay| == Greedy(coins, amount).0
  {
    if coins == [] {
      pay := [];
    } else {
      var c := coins[0];
      var rest := GreedyPays(coins[1..], amount % c);
      pay := seq(amount / c, _ => c) + rest;
      TotalOfRepeats(c, amount / c, rest);
      assert (amount / c) * c + amount % c == amount;
    }
  }

  /** Greedy leaves nothing over when 1 is a coin. */
  lemma {:induction false} GreedyFinishes(coins: seq<Coin>, amount: nat)
    requires 1 in coins
    ensures Greedy(coins, amount).1 == 0
  {
    if coins[0] == 1 {
      GreedyOfZero(coins[1..]);
    } else {
      GreedyFinishes(coins[1..], amount % coins[0]);
    }
  }

  lemma {:induction false} GreedyOfZero(coins: seq<Coin>)
    ensures Greedy(coins, 0) == (0, 0)
  {
    if coins != [] {
      GreedyOfZero(coins[1..]);
    }
  }

  /** With 1 among the coins, greedy never beats the table. */
  lemma {:induction false} GreedyAtLeastTable(coins: seq<Coin>, amount: nat, n: nat)
    requires 1 in coins && IsEntry(coins, amount, amount, n)
    ensures IsFewest(coins, amount, n) && n <= Greedy(SortDescending(coins), amount).0
  {
    SortOrders(coins);
    var pay := GreedyPays(SortDescending(coins), amount);
    GreedyFinishes(SortDescending(coins), amount);
    assert IsPayment(coins, pay, amount);
  }

  // --- Divisibility chains ---

  ghost predicate Divides(d: Coin, c: nat) {
    c % d == 0
  }

  /** Each coin divides the one before it. */
  ghost predicate Chain(coins: seq<Coin>) {
    forall i | 0 < i < |coins| :: Divides(coins[i], coins[i - 1])
  }

  /** The payment without one kind of coin. */
  ghost function Without(pay: seq<nat>, c: nat): seq<nat> {
    if pay == [] then []
    else if pay[0] == c then Without(pay[1..], c)
    else [pay[0]] + Without(pay[1..], c)
  }

  lemma {:induction false} WithoutSplits(pay: seq<nat>, c: nat)
    ensures |Without(pay, c)| <= |pay|
    ensures Total(pay) == (|pay| - |Without(pay, c)|) * c + Total(Without(pay, c))
    ensures forall d :: d in Without(pay, c) <==> d in pay && d != c
  {
    if pay != [] {
      WithoutSplits(pay[1..], c);
      assert pay == [pay[0]] + pay[1..];
      if pay[0] == c {
        var k := |pay[1..]| - |Without(pay[1..], c)|;
        assert (k + 1) * c == k * c + c;
      }
    }
  }

  /** Greedy takes a coins more for a more of its largest coin. */
  lemma GreedyShift(coins: seq<Coin>, a: nat, w: nat)
    requires coins != []
    ensures Greedy(coins, a * coins[0] + w) == (a + Greedy(coins, w).0, Greedy(coins, w).1)
  {
    DivideShifted(coins[0], a, w);
  }

  /** k times a multiple of the largest coin takes at least k coins more. */
  lemma GreedyOfMultiple(coins: seq<Coin>, k: nat, c: Coin, r: nat)
    requires coins != [] && Divides(coins[0], c)
    ensures Greedy(coins, k * c + r).0 >= k + Greedy(coins, r).0
    ensures Greedy(coins, k * c + r).1 == Greedy(coins, r).1
  {
    var d := coins[0];
    var t := c / d;
    assert k * c == (k * t) * d by {
      assert c == t * d;
    }
    assert t >= 1;
    MulMonotone(k, 1, t);
    GreedyShift(coins, k * t, r);
  }

  /** On a chain every payment has at least as many coins as greedy takes, and greedy leaves nothing over. */
  lemma {:induction false} ChainGreedy(coins: seq<Coin>, pay: seq<nat>, value: nat)
    requires Chain(coins) && IsPayment(coins, pay, value)
    ensures Greedy(coins, value).0 <= |pay| && Greedy(coins, value).1 == 0
  {
    if coins == [] {
      SomeMember(pay);
    } else {
      var c, others, rest := coins[0], coins[1..], Without(pay, coins[0]);
      WithoutSplits(pay, c);
      ChainTail(coins, rest);
      ChainGreedy(others, rest, Total(rest));
      ChainStep(coins, |pay| - |rest|, rest, value);
    }
  }

  lemma ChainTail(coins: seq<Coin>, rest: seq<nat>)
    requires coins != [] && Chain(coins) && forall d | d in rest :: d in coins && d != coins[0]
    ensures Chain(coins[1..]) && forall d | d in rest :: d in coins[1..]
    ensures |coins| == 1 ==> rest == []
  {
    var others := coins[1..];
    forall i | 0 < i < |others| ensures Divides(others[i], others[i - 1]) {
      assert Divides(coins[i + 1], coins[i]);
    }
    assert coins == [coins[0]] + others;
    SomeMember(rest);
  }

  lemma SomeMember(s: seq<nat>)
    ensures s == [] || exists c :: c in s
  {
    if s != [] {
      assert s[0] in s;
    }
  }

  /** If greedy is best for what is left after a coins of the largest kind, it is best for the whole. */
  lemma {:induction false} ChainStep(coins: seq<Coin>, a: nat, rest: seq<nat>, value: nat)
    requires coins != [] && value == a * coins[0] + Total(rest)
    requires if |coins| == 1 then Total(rest) == 0 else Divides(coins[1], coins[0])
    requires Greedy(coins[1..], Total(rest)).0 <= |rest| && Greedy(coins[1..], Total(rest)).1 == 0
    ensures Greedy(coins, value).0 <= a + |rest| && Greedy(coins, value).1 == 0
  {
    hide Greedy, Chain, Total;
    var c, others, w := coins[0], coins[1..], Total(rest);
    var k, r := w / c, w % c;
    GreedyShift(coins, a, w);
    GreedyUnfolds(coins, w);
    if |coins| > 1 {
      assert w == k * c + r;
      GreedyOfMultiple(others, k, c, r);
    } else {
      DivideUnique(0, c, 0, 0);
    }
  }

  /** When each sorted coin divides the next larger one, greedy is the table entry for every amount
      that can be paid at all; with 1 among the coins that is every amount. */
  lemma {:induction false} GreedyEqualsTableOnChains(coins: seq<Coin>, amount: nat, n: nat)
    requires Chain(SortDescending(coins)) && Payable(coins, amount)
    requires IsEntry(coins, amount, amount, n)
    ensures n == Greedy(SortDescending(coins), amount).0
  {
    SortOrders(coins);
    var order := SortDescending(coins);
    var best :| IsPayment(coins, best, amount) && |best| == n;
    ChainGreedy(order, best, amount);
    var pay := GreedyPays(order, amount);
    assert IsPayment(coins, pay, amount);
  }

  lemma OneMakesPayable(coins: seq<Coin>, amount: nat)
    requires 1 in coins
    ensures Payable(coins, amount)
  {
    var pay := GreedyPays(coins, amount);
    GreedyFinishes(coins, amount);
  }

  // --- When greedy is optimal ---

  /** No payment of the amount beats greedy, and if there is one at all greedy leaves nothing over. */
  ghost predicate BestAt(order: seq<Coin>, amount: nat) {
    forall pay | IsPayment(order, pay, amount) :: Greedy(order, amount).1 == 0 && Greedy(order, amount).0 <= |pay|
  }

  /** The amounts that decide: those below the sum of the two largest coins. */
  ghost function Window(order: seq<Coin>): nat {
    if order == [] then 0 else if |order| == 1 then order[0] else order[0] + order[1]
  }

  lemma HeadPaid(order: seq<Coin>, pay: seq<nat>, amount: nat)
    requires IsPayment(order, pay, amount)
    ensures pay == [] ==> amount == 0
    ensures pay != [] ==> pay[0] in order && pay[0] <= amount && IsPayment(order, pay[1..], amount - pay[0])
  {}

  lemma LargestFirst(order: seq<Coin>, amount: nat)
    requires order != [] && amount >= order[0]
    ensures Greedy(order, amount) == (1 + Greedy(order, amount - order[0]).0, Greedy(order, amount - order[0]).1)
  {
    GreedyShift(order, 1, amount - order[0]);
  }

  /** Past the window, a best payment of the amount is greedy's payment of the amount less the largest coin, and that coin. */
  lemma BestBeyond(order: seq<Coin>, amount: nat)
    requires Descending(order) && amount >= Window(order) && forall y | 0 <= y < amount :: BestAt(order, y)
    ensures BestAt(order, amount)
  {
    hide Greedy, Total;
    forall pay | IsPayment(order, pay, amount)
      ensures Greedy(order, amount).1 == 0 && Greedy(order, amount).0 <= |pay|
    {
      HeadPaid(order, pay, amount);
      if pay == [] {
        GreedyOfZero(order);
      } else {
        PaidBeyond(order, amount, pay);
      }
    }
  }

  lemma {:induction false} PaidBeyond(order: seq<Coin>, amount: nat, pay: seq<nat>)
    requires Descending(order) && amount >= Window(order) && forall y | 0 <= y < amount :: BestAt(order, y)
    requires IsPayment(order, pay, amount) && pay != []
    ensures Greedy(order, amount).1 == 0 && Greedy(order, amount).0 <= |pay|
  {
    hide Greedy, Total;
    HeadPaid(order, pay, amount);
    var largest, c: Coin := order[0], pay[0];
    assert BestAt(order, amount - c);
    LargestFirst(order, amount);
    if c != largest {
      var k :| 0 <= k < |order| && order[k] == c;
      assert k >= 1 && order[1] >= c;
      LargestFirst(order, amount - c);
      var rest := GreedyPays(order, amount - c - largest);
      PaysOneMore(order, rest, amount - c - largest, c);
      assert IsPayment(order, [c] + rest, amount - largest);
      assert BestAt(order, amount - largest);
    }
  }

  lemma PaysOneMore(order: seq<Coin>, pay: seq<nat>, amount: nat, c: Coin)
    requires c in order && IsPayment(order, pay, amount)
    ensures IsPayment(order, [c] + pay, amount + c)
  {
    assert ([c] + pay)[1..] == pay;
  }

  lemma {:induction false} BestEverywhere(order: seq<Coin>, amount: nat)
    requires Descending(order) && forall y | 0 <= y < Window(order) :: BestAt(order, y)
    ensures BestAt(order, amount)
  {
    hide BestAt;
    if amount >= Window(order) {
      forall y | 0 <= y < amount ensures BestAt(order, y) {
        BestEverywhere(order, y);
      }
      BestBeyond(order, amount);
    }
  }

  /** On a payable amount, greedy's count is the table entry and nothing is left over. */
  ghost predicate Agrees(coins: seq<Coin>, amount: nat) {
    Payable(coins, amount) ==>
      var (count, left) := Greedy(SortDescending(coins), amount);
      left == 0 && IsEntry(coins, amount, amount, count)
  }

  lemma {:induction false} BestIsAgreeing(coins: seq<Coin>, amount: nat)
    ensures BestAt(SortDescending(coins), amount) <==> Agrees(coins, amount)
  {
    hide Greedy, Total, SortDescending;
    var order := SortDescending(coins);
    SortOrders(coins);
    forall pay ensures IsPayment(order, pay, amount) <==> IsPayment(coins, pay, amount) {}
    var taken := GreedyPays(order, amount);
    if Payable(coins, amount) && Greedy(order, amount).1 == 0 {
      GreedyOfFew(order, amount, taken);
    }
  }

  lemma GreedyOfFew(order: seq<Coin>, amount: nat, pay: seq<nat>)
    requires IsPayment(order, pay, amount)
    ensures |pay| <= amount
  {
    PaymentBounds(order, pay);
  }

  /** Greedy agrees with the table on every amount exactly when it does on the amounts below the sum of the
      two largest coins. */
  lemma {:induction false} GreedyOptimalExactly(coins: seq<Coin>)
    ensures (forall amount: nat :: Agrees(coins, amount))
       <==> (forall amount | 0 <= amount < Window(SortDescending(coins)) :: Agrees(coins, amount))
  {
    hide BestAt, Agrees, SortDescending;
    var order := SortDescending(coins);
    if forall amount | 0 <= amount < Window(order) :: Agrees(coins, amount) {
      SortOrders(coins);
      forall y | 0 <= y < Window(order) ensures BestAt(order, y) {
        BestIsAgreeing(coins, y);
      }
      forall amount: nat ensures Agrees(coins, amount) {
        BestEverywhere(order, amount);
        BestIsAgreeing(coins, amount);
      }
    }
  }

  /** The example's coins 1, 3, 4 fail at 6: greedy counts three coins and the table two. */
  lemma GreedyCanLose()
    ensures Greedy(SortDescending([1, 3, 4]), 6) == (3, 0) && IsEntry([1, 3, 4], 6, 6, 2) && !Agrees([1, 3, 4], 6)
  {
    hide SortDescending, Greedy, IsEntry;
    SortThree(1, 3, 4);
    GreedyOnExample();
    TableOnExample();
    OnlyEntry([1, 3, 4], 6, 2);
  }

  lemma OnlyEntry(coins: seq<Coin>, amount: nat, n: nat)
    requires IsEntry(coins, amount, amount, n)
    ensures forall m | IsEntry(coins, amount, amount, m) :: m == n
    ensures n <= amount ==> Payable(coins, amount)
  {}

  lemma GreedyOnExample()
    ensures Greedy([4, 3, 1], 6) == (3, 0)
  {
    assert Greedy([1], 2) == (2, 0);
    assert Greedy([3, 1], 2) == (2, 0);
  }

  lemma TableOnExample()
    ensures IsEntry([1, 3, 4], 6, 6, 2)
  {
    var coins: seq<Coin> := [1, 3, 4];
    assert Total([3]) == 3 && Total([3, 3]) == 6;
    assert IsPayment(coins, [3, 3], 6);
    forall pay | IsPayment(coins, pay, 6) ensures 2 <= |pay| {
      if |pay| == 1 {
        SingleCoin(pay);
      }
    }
  }

  lemma SortThree(a: Coin, b: Coin, c: Coin)
    requires a < b < c
    ensures SortDescending([a, b, c]) == [c, b, a]
  {
    hide SortDescending, InsertDescending;
    SortPair(b, c);
    SortStep(a, [b, c]);
    assert [a] + [b, c] == [a, b, c];
    InsertStep(a, [c, b]);
    assert [c, b][1..] == [b];
    InsertBehind(a, b);
  }

  lemma {:induction false} InsertBehind(a: Coin, b: Coin)
    requires a < b
    ensures InsertDescending(a, [b]) == [b, a]
  {
    hide InsertDescending;
    InsertStep(a, [b]);
    InsertStep(a, []);
    assert [b][1..] == [];
  }

  lemma SortPair(b: Coin, c: Coin)
    requires b < c
    ensures SortDescending([b, c]) == [c, b]
  {
    hide SortDescending, InsertDescending;
    SortStep(c, []);
    InsertStep(c, []);
    assert [c] + [] == [c] && [b] + [c] == [b, c];
    SortStep(b, [c]);
    InsertBehind(b, c);
  }

  lemma {:induction false} SortStep(x: Coin, s: seq<Coin>)
    ensures SortDescending([]) == []
    ensures SortDescending([x] + s) == InsertDescending(x, SortDescending(s))
  {
    hide InsertDescending;
    assert ([x] + s)[1..] == s;
  }

  lemma {:induction false} InsertStep(x: Coin, s: seq<Coin>)
    ensures InsertDescending(x, s)
         == if s == [] || s[0] <= x then [x] + s else [s[0]] + InsertDescending(x, s[1..])
  {}

  lemma {:induction false} SingleCoin(pay: seq<nat>)
    requires |pay| == 1
    ensures pay[0] in pay && Total(pay) == pay[0]
  {
    assert pay[1..] == [];
  }
}
