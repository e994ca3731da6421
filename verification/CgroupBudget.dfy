/** learning/ubuntu-linux-internals/examples/cgroup_budget.py: one quota period shared round-robin. */
module CgroupBudget {

  class ThreadDemand {
    const name: string
    const demand: int
    var used: int

    constructor (name: string, demand: int)
      ensures this.name == name && this.demand == demand && used == 0
    {
      this.name := name;
      this.demand := demand;
      used := 0;
    }

    function Remaining(): int
      reads this
    {
      demand - used
    }
  }

  /** One entry of the trace: who ran, the budget before, the time used and the budget after. */
  datatype Step = Step(name: string, before: int, use: int, after: int)

  datatype Report = Report(cpuShare: real, budgetLeft: int, remainingDemand: int, trace: seq<Step>)

  /** The list holds no item twice. */
  predicate NoAliases(demands: seq<ThreadDemand>) {
    forall i, j | 0 <= i < j < |demands| :: demands[i] != demands[j]
  }

  function Min(a: int, b: int): int {
    if a <= b then a else b
  }

  ghost function Used(demands: seq<ThreadDemand>): (r: seq<int>)
    reads demands
    ensures |r| == |demands| && forall i | 0 <= i < |r| :: r[i] == demands[i].used
  {
    seq(|demands|, i requires 0 <= i < |demands| reads demands => demands[i].used)
  }

  ghost function Wants(demands: seq<ThreadDemand>): (r: seq<int>)
    reads demands
    ensures |r| == |demands| && forall i | 0 <= i < |r| :: r[i] == demands[i].Remaining()
  {
    seq(|demands|, i requires 0 <= i < |demands| reads demands => demands[i].Remaining())
  }

  ghost function Sum(s: seq<int>): int {
    if s == [] then 0 else Sum(s[..|s| - 1]) + s[|s| - 1]
  }

  lemma {:induction false} SumUpdate(s: seq<int>, k: nat, v: int)
    requires k < |s|
    ensures Sum(s[k := v]) == Sum(s) - s[k] + v
  {
    var n := |s| - 1;
    if k == n {
      assert s[k := v][..n] == s[..n];
    } else {
      assert s[k := v][..n] == s[..n][k := v];
      SumUpdate(s[..n], k, v);
    }
  }

  lemma {:induction false} SumMonotone(s: seq<int>, t: seq<int>)
    requires |s| == |t| && forall i | 0 <= i < |s| :: s[i] <= t[i]
    ensures Sum(s) <= Sum(t)
  {
    if s != [] {
      SumMonotone(s[..|s| - 1], t[..|t| - 1]);
    }
  }

  /** The time a period grants to each item. */
  ghost function Grants(before: seq<int>, after: seq<int>): (r: seq<int>)
    requires |before| == |after|
    ensures |r| == |before| && forall i | 0 <= i < |r| :: r[i] == after[i] - before[i]
  {
    seq(|before|, i requires 0 <= i < |before| => after[i] - before[i])
  }

  /** What an item has been granted when the level stands here: nothing before the first round, then what it wants
      up to the level. An item charged beyond its demand wants less than nothing: its first turn hands time back. */
  ghost function Share(want: int, level: int): int {
    if level <= 0 then 0 else Min(want, level)
  }

  /** Every item has its share. */
  ghost predicate Level(wants: seq<int>, grants: seq<int>, level: int) {
    |grants| == |wants| && forall i | 0 <= i < |wants| :: grants[i] == Share(wants[i], level)
  }

  /** Between two levels one quantum apart. */
  ghost predicate NearLevel(wants: seq<int>, grants: seq<int>, level: int, quantum: int) {
    |grants| == |wants| && forall i | 0 <= i < |wants| ::
      if wants[i] >= 0 then Share(wants[i], level) <= grants[i] <= Share(wants[i], level + quantum)
      else grants[i] == Share(wants[i], level) || grants[i] == Share(wants[i], level + quantum)
  }

  /** Within a round, items before k have had their turn. */
  ghost predicate Rising(wants: seq<int>, grants: seq<int>, level: int, quantum: int, k: int) {
    && |grants| == |wants|
    && forall i | 0 <= i < |wants| :: grants[i] == Share(wants[i], if i < k then level + quantum else level)
  }

  /** In the round that starts at `level`, items before k have had their turn and k may have had part of it. */
  ghost predicate InTurn(wants: seq<int>, grants: seq<int>, level: int, quantum: int, k: int) {
    && NearLevel(wants, grants, level, quantum)
    && (forall i | 0 <= i < |wants| && i < k :: grants[i] == Share(wants[i], level + quantum))
    && (forall i | 0 <= i < |wants| && i > k :: grants[i] == Share(wants[i], level))
  }

  ghost predicate NobodyOver(wants: seq<int>) {
    forall i | 0 <= i < |wants| :: wants[i] >= 0
  }

  /** The level after r rounds. */
  ghost function LevelAt(quantum: int, r: nat): int {
    if r == 0 then 0 else LevelAt(quantum, r - 1) + quantum
  }

  /** What round-robin turns of one quantum can have granted so far. */
  ghost predicate RoundRobinShares(wants: seq<int>, grants: seq<int>, quantum: int) {
    exists r: nat, k: nat :: InTurn(wants, grants, LevelAt(quantum, r), quantum, k)
  }

  lemma {:induction false} LevelsRise(quantum: int, r: nat, m: nat)
    requires quantum >= 1 && r < m
    ensures LevelAt(quantum, r) + quantum <= LevelAt(quantum, m)
    decreases m
  {
    if r + 1 < m {
      LevelsRise(quantum, r, m - 1);
    }
  }

  lemma {:induction false} LevelNonNegative(quantum: int, r: nat)
    requires quantum >= 1
    ensures LevelAt(quantum, r) >= 0 && (LevelAt(quantum, r) == 0 <==> r == 0)
  {
    if r > 0 {
      LevelNonNegative(quantum, r - 1);
    }
  }

  ghost predicate Below(s: seq<int>, t: seq<int>) {
    |s| == |t| && forall i | 0 <= i < |s| :: s[i] <= t[i]
  }

  lemma {:induction false} BelowSameSum(s: seq<int>, t: seq<int>)
    requires Below(s, t) && Sum(s) == Sum(t)
    ensures s == t
  {
    if s != [] {
      var n := |s| - 1;
      SumMonotone(s[..n], t[..n]);
      BelowSameSum(s[..n], t[..n]);
      assert s == s[..n] + [s[n]] && t == t[..n] + [t[n]];
    }
  }

  lemma {:induction false} SharesCompare(wants: seq<int>, g: seq<int>, h: seq<int>, quantum: int, r: nat, k: nat,
                                         m: nat, l: nat)
    requires quantum >= 1 && (r < m || (r == m && k <= l))
    requires InTurn(wants, g, LevelAt(quantum, r), quantum, k) && InTurn(wants, h, LevelAt(quantum, m), quantum, l)
    requires NobodyOver(wants)
    ensures Below(g, h) || Below(h, g)
  {
    LevelNonNegative(quantum, r);
    LevelNonNegative(quantum, m);
    hide LevelAt;
    if r < m {
      LevelsRise(quantum, r, m);
      assert Below(g, h);
    } else if k < l {
      assert Below(g, h);
    } else {
      assert forall i | 0 <= i < |wants| && i != k :: g[i] == h[i];
      assert k < |wants| && g[k] > h[k] ==> Below(h, g);
    }
  }

  /** When nobody is charged beyond demand, the total decides how turns of one quantum share it. */
  lemma {:induction false} SharesUnique(wants: seq<int>, g: seq<int>, h: seq<int>, quantum: int)
    requires quantum >= 1 && RoundRobinShares(wants, g, quantum) && RoundRobinShares(wants, h, quantum)
    requires NobodyOver(wants) && Sum(g) == Sum(h)
    ensures g == h
  {
    hide InTurn, LevelAt, Sum;
    var r: nat, k: nat :| InTurn(wants, g, LevelAt(quantum, r), quantum, k);
    var m: nat, l: nat :| InTurn(wants, h, LevelAt(quantum, m), quantum, l);
    if r < m || (r == m && k <= l) {
      SharesCompare(wants, g, h, quantum, r, k, m, l);
    } else {
      SharesCompare(wants, h, g, quantum, m, l, r, k);
    }
    if Below(g, h) {
      BelowSameSum(g, h);
    } else {
      BelowSameSum(h, g);
    }
  }

  /** The budgets of consecutive steps meet, from the first to the last, each step using part of a quantum. */
  ghost predicate Telescopes(trace: seq<Step>, first: int, last: int, quantum: int) {
    && (forall i | 0 <= i < |trace| :: trace[i].use != 0 && trace[i].use <= quantum && trace[i].after == trace[i].before - trace[i].use)
    && (forall i | 0 <= i < |trace| - 1 :: trace[i].after == trace[i + 1].before)
    && (if trace == [] then first == last else trace[0].before == first && trace[|trace| - 1].after == last)
  }

  /** One item's turn in one round. */
  datatype Slot = Slot(round: nat, item: nat)

  ghost predicate Earlier(a: Slot, b: Slot) {
    a.round < b.round || (a.round == b.round && a.item < b.item)
  }

  /** The step is what the item's turn uses of this much budget, given what it was granted in earlier rounds. */
  ghost predicate IsTurn(step: Step, slot: Slot, names: seq<string>, wants: seq<int>, quantum: int) {
    && slot.item < |names| == |wants| && step.name == names[slot.item]
    && var earlier := Share(wants[slot.item], LevelAt(quantum, slot.round));
       step.use == Min(Min(quantum, wants[slot.item] - earlier), step.before)
  }

  /** The steps are turns in list order, round by round. */
  ghost predicate InListOrder(trace: seq<Step>, slots: seq<Slot>, names: seq<string>, wants: seq<int>, quantum: int) {
    && |slots| == |trace|
    && (forall i | 0 <= i < |trace| :: IsTurn(trace[i], slots[i], names, wants, quantum))
    && (forall i, j | 0 <= i < j < |trace| :: Earlier(slots[i], slots[j]))
  }

  /** They are, and all of them come before this turn. */
  ghost predicate OrderedBefore(trace: seq<Step>, next: Slot, names: seq<string>, wants: seq<int>, quantum: int) {
    exists slots :: InListOrder(trace, slots, names, wants, quantum)
                    && forall i | 0 <= i < |slots| :: Earlier(slots[i], next)
  }

  lemma OrderStarts(next: Slot, names: seq<string>, wants: seq<int>, quantum: int)
    ensures OrderedBefore([], next, names, wants, quantum)
  {
    var slots: seq<Slot> := [];
    assert InListOrder([], slots, names, wants, quantum);
  }

  lemma OrderSkips(trace: seq<Step>, next: Slot, later: Slot, names: seq<string>, wants: seq<int>, quantum: int)
    requires OrderedBefore(trace, next, names, wants, quantum) && Earlier(next, later)
    ensures OrderedBefore(trace, later, names, wants, quantum)
  {
    hide InListOrder;
    var slots :| InListOrder(trace, slots, names, wants, quantum) && forall i | 0 <= i < |slots| :: Earlier(slots[i], next);
    assert forall i | 0 <= i < |slots| :: Earlier(slots[i], later);
  }

  lemma OrderNext(trace: seq<Step>, r: nat, k: nat, step: Step, names: seq<string>, wants: seq<int>, quantum: int)
    requires OrderedBefore(trace, Slot(r, k), names, wants, quantum) && IsTurn(step, Slot(r, k), names, wants, quantum)
    ensures OrderedBefore(trace + [step], Slot(r, k + 1), names, wants, quantum)
  {
    hide IsTurn;
    var slots :| InListOrder(trace, slots, names, wants, quantum)
                 && forall i | 0 <= i < |slots| :: Earlier(slots[i], Slot(r, k));
    var longer := slots + [Slot(r, k)];
    assert InListOrder(trace + [step], longer, names, wants, quantum);
    assert forall i | 0 <= i < |longer| :: Earlier(longer[i], Slot(r, k + 1));
  }

  /** A turn, or none when it uses nothing, in terms of what the item was granted so far. */
  lemma {:induction false} TurnInOrder(trace: seq<Step>, r: nat, k: nat, left: int, use: int, names: seq<string>,
                                       wants: seq<int>,
                    grants: seq<int>, quantum: int)
    requires OrderedBefore(trace, Slot(r, k), names, wants, quantum) && k < |wants| == |names|
    requires Rising(wants, grants, LevelAt(quantum, r), quantum, k)
    requires use == Min(Min(quantum, wants[k] - grants[k]), left)
    ensures OrderedBefore(trace + [Step(names[k], left, use, left - use)], Slot(r, k + 1), names, wants, quantum)
    ensures OrderedBefore(trace, Slot(r, k + 1), names, wants, quantum)
  {
    hide OrderedBefore, Share, Min, LevelAt;
    OrderNext(trace, r, k, Step(names[k], left, use, left - use), names, wants, quantum);
    OrderSkips(trace, Slot(r, k), Slot(r, k + 1), names, wants, quantum);
  }

  ghost predicate NothingReturned(trace: seq<Step>) {
    forall i | 0 <= i < |trace| :: trace[i].use >= 1
  }

  ghost function Names(demands: seq<ThreadDemand>): (r: seq<string>)
    ensures |r| == |demands| && forall i | 0 <= i < |r| :: r[i] == demands[i].name
  {
    seq(|demands|, i requires 0 <= i < |demands| => demands[i].name)
  }

  ghost function TracedTime(trace: seq<Step>, name: string): int {
    if trace == [] then 0
    else TracedTime(trace[..|trace| - 1], name) + if trace[|trace| - 1].name == name then trace[|trace| - 1].use else 0
  }

  ghost function GrantedTime(names: seq<string>, grants: seq<int>, name: string): int
    requires |names| == |grants|
  {
    if names == [] then 0
    else
      var n := |names| - 1;
      GrantedTime(names[..n], grants[..n], name) + if names[n] == name then grants[n] else 0
  }

  /** Every name was traced for exactly the time its items were granted. */
  ghost predicate Accounts(trace: seq<Step>, names: seq<string>, grants: seq<int>) {
    |names| == |grants| && forall name :: TracedTime(trace, name) == GrantedTime(names, grants, name)
  }

  lemma {:induction false} GrantedTimeUpdate(names: seq<string>, grants: seq<int>, k: nat, v: int, name: string)
    requires |names| == |grants| && k < |names|
    ensures GrantedTime(names, grants[k := v], name)
         == GrantedTime(names, grants, name) + if names[k] == name then v - grants[k] else 0
  {
    var n := |names| - 1;
    if k == n {
      assert grants[k := v][..n] == grants[..n];
    } else {
      assert grants[k := v][..n] == grants[..n][k := v];
      GrantedTimeUpdate(names[..n], grants[..n], k, v, name);
    }
  }

  lemma StepAccounts(trace: seq<Step>, names: seq<string>, grants: seq<int>, k: nat, step: Step)
    requires Accounts(trace, names, grants) && k < |names| && step.name == names[k]
    ensures Accounts(trace + [step], names, grants[k := grants[k] + step.use])
  {
    forall name
      ensures TracedTime(trace + [step], name) == GrantedTime(names, grants[k := grants[k] + step.use], name)
    {
      GrantedTimeUpdate(names, grants, k, grants[k] + step.use, name);
      assert (trace + [step])[..|trace|] == trace;
    }
  }

  lemma {:induction false} NothingAccounts(names: seq<string>, grants: seq<int>, name: string)
    requires |names| == |grants| && forall i | 0 <= i < |grants| :: grants[i] == 0
    ensures GrantedTime(names, grants, name) == 0
  {
    if names != [] {
      NothingAccounts(names[..|names| - 1], grants[..|names| - 1], name);
    }
  }

  lemma NothingTraced(names: seq<string>, grants: seq<int>)
    requires |names| == |grants| && forall i | 0 <= i < |grants| :: grants[i] == 0
    ensures Accounts([], names, grants)
  {
    forall name {
      NothingAccounts(names, grants, name);
    }
  }

  /** No item is granted more than one quantum above an item that still wants more. */
  ghost predicate Fair(wants: seq<int>, grants: seq<int>, quantum: int)
    requires |grants| == |wants|
  {
    forall i, j | 0 <= i < |wants| && 0 <= j < |wants| && grants[j] < wants[j] :: grants[i] <= grants[j] + quantum
  }

  lemma NearLevelIsFair(wants: seq<int>, grants: seq<int>, level: int, quantum: int)
    requires NearLevel(wants, grants, level, quantum) && level >= 0 && quantum >= 1
    ensures Fair(wants, grants, quantum)
  {}

  method TotalRemaining(demands: seq<ThreadDemand>) returns (sum: int)
    ensures sum == Sum(Wants(demands))
  {
    sum := 0;
    for i := 0 to |demands|
      invariant sum == Sum(Wants(demands)[..i])
    {
      assert Wants(demands)[..i + 1][..i] == Wants(demands)[..i];
      sum := sum + demands[i].Remaining();
    }
    assert Wants(demands)[..|demands|] == Wants(demands);
  }

  predicate AnyRemaining(demands: seq<ThreadDemand>)
    reads demands
  {
    exists i | 0 <= i < |demands| :: demands[i].Remaining() > 0
  }

  /** One item's turn raises it to the next level, or as far as the budget goes; an overcharged one is settled. */
  lemma TurnRises(wants: seq<int>, grants: seq<int>, level: int, quantum: int, k: nat, left: int)
    requires Rising(wants, grants, level, quantum, k) && k < |wants| && left > 0 && quantum >= 1 && level >= 0
    ensures var use := Min(Min(quantum, wants[k] - grants[k]), left);
      && (level > 0 || wants[k] >= 0 ==> use >= 0) && (use == 0 ==> wants[k] <= level)
      && InTurn(wants, grants[k := grants[k] + use], level, quantum, k)
      && (use < left ==> Rising(wants, grants[k := grants[k] + use], level, quantum, k + 1))
      && Sum(grants[k := grants[k] + use]) == Sum(grants) + use
  {
    hide Sum, Min, Share;
    var use := Min(Min(quantum, wants[k] - grants[k]), left);
    SumUpdate(grants, k, grants[k] + use);
    assert grants[k] == Share(wants[k], level);
    TurnShare(wants[k], level, quantum, left);
    forall i | 0 <= i < |wants| && wants[i] >= 0 ensures Share(wants[i], level) <= Share(wants[i], level + quantum) {
      ShareGrows(wants[i], level, quantum);
    }
  }

  lemma ShareGrows(want: int, level: int, quantum: int)
    requires want >= 0 && level >= 0 && quantum >= 1
    ensures Share(want, level) <= Share(want, level + quantum)
  {}

  /** What a turn makes of one item's share. */
  lemma TurnShare(want: int, level: int, quantum: int, left: int)
    requires left > 0 && quantum >= 1 && level >= 0
    ensures var use := Min(Min(quantum, want - Share(want, level)), left);
      && use <= left && (level > 0 || want >= 0 ==> use >= 0) && (use == 0 ==> want <= level)
      && (if want >= 0 then Share(want, level) <= Share(want, level) + use <= Share(want, level + quantum)
          else Share(want, level) + use == Share(want, level + quantum))
      && (use < left ==> Share(want, level) + use == Share(want, level + quantum))
  {}

  lemma RoundStarts(wants: seq<int>, grants: seq<int>, level: int, quantum: int)
    requires Level(wants, grants, level) && quantum >= 1
    ensures Rising(wants, grants, level, quantum, 0) && InTurn(wants, grants, level, quantum, 0)
  {}

  lemma RoundDone(wants: seq<int>, grants: seq<int>, level: int, quantum: int)
    requires Rising(wants, grants, level, quantum, |wants|)
    ensures Level(wants, grants, level + quantum)
  {}

  lemma SatisfiedAtLevel(wants: seq<int>, grants: seq<int>, level: int, quantum: int, k: int)
    requires InTurn(wants, grants, level, quantum, k) && forall i | 0 <= i < |wants| :: wants[i] <= level
    requires level >= 0 && quantum >= 1
    ensures forall i | 0 <= i < |wants| :: grants[i] >= wants[i]
  {}

  lemma StepTelescopes(trace: seq<Step>, first: int, left: int, quantum: int, name: string, use: int)
    requires Telescopes(trace, first, left, quantum) && use != 0 && use <= quantum
    ensures Telescopes(trace + [Step(name, left, use, left - use)], first, left - use, quantum)
  {}

  // --- The first round, in which overcharged items hand time back ---

  /** What the first f items take in the first round when none of them is overcharged. */
  ghost function FirstRound(wants: seq<int>, quantum: int, f: nat): int
    requires f <= |wants|
  {
    if f == 0 then 0
    else FirstRound(wants, quantum, f - 1) + (if wants[f - 1] <= 0 then 0 else Min(wants[f - 1], quantum))
  }

  /** The budget lasts until some overcharged item has its first turn. */
  ghost predicate Opens(wants: seq<int>, quantum: int, budget: int) {
    exists f | 0 <= f < |wants| :: wants[f] < 0 && FirstRound(wants, quantum, f) < budget
  }

  ghost predicate SomeoneReturns(grants: seq<int>) {
    exists i | 0 <= i < |grants| :: grants[i] < 0
  }

  /** The first overcharged item, or the number of items. */
  ghost function FirstOver(wants: seq<int>): (f: nat)
    ensures f <= |wants| && forall i | 0 <= i < f :: wants[i] >= 0
    ensures f < |wants| ==> wants[f] < 0
  {
    if wants == [] || wants[0] < 0 then 0 else
      var f := FirstOver(wants[1..]);
      assert forall i | 0 < i < f + 1 :: wants[i] == wants[1..][i - 1];
      f + 1
  }

  lemma {:induction false} FirstRoundGrows(wants: seq<int>, quantum: int, f: nat, g: nat)
    requires f <= g <= |wants| && quantum >= 1
    ensures FirstRound(wants, quantum, f) <= FirstRound(wants, quantum, g)
    decreases g
  {
    if f < g {
      FirstRoundGrows(wants, quantum, f, g - 1);
    }
  }

  /** Before the first overcharged item the budget only falls; once it has had its turn its debt is settled. */
  ghost predicate FirstPass(wants: seq<int>, grants: seq<int>, quantum: int, budget: int, left: int, k: nat)
    requires k <= |wants|
  {
    |grants| == |wants| &&
    var over := FirstOver(wants);
    if k <= over then
      && left == (if FirstRound(wants, quantum, k) >= budget then 0 else budget - FirstRound(wants, quantum, k))
      && !SomeoneReturns(grants)
    else FirstRound(wants, quantum, over) < budget && grants[over] == wants[over]
  }

  lemma FirstPassStarts(wants: seq<int>, grants: seq<int>, quantum: int, budget: int)
    requires budget > 0 && Level(wants, grants, 0)
    ensures FirstPass(wants, grants, quantum, budget, budget, 0)
  {}

  lemma FirstPassNext(wants: seq<int>, grants: seq<int>, quantum: int, budget: int, left: int, k: nat)
    requires k < |wants| && left > 0 && quantum >= 1
    requires Rising(wants, grants, 0, quantum, k) && FirstPass(wants, grants, quantum, budget, left, k)
    ensures var use := Min(Min(quantum, wants[k] - grants[k]), left);
      FirstPass(wants, grants[k := grants[k] + use], quantum, budget, left - use, k + 1)
  {}

  lemma FirstPassEnds(wants: seq<int>, grants: seq<int>, quantum: int, budget: int, left: int, k: nat)
    requires quantum >= 1 && k <= |wants| && FirstPass(wants, grants, quantum, budget, left, k)
    requires k == |wants| || left == 0
    ensures Opens(wants, quantum, budget) <==> SomeoneReturns(grants)
  {
    var over := FirstOver(wants);
    if k <= over {
      forall f | 0 <= f < |wants| && wants[f] < 0 ensures FirstRound(wants, quantum, f) >= budget {
        FirstRoundGrows(wants, quantum, k, f);
      }
    } else {
      assert grants[over] < 0;
    }
  }

  lemma ReturnsStay(wants: seq<int>, before: seq<int>, after: seq<int>, level: int, quantum: int, k: nat)
    requires level > 0 && quantum >= 1 && Level(wants, before, level) && InTurn(wants, after, level, quantum, k)
    ensures SomeoneReturns(before) <==> SomeoneReturns(after)
  {
    if SomeoneReturns(before) {
      var i :| 0 <= i < |before| && before[i] < 0;
      assert after[i] < 0;
    }
    if SomeoneReturns(after) {
      var i :| 0 <= i < |after| && after[i] < 0;
      assert before[i] < 0;
    }
  }

  /** Giving one unaliased item more time changes its grant alone. */
  lemma OnlyItsGrant(start: seq<int>, before: seq<int>, after: seq<int>, k: nat, use: int)
    requires |start| == |before| == |after| && k < |start| && after == before[k := before[k] + use]
    ensures Grants(start, after) == Grants(start, before)[k := Grants(start, before)[k] + use]
  {
    var updated := Grants(start, before)[k := Grants(start, before)[k] + use];
    assert forall i | 0 <= i < |start| :: Grants(start, after)[i] == updated[i];
  }

  /** `item.used_ms += use_ms` for the item at position k. */
  method Charge(demands: seq<ThreadDemand>, k: nat, use: int)
    requires NoAliases(demands) && k < |demands|
    modifies demands[k]
    ensures Used(demands) == old(Used(demands))[k := old(Used(demands))[k] + use]
  {
    ghost var before := Used(demands);
    demands[k].used := demands[k].used + use;
    assert forall i | 0 <= i < |demands| && i != k :: demands[i] != demands[k];
    assert forall i | 0 <= i < |demands| :: Used(demands)[i] == before[k := before[k] + use][i];
  }

  /** One item's turn: it runs for a quantum, or what it still wants, or what is left of the budget. */
  method Turn(demands: seq<ThreadDemand>, k: nat, quantum: int, left: int,
              ghost start: seq<int>, ghost wants: seq<int>, ghost level: int)
    returns (use: int)
    requires NoAliases(demands) && k < |demands| && quantum >= 1 && left > 0 && level >= 0
    requires |start| == |demands| == |wants| && forall i | 0 <= i < |demands| :: start[i] + wants[i] == demands[i].demand
    requires Rising(wants, Grants(start, Used(demands)), level, quantum, k)
    modifies demands[k]
    ensures use == Min(Min(quantum, wants[k] - old(Grants(start, Used(demands)))[k]), left)
    ensures use <= left && use <= quantum && (use == 0 ==> wants[k] <= level)
    ensures level > 0 || wants[k] >= 0 ==> use >= 0
    ensures InTurn(wants, Grants(start, Used(demands)), level, quantum, k)
    ensures use < left ==> Rising(wants, Grants(start, Used(demands)), level, quantum, k + 1)
    ensures Sum(Grants(start, Used(demands))) == old(Sum(Grants(start, Used(demands)))) + use
    ensures var before := old(Grants(start, Used(demands)));
      Grants(start, Used(demands)) == before[k := before[k] + use]
  {
    hide Sum, Rising, InTurn, Grants, Used;
    ghost var before := Used(demands);
    ghost var grants := Grants(start, before);
    use := Min(Min(quantum, demands[k].Remaining()), left);
    assert demands[k].Remaining() == wants[k] - grants[k];
    TurnRises(wants, grants, level, quantum, k, left);
    if use != 0 {
      Charge(demands, k, use);
    }
    OnlyItsGrant(start, before, Used(demands), k, use);
  }

  /** One turn around the items, stopping when the budget is gone. */
  method Round(demands: seq<ThreadDemand>, budget: int, quantum: int, trace: seq<Step>,
               ghost start: seq<int>, ghost wants: seq<int>, ghost level: int, ghost first: int, ghost rounds: nat)
    returns (left: int, progressed: bool, longer: seq<Step>, ghost reached: nat)
    requires NoAliases(demands) && quantum >= 1 && budget > 0 && level >= 0
    requires |start| == |demands| == |wants| && forall i | 0 <= i < |demands| :: start[i] + wants[i] == demands[i].demand
    requires Level(wants, Grants(start, Used(demands)), level)
    requires Ledger(trace, first, budget, quantum, Names(demands), wants, Grants(start, Used(demands)), Slot(rounds, 0))
    requires level == LevelAt(quantum, rounds)
    modifies demands
    ensures left >= 0
    ensures Ledger(longer, first, left, quantum, Names(demands), wants, Grants(start, Used(demands)), Slot(rounds + 1, 0))
    ensures Sum(Grants(start, Used(demands))) + left == old(Sum(Grants(start, Used(demands)))) + budget
    ensures InTurn(wants, Grants(start, Used(demands)), level, quantum, reached)
    ensures left > 0 ==> Level(wants, Grants(start, Used(demands)), level + quantum)
    ensures progressed && level > 0 ==> left < budget
    ensures !progressed ==> left == budget && forall i | 0 <= i < |wants| :: wants[i] <= level
    ensures level == 0 ==> (Opens(wants, quantum, budget) <==> SomeoneReturns(Grants(start, Used(demands))))
  {
    hide *;
    RoundStarts(wants, Grants(start, Used(demands)), level, quantum);
    left, progressed, longer, reached := budget, false, trace, 0;
    ghost var total := Sum(Grants(start, Used(demands))) + budget;
    ghost var turns: nat := 0;
    if level == 0 {
      FirstPassStarts(wants, Grants(start, Used(demands)), quantum, budget);
    }
    for k := 0 to |demands|
      invariant left >= 0 && turns == k
      invariant Ledger(longer, first, left, quantum, Names(demands), wants, Grants(start, Used(demands)), Slot(rounds, turns))
      invariant Sum(Grants(start, Used(demands))) + left == total
      invariant InTurn(wants, Grants(start, Used(demands)), level, quantum, reached)
      invariant left > 0 ==> Rising(wants, Grants(start, Used(demands)), level, quantum, k)
      invariant level > 0 ==> left <= budget && (progressed ==> left < budget)
      invariant !progressed ==> left == budget && forall i | 0 <= i < k :: wants[i] <= level
      invariant level == 0 ==> FirstPass(wants, Grants(start, Used(demands)), quantum, budget, left, turns)
    {
      if left == 0 {
        break;
      }
      ghost var grants := Grants(start, Used(demands));
      if level == 0 {
        FirstPassNext(wants, grants, quantum, budget, left, k);
      }
      var use := Turn(demands, k, quantum, left, start, wants, level);
      LedgerNext(longer, first, left, quantum, Names(demands), wants, grants, rounds, k, use);
      reached, turns := k, k + 1;
      if use == 0 {
        assert grants[k := grants[k] + 0] == grants;
        continue;
      }
      longer := longer + [Step(demands[k].name, left, use, left - use)];
      left := left - use;
      progressed := true;
    }
    LedgerRound(longer, first, left, quantum, Names(demands), wants, Grants(start, Used(demands)), rounds, turns);
    if left > 0 {
      RoundDone(wants, Grants(start, Used(demands)), level, quantum);
    }
    if level == 0 {
      FirstPassEnds(wants, Grants(start, Used(demands)), quantum, budget, left, turns);
    }
  }

  /** What the trace says of the grants: budgets meet, names add up and stand in list order, and only overcharged
      items hand time back. */
  ghost predicate Ledger(trace: seq<Step>, first: int, left: int, quantum: int, names: seq<string>,
                         wants: seq<int>, grants: seq<int>, next: Slot)
  {
    && OrderedBefore(trace, next, names, wants, quantum)
    && Telescopes(trace, first, left, quantum) && Accounts(trace, names, grants)
    && (NobodyOver(wants) ==> NothingReturned(trace))
  }

  lemma {:induction false} LedgerNext(trace: seq<Step>, first: int, left: int, quantum: int, names: seq<string>,
                                      wants: seq<int>,
                   grants: seq<int>, r: nat, k: nat, use: int)
    requires Ledger(trace, first, left, quantum, names, wants, grants, Slot(r, k)) && k < |wants| == |names| == |grants|
    requires Rising(wants, grants, LevelAt(quantum, r), quantum, k)
    requires use == Min(Min(quantum, wants[k] - grants[k]), left)
    requires use <= quantum && (wants[k] >= 0 ==> use >= 0)
    ensures use == 0 ==> Ledger(trace, first, left, quantum, names, wants, grants, Slot(r, k + 1))
    ensures use != 0 ==> Ledger(trace + [Step(names[k], left, use, left - use)], first, left - use, quantum, names,
                                wants, grants[k := grants[k] + use], Slot(r, k + 1))
  {
    hide Telescopes, Accounts, OrderedBefore, Rising, LevelAt, Min;
    TurnInOrder(trace, r, k, left, use, names, wants, grants, quantum);
    if use != 0 {
      StepAccounts(trace, names, grants, k, Step(names[k], left, use, left - use));
      StepTelescopes(trace, first, left, quantum, names[k], use);
    }
  }

  lemma LedgerRound(trace: seq<Step>, first: int, left: int, quantum: int, names: seq<string>, wants: seq<int>,
                    grants: seq<int>, r: nat, k: nat)
    requires Ledger(trace, first, left, quantum, names, wants, grants, Slot(r, k))
    ensures Ledger(trace, first, left, quantum, names, wants, grants, Slot(r + 1, 0))
  {
    hide Telescopes, Accounts, OrderedBefore;
    OrderSkips(trace, Slot(r, k), Slot(r + 1, 0), names, wants, quantum);
  }

  /** What the items want in all, and what they are granted, leaving out what others hand back. */
  ghost function Demand(s: seq<int>): int {
    if s == [] then 0 else Demand(s[..|s| - 1]) + if s[|s| - 1] > 0 then s[|s| - 1] else 0
  }

  ghost predicate SomeoneWants(wants: seq<int>) {
    exists i | 0 <= i < |wants| :: wants[i] > 0
  }

  /** What a period does with its budget. */
  ghost predicate Outcome(wants: seq<int>, grants: seq<int>, quantum: int, budget: int, left: int) {
    && |grants| == |wants| && left == budget - Sum(grants)
    && (forall i | 0 <= i < |wants| ::
          if wants[i] >= 0 then 0 <= grants[i] <= wants[i] else grants[i] == 0 || grants[i] == wants[i])
    && Fair(wants, grants, quantum) && RoundRobinShares(wants, grants, quantum)
    && (budget > 0 ==> left >= 0)
    && (left <= 0 || forall i | 0 <= i < |wants| :: grants[i] >= wants[i])
    && (budget <= 0 || !SomeoneWants(wants) ==> forall i | 0 <= i < |wants| :: grants[i] == 0)
  }

  /** One period, whatever was used before it: the whole budget or the whole outstanding demand is granted, the
      trace accounts for every millisecond, and no item gets more than a quantum above one left wanting. Items
      charged beyond their demand hand the excess back if they get a turn, and only then is more than the quota
      granted: exactly when there is demand for more and the budget lasts until such an item's first turn. */
  method RunPeriod(quotaUs: int, periodUs: int, demands: seq<ThreadDemand>, quantum: int) returns (r: Report)
    requires NoAliases(demands) && quantum >= 1 && periodUs != 0
    modifies demands
    ensures var wants := old(Wants(demands));
      var grants := Grants(old(Used(demands)), Used(demands));
      var budget := quotaUs / 1000;
      && Outcome(wants, grants, quantum, budget, r.budgetLeft)
      && (NobodyOver(wants) ==> Sum(grants) == Min(if budget > 0 then budget else 0, Sum(wants)))
      && (NobodyOver(wants) ==> NothingReturned(r.trace))
      && (Demand(grants) > (if budget > 0 then budget else 0)
          <==> budget > 0 && Demand(wants) > budget && Opens(wants, quantum, budget))
      && Accounts(r.trace, Names(demands), grants)
    ensures r.remainingDemand == Sum(Wants(demands))
    ensures Telescopes(r.trace, quotaUs / 1000, r.budgetLeft, quantum)
    ensures exists slots :: InListOrder(r.trace, slots, Names(demands), old(Wants(demands)), quantum)
    ensures r.cpuShare == quotaUs as real / periodUs as real
  {
    hide *;
    var budget := quotaUs / 1000;
    var trace: seq<Step> := [];
    ghost var start, wants, level := Used(demands), Wants(demands), 0;
    ghost var rounds: nat, reached: nat, ran := 0, 0, false;
    ghost var next := Slot(0, 0);
    ghost var grants := Grants(start, start);
    StartOf(demands);
    Levels(quantum, 0);
    NothingGranted(wants, grants, budget, quantum);
    LedgerStarts(wants, Names(demands), grants, budget, quantum, next);
    while budget > 0 && AnyRemaining(demands)
      invariant level >= 0 && level == LevelAt(quantum, rounds)
      invariant grants == Grants(start, Used(demands)) && Sum(grants) + budget == quotaUs / 1000
      invariant Ledger(trace, quotaUs / 1000, budget, quantum, Names(demands), wants, grants, next)
      invariant budget > 0 ==> next == Slot(rounds, 0)
      invariant InTurn(wants, grants, level, quantum, reached) && (budget > 0 ==> Level(wants, grants, level))
      invariant if ran then budget >= 0 && quotaUs / 1000 > 0 && (budget > 0 ==> level > 0) && SomeoneWants(wants)
                            && (Opens(wants, quantum, quotaUs / 1000) <==> SomeoneReturns(grants))
                else level == 0 && budget == quotaUs / 1000 && Level(wants, grants, 0)
      decreases if ran then 0 else 1, budget
    {
      ghost var before := grants;
      if !ran {
        SomeoneLeft(demands, start, wants, grants);
      }
      var progressed;
      budget, progressed, trace, reached :=
        Round(demands, budget, quantum, trace, start, wants, level, quotaUs / 1000, rounds);
      next := Slot(rounds + 1, 0);
      grants := Grants(start, Used(demands));
      if ran {
        ReturnsStay(wants, before, grants, level, quantum, reached);
      }
      ran := true;
      if !progressed {
        SatisfiedAtLevel(wants, grants, level, quantum, reached);
        break;
      }
      if budget > 0 {
        Levels(quantum, rounds);
        level, rounds, reached := level + quantum, rounds + 1, 0;
        RoundStarts(wants, grants, level, quantum);
      }
    }
    if budget > 0 && !AnyRemaining(demands) {
      NobodyLeft(demands, start, wants, grants);
    }
    PeriodTotal(wants, grants, rounds, reached, quantum, budget, quotaUs / 1000, ran);
    LedgerMeans(trace, quotaUs / 1000, budget, quantum, Names(demands), wants, grants, next);
    var remaining := TotalRemaining(demands);
    r := Report(quotaUs as real / periodUs as real, budget, remaining, trace);
  }

  lemma StartOf(demands: seq<ThreadDemand>)
    ensures |Used(demands)| == |Wants(demands)| == |demands|
    ensures forall i | 0 <= i < |demands| :: Used(demands)[i] + Wants(demands)[i] == demands[i].demand
    ensures |Grants(Used(demands), Used(demands))| == |demands|
    ensures forall i | 0 <= i < |demands| :: Grants(Used(demands), Used(demands))[i] == 0
  {}

  lemma LeftIs(demands: seq<ThreadDemand>, start: seq<int>, wants: seq<int>, grants: seq<int>, i: nat)
    requires |start| == |wants| == |demands| && grants == Grants(start, Used(demands)) && i < |demands|
    requires start[i] + wants[i] == demands[i].demand
    ensures demands[i].Remaining() == wants[i] - grants[i]
  {}

  lemma NobodyLeft(demands: seq<ThreadDemand>, start: seq<int>, wants: seq<int>, grants: seq<int>)
    requires |start| == |wants| == |demands| && grants == Grants(start, Used(demands))
    requires forall i | 0 <= i < |demands| :: start[i] + wants[i] == demands[i].demand
    requires !AnyRemaining(demands)
    ensures forall i | 0 <= i < |wants| :: grants[i] >= wants[i]
  {
    forall i | 0 <= i < |wants| ensures grants[i] >= wants[i] {
      LeftIs(demands, start, wants, grants, i);
    }
  }

  lemma SomeoneLeft(demands: seq<ThreadDemand>, start: seq<int>, wants: seq<int>, grants: seq<int>)
    requires |start| == |wants| == |demands| && grants == Grants(start, Used(demands))
    requires forall i | 0 <= i < |demands| :: start[i] + wants[i] == demands[i].demand
    requires AnyRemaining(demands) && Level(wants, grants, 0)
    ensures SomeoneWants(wants)
  {
    var i :| 0 <= i < |demands| && demands[i].Remaining() > 0;
    LeftIs(demands, start, wants, grants, i);
  }

  lemma LedgerStarts(wants: seq<int>, names: seq<string>, grants: seq<int>, budget: int, quantum: int, next: Slot)
    requires |names| == |grants| && forall i | 0 <= i < |grants| :: grants[i] == 0
    ensures Ledger([], budget, budget, quantum, names, wants, grants, next)
  {
    OrderStarts(next, names, wants, quantum);
    NothingTraced(names, grants);
  }

  lemma LedgerMeans(trace: seq<Step>, first: int, left: int, quantum: int, names: seq<string>, wants: seq<int>,
                    grants: seq<int>, next: Slot)
    requires Ledger(trace, first, left, quantum, names, wants, grants, next)
    ensures exists slots :: InListOrder(trace, slots, names, wants, quantum)
    ensures Telescopes(trace, first, left, quantum) && Accounts(trace, names, grants)
    ensures NobodyOver(wants) ==> NothingReturned(trace)
  {}

  lemma Levels(quantum: int, r: nat)
    ensures LevelAt(quantum, 0) == 0 && LevelAt(quantum, r + 1) == LevelAt(quantum, r) + quantum
  {}

  lemma {:induction false} NothingGranted(wants: seq<int>, grants: seq<int>, budget: int, quantum: int)
    requires |grants| == |wants| && quantum >= 1 && forall i | 0 <= i < |wants| :: grants[i] == 0
    ensures Level(wants, grants, 0) && InTurn(wants, grants, 0, quantum, 0) && Sum(grants) == 0
  {
    ZeroSum(grants);
  }

  lemma {:induction false} SumNonNegative(s: seq<int>)
    requires forall i | 0 <= i < |s| :: s[i] >= 0
    ensures Sum(s) >= 0
  {
    if s != [] {
      SumNonNegative(s[..|s| - 1]);
    }
  }

  lemma {:induction false} ZeroSum(s: seq<int>)
    requires forall i | 0 <= i < |s| :: s[i] == 0
    ensures Sum(s) == 0
  {
    if s != [] {
      ZeroSum(s[..|s| - 1]);
    }
  }

  lemma {:induction false} DemandMonotone(s: seq<int>, t: seq<int>)
    requires |s| == |t| && forall i | 0 <= i < |s| :: s[i] <= t[i] || s[i] <= 0
    ensures Demand(s) <= Demand(t)
  {
    if s != [] {
      DemandMonotone(s[..|s| - 1], t[..|t| - 1]);
    }
  }

  /** Leaving out what is handed back only adds to the sum, and does so exactly when something is. */
  lemma {:induction false} DemandAndSum(s: seq<int>)
    ensures Demand(s) >= Sum(s) && Demand(s) >= 0
    ensures Demand(s) > Sum(s) <==> SomeoneReturns(s)
  {
    if s != [] {
      var n := |s| - 1;
      DemandAndSum(s[..n]);
      if SomeoneReturns(s) {
        var i :| 0 <= i < |s| && s[i] < 0;
        assert i < n ==> s[..n][i] < 0;
      }
      if SomeoneReturns(s[..n]) {
        var i :| 0 <= i < n && s[..n][i] < 0;
        assert s[i] < 0;
      }
      assert s[n] < 0 ==> SomeoneReturns(s);
    }
  }

  /** When the budget is gone, it was all granted; when it is not, everything wanted was. */
  lemma {:induction false} PeriodTotal(wants: seq<int>, grants: seq<int>, rounds: nat, k: nat, quantum: int,
                                       budget: int, full: int,
                    ran: bool)
    requires InTurn(wants, grants, LevelAt(quantum, rounds), quantum, k) && Sum(grants) + budget == full && quantum >= 1
    requires budget > 0 ==> forall i | 0 <= i < |wants| :: grants[i] >= wants[i]
    requires if ran then budget >= 0 && full > 0 && SomeoneWants(wants)
                         && (Opens(wants, quantum, full) <==> SomeoneReturns(grants))
             else budget == full && Level(wants, grants, 0)
    ensures Outcome(wants, grants, quantum, full, budget)
    ensures NobodyOver(wants) ==> Sum(grants) == Min(if full > 0 then full else 0, Sum(wants))
    ensures Demand(grants) > (if full > 0 then full else 0)
       <==> full > 0 && Demand(wants) > full && Opens(wants, quantum, full)
  {
    LevelNonNegative(quantum, rounds);
    NearLevelIsFair(wants, grants, LevelAt(quantum, rounds), quantum);
    ShareBounds(wants, grants, LevelAt(quantum, rounds), quantum, k);
    assert RoundRobinShares(wants, grants, quantum);
    hide Fair, RoundRobinShares, InTurn, LevelAt, Opens, SomeoneReturns, Sum, Demand;
    if NobodyOver(wants) {
      UsualTotal(wants, grants, budget, full, ran);
    }
    OverQuota(wants, grants, quantum, budget, full, ran);
  }

  lemma {:induction false} UsualTotal(wants: seq<int>, grants: seq<int>, budget: int, full: int, ran: bool)
    requires |grants| == |wants| && Sum(grants) + budget == full
    requires forall i | 0 <= i < |wants| :: 0 <= grants[i] <= wants[i]
    requires budget > 0 ==> forall i | 0 <= i < |wants| :: grants[i] >= wants[i]
    requires if ran then budget >= 0 && full > 0 else budget == full
    ensures Sum(grants) == Min(if full > 0 then full else 0, Sum(wants))
  {
    SumNonNegative(wants);
    SumMonotone(grants, wants);
    if budget > 0 {
      SumMonotone(wants, grants);
    }
  }

  lemma ShareBounds(wants: seq<int>, grants: seq<int>, level: int, quantum: int, k: nat)
    requires InTurn(wants, grants, level, quantum, k) && level >= 0 && quantum >= 1
    ensures |grants| == |wants|
    ensures forall i | 0 <= i < |wants| ::
      if wants[i] >= 0 then 0 <= grants[i] <= wants[i] else grants[i] == 0 || grants[i] == wants[i]
  {}

  lemma {:induction false} OverQuota(wants: seq<int>, grants: seq<int>, quantum: int, budget: int, full: int, ran: bool)
    requires |grants| == |wants| && Sum(grants) + budget == full
    requires forall i | 0 <= i < |wants| ::
      if wants[i] >= 0 then 0 <= grants[i] <= wants[i] else grants[i] == 0 || grants[i] == wants[i]
    requires budget > 0 ==> forall i | 0 <= i < |wants| :: grants[i] >= wants[i]
    requires if ran then budget >= 0 && full > 0 && (Opens(wants, quantum, full) <==> SomeoneReturns(grants))
             else budget == full && forall i | 0 <= i < |wants| :: grants[i] == 0
    ensures Demand(grants) > (if full > 0 then full else 0)
       <==> full > 0 && Demand(wants) > full && Opens(wants, quantum, full)
  {
    hide Opens, SomeoneReturns;
    DemandAndSum(grants);
    DemandMonotone(grants, wants);
    if budget > 0 {
      DemandMonotone(wants, grants);
    }
    if !ran {
      DemandMonotone(grants, seq(|grants|, _ => 0));
      ZeroDemand(seq(|grants|, _ => 0));
    }
  }

  /** Quota 3, quantum 5: an item 5 over its demand, ahead of one that wants 10, lets the latter exceed the quota. */
  lemma QuotaCanBeExceeded()
    ensures Demand([-5, 10]) > 3 && Opens([-5, 10], 5, 3)
  {
    var wants := [-5, 10];
    assert wants[..1] == [-5];
    assert FirstRound(wants, 5, 0) == 0;
    assert wants[0] < 0;
  }

  lemma {:induction false} ZeroDemand(s: seq<int>)
    requires forall i | 0 <= i < |s| :: s[i] == 0
    ensures Demand(s) == 0
  {
    if s != [] {
      ZeroDemand(s[..|s| - 1]);
    }
  }
}
