/** learning/gpu-operator-dra/examples/allocation_model.py: `allocate` and the reservations around it. */
module Allocation {
  import opened Matching
  import opened Options
  import opened Ordering

  datatype Device = Device(node: string, name: string, memory: int)
  datatype Request = Request(name: string, minMemory: int)
  datatype Answer = Answer(node: string, assignment: map<string, Device>)

  predicate NamesDistinct(requests: seq<Request>) {
    forall i, j | 0 <= i < j < |requests| :: requests[i].name != requests[j].name
  }

  // --- permutations(range(n), r), in the order of itertools ---

  /** All ways to extend `prefix` by r further positions below n, the next one at least i. */
  function Extensions(prefix: seq<nat>, n: nat, r: nat, i: nat): seq<seq<nat>>
    requires i <= n
    decreases r, n - i
  {
    if r == 0 then [prefix]
    else if i == n then []
    else (if i in prefix then [] else Extensions(prefix + [i], n, r - 1, 0)) + Extensions(prefix, n, r, i + 1)
  }

  function Permutations(n: nat, r: nat): seq<seq<nat>> {
    Extensions([], n, r, 0)
  }

  ghost predicate Extends(t: seq<nat>, prefix: seq<nat>, n: nat, r: nat, i: nat) {
    && |t| == |prefix| + r && prefix <= t
    && (forall k | |prefix| <= k < |t| :: t[k] < n && t[k] !in t[..k])
    && (r > 0 ==> t[|prefix|] >= i)
  }

  /** Lexicographic order on position tuples. */
  ghost predicate TupleLess(a: seq<nat>, b: seq<nat>) {
    exists k | 0 <= k < |a| && k < |b| :: a[..k] == b[..k] && a[k] < b[k]
  }

  /** Tuples that share a beginning are ordered by the next position. */
  lemma TupleLessWritten(p: seq<nat>, c: nat, d: nat, s: seq<nat>, t: seq<nat>)
    requires c < d
    ensures TupleLess(p + [c] + s, p + [d] + t)
  {
    var a, b := p + [c] + s, p + [d] + t;
    assert a[..|p|] == p == b[..|p|] && a[|p|] == c && b[|p|] == d;
  }

  /** The enumeration lists exactly the injective extensions. */
  lemma {:induction false} ExtensionsAre(prefix: seq<nat>, n: nat, r: nat, i: nat, t: seq<nat>)
    requires i <= n
    ensures t in Extensions(prefix, n, r, i) <==> Extends(t, prefix, n, r, i)
    decreases r, n - i
  {
    hide Extends, Extensions;
    if r == 0 || i == n {
      NothingLeft(t, prefix, n, r, i);
    } else {
      ExtensionsUnfold(prefix, n, r, i);
      ExtensionsAre(prefix, n, r, i + 1, t);
      if i in prefix {
        SkipUsed(t, prefix, n, r, i);
      } else {
        ExtensionsAre(prefix + [i], n, r - 1, 0, t);
        TakeOrSkip(t, prefix, n, r, i);
      }
    }
  }

  /** The enumeration is in lexicographic order. */
  lemma {:induction false} ExtensionsOrdered(prefix: seq<nat>, n: nat, r: nat, i: nat)
    requires i <= n
    ensures Increasing(Extensions(prefix, n, r, i))
    decreases r, n - i
  {
    hide Extends, TupleLess, Increasing, Extensions;
    if r == 0 || i == n {
      ShortIncreases(prefix, n, r, i);
    } else {
      ExtensionsOrdered(prefix, n, r, i + 1);
      ExtensionsUnfold(prefix, n, r, i);
      if i !in prefix {
        ExtensionsOrdered(prefix + [i], n, r - 1, 0);
        TakenComeFirst(prefix, n, r, i);
        JoinIncreasing(Extensions(prefix + [i], n, r - 1, 0), Extensions(prefix, n, r, i + 1));
      }
    }
  }

  lemma {:induction false} ShortIncreases(prefix: seq<nat>, n: nat, r: nat, i: nat)
    requires i <= n && (r == 0 || i == n)
    ensures Increasing(Extensions(prefix, n, r, i))
  {
    assert |Extensions(prefix, n, r, i)| <= 1;
  }

  lemma TakenComeFirst(prefix: seq<nat>, n: nat, r: nat, i: nat)
    requires r > 0 && i < n
    ensures forall a, b | a in Extensions(prefix + [i], n, r - 1, 0) && b in Extensions(prefix, n, r, i + 1) :: TupleLess(a, b)
  {
    hide Extends, TupleLess, Extensions;
    forall a, b | a in Extensions(prefix + [i], n, r - 1, 0) && b in Extensions(prefix, n, r, i + 1)
      ensures TupleLess(a, b)
    {
      ExtensionsAre(prefix + [i], n, r - 1, 0, a);
      ExtensionsAre(prefix, n, r, i + 1, b);
      FirstBeforeLater(a, b, prefix, n, r, i);
    }
  }

  lemma ExtensionsUnfold(prefix: seq<nat>, n: nat, r: nat, i: nat)
    requires r > 0 && i < n
    ensures var later := Extensions(prefix, n, r, i + 1);
      Extensions(prefix, n, r, i) == if i in prefix then later else Extensions(prefix + [i], n, r - 1, 0) + later
  {
    assert [] + Extensions(prefix, n, r, i + 1) == Extensions(prefix, n, r, i + 1);
  }

  ghost predicate Increasing(e: seq<seq<nat>>) {
    forall a, b | 0 <= a < b < |e| :: TupleLess(e[a], e[b])
  }

  lemma JoinIncreasing(first: seq<seq<nat>>, later: seq<seq<nat>>)
    requires Increasing(first) && Increasing(later) && forall a, b | a in first && b in later :: TupleLess(a, b)
    ensures Increasing(first + later)
  {
    hide TupleLess;
    var e := first + later;
    forall a, b | 0 <= a < b < |e| ensures TupleLess(e[a], e[b]) {
      if a < |first| <= b {
        assert e[a] in first && e[b] in later;
      }
    }
  }

  lemma {:induction false} NothingLeft(t: seq<nat>, prefix: seq<nat>, n: nat, r: nat, i: nat)
    requires i <= n && (r == 0 || i == n)
    ensures Extends(t, prefix, n, r, i) <==> t in Extensions(prefix, n, r, i)
  {
    if r == 0 && |t| == |prefix| && prefix <= t {
      assert t == prefix;
    }
    assert r == 0 ==> Extensions(prefix, n, r, i) == [prefix];
  }

  lemma SkipUsed(t: seq<nat>, prefix: seq<nat>, n: nat, r: nat, i: nat)
    requires r > 0 && i in prefix
    ensures Extends(t, prefix, n, r, i) <==> Extends(t, prefix, n, r, i + 1)
  {
    if |t| == |prefix| + r && prefix <= t {
      assert t[..|prefix|] == prefix;
    }
  }

  lemma TakeOrSkip(t: seq<nat>, prefix: seq<nat>, n: nat, r: nat, i: nat)
    requires r > 0 && i < n && i !in prefix
    ensures Extends(t, prefix, n, r, i) <==> Extends(t, prefix + [i], n, r - 1, 0) || Extends(t, prefix, n, r, i + 1)
  {
    if |t| == |prefix| + r && prefix <= t {
      var p := |prefix|;
      assert t[..p] == prefix;
      assert prefix + [i] <= t <==> t[p] == i;
    }
  }

  lemma FirstBeforeLater(a: seq<nat>, b: seq<nat>, prefix: seq<nat>, n: nat, r: nat, i: nat)
    requires r > 0 && Extends(a, prefix + [i], n, r - 1, 0) && Extends(b, prefix, n, r, i + 1)
    ensures TupleLess(a, b)
  {
    var p := |prefix|;
    assert a[..p] == prefix == b[..p] && a[p] == i;
  }

  // --- allocate ---

  function Available(devices: seq<Device>, node: string, reserved: set<string>): (r: seq<Device>)
    ensures forall d :: d in r <==> d in devices && d.node == node && d.name !in reserved
  {
    if devices == [] then []
    else
      assert devices == [devices[0]] + devices[1..];
      (if devices[0].node == node && devices[0].name !in reserved then [devices[0]] else [])
        + Available(devices[1..], node, reserved)
  }

  /** The list comprehension keeps the devices' order, and every copy of one: device by device, list by list. */
  lemma {:induction false} AvailableInOrder(front: seq<Device>, back: seq<Device>, node: string, reserved: set<string>)
    ensures Available(front + back, node, reserved)
         == Available(front, node, reserved) + Available(back, node, reserved)
  {
    hide Available;
    if front == [] {
      assert front + back == back;
      AvailableUnfolds(front, node, reserved);
    } else {
      AvailableInOrder(front[1..], back, node, reserved);
      assert (front + back)[1..] == front[1..] + back;
      AvailableUnfolds(front, node, reserved);
      AvailableUnfolds(front + back, node, reserved);
    }
  }

  lemma {:induction false} AvailableUnfolds(devices: seq<Device>, node: string, reserved: set<string>)
    ensures Available([], node, reserved) == []
    ensures devices != [] ==>
      var d := devices[0];
      Available(devices, node, reserved)
      == (if d.node == node && d.name !in reserved then [d] else []) + Available(devices[1..], node, reserved)
  {}

  lemma {:induction false} AvailableOne(d: Device, node: string, reserved: set<string>)
    ensures Available([d], node, reserved) == if d.node == node && d.name !in reserved then [d] else []
  {
    hide Available;
    AvailableUnfolds([d], node, reserved);
    assert [d][1..] == [];
  }

  function Demands(requests: seq<Request>): (r: seq<int>)
    ensures |r| == |requests| && forall i | 0 <= i < |r| :: r[i] == requests[i].minMemory
  {
    seq(|requests|, i requires 0 <= i < |requests| => requests[i].minMemory)
  }

  function Memories(devices: seq<Device>): (r: seq<int>)
    ensures |r| == |devices| && forall i | 0 <= i < |r| :: r[i] == devices[i].memory
  {
    seq(|devices|, i requires 0 <= i < |devices| => devices[i].memory)
  }

  /** The positions serve every request from what the node has free. */
  ghost predicate Fits(devices: seq<Device>, requests: seq<Request>, reserved: set<string>, node: string, sel: seq<nat>) {
    Serves(sel, Demands(requests), Memories(Available(devices, node, reserved)))
  }

  ghost predicate Feasible(devices: seq<Device>, requests: seq<Request>, reserved: set<string>, node: string) {
    Servable(Demands(requests), Memories(Available(devices, node, reserved)))
  }

  function Nodes(devices: seq<Device>): (r: set<string>)
    ensures forall node :: node in r <==> exists d :: d in devices && d.node == node
  {
    set d | d in devices :: d.node
  }

  /** `dict(zip(request names, selected devices))`. */
  function Zip(requests: seq<Request>, free: seq<Device>, sel: seq<nat>): map<string, Device>
    requires |sel| == |requests| && forall p | p in sel :: p < |free|
  {
    if sel == [] then map[]
    else
      var n := |sel| - 1;
      assert sel[n] in sel && forall p | p in sel[..n] :: p in sel;
      Zip(requests[..n], free, sel[..n])[requests[n].name := free[sel[n]]]
  }

  /** None when no node is feasible; otherwise the least feasible node with its lexicographically first choice. */
  ghost predicate IsAnswer(devices: seq<Device>, requests: seq<Request>, reserved: set<string>, r: Option<Answer>) {
    match r
    case None => forall node | node in Nodes(devices) :: !Feasible(devices, requests, reserved, node)
    case Some(answer) =>
      var free := Available(devices, answer.node, reserved);
      && answer.node in Nodes(devices)
      && (forall node | node in Nodes(devices) && StringLess(node, answer.node) :: !Feasible(devices, requests, reserved, node))
      && exists sel :: IsFirst(devices, requests, reserved, answer.node, sel) && answer.assignment == Zip(requests, free, sel)
  }

  ghost predicate IsFirst(devices: seq<Device>, requests: seq<Request>, reserved: set<string>, node: string, sel: seq<nat>)
    ensures IsFirst(devices, requests, reserved, node, sel) ==>
      |sel| == |requests| && forall p | p in sel :: p < |Available(devices, node, reserved)|
  {
    && Fits(devices, requests, reserved, node, sel)
    && forall other :: Fits(devices, requests, reserved, node, other) ==> other == sel || TupleLess(sel, other)
  }

  lemma LeastString(s: set<string>) returns (least: string)
    requires s != {}
    ensures least in s && forall x | x in s :: !StringLess(x, least)
    decreases |s|
  {
    hide StringLess;
    least :| least in s;
    StringLessIrreflexive(least);
    if s - {least} != {} {
      var other := LeastString(s - {least});
      if StringLess(other, least) {
        StringLessAsymmetric(other, least);
        least := other;
      } else {
        forall x | x in s - {least} ensures !StringLess(x, least) {
          StringNotLessTransitive(least, other, x);
        }
      }
    }
  }

  /** `sorted` of a set of strings. */
  method Sorted(s: set<string>) returns (order: seq<string>)
    ensures forall x :: x in order <==> x in s
    ensures forall i, j | 0 <= i < j < |order| :: StringLess(order[i], order[j])
  {
    order := [];
    var todo := s;
    while todo != {}
      invariant forall x :: x in s <==> x in todo || x in order
      invariant forall x, y | x in order && y in todo :: StringLess(x, y)
      invariant forall i, j | 0 <= i < j < |order| :: StringLess(order[i], order[j])
    {
      ghost var smallest := LeastString(todo);
      var least :| least in todo && forall x | x in todo :: !StringLess(x, least);
      forall y | y in todo && y != least ensures StringLess(least, y) {
        StringLessTotal(least, y);
      }
      order := order + [least];
      todo := todo - {least};
    }
  }

  lemma PermutationsAre(n: nat, r: nat, t: seq<nat>)
    ensures t in Permutations(n, r) <==> |t| == r && Injective(t) && forall p | p in t :: p < n
  {
    ExtensionsAre([], n, r, 0, t);
    if |t| == r && Injective(t) && forall p | p in t :: p < n {
      forall k | 0 <= k < |t| ensures t[k] < n && t[k] !in t[..k] {
        assert t[k] in t;
      }
    }
    if Extends(t, [], n, r, 0) {
      forall i, j | 0 <= i < j < |t| ensures t[i] != t[j] {
        assert t[i] in t[..j];
      }
    }
  }

  lemma PermutationsOrdered(n: nat, r: nat)
    ensures Increasing(Permutations(n, r))
  {
    ExtensionsOrdered([], n, r, 0);
  }

  /** The test in the inner loop. */
  predicate AllServed(requests: seq<Request>, free: seq<Device>, sel: seq<nat>) {
    |sel| == |requests| && forall i | 0 <= i < |sel| :: sel[i] < |free| && free[sel[i]].memory >= requests[i].minMemory
  }

  lemma {:induction false} TestIsFits(devices: seq<Device>, requests: seq<Request>, reserved: set<string>,
                                      node: string, sel: seq<nat>)
    requires sel in Permutations(|Available(devices, node, reserved)|, |requests|)
    ensures AllServed(requests, Available(devices, node, reserved), sel) <==> Fits(devices, requests, reserved, node, sel)
  {
    hide Permutations;
    PermutationsAre(|Available(devices, node, reserved)|, |requests|, sel);
  }

  /** The first permutation that passes the test is the lexicographically least that serves. */
  method FirstFit(devices: seq<Device>, requests: seq<Request>, reserved: set<string>, node: string)
    returns (r: Option<seq<nat>>)
    ensures r.None? ==> !Feasible(devices, requests, reserved, node)
    ensures r.Some? ==> IsFirst(devices, requests, reserved, node, r.value)
  {
    hide Permutations, Fits, AllServed, IsFirst, Feasible;
    var free := Available(devices, node, reserved);
    var all := Permutations(|free|, |requests|);
    for k := 0 to |all|
      invariant forall m | 0 <= m < k :: !Fits(devices, requests, reserved, node, all[m])
    {
      var selected := all[k];
      TestIsFits(devices, requests, reserved, node, selected);
      if AllServed(requests, free, selected) {
        FirstIsLeast(devices, requests, reserved, node, all, k);
        return Some(selected);
      }
    }
    NoneFits(devices, requests, reserved, node, all);
    r := None;
  }

  lemma {:induction false} FittingIsListed(devices: seq<Device>, requests: seq<Request>, reserved: set<string>,
                                           node: string, sel: seq<nat>)
    requires Fits(devices, requests, reserved, node, sel)
    ensures sel in Permutations(|Available(devices, node, reserved)|, |requests|)
  {
    hide Permutations;
    PermutationsAre(|Available(devices, node, reserved)|, |requests|, sel);
  }

  lemma {:induction false} NoneFits(devices: seq<Device>, requests: seq<Request>, reserved: set<string>, node: string,
                                    all: seq<seq<nat>>)
    requires all == Permutations(|Available(devices, node, reserved)|, |requests|)
    requires forall m | 0 <= m < |all| :: !Fits(devices, requests, reserved, node, all[m])
    ensures !Feasible(devices, requests, reserved, node)
  {
    hide Permutations;
    if Feasible(devices, requests, reserved, node) {
      var sel :| Serves(sel, Demands(requests), Memories(Available(devices, node, reserved)));
      assert Fits(devices, requests, reserved, node, sel);
      FittingIsListed(devices, requests, reserved, node, sel);
    }
  }

  lemma {:induction false} FirstIsLeast(devices: seq<Device>, requests: seq<Request>, reserved: set<string>,
                                        node: string,
                     all: seq<seq<nat>>, k: nat)
    requires all == Permutations(|Available(devices, node, reserved)|, |requests|)
    requires k < |all| && Fits(devices, requests, reserved, node, all[k])
    requires forall m | 0 <= m < k :: !Fits(devices, requests, reserved, node, all[m])
    ensures IsFirst(devices, requests, reserved, node, all[k])
  {
    hide Permutations, Fits, TupleLess, Available;
    PermutationsOrdered(|Available(devices, node, reserved)|, |requests|);
    forall other | Fits(devices, requests, reserved, node, other) ensures other == all[k] || TupleLess(all[k], other) {
      FittingIsListed(devices, requests, reserved, node, other);
      var m :| 0 <= m < |all| && all[m] == other;
    }
  }

  /** All nodes, in increasing order. */
  ghost predicate SortedNodes(devices: seq<Device>, nodes: seq<string>) {
    && (forall node :: node in nodes <==> node in Nodes(devices))
    && forall i, j | 0 <= i < j < |nodes| :: StringLess(nodes[i], nodes[j])
  }

  lemma NodesSorted(devices: seq<Device>, nodes: seq<string>)
    requires forall node :: node in nodes <==> node in Nodes(devices)
    requires forall i, j | 0 <= i < j < |nodes| :: StringLess(nodes[i], nodes[j])
    ensures SortedNodes(devices, nodes)
  {
    hide StringLess, Nodes;
  }

  method Allocate(devices: seq<Device>, requests: seq<Request>, reserved: set<string>) returns (r: Option<Answer>)
    ensures IsAnswer(devices, requests, reserved, r)
  {
    hide *;
    var nodes := Sorted(Nodes(devices));
    NodesSorted(devices, nodes);
    for k := 0 to |nodes|
      invariant forall m | 0 <= m < k :: !Feasible(devices, requests, reserved, nodes[m])
    {
      var first := FirstFit(devices, requests, reserved, nodes[k]);
      if first.Some? {
        var free := Available(devices, nodes[k], reserved);
        FirstNode(devices, requests, reserved, nodes, k, first.value);
        return Some(Answer(nodes[k], Zip(requests, free, first.value)));
      }
    }
    NoNode(devices, requests, reserved, nodes);
    r := None;
  }

  /** The first node of the sorted list that is feasible is the least feasible one. */
  lemma {:induction false} FirstNode(devices: seq<Device>, requests: seq<Request>, reserved: set<string>,
                                     nodes: seq<string>, k: nat,
                  sel: seq<nat>)
    requires SortedNodes(devices, nodes) && k < |nodes| && IsFirst(devices, requests, reserved, nodes[k], sel)
    requires forall m | 0 <= m < k :: !Feasible(devices, requests, reserved, nodes[m])
    ensures IsAnswer(devices, requests, reserved,
                     Some(Answer(nodes[k], Zip(requests, Available(devices, nodes[k], reserved), sel))))
  {
    hide Feasible, StringLess, Zip, Available, Nodes;
    forall node | node in Nodes(devices) && StringLess(node, nodes[k])
      ensures !Feasible(devices, requests, reserved, node)
    {
      var m :| 0 <= m < |nodes| && nodes[m] == node;
      if m >= k {
        StringLessIrreflexive(node);
        if m > k {
          StringLessAsymmetric(nodes[k], node);
        }
      }
    }
  }

  lemma NoNode(devices: seq<Device>, requests: seq<Request>, reserved: set<string>, nodes: seq<string>)
    requires SortedNodes(devices, nodes)
    requires forall m | 0 <= m < |nodes| :: !Feasible(devices, requests, reserved, nodes[m])
    ensures IsAnswer(devices, requests, reserved, None)
  {
    hide Feasible, StringLess, Nodes;
    forall node | node in Nodes(devices) ensures !Feasible(devices, requests, reserved, node) {
      var m :| 0 <= m < |nodes| && nodes[m] == node;
    }
  }

  // --- What an answer means ---

  /** The assignment gives each request the device at its own chosen position. */
  ghost predicate Assigns(assignment: map<string, Device>, requests: seq<Request>, free: seq<Device>, sel: seq<nat>) {
    && |sel| == |requests| && Injective(sel)
    && (forall name | name in assignment :: exists i | 0 <= i < |requests| :: requests[i].name == name)
    && forall i | 0 <= i < |requests| ::
         sel[i] < |free| && requests[i].name in assignment && assignment[requests[i].name] == free[sel[i]]
  }

  ghost predicate Usable(devices: seq<Device>, reserved: set<string>, node: string, request: Request, d: Device) {
    d in devices && d.node == node && d.name !in reserved && d.memory >= request.minMemory
  }

  /** Each request gets its own unreserved device of the node, with enough memory, and nobody else gets any. */
  lemma {:induction false} AnswerIsSound(devices: seq<Device>, requests: seq<Request>, reserved: set<string>,
                                         answer: Answer)
    requires NamesDistinct(requests) && IsAnswer(devices, requests, reserved, Some(answer))
    ensures exists sel :: Assigns(answer.assignment, requests, Available(devices, answer.node, reserved), sel)
    ensures forall i | 0 <= i < |requests| ::
      requests[i].name in answer.assignment &&
      Usable(devices, reserved, answer.node, requests[i], answer.assignment[requests[i].name])
    ensures forall name | name in answer.assignment :: exists i | 0 <= i < |requests| :: requests[i].name == name
  {
    var free := Available(devices, answer.node, reserved);
    var sel :| IsFirst(devices, requests, reserved, answer.node, sel) && answer.assignment == Zip(requests, free, sel);
    ZipAssigns(requests, free, sel);
    hide Zip, Available, IsAnswer, IsFirst;
    assert Assigns(answer.assignment, requests, free, sel);
    forall i | 0 <= i < |requests| ensures free[sel[i]] in free && free[sel[i]].memory >= requests[i].minMemory {}
  }

  lemma {:induction false} ZipAssigns(requests: seq<Request>, free: seq<Device>, sel: seq<nat>)
    requires NamesDistinct(requests) && Serves(sel, Demands(requests), Memories(free))
    requires |sel| == |requests| && forall p | p in sel :: p < |free|
    ensures Assigns(Zip(requests, free, sel), requests, free, sel)
  {
    hide Zip;
    forall i: nat | i < |requests|
      ensures requests[i].name in Zip(requests, free, sel) && Zip(requests, free, sel)[requests[i].name] == free[sel[i]]
    {
      ZipAt(requests, free, sel, i);
    }
    forall name | name in Zip(requests, free, sel) ensures exists i | 0 <= i < |requests| :: requests[i].name == name {
      var i := ZipFrom(requests, free, sel, name);
    }
  }

  /** Of several requests with one name the last one's device stays. */
  lemma {:induction false} ZipAt(requests: seq<Request>, free: seq<Device>, sel: seq<nat>, i: nat)
    requires |sel| == |requests| && i < |sel| && forall p | p in sel :: p < |free|
    requires forall k | i < k < |requests| :: requests[k].name != requests[i].name
    ensures sel[i] < |free| && requests[i].name in Zip(requests, free, sel)
    ensures Zip(requests, free, sel)[requests[i].name] == free[sel[i]]
  {
    var n := |sel| - 1;
    assert sel[i] in sel;
    if i < n {
      assert forall p | p in sel[..n] :: p in sel;
      ZipAt(requests[..n], free, sel[..n], i);
    }
  }

  lemma {:induction false} ZipFrom(requests: seq<Request>, free: seq<Device>, sel: seq<nat>,
                                   name: string) returns (i: nat)
    requires |sel| == |requests| && (forall p | p in sel :: p < |free|) && name in Zip(requests, free, sel)
    ensures i < |requests| && requests[i].name == name
  {
    var n := |sel| - 1;
    if requests[n].name == name {
      i := n;
    } else {
      assert forall p | p in sel[..n] :: p in sel;
      i := ZipFrom(requests[..n], free, sel[..n], name);
    }
  }

  /** A node is feasible exactly when its free memories, sorted, dominate the sorted requests. */
  lemma {:induction false} FeasibleExactly(devices: seq<Device>, requests: seq<Request>, reserved: set<string>,
                                           node: string,
                        wanted: seq<int>, offered: seq<int>)
    requires multiset(wanted) == multiset(Demands(requests)) && Descending(wanted)
    requires multiset(offered) == multiset(Memories(Available(devices, node, reserved))) && Descending(offered)
    ensures Feasible(devices, requests, reserved, node) <==> Dominates(offered, wanted)
  {
    ServableSorted(Demands(requests), Memories(Available(devices, node, reserved)), wanted, offered);
  }

  lemma TupleLessAsymmetric(a: seq<nat>, b: seq<nat>)
    requires TupleLess(a, b)
    ensures !TupleLess(b, a)
  {}

  lemma AnswerFeasible(devices: seq<Device>, requests: seq<Request>, reserved: set<string>, answer: Answer)
    requires IsAnswer(devices, requests, reserved, Some(answer))
    ensures Feasible(devices, requests, reserved, answer.node)
  {
    var sel :| IsFirst(devices, requests, reserved, answer.node, sel)
      && answer.assignment == Zip(requests, Available(devices, answer.node, reserved), sel);
  }

  /** There is exactly one answer. */
  lemma AnswerUnique(devices: seq<Device>, requests: seq<Request>, reserved: set<string>, r: Option<Answer>,
                     s: Option<Answer>)
    requires IsAnswer(devices, requests, reserved, r) && IsAnswer(devices, requests, reserved, s)
    ensures r == s
  {
    hide Feasible, Zip, Available, StringLess;
    if r.Some? {
      AnswerFeasible(devices, requests, reserved, r.value);
    }
    if s.Some? {
      AnswerFeasible(devices, requests, reserved, s.value);
    }
    if r.Some? && s.Some? {
      StringLessTotal(r.value.node, s.value.node);
      var free := Available(devices, r.value.node, reserved);
      var a :| IsFirst(devices, requests, reserved, r.value.node, a) && r.value.assignment == Zip(requests, free, a);
      var b :| IsFirst(devices, requests, reserved, r.value.node, b) && s.value.assignment == Zip(requests, free, b);
      SameFirst(devices, requests, reserved, r.value.node, a, b);
    }
  }

  lemma SameFirst(devices: seq<Device>, requests: seq<Request>, reserved: set<string>, node: string, a: seq<nat>,
                  b: seq<nat>)
    requires IsFirst(devices, requests, reserved, node, a) && IsFirst(devices, requests, reserved, node, b)
    ensures a == b
  {
    hide Fits, TupleLess;
    if TupleLess(a, b) {
      TupleLessAsymmetric(a, b);
    }
  }

  // --- Reserving and releasing ---

  class Reservations {
    var reserved: set<string>

    constructor ()
      ensures reserved == {}
    {
      reserved := {};
    }

    method Update(names: set<string>)
      modifies this
      ensures reserved == old(reserved) + names
    {
      reserved := reserved + names;
    }

    method DifferenceUpdate(names: set<string>)
      modifies this
      ensures reserved == old(reserved) - names
    {
      reserved := reserved - names;
    }
  }

  /** The protocol of `main`, from any reservations: what an allocation takes is unavailable while reserved,
      and releasing it restores the same reservations and the same answer. */
  method ReserveAndRelease(devices: seq<Device>, requests: seq<Request>, book: Reservations)
    returns (first: Option<Answer>, during: Option<Answer>, again: Option<Answer>)
    requires NamesDistinct(requests)
    modifies book
    ensures book.reserved == old(book.reserved)
    ensures IsAnswer(devices, requests, book.reserved, first) && again == first
    ensures first.Some? && during.Some? ==>
      forall name, taken | name in during.value.assignment && taken in first.value.assignment ::
        during.value.assignment[name].name != first.value.assignment[taken].name
  {
    hide IsAnswer;
    first := Allocate(devices, requests, book.reserved);
    var names := {};
    if first.Some? {
      names := set taken | taken in first.value.assignment :: first.value.assignment[taken].name;
      TakenAreFree(devices, requests, book.reserved, first.value);
    }
    book.Update(names);
    during := Allocate(devices, requests, book.reserved);
    if during.Some? {
      TakenAreFree(devices, requests, book.reserved, during.value);
    }
    book.DifferenceUpdate(names);
    assert book.reserved == old(book.reserved);
    again := Allocate(devices, requests, book.reserved);
    AnswerUnique(devices, requests, book.reserved, first, again);
  }

  lemma TakenAreFree(devices: seq<Device>, requests: seq<Request>, reserved: set<string>, answer: Answer)
    requires NamesDistinct(requests) && IsAnswer(devices, requests, reserved, Some(answer))
    ensures forall taken | taken in answer.assignment :: answer.assignment[taken].name !in reserved
  {
    hide IsAnswer;
    AnswerIsSound(devices, requests, reserved, answer);
  }
}
