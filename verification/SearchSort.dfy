/** learning/algorithms/examples/search_sort_lab.py: binary search with its trace, and stable merge sort. */
module SearchSort {
  import opened Arithmetic
  import opened Options

  // --- Binary search ---

  datatype Probe = Probe(lo: int, mid: int, hi: int)

  ghost predicate Ascending(keys: seq<int>) {
    forall i, j | 0 <= i < j < |keys| :: keys[i] <= keys[j]
  }

  ghost function Pow2(n: nat): (r: nat)
    ensures r >= 1
  {
    if n == 0 then 1 else 2 * Pow2(n - 1)
  }

  /** A probe looks at the middle of its bounds. */
  ghost predicate IsProbe(keys: seq<int>, p: Probe) {
    0 <= p.lo <= p.mid <= p.hi < |keys| && p.mid == (p.lo + p.hi) / 2
  }

  /** The bounds are the half the comparison at p leaves. */
  ghost predicate Leaves(keys: seq<int>, target: int, p: Probe, lo: int, hi: int) {
    0 <= p.mid < |keys| &&
    if keys[p.mid] < target then lo == p.mid + 1 && hi == p.hi
    else keys[p.mid] != target && lo == p.lo && hi == p.mid - 1
  }

  /** Each probe looks at the middle of its bounds, and the next bounds are the half the comparison leaves. */
  ghost predicate Halves(keys: seq<int>, target: int, trace: seq<Probe>) {
    && (forall i | 0 <= i < |trace| :: IsProbe(keys, trace[i]))
    && (trace != [] ==> trace[0].lo == 0 && trace[0].hi == |keys| - 1)
    && forall i | 0 <= i < |trace| - 1 :: Leaves(keys, target, trace[i], trace[i + 1].lo, trace[i + 1].hi)
  }

  method BinarySearch(keys: seq<int>, target: int) returns (r: Option<nat>, trace: seq<Probe>)
    ensures r.Some? ==> r.value < |keys| && keys[r.value] == target
    ensures Ascending(keys) ==> (r.Some? <==> target in keys)
    ensures Halves(keys, target, trace)
    // The trace is complete: it ends at the target, or with nothing left to look at.
    ensures r.Some? ==> trace != [] && trace[|trace| - 1].mid == r.value
    ensures r.None? ==> Exhausted(keys, target, trace)
    // The probes double: n keys take at most floor(log2(n)) + 1 of them.
    ensures trace != [] ==> Pow2(|trace| - 1) <= |keys|
  {
    hide Halves, Continues, Pow2;
    var lo, hi := 0, |keys| - 1;
    trace := [];
    NoProbes(keys, target);
    while lo <= hi
      invariant 0 <= lo <= hi + 1 <= |keys|
      invariant Ascending(keys) ==> forall i | 0 <= i < |keys| && keys[i] == target :: lo <= i <= hi
      invariant Halves(keys, target, trace) && Continues(keys, target, trace, lo, hi)
      invariant Narrowed(|trace|, hi - lo + 1, |keys|)
    {
      var mid := (lo + hi) / 2;
      NextProbe(keys, target, trace, lo, hi);
      NarrowedNext(|trace|, hi - lo + 1, mid - lo, |keys|);
      NarrowedNext(|trace|, hi - lo + 1, hi - mid, |keys|);
      trace := trace + [Probe(lo, mid, hi)];
      if keys[mid] == target {
        return Some(mid), trace;
      }
      if keys[mid] < target {
        lo := mid + 1;
      } else {
        hi := mid - 1;
      }
    }
    r := None;
  }

  lemma NoProbes(keys: seq<int>, target: int)
    ensures Halves(keys, target, []) && Continues(keys, target, [], 0, |keys| - 1) && Narrowed(0, |keys|, |keys|)
  {}

  lemma NextProbe(keys: seq<int>, target: int, trace: seq<Probe>, lo: int, hi: int)
    requires 0 <= lo <= hi < |keys| && Halves(keys, target, trace) && Continues(keys, target, trace, lo, hi)
    ensures var mid := (lo + hi) / 2;
      var longer := trace + [Probe(lo, mid, hi)];
      && Halves(keys, target, longer)
      && (keys[mid] < target ==> Continues(keys, target, longer, mid + 1, hi))
      && (keys[mid] > target ==> Continues(keys, target, longer, lo, mid - 1))
  {
    hide Halves;
    var mid := (lo + hi) / 2;
    assert lo <= mid <= hi;
    ProbeAdded(keys, target, trace, Probe(lo, mid, hi));
  }

  lemma ProbeAdded(keys: seq<int>, target: int, trace: seq<Probe>, probe: Probe)
    requires Halves(keys, target, trace) && Continues(keys, target, trace, probe.lo, probe.hi)
    requires IsProbe(keys, probe)
    ensures Halves(keys, target, trace + [probe])
  {
    hide IsProbe, Leaves;
    var longer := trace + [probe];
    forall i | 0 <= i < |longer| - 1 ensures Leaves(keys, target, longer[i], longer[i + 1].lo, longer[i + 1].hi) {
      assert longer[i] == trace[i];
      assert i + 1 < |trace| ==> longer[i + 1] == trace[i + 1];
    }
  }

  /** After k probes the remaining width times 2^k is at most n, and the probes made so far are few. */
  ghost predicate Narrowed(k: nat, width: int, n: nat) {
    Pow2(k) * width <= n && (k > 0 ==> Pow2(k - 1) <= n)
  }

  lemma NarrowedNext(k: nat, width: int, half: int, n: nat)
    requires Narrowed(k, width, n) && width >= 1 && 2 * half <= width
    ensures Narrowed(k + 1, half, n)
  {
    var p := Pow2(k);
    MulMonotone(p, 2 * half, width);
    MulMonotone(p, 1, width);
    assert Pow2(k + 1) * half == p * (2 * half);
  }

  /** The bounds after the trace are the half its last comparison leaves. */
  ghost predicate Continues(keys: seq<int>, target: int, trace: seq<Probe>, lo: int, hi: int) {
    if trace == [] then lo == 0 && hi == |keys| - 1 else Leaves(keys, target, trace[|trace| - 1], lo, hi)
  }

  /** The last comparison leaves no bounds to look between. */
  ghost predicate Exhausted(keys: seq<int>, target: int, trace: seq<Probe>) {
    exists lo, hi | lo > hi :: Continues(keys, target, trace, lo, hi)
  }

  // --- Stable merge sort ---

  datatype Record = Record(key: int, name: string)

  ghost predicate Sorted(rs: seq<Record>) {
    forall i, j | 0 <= i < j < |rs| :: rs[i].key <= rs[j].key
  }

  /** The records with one key, in order. */
  ghost function WithKey(rs: seq<Record>, key: int): seq<Record> {
    if rs == [] then []
    else WithKey(rs[..|rs| - 1], key) + if rs[|rs| - 1].key == key then [rs[|rs| - 1]] else []
  }

  /** The second list holds the records of the first in key order, equal keys in their original order. */
  ghost predicate IsStableSort(rs: seq<Record>, sorted: seq<Record>) {
    Sorted(sorted) && forall key :: WithKey(sorted, key) == WithKey(rs, key)
  }

  lemma {:induction false} WithKeyJoins(a: seq<Record>, b: seq<Record>, key: int)
    ensures WithKey(a + b, key) == WithKey(a, key) + WithKey(b, key)
  {
    if b == [] {
      assert a + b == a;
    } else {
      var n := |b| - 1;
      assert (a + b)[..|a| + n] == a + b[..n];
      WithKeyJoins(a, b[..n], key);
    }
  }

  lemma {:induction false} NoneWithKey(rs: seq<Record>, key: int)
    requires forall r | r in rs :: r.key != key
    ensures WithKey(rs, key) == []
  {
    if rs != [] {
      NoneWithKey(rs[..|rs| - 1], key);
    }
  }

  ghost predicate Below(a: seq<Record>, rs: seq<Record>, from: nat) {
    forall r, k | r in a && from <= k < |rs| :: r.key <= rs[k].key
  }

  ghost predicate KeysMerged(left: seq<Record>, right: seq<Record>, i: nat, j: nat, merged: seq<Record>)
    requires i <= |left| && j <= |right|
  {
    forall key :: WithKey(merged, key) == WithKey(left[..i], key) + WithKey(right[..j], key)
  }

  /** The first j right records went ahead of the left ones from i on, being smaller. */
  ghost predicate WentAhead(left: seq<Record>, right: seq<Record>, i: nat, j: nat)
    requires j <= |right|
  {
    forall m, k | 0 <= m < j && i <= k < |left| :: right[m].key < left[k].key
  }

  /** `merged` holds the first i and j records of both lists, the left ones first among equals,
      and nothing in it comes after what is still to be merged. */
  ghost predicate Merged(left: seq<Record>, right: seq<Record>, i: nat, j: nat, merged: seq<Record>)
    requires i <= |left| && j <= |right|
  {
    && Sorted(merged) && KeysMerged(left, right, i, j, merged)
    && Below(merged, left, i) && Below(merged, right, j) && WentAhead(left, right, i, j)
  }

  /** `merged` holds what was taken from both lists. */
  ghost predicate Taken(left: seq<Record>, right: seq<Record>, i: nat, j: nat, merged: seq<Record>)
    requires i <= |left| && j <= |right|
  {
    multiset(merged) == multiset(left[..i]) + multiset(right[..j])
  }

  lemma TakenNext(left: seq<Record>, right: seq<Record>, i: nat, j: nat, merged: seq<Record>)
    requires i <= |left| && j <= |right| && Taken(left, right, i, j, merged)
    ensures i < |left| ==> Taken(left, right, i + 1, j, merged + [left[i]])
    ensures j < |right| ==> Taken(left, right, i, j + 1, merged + [right[j]])
  {
    if i < |left| {
      assert left[..i + 1] == left[..i] + [left[i]];
    }
    if j < |right| {
      assert right[..j + 1] == right[..j] + [right[j]];
    }
  }

  lemma TakenAll(left: seq<Record>, right: seq<Record>, i: nat, j: nat, merged: seq<Record>)
    requires i <= |left| && j <= |right| && Taken(left, right, i, j, merged)
    ensures multiset(merged + left[i..] + right[j..]) == multiset(left + right)
  {
    assert left == left[..i] + left[i..] && right == right[..j] + right[j..];
  }

  /** Whatever the order of the two lists, nothing is lost or added; sorted lists merge stably. */
  method StableMerge(left: seq<Record>, right: seq<Record>) returns (merged: seq<Record>)
    ensures multiset(merged) == multiset(left + right)
    ensures Sorted(left) && Sorted(right) ==> IsStableSort(left + right, merged)
  {
    hide Merged, Taken, Sorted, IsStableSort;
    ghost var ordered := Sorted(left) && Sorted(right);
    merged := [];
    var i, j := 0, 0;
    MergeStarts(left, right);
    while i < |left| && j < |right|
      invariant i <= |left| && j <= |right| && Taken(left, right, i, j, merged)
      invariant ordered ==> Merged(left, right, i, j, merged)
      decreases |left| + |right| - i - j
    {
      TakenNext(left, right, i, j, merged);
      if left[i].key <= right[j].key {
        if ordered {
          TakeLeft(left, right, i, j, merged);
        }
        merged := merged + [left[i]];
        i := i + 1;
      } else {
        if ordered {
          TakeRight(left, right, i, j, merged);
        }
        merged := merged + [right[j]];
        j := j + 1;
      }
    }
    TakenAll(left, right, i, j, merged);
    if ordered {
      MergeEnds(left, right, i, j, merged);
    }
    merged := merged + left[i..];
    merged := merged + right[j..];
  }

  lemma MergeStarts(left: seq<Record>, right: seq<Record>)
    ensures Merged(left, right, 0, 0, []) && Taken(left, right, 0, 0, [])
  {}

  lemma {:induction false} WithKeyNext(rs: seq<Record>, i: nat, key: int)
    requires i < |rs|
    ensures WithKey(rs[..i + 1], key) == WithKey(rs[..i], key) + if rs[i].key == key then [rs[i]] else []
  {
    assert rs[..i + 1][..i] == rs[..i];
  }

  lemma {:induction false} WithKeyAppend(rs: seq<Record>, r: Record, key: int)
    ensures WithKey(rs + [r], key) == WithKey(rs, key) + if r.key == key then [r] else []
  {
    assert (rs + [r])[..|rs|] == rs;
  }

  lemma SortedAppend(a: seq<Record>, r: Record)
    requires Sorted(a) && forall q | q in a :: q.key <= r.key
    ensures Sorted(a + [r])
  {}

  lemma BelowAppend(a: seq<Record>, r: Record, rs: seq<Record>, from: nat, to: nat)
    requires Below(a, rs, from) && from <= to && forall k | to <= k < |rs| :: r.key <= rs[k].key
    ensures Below(a + [r], rs, to)
  {}

  lemma TakeLeft(left: seq<Record>, right: seq<Record>, i: nat, j: nat, merged: seq<Record>)
    requires Sorted(left) && Sorted(right) && i < |left| && j < |right| && left[i].key <= right[j].key
    requires Merged(left, right, i, j, merged)
    ensures Merged(left, right, i + 1, j, merged + [left[i]])
  {
    hide WithKey;
    SortedAppend(merged, left[i]);
    BelowAppend(merged, left[i], left, i, i + 1);
    BelowAppend(merged, left[i], right, j, j);
    forall key
      ensures WithKey(merged + [left[i]], key) == WithKey(left[..i + 1], key) + WithKey(right[..j], key)
    {
      hide Sorted, Below, WentAhead;
      WithKeyAppend(merged, left[i], key);
      WithKeyNext(left, i, key);
      LeftFirst(left, right, i, j, key);
    }
  }

  /** Nothing from the right that was merged shares the key of the next left record. */
  lemma {:induction false} LeftFirst(left: seq<Record>, right: seq<Record>, i: nat, j: nat, key: int)
    requires i < |left| && j <= |right| && WentAhead(left, right, i, j)
    ensures key == left[i].key ==> WithKey(right[..j], key) == []
  {
    if key == left[i].key {
      forall r | r in right[..j] ensures r.key != key {
        var m :| 0 <= m < j && right[m] == r;
      }
      NoneWithKey(right[..j], key);
    }
  }

  lemma TakeRight(left: seq<Record>, right: seq<Record>, i: nat, j: nat, merged: seq<Record>)
    requires Sorted(left) && Sorted(right) && i < |left| && j < |right| && left[i].key > right[j].key
    requires Merged(left, right, i, j, merged)
    ensures Merged(left, right, i, j + 1, merged + [right[j]])
  {
    hide WithKey;
    SortedAppend(merged, right[j]);
    BelowAppend(merged, right[j], left, i, i);
    BelowAppend(merged, right[j], right, j, j + 1);
    forall key
      ensures WithKey(merged + [right[j]], key) == WithKey(left[..i], key) + WithKey(right[..j + 1], key)
    {
      hide Sorted, Below, WentAhead;
      WithKeyAppend(merged, right[j], key);
      WithKeyNext(right, j, key);
    }
  }

  lemma MergeEnds(left: seq<Record>, right: seq<Record>, i: nat, j: nat, merged: seq<Record>)
    requires Sorted(left) && Sorted(right) && i <= |left| && j <= |right| && (i == |left| || j == |right|)
    requires Merged(left, right, i, j, merged)
    ensures IsStableSort(left + right, merged + left[i..] + right[j..])
  {
    hide WithKey, Sorted, Below, WentAhead;
    var all := merged + left[i..] + right[j..];
    RestSorted(left, right, i, j, merged);
    forall key ensures WithKey(all, key) == WithKey(left + right, key) {
      RestKeys(left, right, i, j, merged, key);
    }
  }

  lemma {:induction false} RestKeys(left: seq<Record>, right: seq<Record>, i: nat, j: nat, merged: seq<Record>,
                                    key: int)
    requires i <= |left| && j <= |right| && KeysMerged(left, right, i, j, merged) && WentAhead(left, right, i, j)
    ensures WithKey(merged + left[i..] + right[j..], key) == WithKey(left + right, key)
  {
    hide WithKey;
    WithKeyJoins(merged + left[i..], right[j..], key);
    WithKeyJoins(merged, left[i..], key);
    WithKeyJoins(left, right, key);
    WithKeySplits(left, i, key);
    WithKeySplits(right, j, key);
    MiddleSwap(left, right, i, j, key);
    Regroup(WithKey(left[..i], key), WithKey(right[..j], key), WithKey(left[i..], key), WithKey(right[j..], key));
  }

  lemma Regroup(a: seq<Record>, b: seq<Record>, c: seq<Record>, d: seq<Record>)
    requires b + c == c + b
    ensures ((a + b) + c) + d == (a + c) + (b + d)
  {
    assert ((a + b) + c) + d == a + (b + c) + d;
    assert (a + c) + (b + d) == a + (c + b) + d;
  }

  lemma {:induction false} WithKeySplits(rs: seq<Record>, i: nat, key: int)
    requires i <= |rs|
    ensures WithKey(rs, key) == WithKey(rs[..i], key) + WithKey(rs[i..], key)
  {
    WithKeyJoins(rs[..i], rs[i..], key);
    assert rs == rs[..i] + rs[i..];
  }

  lemma RestSorted(left: seq<Record>, right: seq<Record>, i: nat, j: nat, merged: seq<Record>)
    requires Sorted(left) && Sorted(right) && i <= |left| && j <= |right| && (i == |left| || j == |right|)
    requires Merged(left, right, i, j, merged)
    ensures Sorted(merged + left[i..] + right[j..])
  {
    if i == |left| {
      assert merged + left[i..] + right[j..] == merged + right[j..];
      AppendSorted(merged, right[j..]);
    } else {
      assert merged + left[i..] + right[j..] == merged + left[i..];
      AppendSorted(merged, left[i..]);
    }
  }

  lemma AppendSorted(a: seq<Record>, b: seq<Record>)
    requires Sorted(a) && Sorted(b) && forall r, k | r in a && 0 <= k < |b| :: r.key <= b[k].key
    ensures Sorted(a + b)
  {}

  /** Of the merged right records and the left ones still to come, only one side can have a given key. */
  lemma {:induction false} MiddleSwap(left: seq<Record>, right: seq<Record>, i: nat, j: nat, key: int)
    requires i <= |left| && j <= |right| && WentAhead(left, right, i, j)
    ensures WithKey(right[..j], key) + WithKey(left[i..], key) == WithKey(left[i..], key) + WithKey(right[..j], key)
  {
    if exists k | i <= k < |left| :: left[k].key == key {
      forall r | r in right[..j] ensures r.key != key {
        var m :| 0 <= m < j && right[m] == r;
      }
      NoneWithKey(right[..j], key);
    } else {
      forall r | r in left[i..] ensures r.key != key {
        var k :| 0 <= k < |left| - i && left[i..][k] == r;
        assert left[i + k] == r;
      }
      NoneWithKey(left[i..], key);
    }
  }

  method MergeSort(records: seq<Record>) returns (sorted: seq<Record>)
    ensures IsStableSort(records, sorted)
    decreases |records|
  {
    hide IsStableSort;
    if |records| <= 1 {
      ShortIsSorted(records);
      return records;
    }
    var mid := |records| / 2;
    var left := MergeSort(records[..mid]);
    var right := MergeSort(records[mid..]);
    SortedHalves(records, mid, left, right);
    sorted := StableMerge(left, right);
    HalvesMerge(records, mid, left, right, sorted);
  }

  lemma ShortIsSorted(records: seq<Record>)
    requires |records| <= 1
    ensures IsStableSort(records, records)
  {}

  lemma SortedHalves(records: seq<Record>, mid: nat, left: seq<Record>, right: seq<Record>)
    requires mid <= |records| && IsStableSort(records[..mid], left) && IsStableSort(records[mid..], right)
    ensures Sorted(left) && Sorted(right)
  {}

  /** Sorting the halves stably and merging them stably sorts the whole stably. */
  lemma HalvesMerge(records: seq<Record>, mid: nat, left: seq<Record>, right: seq<Record>, sorted: seq<Record>)
    requires mid <= |records| && IsStableSort(records[..mid], left) && IsStableSort(records[mid..], right)
    requires IsStableSort(left + right, sorted)
    ensures IsStableSort(records, sorted)
  {
    hide WithKey, Sorted;
    assert records == records[..mid] + records[mid..];
    forall key ensures WithKey(sorted, key) == WithKey(records, key) {
      WithKeyJoins(left, right, key);
      WithKeyJoins(records[..mid], records[mid..], key);
    }
  }

  // --- What stability determines ---

  /** A stable sort is a permutation. */
  lemma {:induction false} StableIsPermutation(rs: seq<Record>, sorted: seq<Record>)
    requires forall key :: WithKey(sorted, key) == WithKey(rs, key)
    ensures multiset(sorted) == multiset(rs)
  {
    forall r ensures multiset(sorted)[r] == multiset(rs)[r] {
      KeyCounts(sorted, r);
      KeyCounts(rs, r);
    }
  }

  lemma {:induction false} KeyCounts(rs: seq<Record>, r: Record)
    ensures multiset(WithKey(rs, r.key))[r] == multiset(rs)[r]
  {
    if rs != [] {
      var n := |rs| - 1;
      assert rs == rs[..n] + [rs[n]];
      KeyCounts(rs[..n], r);
    }
  }

  /** There is only one stable sort. */
  lemma {:induction false} StableSortUnique(a: seq<Record>, b: seq<Record>)
    requires Sorted(a) && Sorted(b) && forall key :: WithKey(a, key) == WithKey(b, key)
    ensures a == b
    decreases |a|
  {
    hide WithKey, Sorted;
    StableIsPermutation(a, b);
    SameLastKey(a, b);
    if a != [] {
      var n := |a| - 1;
      LastWithKey(a, b, a[n].key);
      forall key ensures WithKey(a[..n], key) == WithKey(b[..n], key) {
        LastWithKey(a, b, key);
      }
      StableSortUnique(a[..n], b[..n]);
      assert a == a[..n] + [a[n]] && b == b[..n] + [b[n]];
    }
  }

  lemma SameLastKey(a: seq<Record>, b: seq<Record>)
    requires Sorted(a) && Sorted(b) && multiset(a) == multiset(b)
    ensures |a| == |b|
    ensures a != [] ==> a[|a| - 1].key == b[|b| - 1].key && Sorted(a[..|a| - 1]) && Sorted(b[..|b| - 1])
  {
    assert |multiset(a)| == |multiset(b)|;
    if a != [] {
      assert a[|a| - 1] in multiset(b) && b[|b| - 1] in multiset(a);
    }
  }

  lemma {:induction false} LastWithKey(a: seq<Record>, b: seq<Record>, key: int)
    requires |a| == |b| > 0 && a[|a| - 1].key == b[|b| - 1].key && WithKey(a, key) == WithKey(b, key)
    ensures key == a[|a| - 1].key ==> a[|a| - 1] == b[|b| - 1]
    ensures WithKey(a[..|a| - 1], key) == WithKey(b[..|b| - 1], key)
  {
    var n := |a| - 1;
    var x, y := WithKey(a[..n], key), WithKey(b[..n], key);
    if key == a[n].key {
      assert WithKey(a, key) == x + [a[n]] && WithKey(b, key) == y + [b[n]];
      assert |x| == |y| && (x + [a[n]])[|x|] == a[n] && (y + [b[n]])[|x|] == b[n];
      assert x == (x + [a[n]])[..|x|] && y == (y + [b[n]])[..|y|];
    } else {
      assert x + [] == x && y + [] == y;
    }
  }
}
