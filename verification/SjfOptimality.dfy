/** learning/operating-systems/examples/scheduler.py: the turnaround, waiting and response times of a timeline,
    and shortest-job-first against every other way to share the processor. */
module SjfOptimality {
  import opened Collections
  import opened Ordering
  import opened Scheduling
  import NonPreemptive

  // --- summarize ---

  ghost predicate FirstAt(tl: seq<Tick>, name: string, t: nat) {
    t < |tl| && tl[t] == Run(name) && forall u | 0 <= u < t :: tl[u] != Run(name)
  }

  datatype Report = Report(turnaround: int, waiting: int, response: int)

  ghost predicate IsReport(r: Report, tl: seq<Tick>, j: Job) {
    && r.turnaround == Finish(tl, j.name) - j.arrival
    && r.waiting == r.turnaround - j.burst
    && 0 <= r.response + j.arrival && FirstAt(tl, j.name, r.response + j.arrival)
  }

  /** `first` and `finish` hold the first tick and one more than the last tick of every name seen. */
  ghost predicate Scanned(tl: seq<Tick>, first: map<string, nat>, finish: map<string, nat>) {
    && first.Keys == finish.Keys
    && (forall name :: name in finish <==> Run(name) in tl)
    && (forall name | name in finish :: finish[name] == Finish(tl, name))
    && (forall name | name in first :: FirstAt(tl, name, first[name]))
  }

  lemma ScanIdle(tl: seq<Tick>, first: map<string, nat>, finish: map<string, nat>)
    requires Scanned(tl, first, finish)
    ensures Scanned(tl + [Idle], first, finish)
  {
    assert (tl + [Idle])[..|tl|] == tl;
  }

  lemma ScanRun(tl: seq<Tick>, name: string, first: map<string, nat>, finish: map<string, nat>)
    requires Scanned(tl, first, finish)
    ensures Scanned(tl + [Run(name)], if name in first then first else first[name := |tl|], finish[name := |tl| + 1])
  {
    var longer := tl + [Run(name)];
    var first' := if name in first then first else first[name := |tl|];
    assert longer[..|tl|] == tl;
    forall n | n in first' ensures FirstAt(longer, n, first'[n]) {
      if n in first {
        assert FirstAt(tl, n, first[n]);
      } else {
        assert Run(n) !in tl;
      }
    }
  }

  method Summarize(timeline: seq<Tick>, jobs: seq<Job>) returns (reports: seq<Report>)
    requires forall j | j in jobs :: Run(j.name) in timeline
    ensures |reports| == |jobs| && forall i | 0 <= i < |jobs| :: IsReport(reports[i], timeline, jobs[i])
  {
    var finish: map<string, nat> := map[];
    var first: map<string, nat> := map[];
    for tick := 0 to |timeline|
      invariant Scanned(timeline[..tick], first, finish)
    {
      hide Scanned;
      assert timeline[..tick + 1] == timeline[..tick] + [timeline[tick]];
      if timeline[tick].Idle? {
        ScanIdle(timeline[..tick], first, finish);
        continue;
      }
      var name := timeline[tick].name;
      ScanRun(timeline[..tick], name, first, finish);
      if name !in first {
        first := first[name := tick];
      }
      finish := finish[name := tick + 1];
    }
    assert timeline[..|timeline|] == timeline;
    reports := [];
    for i := 0 to |jobs|
      invariant |reports| == i && forall k | 0 <= k < i :: IsReport(reports[k], timeline, jobs[k])
    {
      var job := jobs[i];
      assert job in jobs && Run(job.name) in timeline;
      var turnaround := finish[job.name] - job.arrival;
      reports := reports + [Report(turnaround, turnaround - job.burst, first[job.name] - job.arrival)];
    }
  }

  // --- Sums over job lists do not depend on their order ---

  ghost function Sum(s: seq<Job>, f: Job -> int): int {
    if s == [] then 0 else Sum(s[..|s| - 1], f) + f(s[|s| - 1])
  }

  lemma {:induction false} SumSplits(a: seq<Job>, j: Job, b: seq<Job>, f: Job -> int)
    ensures Sum(a + [j] + b, f) == Sum(a + b, f) + f(j)
  {
    if b == [] {
      assert a + b == a && (a + [j] + b)[..|a|] == a;
    } else {
      var last := |b| - 1;
      assert (a + [j] + b)[..|a| + 1 + last] == a + [j] + b[..last];
      assert (a + b)[..|a| + last] == a + b[..last];
      SumSplits(a, j, b[..last], f);
    }
  }

  lemma {:induction false} SumPermutes(s: seq<Job>, t: seq<Job>, f: Job -> int)
    requires multiset(s) == multiset(t)
    ensures Sum(s, f) == Sum(t, f)
    decreases |s|
  {
    if s == [] {
      assert t == [] by {
        assert |multiset(t)| == 0;
      }
    } else {
      var j := s[|s| - 1];
      assert s == s[..|s| - 1] + [j];
      assert j in multiset(s);
      var a, b := SplitAt(t, j);
      SumSplits(a, j, b, f);
      SumPermutes(s[..|s| - 1], a + b, f);
    }
  }

  const BURST: Job -> int := (j: Job) => j.burst

  // --- Sums of completion times, running jobs one after another ---

  /** The sum over all positions of the total burst up to that position. */
  ghost function Cost(order: seq<Job>): int {
    if order == [] then 0 else Cost(order[..|order| - 1]) + Sum(order, BURST)
  }

  /** Exchange: putting the shorter of two neighbours first saves their difference. */
  lemma {:induction false} SwapNeighbours(a: seq<Job>, x: Job, y: Job, b: seq<Job>)
    ensures Cost(a + [x, y] + b) - Cost(a + [y, x] + b) == x.burst - y.burst
  {
    var xy, yx := a + [x, y] + b, a + [y, x] + b;
    if b == [] {
      assert xy[..|a| + 1] == a + [x] && yx[..|a| + 1] == a + [y];
      assert (a + [x])[..|a|] == a && (a + [y])[..|a|] == a;
    } else {
      var last := |b| - 1;
      assert xy[..|a| + 2 + last] == a + [x, y] + b[..last];
      assert yx[..|a| + 2 + last] == a + [y, x] + b[..last];
      SwapNeighbours(a, x, y, b[..last]);
      SwapBag(a, x, y, b);
      SumPermutes(xy, yx, BURST);
    }
  }

  lemma SwapBag(a: seq<Job>, x: Job, y: Job, b: seq<Job>)
    ensures multiset(a + [x, y] + b) == multiset(a + [y, x] + b)
  {
    assert multiset([x, y]) == multiset([y, x]);
    assert multiset(a + [x, y] + b) == multiset(a) + multiset([x, y]) + multiset(b);
  }

  /** Moving a longest job to the end never costs more. */
  lemma {:induction false} LongestLast(a: seq<Job>, x: Job, b: seq<Job>)
    requires forall y | y in b :: y.burst <= x.burst
    ensures Cost(a + b + [x]) <= Cost(a + [x] + b)
    decreases |b|
  {
    if b == [] {
      assert a + b + [x] == a + [x] + b;
    } else {
      var y, rest := b[0], b[1..];
      SwapNeighbours(a, x, y, rest);
      assert a + [x, y] + rest == a + [x] + b;
      assert a + [y, x] + rest == (a + [y]) + [x] + rest;
      LongestLast(a + [y], x, rest);
      assert (a + [y]) + rest + [x] == a + b + [x];
    }
  }

  ghost predicate ShortestFirst(order: seq<Job>) {
    forall i, k | 0 <= i < k < |order| :: order[i].burst <= order[k].burst
  }

  /** No permutation of a shortest-first order costs less. */
  lemma {:induction false} ShortestFirstCheapest(order: seq<Job>, other: seq<Job>)
    requires ShortestFirst(order) && multiset(order) == multiset(other)
    ensures Cost(order) <= Cost(other)
    decreases |order|
  {
    if order == [] {
      assert multiset(other) == multiset([]);
    } else {
      hide Cost;
      var x, front := order[|order| - 1], order[..|order| - 1];
      WithoutLast(order);
      var a, b := SplitAt(other, x);
      ShortestFirstCheapest(front, a + b);
      AppendLongest(front, x, a, b);
    }
  }

  lemma WithoutLast(order: seq<Job>)
    requires order != []
    ensures var n := |order| - 1;
      order == order[..n] + [order[n]] && order[n] in multiset(order)
      && multiset(order[..n]) == multiset(order) - multiset{order[n]}
  {
    assert order == order[..|order| - 1] + [order[|order| - 1]];
  }

  lemma {:induction false} AppendLongest(front: seq<Job>, x: Job, a: seq<Job>, b: seq<Job>)
    requires multiset(front) == multiset(a + b) && Cost(front) <= Cost(a + b)
    requires forall y | y in front :: y.burst <= x.burst
    ensures Cost(front + [x]) <= Cost(a + [x] + b)
  {
    forall y | y in b ensures y.burst <= x.burst {
      assert y in multiset(a + b);
    }
    LongestLast(a, x, b);
    assert (a + b + [x])[..|a + b|] == a + b && (front + [x])[..|front|] == front;
    SumPermutes(a + b + [x], front + [x], BURST);
  }

  // --- Every timeline costs at least some order ---

  lemma {:induction false} ServedFits(jobs: seq<Job>, tl: seq<Tick>)
    requires JobSet(jobs)
    ensures Served(jobs, tl) <= |tl|
  {
    if tl == [] {
      NothingServed(jobs);
    } else {
      var before := tl[..|tl| - 1];
      ServedFits(jobs, before);
      ServedExtends(jobs, before, tl[|tl| - 1]);
      assert tl == before + [tl[|tl| - 1]];
    }
  }

  /** The job that finishes last finishes no earlier than the sum of all bursts. */
  lemma {:induction false} LastFinish(jobs: seq<Job>, tl: seq<Tick>, m: Job)
    requires JobSet(jobs) && (forall j | j in jobs :: Finished(j, tl))
    requires forall j | j in jobs :: Finish(tl, j.name) <= Finish(tl, m.name)
    ensures Total(jobs) <= Finish(tl, m.name)
  {
    FinishCovers(tl, m.name);
    var until := tl[..Finish(tl, m.name)];
    forall j | j in jobs ensures Finished(j, until) {
      FinishCovers(tl, j.name);
    }
    ServedAll(jobs, until);
    ServedFits(jobs, until);
  }

  lemma {:induction false} TotalIsSum(jobs: seq<Job>)
    ensures Total(jobs) == Sum(jobs, BURST)
  {
    if jobs != [] {
      TotalIsSum(jobs[1..]);
      assert jobs == [] + [jobs[0]] + jobs[1..];
      SumSplits([], jobs[0], jobs[1..], BURST);
      assert [] + jobs[1..] == jobs[1..];
    }
  }

  ghost function Ends(tl: seq<Tick>): Job -> int {
    (j: Job) => Finish(tl, j.name)
  }

  lemma LatestJob(jobs: seq<Job>, tl: seq<Tick>) returns (m: Job)
    requires jobs != []
    ensures m in jobs && forall j | j in jobs :: Finish(tl, j.name) <= Finish(tl, m.name)
    decreases |jobs|
  {
    m := jobs[0];
    if |jobs| > 1 {
      var later := LatestJob(jobs[1..], tl);
      if Finish(tl, later.name) > Finish(tl, m.name) {
        m := later;
      }
      assert jobs == [jobs[0]] + jobs[1..];
    }
  }

  /** Ordering the jobs by finish time gives an order that costs no more than the timeline. */
  lemma {:induction false} TimelineCostsAnOrder(jobs: seq<Job>, tl: seq<Tick>) returns (order: seq<Job>)
    requires JobSet(jobs) && forall j | j in jobs :: Finished(j, tl)
    ensures multiset(order) == multiset(jobs) && Cost(order) <= Sum(jobs, Ends(tl))
    decreases |jobs|
  {
    if jobs == [] {
      order := [];
    } else {
      var m := LatestJob(jobs, tl);
      var a, b := SplitAt(jobs, m);
      WithoutOne(a, m, b);
      forall j | j in a + b ensures j in jobs {}
      var front := TimelineCostsAnOrder(a + b, tl);
      order := front + [m];
      FinishesLast(a, m, b, tl, front);
    }
  }

  lemma WithoutOne(a: seq<Job>, m: Job, b: seq<Job>)
    requires JobSet(a + [m] + b)
    ensures JobSet(a + b)
  {
    var jobs := a + [m] + b;
    assert forall i | 0 <= i < |a + b| :: (a + b)[i] == jobs[if i < |a| then i else i + 1];
  }

  lemma {:induction false} FinishesLast(a: seq<Job>, m: Job, b: seq<Job>, tl: seq<Tick>, front: seq<Job>)
    requires var jobs := a + [m] + b;
      && JobSet(jobs) && (forall j | j in jobs :: Finished(j, tl))
      && (forall j | j in jobs :: Finish(tl, j.name) <= Finish(tl, m.name))
    requires multiset(front) == multiset(a + b) && Cost(front) <= Sum(a + b, Ends(tl))
    ensures multiset(front + [m]) == multiset(a + [m] + b)
    ensures Cost(front + [m]) <= Sum(a + [m] + b, Ends(tl))
  {
    var jobs, order := a + [m] + b, front + [m];
    assert order[..|front|] == front;
    SumSplits(a, m, b, Ends(tl));
    LastFinish(jobs, tl, m);
    TotalIsSum(jobs);
    assert multiset(order) == multiset(jobs);
    SumPermutes(order, jobs, BURST);
  }

  // --- The layout of an order ---

  ghost predicate AllAtStart(jobs: seq<Job>) {
    forall j | j in jobs :: j.arrival == 0
  }

  lemma {:induction false} LayIsDense(order: seq<Job>)
    requires AllAtStart(order)
    ensures |NonPreemptive.Lay(order)| == Sum(order, BURST)
    ensures forall name | Run(name) in NonPreemptive.Lay(order) :: exists j | j in order :: j.name == name
  {
    if order != [] {
      var j, front := order[|order| - 1], order[..|order| - 1];
      assert order == front + [j];
      LayIsDense(front);
    }
  }

  /** In the layout of an order the finish times add up to its cost. */
  lemma {:induction false} LayCosts(order: seq<Job>)
    requires JobSet(order) && AllAtStart(order)
    ensures Sum(order, Ends(NonPreemptive.Lay(order))) == Cost(order)
  {
    if order != [] {
      var j, front := order[|order| - 1], order[..|order| - 1];
      var before, tl := NonPreemptive.Lay(front), NonPreemptive.Lay(order);
      assert tl == before + Copies(Run(j.name), j.burst) by {
        assert order == front + [j];
      }
      LayCosts(front);
      LayIsDense(front);
      hide NonPreemptive.Lay, Finish, Copies;
      LastEnds(order, before);
      SumAgrees(front, Ends(tl), Ends(before));
      FinishAfterRun(before, j.name, j.burst, j.name);
      assert Sum(order, BURST) == Sum(front, BURST) + j.burst;
    }
  }

  /** Laying the last job of an order leaves the finish times of the others alone. */
  lemma LastEnds(order: seq<Job>, before: seq<Tick>)
    requires JobSet(order) && order != []
    ensures var j := order[|order| - 1];
      forall k | k in order[..|order| - 1] ::
        Finish(before + Copies(Run(j.name), j.burst), k.name) == Finish(before, k.name)
  {
    hide Finish, Copies;
    var j, front := order[|order| - 1], order[..|order| - 1];
    forall k | k in front ensures Finish(before + Copies(Run(j.name), j.burst), k.name) == Finish(before, k.name) {
      var i :| 0 <= i < |front| && front[i] == k;
      assert order[i] == k;
      FinishAfterRun(before, j.name, j.burst, k.name);
    }
  }

  lemma {:induction false} SumAgrees(s: seq<Job>, f: Job -> int, g: Job -> int)
    requires forall j | j in s :: f(j) == g(j)
    ensures Sum(s, f) == Sum(s, g)
  {
    if s != [] {
      SumAgrees(s[..|s| - 1], f, g);
    }
  }

  // --- Shortest job first ---

  ghost function TotalTurnaround(jobs: seq<Job>, tl: seq<Tick>): int {
    Sum(jobs, (j: Job) => Finish(tl, j.name) - j.arrival)
  }

  ghost function TotalWaiting(jobs: seq<Job>, tl: seq<Tick>): int {
    Sum(jobs, (j: Job) => Finish(tl, j.name) - j.arrival - j.burst)
  }

  function SjfKey(job: Job): Key {
    Key(job.burst, job.arrival, job.name)
  }

  /** What the SJF key asks for: of two jobs that have both arrived, the one served first has the smaller burst;
      of equal bursts it arrived earlier, and of equal arrivals it does not have the greater name. */
  lemma SjfOrderExactly(order: seq<Job>)
    ensures NonPreemptive.KeyOrdered(order, SjfKey)
       <==> forall i, k | 0 <= i < k < |order| && order[k].arrival <= NonPreemptive.StartOf(order, i) ::
              || order[i].burst < order[k].burst
              || (order[i].burst == order[k].burst
                  && (order[i].arrival < order[k].arrival
                      || (order[i].arrival == order[k].arrival
                          && (order[i].name == order[k].name || StringLess(order[i].name, order[k].name)))))
  {
    hide StringLess;
    forall a: Job, b: Job
      ensures !KeyLess(SjfKey(b), SjfKey(a))
         <==> || a.burst < b.burst
              || (a.burst == b.burst
                  && (a.arrival < b.arrival
                      || (a.arrival == b.arrival && (a.name == b.name || StringLess(a.name, b.name)))))
    {
      NotLess(a.name, b.name);
    }
  }

  lemma {:induction false} NotLess(a: string, b: string)
    ensures !StringLess(b, a) <==> a == b || StringLess(a, b)
  {
    StringLessTotal(a, b);
    StringLessIrreflexive(a);
    if StringLess(a, b) {
      StringLessAsymmetric(a, b);
    }
  }

  // --- First come, first served ---

  function FcfsKey(job: Job): Key {
    Key(job.arrival, 0, job.name)
  }

  /** The FCFS key serves the jobs by arrival, and by name where arrivals are equal, whatever has arrived when. */
  lemma FcfsOrderExactly(order: seq<Job>)
    ensures NonPreemptive.KeyOrdered(order, FcfsKey)
       <==> forall i, k | 0 <= i < k < |order| ::
              || order[i].arrival < order[k].arrival
              || (order[i].arrival == order[k].arrival
                  && (order[i].name == order[k].name || StringLess(order[i].name, order[k].name)))
  {
    hide StringLess, NonPreemptive.Lay;
    forall a: Job, b: Job
      ensures !KeyLess(FcfsKey(b), FcfsKey(a))
         <==> a.arrival < b.arrival || (a.arrival == b.arrival && (a.name == b.name || StringLess(a.name, b.name)))
    {
      NotLess(a.name, b.name);
    }
    forall i | 0 <= i < |order| ensures order[i].arrival <= NonPreemptive.StartOf(order, i) {}
  }

  /** When every job is there from the start, the timeline `nonpreemptive` makes for the SJF key has the least
      total turnaround and the least total waiting of all timelines that give each job its burst:
      other orders, preemptive ones and ones with idle ticks. */
  lemma {:induction false} SjfIsOptimal(jobs: seq<Job>, sjf: seq<Tick>, order: seq<Job>, tl: seq<Tick>)
    requires JobSet(jobs) && AllAtStart(jobs)
    requires multiset(order) == multiset(jobs) && sjf == NonPreemptive.Lay(order)
    requires NonPreemptive.KeyOrdered(order, SjfKey)
    requires forall j | j in jobs :: Finished(j, tl)
    ensures TotalTurnaround(jobs, sjf) <= TotalTurnaround(jobs, tl)
    ensures TotalWaiting(jobs, sjf) <= TotalWaiting(jobs, tl)
  {
    forall j | j in order ensures j.arrival == 0 {
      assert j in multiset(jobs);
    }
    forall i, k | 0 <= i < k < |order| ensures order[i].burst <= order[k].burst {
      assert order[k] in order;
      assert !KeyLess(SjfKey(order[k]), SjfKey(order[i]));
    }
    PermutedJobSet(jobs, order);
    LayCosts(order);
    SumPermutes(jobs, order, Ends(sjf));
    var other := TimelineCostsAnOrder(jobs, tl);
    ShortestFirstCheapest(order, other);
    TurnaroundIsEnds(jobs, sjf);
    TurnaroundIsEnds(jobs, tl);
  }

  lemma PermutedJobSet(jobs: seq<Job>, order: seq<Job>)
    requires JobSet(jobs) && multiset(order) == multiset(jobs)
    ensures JobSet(order)
  {
    forall j | j in order ensures j.burst >= 1 {
      assert j in multiset(jobs);
    }
    forall i, k | 0 <= i < k < |order| ensures order[i].name != order[k].name {
      assert order[i] in multiset(jobs) && order[k] in multiset(jobs);
      if order[i].name == order[k].name {
        SameName(jobs, order[i], order[k]);
        NonPreemptive.Once(jobs, order[i]);
        CountedTwice(order, i, k);
      }
    }
  }

  lemma CountedTwice(order: seq<Job>, i: nat, k: nat)
    requires i < k < |order| && order[i] == order[k]
    ensures multiset(order)[order[i]] >= 2
  {
    assert order == order[..i] + [order[i]] + order[i + 1..];
    assert order[i + 1..][k - i - 1] == order[k];
    assert order[k] in order[i + 1..];
  }

  lemma {:induction false} TurnaroundIsEnds(jobs: seq<Job>, tl: seq<Tick>)
    requires AllAtStart(jobs)
    ensures TotalTurnaround(jobs, tl) == Sum(jobs, Ends(tl))
    ensures TotalWaiting(jobs, tl) == Sum(jobs, Ends(tl)) - Sum(jobs, BURST)
  {
    if jobs != [] {
      TurnaroundIsEnds(jobs[..|jobs| - 1], tl);
    }
  }
}
