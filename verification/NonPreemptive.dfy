/** learning/operating-systems/examples/scheduler.py: `nonpreemptive`, for an arbitrary job list and key. */
module NonPreemptive {
  import opened Ordering
  import opened Scheduling

  // --- The order a key asks for ---

  /** The timeline that serves the jobs one after another, each as soon as possible. */
  ghost function Lay(order: seq<Job>): seq<Tick> {
    if order == [] then []
    else
      var before, j := Lay(order[..|order| - 1]), order[|order| - 1];
      before + Copies(Idle, Gap(before, j)) + Copies(Run(j.name), j.burst)
  }

  ghost function Gap(before: seq<Tick>, j: Job): nat {
    if j.arrival > |before| then j.arrival - |before| else 0
  }

  ghost function StartOf(order: seq<Job>, i: nat): nat
    requires i < |order|
  {
    |Lay(order[..i])| + Gap(Lay(order[..i]), order[i])
  }

  /** Whenever a job starts, no later job that has already arrived has a smaller key. */
  ghost predicate KeyOrdered(order: seq<Job>, key: Job -> Key) {
    forall i, k | 0 <= i < k < |order| && order[k].arrival <= StartOf(order, i) :: !KeyLess(key(order[k]), key(order[i]))
  }

  function Ready(pending: seq<Job>, time: nat): (r: seq<Job>)
    ensures forall j :: j in r <==> j in pending && j.arrival <= time
  {
    if pending == [] then []
    else
      assert pending == [pending[0]] + pending[1..];
      (if pending[0].arrival <= time then [pending[0]] else []) + Ready(pending[1..], time)
  }

  /** `min(ready, key=key)`: the first job no other one beats. */
  method MinBy(ready: seq<Job>, key: Job -> Key) returns (best: Job)
    requires ready != []
    ensures best in ready && forall j | j in ready :: !KeyLess(key(j), key(best))
  {
    best := ready[0];
    StringLessIrreflexive(key(best).name);
    for i := 1 to |ready|
      invariant best in ready && forall k | 0 <= k < i :: !KeyLess(key(ready[k]), key(best))
    {
      ghost var previous := best;
      if KeyLess(key(ready[i]), key(best)) {
        best := ready[i];
        KeyLessAsymmetric(key(ready[i]), key(previous));
      }
      StringLessIrreflexive(key(best).name);
      forall k | 0 <= k < i + 1 ensures !KeyLess(key(ready[k]), key(best)) {
        if k < i {
          KeyNotLessTransitive(key(best), key(previous), key(ready[k]));
        }
      }
    }
  }

  /** `pending.remove(job)`: the list without its first occurrence of the job. */
  function Remove(pending: seq<Job>, job: Job): (r: seq<Job>)
    requires job in pending
    ensures |r| == |pending| - 1 && multiset(r) == multiset(pending) - multiset{job}
    ensures forall j | j in r :: j in pending
  {
    assert pending == [pending[0]] + pending[1..];
    if pending[0] == job then pending[1..] else [pending[0]] + Remove(pending[1..], job)
  }

  /** Jobs served so far are finished, pending ones untouched, and together they are all jobs. */
  ghost predicate Partition(jobs: seq<Job>, tl: seq<Tick>, order: seq<Job>, pending: seq<Job>) {
    && multiset(order) + multiset(pending) == multiset(jobs)
    && (forall j | j in order :: Finished(j, tl))
    && (forall j | j in pending :: Count(tl, j.name) == 0)
  }

  /** The timeline is the layout of the order, then idle ticks during which nothing pending had arrived. */
  ghost predicate Laid(tl: seq<Tick>, order: seq<Job>, pending: seq<Job>) {
    && |Lay(order)| <= |tl| && tl == Lay(order) + Copies(Idle, |tl| - |Lay(order)|)
    && (|Lay(order)| < |tl| ==> pending != [] && forall j | j in pending :: j.arrival >= |tl|)
  }

  /** KeyOrdered, and also with respect to the jobs still pending. */
  ghost predicate KeyOrderedSoFar(order: seq<Job>, pending: seq<Job>, key: Job -> Key) {
    && KeyOrdered(order, key)
    && forall i, j | 0 <= i < |order| && j in pending && j.arrival <= StartOf(order, i) :: !KeyLess(key(j), key(order[i]))
  }

  method Schedule(jobs: seq<Job>, key: Job -> Key) returns (timeline: seq<Tick>, ghost order: seq<Job>)
    requires JobSet(jobs)
    ensures IsSchedule(jobs, timeline)
    ensures multiset(order) == multiset(jobs)
    ensures timeline == Lay(order) && KeyOrdered(order, key)
  {
    hide Conserving, KeyOrderedSoFar, Laid, Partition, KeyOrdered;
    var time := 0;
    var pending := jobs;
    timeline, order := [], [];
    Starts(jobs, key);
    while pending != []
      invariant time == |timeline|
      invariant Conserving(jobs, timeline) && Partition(jobs, timeline, order, pending)
      invariant Laid(timeline, order, pending) && KeyOrderedSoFar(order, pending, key)
      decreases |pending|, LatestArrival(pending) - time
    {
      var ready := Ready(pending, time);
      if ready == [] {
        IdleKeeps(jobs, timeline, order, pending);
        timeline := timeline + [Idle];
        time := time + 1;
        continue;
      }
      var job := MinBy(ready, key);
      RunKeeps(jobs, timeline, order, pending, key, job);
      timeline := timeline + Copies(Run(job.name), job.burst);
      time := time + job.burst;
      pending := Remove(pending, job);
      order := order + [job];
    }
    Ends(jobs, timeline, order, key);
  }

  lemma Starts(jobs: seq<Job>, key: Job -> Key)
    ensures Conserving(jobs, []) && Partition(jobs, [], [], jobs) && Laid([], [], jobs) && KeyOrderedSoFar([], jobs, key)
  {}

  /** With nothing ready, one idle tick is allowed, and brings the latest arrival closer. */
  lemma {:induction false} IdleKeeps(jobs: seq<Job>, tl: seq<Tick>, order: seq<Job>, pending: seq<Job>)
    requires Conserving(jobs, tl) && Partition(jobs, tl, order, pending) && Laid(tl, order, pending)
    requires pending != [] && forall j | j in pending :: j.arrival > |tl|
    ensures Conserving(jobs, tl + [Idle]) && Partition(jobs, tl + [Idle], order, pending)
    ensures Laid(tl + [Idle], order, pending) && LatestArrival(pending) > |tl|
  {
    LatestIsBound(pending);
    hide Conserving, Count, LatestArrival, Lay;
    assert pending[0] in pending && pending[0] in multiset(jobs);
    forall j | j in jobs && j.arrival <= |tl| ensures Finished(j, tl) {
      assert j in multiset(jobs);
    }
    ConservingExtends(jobs, tl, Idle);
    forall j ensures Count(tl + [Idle], j) == Count(tl, j) {
      CountExtends(tl, Idle, j);
    }
    IdleLaid(tl, order, pending);
  }

  lemma IdleLaid(tl: seq<Tick>, order: seq<Job>, pending: seq<Job>)
    requires Laid(tl, order, pending) && pending != [] && forall j | j in pending :: j.arrival > |tl|
    ensures Laid(tl + [Idle], order, pending)
  {
    hide Lay;
    assert tl + [Idle] == Lay(order) + Copies(Idle, |tl| + 1 - |Lay(order)|);
  }

  lemma Once(jobs: seq<Job>, j: Job)
    requires JobSet(jobs)
    ensures multiset(jobs)[j] <= 1
  {
    if j in jobs {
      var i :| 0 <= i < |jobs| && jobs[i] == j;
      assert jobs == jobs[..i] + [j] + jobs[i + 1..];
      assert j !in jobs[..i] && j !in jobs[i + 1..];
    }
  }

  lemma {:induction false} RunKeeps(jobs: seq<Job>, tl: seq<Tick>, order: seq<Job>, pending: seq<Job>,
                                    key: Job -> Key, job: Job)
    requires JobSet(jobs) && Conserving(jobs, tl) && Partition(jobs, tl, order, pending)
    requires Laid(tl, order, pending) && KeyOrderedSoFar(order, pending, key)
    requires job in pending && job.arrival <= |tl|
    requires forall j | j in pending && j.arrival <= |tl| :: !KeyLess(key(j), key(job))
    ensures var tl' := tl + Copies(Run(job.name), job.burst);
      && Conserving(jobs, tl') && Partition(jobs, tl', order + [job], Remove(pending, job))
      && Laid(tl', order + [job], Remove(pending, job))
      && KeyOrderedSoFar(order + [job], Remove(pending, job), key)
  {
    assert job in multiset(jobs);
    RunsConserve(jobs, tl, job, job.burst);
    RunPartitions(jobs, tl, order, pending, job);
    RunLays(tl, order, pending, job);
    RunOrders(tl, order, pending, key, job);
  }

  lemma {:induction false} RunPartitions(jobs: seq<Job>, tl: seq<Tick>, order: seq<Job>, pending: seq<Job>, job: Job)
    requires JobSet(jobs) && Partition(jobs, tl, order, pending) && job in pending
    ensures Partition(jobs, tl + Copies(Run(job.name), job.burst), order + [job], Remove(pending, job))
  {
    hide Count, Remove, Copies, JobSet;
    var tl', rest := tl + Copies(Run(job.name), job.burst), Remove(pending, job);
    Moved(jobs, order, pending, job);
    forall j | j in order + [job] ensures Finished(j, tl') {
      RunCounts(jobs, tl, j, job);
    }
    forall j | j in rest ensures Count(tl', j.name) == 0 {
      RunCounts(jobs, tl, j, job);
    }
  }

  /** Moving a pending job to the order keeps the two together all jobs, and apart. */
  lemma {:induction false} Moved(jobs: seq<Job>, order: seq<Job>, pending: seq<Job>, job: Job)
    requires JobSet(jobs) && multiset(order) + multiset(pending) == multiset(jobs) && job in pending
    ensures multiset(order + [job]) + multiset(Remove(pending, job)) == multiset(jobs)
    ensures job in multiset(jobs)
    ensures forall j | j in order + [job] :: j in multiset(jobs) && (j in order <==> j != job)
    ensures forall j | j in Remove(pending, job) :: j in multiset(jobs) && j != job
  {
    hide Remove, JobSet;
    var rest := Remove(pending, job);
    Once(jobs, job);
    assert multiset(order)[job] == 0 && multiset(rest)[job] == 0;
    assert multiset(order + [job]) == multiset(order) + multiset{job};
    forall j | j in order + [job] ensures j in multiset(jobs) && (j in order <==> j != job) {
      assert j in multiset(order) || j == job;
    }
    forall j | j in rest ensures j in multiset(jobs) && j != job {
      assert j in multiset(rest);
    }
  }

  lemma {:induction false} RunCounts(jobs: seq<Job>, tl: seq<Tick>, j: Job, job: Job)
    requires JobSet(jobs) && j in multiset(jobs) && job in multiset(jobs)
    ensures Count(tl + Copies(Run(job.name), job.burst), j.name)
         == Count(tl, j.name) + if j == job then job.burst else 0
  {
    CountCopies(tl, Run(job.name), job.burst, j.name);
    if j.name == job.name {
      SameName(jobs, j, job);
    }
  }

  lemma {:induction false} RunLays(tl: seq<Tick>, order: seq<Job>, pending: seq<Job>, job: Job)
    requires Laid(tl, order, pending) && job in pending && job.arrival <= |tl|
    ensures Laid(tl + Copies(Run(job.name), job.burst), order + [job], Remove(pending, job))
    ensures |tl| == StartOf(order + [job], |order|)
  {
    assert (order + [job])[..|order|] == order;
    assert Lay(order + [job]) == tl + Copies(Run(job.name), job.burst);
  }

  lemma {:induction false} RunOrders(tl: seq<Tick>, order: seq<Job>, pending: seq<Job>, key: Job -> Key, job: Job)
    requires KeyOrderedSoFar(order, pending, key) && Laid(tl, order, pending) && job in pending && job.arrival <= |tl|
    requires forall j | j in pending && j.arrival <= |tl| :: !KeyLess(key(j), key(job))
    ensures KeyOrderedSoFar(order + [job], Remove(pending, job), key)
  {
    RunLays(tl, order, pending, job);
    forall i | 0 <= i < |order| ensures StartOf(order + [job], i) == StartOf(order, i) {
      assert (order + [job])[..i] == order[..i];
    }
  }

  lemma {:induction false} Ends(jobs: seq<Job>, tl: seq<Tick>, order: seq<Job>, key: Job -> Key)
    requires Partition(jobs, tl, order, []) && Laid(tl, order, []) && KeyOrderedSoFar(order, [], key)
    ensures multiset(order) == multiset(jobs) && KeyOrdered(order, key) && tl == Lay(order)
    ensures forall j | j in jobs :: Finished(j, tl)
  {
    assert tl == Lay(order);
    forall j | j in jobs ensures j in order {
      assert j in multiset(jobs);
    }
  }
}
