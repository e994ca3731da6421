/** learning/operating-systems/examples/scheduler.py: `round_robin`, for an arbitrary job list and quantum. */
module RoundRobin {
  import opened Collections
  import opened RunQueue
  import opened Scheduling

  datatype Outcome = BadQuantum | Timeline(ticks: seq<Tick>)

  ghost function Slots(q: nat, k: int): int {
    q * k
  }

  lemma SlotsNext(q: nat, k: int)
    ensures Slots(q, k + 1) == Slots(q, k) + q
    ensures k >= 0 ==> Slots(q, k) >= 0
  {}

  // --- Bounded waiting ---

  /** At every moment t in [arrival, until) at which the job is unfinished, its next tick is at most `bound` away. */
  ghost predicate ServedUntil(tl: seq<Tick>, j: Job, until: nat, bound: int) {
    forall t | j.arrival <= t < until && t <= |tl| && Count(tl[..t], j.name) < j.burst ::
      RunsSoon(tl, j, t, bound)
  }

  ghost predicate RunsSoon(tl: seq<Tick>, j: Job, t: nat, bound: int) {
    exists s | t <= s < |tl| :: s <= t + bound && tl[s] == Run(j.name)
  }

  /** From any moment on, an arrived unfinished job runs within one quantum of every other job:
      this bounds both its first response and the gap between two of its slices. */
  ghost predicate BoundedWaiting(jobs: seq<Job>, q: nat, tl: seq<Tick>) {
    forall j | j in jobs :: ServedUntil(tl, j, |tl|, Slots(q, |jobs| - 1))
  }

  lemma ServedExtends(tl: seq<Tick>, more: seq<Tick>, j: Job, until: nat, bound: int)
    requires ServedUntil(tl, j, until, bound) && until <= |tl|
    ensures ServedUntil(tl + more, j, until, bound)
  {
    var longer := tl + more;
    forall t | j.arrival <= t < until && t <= |longer| && Count(longer[..t], j.name) < j.burst
      ensures RunsSoon(longer, j, t, bound)
    {
      assert longer[..t] == tl[..t];
      assert RunsSoon(tl, j, t, bound);
      var s :| t <= s < |tl| && s <= t + bound && tl[s] == Run(j.name);
      assert longer[s] == Run(j.name);
    }
  }

  /** A tick for a job that was served up to `until` serves it up to now, if `until` is not too long ago. */
  lemma TickServes(tl: seq<Tick>, j: Job, until: nat, bound: int)
    requires ServedUntil(tl, j, until, bound) && until <= |tl| <= until + bound
    ensures ServedUntil(tl + [Run(j.name)], j, |tl| + 1, bound)
  {
    var longer := tl + [Run(j.name)];
    ServedExtends(tl, [Run(j.name)], j, until, bound);
    forall t | j.arrival <= t < |tl| + 1 && t <= |longer| && Count(longer[..t], j.name) < j.burst
      ensures RunsSoon(longer, j, t, bound)
    {
      if t >= until {
        assert longer[|tl|] == Run(j.name);
      }
    }
  }

  /** One more tick of any kind is no wait for a job that is not there or is finished. */
  lemma {:induction false} AbsentServes(tl: seq<Tick>, tick: Tick, j: Job, bound: int)
    requires ServedUntil(tl, j, |tl|, bound) && (j.arrival > |tl| || Count(tl, j.name) >= j.burst)
    ensures ServedUntil(tl + [tick], j, |tl| + 1, bound)
  {
    ServedExtends(tl, [tick], j, |tl|, bound);
    assert (tl + [tick])[..|tl|] == tl;
  }

  // --- The queue ---

  ghost predicate Distinct(queue: seq<Job>) {
    forall i, k | 0 <= i < k < |queue| :: queue[i] != queue[k]
  }

  /** The queue holds each admitted unfinished job once. */
  ghost predicate Queued(jobs: seq<Job>, tl: seq<Tick>, queue: seq<Job>, admitted: set<string>) {
    && Distinct(queue)
    && forall j :: j in queue <==> j in jobs && j.name in admitted && !Finished(j, tl)
  }

  /** The remaining times are the bursts less the ticks received, of unfinished jobs only. */
  ghost predicate Remains(jobs: seq<Job>, tl: seq<Tick>, remaining: map<string, nat>) {
    && (forall j | j in jobs :: Count(tl, j.name) <= j.burst)
    && (forall j | j in jobs :: j.name in remaining <==> !Finished(j, tl))
    && (forall j | j in jobs && j.name in remaining :: remaining[j.name] == j.burst - Count(tl, j.name))
    && (forall name | name in remaining :: exists j | j in jobs :: j.name == name)
  }

  /** Exactly the arrived jobs are admitted; the others have not run. */
  ghost predicate Admitted(jobs: seq<Job>, tl: seq<Tick>, time: nat, admitted: set<string>) {
    && (forall j | j in jobs :: j.name in admitted <==> j.arrival <= time)
    && (forall j | j in jobs && j.name !in admitted :: Count(tl, j.name) == 0)
  }

  /** Before admission at `time`, only jobs arriving right now may be missing. */
  ghost predicate NearlyAdmitted(jobs: seq<Job>, tl: seq<Tick>, time: nat, admitted: set<string>) {
    && (forall j | j in jobs && j.name in admitted :: j.arrival <= time)
    && (forall j | j in jobs && j.arrival < time :: j.name in admitted)
    && (forall j | j in jobs && j.name !in admitted :: Count(tl, j.name) == 0)
  }

  function Newcomers(jobs: seq<Job>, time: nat, admitted: set<string>): seq<Job> {
    if jobs == [] then []
    else
      (if jobs[0].arrival <= time && jobs[0].name !in admitted then [jobs[0]] else []) + Newcomers(jobs[1..], time, admitted)
  }

  lemma {:induction false} NewcomersAre(jobs: seq<Job>, time: nat, admitted: set<string>)
    requires JobSet(jobs)
    ensures Distinct(Newcomers(jobs, time, admitted))
    ensures forall j :: j in Newcomers(jobs, time, admitted) <==> j in jobs && j.arrival <= time && j.name !in admitted
  {
    if jobs != [] {
      assert jobs == [jobs[0]] + jobs[1..];
      NewcomersAre(jobs[1..], time, admitted);
      assert jobs[0] !in jobs[1..];
    }
  }

  ghost function AdmittedAt(jobs: seq<Job>, time: nat, admitted: set<string>): set<string> {
    admitted + (set j | j in jobs && j.arrival <= time :: j.name)
  }

  lemma {:induction false} NewcomersUnfold(jobs: seq<Job>, time: nat, admitted: set<string>)
    requires jobs != []
    ensures Newcomers(jobs, time, admitted)
         == (if jobs[0].arrival <= time && jobs[0].name !in admitted then [jobs[0]] else [])
          + Newcomers(jobs[1..], time, admitted)
  {}

  lemma {:induction false} AdmitNone(time: nat, admitted: set<string>)
    ensures AdmittedAt([], time, admitted) == admitted && Newcomers([], time, admitted) == []
  {}

  lemma AdmitOne(jobs: seq<Job>, job: Job, time: nat, admitted: set<string>)
    ensures AdmittedAt(jobs + [job], time, admitted)
         == AdmittedAt(jobs, time, admitted) + if job.arrival <= time then {job.name} else {}
    ensures (forall k | k in jobs :: k.name != job.name) ==>
              (job.name in AdmittedAt(jobs, time, admitted) <==> job.name in admitted)
  {}

  lemma EarlierNames(jobs: seq<Job>, i: nat)
    requires JobSet(jobs) && i < |jobs|
    ensures forall k | k in jobs[..i] :: k.name != jobs[i].name
  {
    forall k | k in jobs[..i] ensures k.name != jobs[i].name {
      var m :| 0 <= m < i && jobs[m] == k;
    }
  }

  /** The admission loop, which the source runs before each dispatch and after each tick. */
  method Admit(jobs: seq<Job>, time: nat, ready: seq<Job>, admitted: set<string>)
    returns (ready': seq<Job>, admitted': set<string>)
    requires JobSet(jobs)
    ensures ready' == ready + Newcomers(jobs, time, admitted)
    ensures admitted' == AdmittedAt(jobs, time, admitted)
  {
    hide AdmittedAt, JobSet, Newcomers;
    ready', admitted' := ready, admitted;
    AdmitNone(time, admitted);
    assert jobs[0..] == jobs;
    for i := 0 to |jobs|
      invariant ready' + Newcomers(jobs[i..], time, admitted) == ready + Newcomers(jobs, time, admitted)
      invariant admitted' == AdmittedAt(jobs[..i], time, admitted)
    {
      var job := jobs[i];
      NewcomersUnfold(jobs[i..], time, admitted);
      AdmitOne(jobs[..i], job, time, admitted);
      assert jobs[i..][1..] == jobs[i + 1..];
      assert jobs[..i + 1] == jobs[..i] + [job];
      EarlierNames(jobs, i);
      if job.arrival <= time && job.name !in admitted' {
        ready' := ready' + [job];
        admitted' := admitted' + {job.name};
      }
    }
    assert jobs[..|jobs|] == jobs;
  }

  // --- Waiting times of queued jobs ---

  /** The moment up to which a job is known to have been served: since it was queued, or now. */
  ghost function KnownUntil(tl: seq<Tick>, queue: seq<Job>, since: map<Job, nat>, j: Job): nat {
    if j in queue && j in since then since[j] else |tl|
  }

  ghost predicate Promises(jobs: seq<Job>, q: nat, tl: seq<Tick>, queue: seq<Job>, since: map<Job, nat>) {
    && (forall j | j in queue :: j in since && since[j] <= |tl|)
    && forall j | j in jobs :: ServedUntil(tl, j, KnownUntil(tl, queue, since, j), Slots(q, |jobs| - 1))
  }

  /** The job at position p has waited at most a quantum for each of the positions behind it,
      plus the time `elapsed` in the present slice. */
  ghost predicate Waits(n: nat, q: nat, tl: seq<Tick>, queue: seq<Job>, since: map<Job, nat>, first: nat, elapsed: nat) {
    forall p | first <= p < |queue| ::
      queue[p] in since && |tl| - since[queue[p]] <= Slots(q, n - 1 - p) + elapsed
  }

  lemma QueueFits(jobs: seq<Job>, queue: seq<Job>)
    requires Distinct(queue) && forall j | j in queue :: j in jobs
    ensures |queue| <= |jobs|
  {
    forall j ensures multiset(queue)[j] <= multiset(jobs)[j] {
      if j in queue {
        DistinctOnce(queue, j);
        assert j in multiset(jobs);
      }
    }
    assert multiset(queue) <= multiset(jobs);
    SubBagSmaller(multiset(queue), multiset(jobs));
  }

  lemma DistinctOnce(queue: seq<Job>, j: Job)
    requires Distinct(queue) && j in queue
    ensures multiset(queue)[j] == 1
  {
    var i :| 0 <= i < |queue| && queue[i] == j;
    assert queue == queue[..i] + [j] + queue[i + 1..];
    assert j !in queue[..i] && j !in queue[i + 1..];
  }

  ghost function Since(since: map<Job, nat>, arrivals: seq<Job>, time: nat): map<Job, nat> {
    since + map j | j in arrivals :: time
  }

  /** The jobs that arrive right now are queued once, behind the others. */
  lemma {:induction false} AdmitQueues(jobs: seq<Job>, tl0: seq<Tick>, time: nat, queue: seq<Job>,
                                       admitted: set<string>)
    requires JobSet(jobs) && Queued(jobs, tl0, queue, admitted) && NearlyAdmitted(jobs, tl0, time, admitted)
    ensures Admitted(jobs, tl0, time, AdmittedAt(jobs, time, admitted))
    ensures Queued(jobs, tl0, queue + Newcomers(jobs, time, admitted), AdmittedAt(jobs, time, admitted))
    ensures forall j | j in Newcomers(jobs, time, admitted) :: j !in queue
  {
    var arrivals, admitted' := Newcomers(jobs, time, admitted), AdmittedAt(jobs, time, admitted);
    NewcomersAre(jobs, time, admitted);
    forall j | j in jobs ensures j.name in admitted' <==> j.arrival <= time {
      if j.name in admitted' && j.name !in admitted {
        var k :| k in jobs && k.arrival <= time && k.name == j.name;
        SameName(jobs, j, k);
      }
    }
  }

  /** Their waiting starts now. */
  lemma AdmitPromises(jobs: seq<Job>, q: nat, tl: seq<Tick>, queue: seq<Job>, since: map<Job, nat>, arrivals: seq<Job>)
    requires Promises(jobs, q, tl, queue, since) && forall j | j in arrivals :: j !in queue
    ensures Promises(jobs, q, tl, queue + arrivals, Since(since, arrivals, |tl|))
  {
    hide ServedUntil;
    var queue', since' := queue + arrivals, Since(since, arrivals, |tl|);
    forall j | j in jobs ensures KnownUntil(tl, queue', since', j) == KnownUntil(tl, queue, since, j) {}
  }

  lemma AdmitWaits(n: nat, q: nat, tl: seq<Tick>, queue: seq<Job>, since: map<Job, nat>, arrivals: seq<Job>,
                   first: nat, elapsed: nat)
    requires Waits(n, q, tl, queue, since, first, elapsed) && |queue + arrivals| <= n
    requires forall j | j in arrivals :: j !in queue
    ensures Waits(n, q, tl, queue + arrivals, Since(since, arrivals, |tl|), first, elapsed)
  {
    hide Slots;
    var queue', since' := queue + arrivals, Since(since, arrivals, |tl|);
    forall p | first <= p < |queue'|
      ensures queue'[p] in since' && |tl| - since'[queue'[p]] <= Slots(q, n - 1 - p) + elapsed
    {
      SlotsNext(q, n - 1 - p);
      if p < |queue| {
        assert queue'[p] == queue[p] && queue[p] in queue;
      } else {
        assert queue'[p] in arrivals;
      }
    }
  }

  // --- One slice ---

  /** A tick given to the job at the head of the queue. */
  lemma {:induction false} TickKeeps(jobs: seq<Job>, q: nat, tl: seq<Tick>, job: Job, ready: seq<Job>, since: map<Job,
                                     nat>)
    requires Promises(jobs, q, tl, [job] + ready, since) && job !in ready
    requires |tl| - since[job] <= Slots(q, |jobs| - 1)
    requires forall j | j in jobs && j !in [job] + ready :: j.arrival > |tl| || Count(tl, j.name) >= j.burst
    ensures Promises(jobs, q, tl + [Run(job.name)], [job] + ready, since[job := |tl| + 1])
  {
    hide Slots, Count, ServedUntil, KnownUntil;
    var tl', since', bound := tl + [Run(job.name)], since[job := |tl| + 1], Slots(q, |jobs| - 1);
    forall j | j in jobs ensures ServedUntil(tl', j, KnownUntil(tl', [job] + ready, since', j), bound) {
      TickServesEach(tl, job, ready, since, j, bound);
    }
  }

  lemma {:induction false} TickServesEach(tl: seq<Tick>, job: Job, ready: seq<Job>, since: map<Job, nat>, j: Job,
                                          bound: int)
    requires ServedUntil(tl, j, KnownUntil(tl, [job] + ready, since, j), bound)
    requires job !in ready && forall k | k in [job] + ready :: k in since && since[k] <= |tl|
    requires job in since && |tl| - since[job] <= bound
    requires j !in [job] + ready ==> j.arrival > |tl| || Count(tl, j.name) >= j.burst
    ensures ServedUntil(tl + [Run(job.name)], j,
                        KnownUntil(tl + [Run(job.name)], [job] + ready, since[job := |tl| + 1], j), bound)
  {
    hide Count, ServedUntil;
    var queue := [job] + ready;
    assert job in queue && (j in queue <==> j == job || j in ready);
    if j == job {
      TickServes(tl, job, since[job], bound);
    } else if j in queue {
      ServedExtends(tl, [Run(job.name)], j, since[j], bound);
    } else {
      AbsentServes(tl, Run(job.name), j, bound);
    }
  }

  /** With an empty queue, an idle tick keeps nobody waiting. */
  lemma {:induction false} IdlePromises(jobs: seq<Job>, q: nat, tl: seq<Tick>, since: map<Job, nat>)
    requires Promises(jobs, q, tl, [], since)
    requires forall j | j in jobs :: j.arrival > |tl| || Count(tl, j.name) >= j.burst
    ensures Promises(jobs, q, tl + [Idle], [], since)
  {
    hide Slots, Count;
    forall j | j in jobs ensures ServedUntil(tl + [Idle], j, |tl| + 1, Slots(q, |jobs| - 1)) {
      AbsentServes(tl, Idle, j, Slots(q, |jobs| - 1));
    }
  }

  /** After its slice the job goes to the back, or leaves; everyone else moves up one position. */
  lemma RequeueWaits(n: nat, q: nat, tl: seq<Tick>, job: Job, ready: seq<Job>, since: map<Job, nat>, elapsed: nat,
                     back: bool)
    requires Waits(n, q, tl, [job] + ready, since, 1, elapsed) && elapsed <= q && |ready| + 1 <= n
    requires job in since && since[job] == |tl|
    ensures Waits(n, q, tl, ready + if back then [job] else [], since, 0, 0)
  {
    hide Slots;
    var queue, queue' := [job] + ready, ready + if back then [job] else [];
    forall p | 0 <= p < |queue'|
      ensures queue'[p] in since && |tl| - since[queue'[p]] <= Slots(q, n - 1 - p)
    {
      SlotsNext(q, n - 2 - p);
      SlotsNext(q, n - 1 - p);
      if p < |ready| {
        assert queue'[p] == queue[p + 1];
      }
    }
  }

  lemma RequeuePromises(jobs: seq<Job>, q: nat, tl: seq<Tick>, job: Job, ready: seq<Job>, since: map<Job, nat>,
                        back: bool)
    requires Promises(jobs, q, tl, [job] + ready, since) && since[job] == |tl| && job !in ready
    ensures Promises(jobs, q, tl, ready + if back then [job] else [], since)
  {
    hide ServedUntil, Slots;
    var queue, queue' := [job] + ready, ready + if back then [job] else [];
    forall j | j in jobs ensures KnownUntil(tl, queue', since, j) == KnownUntil(tl, queue, since, j) {}
  }

  lemma {:induction false} RequeueQueues(jobs: seq<Job>, tl0: seq<Tick>, tl: seq<Tick>, job: Job, ready: seq<Job>,
                                         admitted: set<string>)
    requires Queued(jobs, tl0, [job] + ready, admitted)
    requires forall j | j in jobs && j != job :: Count(tl, j.name) == Count(tl0, j.name)
    ensures Queued(jobs, tl, ready + if Finished(job, tl) then [] else [job], admitted)
  {
    hide Count, Distinct;
    var queue := [job] + ready;
    Rotated(job, ready);
    forall j ensures j in ready && j != job <==> j in jobs && j != job && j.name in admitted && !Finished(j, tl) {
      assert j in queue <==> j == job || j in ready;
    }
    assert job in queue;
  }

  lemma Rotated(job: Job, ready: seq<Job>)
    requires Distinct([job] + ready)
    ensures job !in ready && Distinct(ready) && Distinct(ready + [job])
    ensures ready + [] == ready
  {
    var queue := [job] + ready;
    assert queue[0] == job && forall i | 0 <= i < |ready| :: ready[i] == queue[i + 1];
  }

  // --- The steps of the scheduler ---

  lemma {:induction false} AdmitKeeps(jobs: seq<Job>, q: nat, tl0: seq<Tick>, tl: seq<Tick>, queue: seq<Job>,
                                      admitted: set<string>,
                   since: map<Job, nat>, first: nat, elapsed: nat)
    requires JobSet(jobs) && Queued(jobs, tl0, queue, admitted) && NearlyAdmitted(jobs, tl0, |tl|, admitted)
    requires Promises(jobs, q, tl, queue, since) && Waits(|jobs|, q, tl, queue, since, first, elapsed)
    ensures var arrivals := Newcomers(jobs, |tl|, admitted);
      && Queued(jobs, tl0, queue + arrivals, AdmittedAt(jobs, |tl|, admitted))
      && Admitted(jobs, tl0, |tl|, AdmittedAt(jobs, |tl|, admitted))
      && Promises(jobs, q, tl, queue + arrivals, Since(since, arrivals, |tl|))
      && Waits(|jobs|, q, tl, queue + arrivals, Since(since, arrivals, |tl|), first, elapsed)
      && forall j | j in arrivals :: j !in queue
  {
    var arrivals := Newcomers(jobs, |tl|, admitted);
    AdmitQueues(jobs, tl0, |tl|, queue, admitted);
    QueueFits(jobs, queue + arrivals);
    AdmitPromises(jobs, q, tl, queue, since, arrivals);
    AdmitWaits(|jobs|, q, tl, queue, since, arrivals, first, elapsed);
  }

  function Bursts(jobs: seq<Job>): map<string, nat> {
    if jobs == [] then map[] else Bursts(jobs[1..])[jobs[0].name := jobs[0].burst]
  }

  ghost predicate HoldsBursts(jobs: seq<Job>, bursts: map<string, nat>) {
    && (forall j | j in jobs :: j.name in bursts && bursts[j.name] == j.burst)
    && (forall name | name in bursts :: exists j | j in jobs :: j.name == name)
  }

  lemma {:induction false} BurstsAre(jobs: seq<Job>)
    requires JobSet(jobs)
    ensures HoldsBursts(jobs, Bursts(jobs))
  {
    if jobs != [] {
      BurstsAre(jobs[1..]);
      hide Bursts;
      FirstBurst(jobs, Bursts(jobs[1..]));
      BurstsUnfold(jobs);
    }
  }

  lemma {:induction false} BurstsUnfold(jobs: seq<Job>)
    requires jobs != []
    ensures Bursts(jobs) == Bursts(jobs[1..])[jobs[0].name := jobs[0].burst]
  {}

  lemma FirstBurst(jobs: seq<Job>, bursts: map<string, nat>)
    requires JobSet(jobs) && jobs != [] && HoldsBursts(jobs[1..], bursts)
    ensures HoldsBursts(jobs, bursts[jobs[0].name := jobs[0].burst])
  {
    var first, rest := jobs[0], jobs[1..];
    FirstOrRest(jobs);
    hide JobSet;
    var all := bursts[first.name := first.burst];
    forall j | j in jobs ensures j.name in all && all[j.name] == j.burst {
      assert j == first || j in rest;
    }
    forall name | name in all ensures exists j | j in jobs :: j.name == name {
      if name != first.name {
        var j :| j in rest && j.name == name;
      }
    }
  }

  lemma FirstOrRest(jobs: seq<Job>)
    requires JobSet(jobs) && jobs != []
    ensures forall j :: j in jobs <==> j == jobs[0] || j in jobs[1..]
    ensures forall j | j in jobs[1..] :: j.name != jobs[0].name
  {
    var rest := jobs[1..];
    assert jobs == [jobs[0]] + rest;
    forall j | j in rest ensures j.name != jobs[0].name {
      var i :| 0 <= i < |rest| && rest[i] == j;
      assert jobs[i + 1] == j;
    }
  }

  lemma {:induction false} Starts(jobs: seq<Job>, q: nat)
    requires JobSet(jobs)
    ensures Conserving(jobs, []) && Remains(jobs, [], Bursts(jobs))
    ensures Queued(jobs, [], [], {}) && NearlyAdmitted(jobs, [], 0, {})
    ensures Promises(jobs, q, [], [], map[]) && Waits(|jobs|, q, [], [], map[], 0, 0)
  {
    hide Bursts;
    BurstsAre(jobs);
  }

  lemma {:induction false} IdleKeeps(jobs: seq<Job>, q: nat, tl: seq<Tick>, remaining: map<string, nat>,
                                     admitted: set<string>,
                  since: map<Job, nat>)
    requires JobSet(jobs) && Conserving(jobs, tl) && Remains(jobs, tl, remaining) && remaining != map[]
    requires Queued(jobs, tl, [], admitted) && Admitted(jobs, tl, |tl|, admitted) && Promises(jobs, q, tl, [], since)
    ensures Conserving(jobs, tl + [Idle]) && Remains(jobs, tl + [Idle], remaining)
    ensures Queued(jobs, tl + [Idle], [], admitted) && NearlyAdmitted(jobs, tl + [Idle], |tl| + 1, admitted)
    ensures Promises(jobs, q, tl + [Idle], [], since) && Waits(|jobs|, q, tl + [Idle], [], since, 0, 0)
    ensures Busy(tl + [Idle]) == Busy(tl) && LatestArrival(jobs) > |tl|
  {
    hide ServedUntil, Slots;
    IdleAllowed(jobs, tl, remaining, admitted);
    ConservingExtends(jobs, tl, Idle);
    forall j | j in jobs ensures j.arrival > |tl| || Count(tl, j.name) >= j.burst {
      assert j !in [];
    }
    IdlePromises(jobs, q, tl, since);
    forall name ensures Count(tl + [Idle], name) == Count(tl, name) {
      CountExtends(tl, Idle, name);
    }
    IdleCounts(jobs, tl, remaining, admitted);
    assert (tl + [Idle])[..|tl|] == tl;
  }

  lemma {:induction false} IdleAllowed(jobs: seq<Job>, tl: seq<Tick>, remaining: map<string, nat>,
                                       admitted: set<string>)
    requires Remains(jobs, tl, remaining) && remaining != map[]
    requires Queued(jobs, tl, [], admitted) && Admitted(jobs, tl, |tl|, admitted)
    ensures TickAllowed(jobs, tl, Idle) && LatestArrival(jobs) > |tl|
  {
    hide Count;
    var name :| name in remaining;
    var late :| late in jobs && late.name == name;
    assert late !in [];
    LatestIsBound(jobs);
    forall j | j in jobs && j.arrival <= |tl| ensures Finished(j, tl) {
      assert j !in [];
    }
  }

  lemma {:induction false} IdleCounts(jobs: seq<Job>, tl: seq<Tick>, remaining: map<string, nat>, admitted: set<string>)
    requires Remains(jobs, tl, remaining) && Queued(jobs, tl, [], admitted) && Admitted(jobs, tl, |tl|, admitted)
    requires forall name :: Count(tl + [Idle], name) == Count(tl, name)
    ensures Remains(jobs, tl + [Idle], remaining) && Queued(jobs, tl + [Idle], [], admitted)
    ensures NearlyAdmitted(jobs, tl + [Idle], |tl| + 1, admitted)
  {
    hide Count, Remains, Queued, Admitted;
    SameRemains(jobs, tl, tl + [Idle], remaining);
    SameQueued(jobs, tl, tl + [Idle], [], admitted);
    SameNearly(jobs, tl, tl + [Idle], admitted);
  }

  lemma {:induction false} SameRemains(jobs: seq<Job>, tl: seq<Tick>, next: seq<Tick>, remaining: map<string, nat>)
    requires Remains(jobs, tl, remaining) && forall name :: Count(next, name) == Count(tl, name)
    ensures Remains(jobs, next, remaining)
  {
    hide Count;
  }

  lemma {:induction false} SameQueued(jobs: seq<Job>, tl: seq<Tick>, next: seq<Tick>, queue: seq<Job>,
                                      admitted: set<string>)
    requires Queued(jobs, tl, queue, admitted) && forall name :: Count(next, name) == Count(tl, name)
    ensures Queued(jobs, next, queue, admitted)
  {
    hide Count, Distinct;
    forall j ensures Finished(j, next) == Finished(j, tl) {}
  }

  lemma SameNearly(jobs: seq<Job>, tl: seq<Tick>, next: seq<Tick>, admitted: set<string>)
    requires Admitted(jobs, tl, |tl|, admitted) && forall name :: Count(next, name) == Count(tl, name)
    ensures NearlyAdmitted(jobs, next, |tl| + 1, admitted)
  {
    hide Count;
  }

  /** The running job has not waited too long, and once it has run it was served until now. */
  ghost predicate SinceNow(jobs: seq<Job>, q: nat, tl: seq<Tick>, job: Job, since: map<Job, nat>, elapsed: nat) {
    && job in since && since[job] <= |tl| && |tl| - since[job] <= Slots(q, |jobs| - 1)
    && (elapsed >= 1 ==> since[job] == |tl|)
  }

  lemma Dispatch(jobs: seq<Job>, q: nat, tl: seq<Tick>, job: Job, ready: seq<Job>, admitted: set<string>,
                 remaining: map<string, nat>, since: map<Job, nat>)
    requires Queued(jobs, tl, [job] + ready, admitted) && Remains(jobs, tl, remaining)
    requires Admitted(jobs, tl, |tl|, admitted)
    requires Promises(jobs, q, tl, [job] + ready, since) && Waits(|jobs|, q, tl, [job] + ready, since, 0, 0)
    ensures job in jobs && job.arrival <= |tl| && job.name in remaining && remaining[job.name] >= 1
    ensures Waits(|jobs|, q, tl, [job] + ready, since, 1, 0) && SinceNow(jobs, q, tl, job, since, 0)
    ensures tl + Copies(Run(job.name), 0) == tl
  {
    assert ([job] + ready)[0] == job;
    assert job in [job] + ready;
  }

  lemma SliceTick(jobs: seq<Job>, q: nat, start: seq<Tick>, tl: seq<Tick>, job: Job, ready: seq<Job>,
                  admitted: set<string>,
                  since: map<Job, nat>, elapsed: nat)
    requires JobSet(jobs) && tl == start + Copies(Run(job.name), elapsed)
    requires Queued(jobs, start, [job] + ready, admitted) && Admitted(jobs, start, |tl|, admitted)
    requires Promises(jobs, q, tl, [job] + ready, since) && Waits(|jobs|, q, tl, [job] + ready, since, 1, elapsed)
    requires SinceNow(jobs, q, tl, job, since, elapsed)
    ensures tl + [Run(job.name)] == start + Copies(Run(job.name), elapsed + 1)
    ensures NearlyAdmitted(jobs, start, |tl| + 1, admitted)
    ensures Promises(jobs, q, tl + [Run(job.name)], [job] + ready, since[job := |tl| + 1])
    ensures Waits(|jobs|, q, tl + [Run(job.name)], [job] + ready, since[job := |tl| + 1], 1, elapsed + 1)
  {
    hide *;
    CopiesGrow(start, Run(job.name), elapsed + 1);
    QueueFacts(jobs, start, job, ready, admitted);
    OthersAway(jobs, start, tl, job, ready, admitted, elapsed);
    NearlyNext(jobs, start, tl, admitted);
    SinceBound(jobs, q, tl, job, since, elapsed);
    TickKeeps(jobs, q, tl, job, ready, since);
    TickWaits(|jobs|, q, tl, job, ready, since, elapsed);
  }

  lemma SinceBound(jobs: seq<Job>, q: nat, tl: seq<Tick>, job: Job, since: map<Job, nat>, elapsed: nat)
    requires SinceNow(jobs, q, tl, job, since, elapsed)
    ensures job in since && |tl| - since[job] <= Slots(q, |jobs| - 1)
  {
    hide Slots;
  }

  lemma NearlyNext(jobs: seq<Job>, start: seq<Tick>, tl: seq<Tick>, admitted: set<string>)
    requires Admitted(jobs, start, |tl|, admitted)
    ensures NearlyAdmitted(jobs, start, |tl| + 1, admitted)
  {
    hide Count;
  }

  /** During a slice, jobs outside the queue have not arrived or are finished. */
  lemma {:induction false} OthersAway(jobs: seq<Job>, start: seq<Tick>, tl: seq<Tick>, job: Job, ready: seq<Job>,
                                      admitted: set<string>,
                   elapsed: nat)
    requires tl == start + Copies(Run(job.name), elapsed)
    requires Queued(jobs, start, [job] + ready, admitted) && Admitted(jobs, start, |tl|, admitted)
    ensures forall j | j in jobs && j !in [job] + ready :: j.arrival > |tl| || Count(tl, j.name) >= j.burst
  {
    hide Distinct, Count, Copies;
    forall j | j in jobs && j !in [job] + ready ensures j.arrival > |tl| || Count(tl, j.name) >= j.burst {
      CountCopies(start, Run(job.name), elapsed, j.name);
    }
  }

  lemma TickWaits(n: nat, q: nat, tl: seq<Tick>, job: Job, ready: seq<Job>, since: map<Job, nat>, elapsed: nat)
    requires Waits(n, q, tl, [job] + ready, since, 1, elapsed) && job !in ready
    ensures Waits(n, q, tl + [Run(job.name)], [job] + ready, since[job := |tl| + 1], 1, elapsed + 1)
  {
    hide Slots;
    var queue := [job] + ready;
    assert forall i | 0 <= i < |ready| :: ready[i] == queue[i + 1];
  }

  lemma SinceKept(jobs: seq<Job>, q: nat, tl: seq<Tick>, job: Job, since: map<Job, nat>, arrivals: seq<Job>,
                  elapsed: nat)
    requires job !in arrivals && job in since && since[job] == |tl| && jobs != []
    ensures SinceNow(jobs, q, tl, job, Since(since, arrivals, |tl|), elapsed)
  {
    SlotsNext(q, |jobs| - 1);
  }

  lemma {:induction false} SliceEnds(jobs: seq<Job>, q: nat, start: seq<Tick>, tl: seq<Tick>, job: Job,
                                     ready: seq<Job>, admitted: set<string>,
                  remaining: map<string, nat>, since: map<Job, nat>, run: nat)
    requires JobSet(jobs) && Conserving(jobs, start) && Remains(jobs, start, remaining) && job in jobs
    requires job.name in remaining && 1 <= run <= q && run <= remaining[job.name]
    requires tl == start + Copies(Run(job.name), run)
    requires Queued(jobs, start, [job] + ready, admitted) && Admitted(jobs, start, |tl|, admitted) && job.arrival <= |start|
    requires Promises(jobs, q, tl, [job] + ready, since) && Waits(|jobs|, q, tl, [job] + ready, since, 1, run)
    requires SinceNow(jobs, q, tl, job, since, run)
    ensures var back := remaining[job.name] != run;
      var queue := ready + if back then [job] else [];
      && Conserving(jobs, tl) && Busy(tl) == Busy(start) + run && Busy(tl) <= Total(jobs)
      && Remains(jobs, tl, if back then remaining[job.name := remaining[job.name] - run] else remaining - {job.name})
      && Queued(jobs, tl, queue, admitted) && NearlyAdmitted(jobs, tl, |tl|, admitted)
      && Promises(jobs, q, tl, queue, since) && Waits(|jobs|, q, tl, queue, since, 0, 0)
  {
    hide *;
    var back := remaining[job.name] != run;
    SliceCounts(jobs, start, tl, job, run);
    SliceRemains(jobs, start, tl, job, admitted, remaining, run);
    RemainsAt(jobs, start, job, remaining);
    RunsConserve(jobs, start, job, run);
    BusyCopies(start, job.name, run);
    BusyBounded(jobs, tl);
    QueueFacts(jobs, start, job, ready, admitted);
    QueueFits(jobs, [job] + ready);
    RequeueQueues(jobs, start, tl, job, ready, admitted);
    SinceFacts(jobs, q, tl, job, since, run);
    RequeuePromises(jobs, q, tl, job, ready, since, back);
    RequeueWaits(|jobs|, q, tl, job, ready, since, run, back);
  }

  lemma SliceCounts(jobs: seq<Job>, start: seq<Tick>, tl: seq<Tick>, job: Job, run: nat)
    requires JobSet(jobs) && job in jobs && tl == start + Copies(Run(job.name), run)
    ensures forall j | j in jobs :: Count(tl, j.name) == Count(start, j.name) + if j == job then run else 0
  {
    hide Count;
    forall j | j in jobs ensures Count(tl, j.name) == Count(start, j.name) + if j == job then run else 0 {
      CountCopies(start, Run(job.name), run, j.name);
      if j.name == job.name {
        SameName(jobs, j, job);
      }
    }
  }

  lemma {:induction false} RemainsAt(jobs: seq<Job>, tl: seq<Tick>, job: Job, remaining: map<string, nat>)
    requires Remains(jobs, tl, remaining) && job in jobs && job.name in remaining
    ensures remaining[job.name] == job.burst - Count(tl, job.name)
  {}

  lemma {:induction false} SliceRemains(jobs: seq<Job>, start: seq<Tick>, tl: seq<Tick>, job: Job,
                                        admitted: set<string>,
                     remaining: map<string, nat>, run: nat)
    requires JobSet(jobs) && Remains(jobs, start, remaining) && Admitted(jobs, start, |tl|, admitted)
    requires job in jobs && job.name in remaining && 1 <= run <= remaining[job.name]
    requires forall j | j in jobs :: Count(tl, j.name) == Count(start, j.name) + if j == job then run else 0
    ensures var back := remaining[job.name] != run;
      && Remains(jobs, tl, if back then remaining[job.name := remaining[job.name] - run] else remaining - {job.name})
      && (Finished(job, tl) <==> !back)
    ensures job.arrival <= |tl| ==> NearlyAdmitted(jobs, tl, |tl|, admitted)
  {
    hide Count;
    assert remaining[job.name] == job.burst - Count(start, job.name);
    var remaining' := if remaining[job.name] != run then remaining[job.name := remaining[job.name] - run]
                      else remaining - {job.name};
    forall j | j in jobs && j != job ensures j.name != job.name {
      if j.name == job.name {
        SameName(jobs, j, job);
      }
    }
  }

  lemma QueueFacts(jobs: seq<Job>, start: seq<Tick>, job: Job, ready: seq<Job>, admitted: set<string>)
    requires Queued(jobs, start, [job] + ready, admitted)
    ensures Distinct([job] + ready) && job !in ready
    ensures forall j | j in [job] + ready :: j in jobs
  {
    var queue := [job] + ready;
    assert queue[0] == job && forall i | 0 <= i < |ready| :: ready[i] == queue[i + 1];
  }

  lemma SinceFacts(jobs: seq<Job>, q: nat, tl: seq<Tick>, job: Job, since: map<Job, nat>, run: nat)
    requires SinceNow(jobs, q, tl, job, since, run) && run >= 1
    ensures job in since && since[job] == |tl|
  {}

  lemma AllDone(jobs: seq<Job>, q: nat, tl: seq<Tick>, queue: seq<Job>, admitted: set<string>, since: map<Job, nat>)
    requires Conserving(jobs, tl) && Remains(jobs, tl, map[]) && Queued(jobs, tl, queue, admitted)
    requires Promises(jobs, q, tl, queue, since)
    ensures IsSchedule(jobs, tl) && BoundedWaiting(jobs, q, tl)
  {
    hide ServedUntil, Slots;
    forall j | j in jobs ensures ServedUntil(tl, j, |tl|, Slots(q, |jobs| - 1)) {
      assert j !in queue;
      assert KnownUntil(tl, queue, since, j) == |tl|;
    }
  }

  lemma RemoveUpdated(m: map<string, nat>, name: string, value: nat)
    ensures m[name := value] - {name} == m - {name}
  {}

  // --- The order of the line ---

  ghost predicate AllIn(jobs: seq<Job>, time: nat, admitted: set<string>) {
    forall j | j in jobs && j.arrival <= time :: j.name in admitted
  }

  lemma {:induction false} NewcomersOrdered(jobs: seq<Job>, time: nat, admitted: set<string>)
    requires JobSet(jobs)
    ensures ListOrder(jobs, Newcomers(jobs, time, admitted))
  {
    if jobs != [] {
      var later := Newcomers(jobs[1..], time, admitted);
      NewcomersOrdered(jobs[1..], time, admitted);
      NewcomersAre(jobs[1..], time, admitted);
      NewcomersUnfold(jobs, time, admitted);
      ListOrderExtends(jobs, later);
      assert [] + later == later;
    }
  }

  lemma EarlierShifts(jobs: seq<Job>, j: Job, k: Job)
    requires jobs != [] && Earlier(jobs[1..], j, k)
    ensures Earlier(jobs, j, k)
  {
    var rest := jobs[1..];
    var a, b :| 0 <= a < b < |rest| && rest[a] == j && rest[b] == k;
    assert jobs[a + 1] == j && jobs[b + 1] == k;
  }

  lemma HeadEarlier(jobs: seq<Job>, k: Job)
    requires jobs != [] && k in jobs[1..]
    ensures Earlier(jobs, jobs[0], k)
  {
    var b :| 0 <= b < |jobs[1..]| && jobs[1..][b] == k;
    assert jobs[b + 1] == k;
  }

  lemma ListOrderExtends(jobs: seq<Job>, later: seq<Job>)
    requires jobs != [] && ListOrder(jobs[1..], later) && forall j | j in later :: j in jobs[1..]
    ensures ListOrder(jobs, later) && ListOrder(jobs, [jobs[0]] + later)
  {
    hide Earlier;
    var all := [jobs[0]] + later;
    forall i, k | 0 <= i < k < |later| ensures Earlier(jobs, later[i], later[k]) {
      EarlierShifts(jobs, later[i], later[k]);
    }
    forall i, k | 0 <= i < k < |all| ensures Earlier(jobs, all[i], all[k]) {
      assert all[k] == later[k - 1] && later[k - 1] in later;
      if i > 0 {
        assert all[i] == later[i - 1];
      } else {
        HeadEarlier(jobs, all[k]);
      }
    }
  }

  lemma NoMembers(s: seq<Job>)
    ensures s == [] || exists j :: j in s
  {
    if s != [] {
      assert s[0] in s;
    }
  }

  lemma {:induction false} NobodyNew(jobs: seq<Job>, time: nat, admitted: set<string>)
    requires JobSet(jobs) && AllIn(jobs, time, admitted)
    ensures Newcomers(jobs, time, admitted) == []
  {
    hide Newcomers;
    NewcomersAre(jobs, time, admitted);
    forall j ensures j !in Newcomers(jobs, time, admitted) {}
    NoMembers(Newcomers(jobs, time, admitted));
  }

  lemma {:induction false} AdmitLine(jobs: seq<Job>, tl: seq<Tick>, time: nat, queue: seq<Job>, admitted: set<string>,
                                     before: int)
    requires JobSet(jobs) && NearlyAdmitted(jobs, tl, time, admitted) && InLine(jobs, tl, queue, before)
    requires before < time || (before == time && (queue == [] || AllIn(jobs, time, admitted)))
    ensures InLine(jobs, tl, queue + Newcomers(jobs, time, admitted), time)
  {
    hide InLine, ListOrder, Newcomers, JobSet, Count;
    var arrivals := Newcomers(jobs, time, admitted);
    NewcomersAre(jobs, time, admitted);
    NewcomersOrdered(jobs, time, admitted);
    if before == time && queue != [] {
      NobodyNew(jobs, time, admitted);
    }
    JoinLine(jobs, tl, queue, before, arrivals, time);
  }

  /** The head of the queue is the one longest in line, and its slice is a whole one. */
  lemma TurnSlice(jobs: seq<Job>, q: nat, start: seq<Tick>, queue: seq<Job>, admitted: set<string>,
                  remaining: map<string, nat>, run: nat)
    requires Queued(jobs, start, queue, admitted) && Admitted(jobs, start, |start|, admitted) && queue != []
    requires Remains(jobs, start, remaining) && queue[0].name in remaining && InLine(jobs, start, queue, |start|)
    requires run >= 1 && run == if q <= remaining[queue[0].name] then q else remaining[queue[0].name]
    ensures IsSlice(jobs, q, start + Copies(Run(queue[0].name), run), Slice(queue[0], |start|, run))
    ensures InLine(jobs, start, queue[1..], |start|)
  {
    hide IsSlice, LongestInLine, Ahead, Count, Copies, JoinedAt;
    var job := queue[0];
    assert job in queue;
    HeadIsLongest(jobs, start, queue, |start|);
    RemainsAt(jobs, start, job, remaining);
    SliceDone(jobs, q, start, job, run);
  }

  lemma TurnLine(jobs: seq<Job>, start: seq<Tick>, job: Job, run: nat, ready: seq<Job>, admitted: set<string>,
                 back: bool)
    requires JobSet(jobs) && Queued(jobs, start, [job] + ready, admitted) && run >= 1
    requires InLine(jobs, start, ready, |start| + run)
    ensures InLine(jobs, start + Copies(Run(job.name), run), ready + if back then [job] else [], |start| + run)
  {
    hide Queued, InLine, Copies, JobSet;
    QueueFacts(jobs, start, job, ready, admitted);
    forall j | j in ready ensures j.name != job.name {
      assert j in [job] + ready && job in [job] + ready;
      if j.name == job.name {
        SameName(jobs, j, job);
      }
    }
    if back {
      GoesToBack(jobs, start, job, run, ready);
    } else {
      LineKept(jobs, start, job.name, run, ready, |start| + run);
      assert ready + [] == ready;
    }
  }

  lemma AdmittedAllIn(jobs: seq<Job>, tl: seq<Tick>, time: nat, admitted: set<string>)
    requires Admitted(jobs, tl, time, admitted)
    ensures AllIn(jobs, time, admitted)
  {}

  lemma NobodyInLine(jobs: seq<Job>, tl: seq<Tick>, q: nat)
    ensures InLine(jobs, tl, [], |tl|)
    ensures Dealt(jobs, q, [], [])
  {}

  // --- The scheduler ---

  /** One slice: `run` ticks for the job, admitting arrivals after each of them. */
  method RunSlice(jobs: seq<Job>, ghost q: nat, start: seq<Tick>, job: Job, run: nat, waiting: seq<Job>, known: set<string>,
               ghost queuedAt: map<Job, nat>)
    returns (timeline: seq<Tick>, ready: seq<Job>, admitted: set<string>, ghost since: map<Job, nat>)
    requires JobSet(jobs) && job in jobs && SinceNow(jobs, q, start, job, queuedAt, 0)
    requires Queued(jobs, start, [job] + waiting, known) && Admitted(jobs, start, |start|, known)
    requires Promises(jobs, q, start, [job] + waiting, queuedAt) && Waits(|jobs|, q, start, [job] + waiting, queuedAt, 1, 0)
    requires InLine(jobs, start, waiting, |start|)
    ensures InLine(jobs, start, ready, |timeline|)
    ensures timeline == start + Copies(Run(job.name), run) && SinceNow(jobs, q, timeline, job, since, run)
    ensures Queued(jobs, start, [job] + ready, admitted) && Admitted(jobs, start, |timeline|, admitted)
    ensures Promises(jobs, q, timeline, [job] + ready, since) && Waits(|jobs|, q, timeline, [job] + ready, since, 1, run)
  {
    hide JobSet, Queued, Promises, Waits, Admitted, NearlyAdmitted, Newcomers, SinceNow, Since, AdmittedAt, InLine;
    timeline, ready, admitted, since := start, waiting, known, queuedAt;
    for elapsed := 0 to run
      invariant timeline == start + Copies(Run(job.name), elapsed) && SinceNow(jobs, q, timeline, job, since, elapsed)
      invariant Queued(jobs, start, [job] + ready, admitted) && Admitted(jobs, start, |timeline|, admitted)
      invariant Promises(jobs, q, timeline, [job] + ready, since)
      invariant Waits(|jobs|, q, timeline, [job] + ready, since, 1, elapsed)
      invariant InLine(jobs, start, ready, |timeline|)
    {
      SliceTick(jobs, q, start, timeline, job, ready, admitted, since, elapsed);
      timeline := timeline + [Run(job.name)];
      since := since[job := |timeline|];
      ghost var arrivals := Newcomers(jobs, |timeline|, admitted);
      AdmitKeeps(jobs, q, start, timeline, [job] + ready, admitted, since, 1, elapsed + 1);
      SinceKept(jobs, q, timeline, job, since, arrivals, elapsed + 1);
      assert ([job] + ready) + arrivals == [job] + (ready + arrivals);
      AdmitLine(jobs, start, |timeline|, ready, admitted, |timeline| - 1);
      since := Since(since, arrivals, |timeline|);
      ready, admitted := Admit(jobs, |timeline|, ready, admitted);
    }
  }

  /** The job at the head of the queue runs for a slice and, if unfinished, goes to the back. */
  method Turn(jobs: seq<Job>, quantum: nat, start: seq<Tick>, queue: seq<Job>, known: set<string>,
              left: map<string, nat>, ghost queuedAt: map<Job, nat>)
    returns (timeline: seq<Tick>, ready: seq<Job>, admitted: set<string>, remaining: map<string, nat>,
             ghost since: map<Job, nat>, ghost slice: Slice)
    requires JobSet(jobs) && quantum >= 1 && queue != [] && InLine(jobs, start, queue, |start|)
    requires Conserving(jobs, start) && Remains(jobs, start, left)
    requires Queued(jobs, start, queue, known) && Admitted(jobs, start, |start|, known)
    requires Promises(jobs, quantum, start, queue, queuedAt) && Waits(|jobs|, quantum, start, queue, queuedAt, 0, 0)
    ensures Conserving(jobs, timeline) && Remains(jobs, timeline, remaining)
    ensures Queued(jobs, timeline, ready, admitted) && NearlyAdmitted(jobs, timeline, |timeline|, admitted)
    ensures Promises(jobs, quantum, timeline, ready, since) && Waits(|jobs|, quantum, timeline, ready, since, 0, 0)
    ensures Busy(start) < Busy(timeline) <= Total(jobs)
    ensures start <= timeline && slice.start == |start| && slice.start + slice.length == |timeline|
    ensures IsSlice(jobs, quantum, timeline, slice)
    ensures InLine(jobs, timeline, ready, |timeline|) && AllIn(jobs, |timeline|, admitted)
  {
    hide JobSet, Conserving, Queued, Promises, Waits, Remains, Admitted, NearlyAdmitted, SinceNow, Copies, Total, Busy,
      IsSlice, InLine, AllIn;
    var job, waiting := queue[0], queue[1..];
    assert queue == [job] + waiting;
    Dispatch(jobs, quantum, start, job, waiting, known, left, queuedAt);
    var run := if quantum <= left[job.name] then quantum else left[job.name];
    TurnSlice(jobs, quantum, start, queue, known, left, run);
    slice := Slice(job, |start|, run);
    timeline, ready, admitted, since := RunSlice(jobs, quantum, start, job, run, waiting, known, queuedAt);
    TurnLine(jobs, start, job, run, ready, admitted, left[job.name] != run);
    AdmittedAllIn(jobs, start, |timeline|, admitted);
    SliceEnds(jobs, quantum, start, timeline, job, ready, admitted, left, since, run);
    RemoveUpdated(left, job.name, 0);
    remaining := left[job.name := left[job.name] - run];
    if remaining[job.name] != 0 {
      ready := ready + [job];
    } else {
      assert ready + [] == ready;
      remaining := remaining - {job.name};
    }
  }

  method Schedule(jobs: seq<Job>, quantum: int) returns (r: Outcome)
    requires JobSet(jobs)
    ensures r.BadQuantum? <==> quantum <= 0
    ensures r.Timeline? ==> IsSchedule(jobs, r.ticks) && BoundedWaiting(jobs, quantum, r.ticks)
    ensures r.Timeline? ==> TakesTurns(jobs, quantum, r.ticks)
  {
    if quantum <= 0 {
      return BadQuantum;
    }
    hide *;
    var remaining: map<string, nat> := Bursts(jobs);
    var ready: seq<Job> := [];
    var admitted: set<string> := {};
    var timeline: seq<Tick> := [];
    ghost var since: map<Job, nat> := map[];
    ghost var slices: seq<Slice> := [];
    Starts(jobs, quantum);
    NobodyInLine(jobs, timeline, quantum);
    while remaining != map[]
      invariant Conserving(jobs, timeline) && Remains(jobs, timeline, remaining)
      invariant Queued(jobs, timeline, ready, admitted) && NearlyAdmitted(jobs, timeline, |timeline|, admitted)
      invariant Promises(jobs, quantum, timeline, ready, since) && Waits(|jobs|, quantum, timeline, ready, since, 0, 0)
      invariant Dealt(jobs, quantum, timeline, slices) && InLine(jobs, timeline, ready, |timeline|)
      invariant ready == [] || AllIn(jobs, |timeline|, admitted)
      decreases Total(jobs) - Busy(timeline), LatestArrival(jobs) - |timeline|
    {
      AdmitKeeps(jobs, quantum, timeline, timeline, ready, admitted, since, 0, 0);
      AdmitLine(jobs, timeline, |timeline|, ready, admitted, |timeline|);
      since := Since(since, Newcomers(jobs, |timeline|, admitted), |timeline|);
      ready, admitted := Admit(jobs, |timeline|, ready, admitted);
      if ready == [] {
        IdleKeeps(jobs, quantum, timeline, remaining, admitted, since);
        DealtIdle(jobs, quantum, timeline, slices);
        timeline := timeline + [Idle];
        NobodyInLine(jobs, timeline, quantum);
        continue;
      }
      ghost var before, slice := timeline, Slice(ready[0], 0, 0);
      timeline, ready, admitted, remaining, since, slice :=
        Turn(jobs, quantum, timeline, ready, admitted, remaining, since);
      DealtSlice(jobs, quantum, before, slices, timeline, slice);
      slices := slices + [slice];
    }
    AllDone(jobs, quantum, timeline, ready, admitted, since);
    r := Timeline(timeline);
  }
}
