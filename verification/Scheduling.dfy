/** learning/operating-systems/examples/scheduler.py: what a timeline is, and what makes one work-conserving. */
module Scheduling {

  datatype Job = Job(name: string, arrival: nat, burst: nat)
  datatype Tick = Idle | Run(name: string)

  predicate JobSet(jobs: seq<Job>) {
    && (forall i, j | 0 <= i < j < |jobs| :: jobs[i].name != jobs[j].name)
    && forall j | j in jobs :: j.burst >= 1
  }

  /** Ticks given to a job. */
  ghost function Count(tl: seq<Tick>, name: string): nat {
    if tl == [] then 0 else Count(tl[..|tl| - 1], name) + if tl[|tl| - 1] == Run(name) then 1 else 0
  }

  ghost predicate Finished(j: Job, tl: seq<Tick>) {
    Count(tl, j.name) == j.burst
  }

  /** A busy tick goes to an arrived job that still needs it; an idle tick happens only when every
      arrived job is finished and another one is still to come. */
  ghost predicate TickAllowed(jobs: seq<Job>, before: seq<Tick>, tick: Tick) {
    match tick
    case Run(name) => exists j | j in jobs :: j.name == name && j.arrival <= |before| && Count(before, name) < j.burst
    case Idle =>
      && (forall j | j in jobs && j.arrival <= |before| :: Finished(j, before))
      && exists j | j in jobs :: j.arrival > |before|
  }

  ghost predicate Conserving(jobs: seq<Job>, tl: seq<Tick>) {
    forall t | 0 <= t < |tl| :: TickAllowed(jobs, tl[..t], tl[t])
  }

  /** A complete work-conserving timeline: each job gets exactly its burst, never before arrival,
      and the processor idles only when nothing that has arrived is left to do. */
  ghost predicate IsSchedule(jobs: seq<Job>, tl: seq<Tick>) {
    Conserving(jobs, tl) && forall j | j in jobs :: Finished(j, tl)
  }

  lemma ConservingExtends(jobs: seq<Job>, tl: seq<Tick>, tick: Tick)
    requires Conserving(jobs, tl) && TickAllowed(jobs, tl, tick)
    ensures Conserving(jobs, tl + [tick])
  {
    var longer := tl + [tick];
    forall t | 0 <= t < |longer| ensures TickAllowed(jobs, longer[..t], longer[t]) {
      assert longer[..t] == tl[..t];
      assert tl[..|tl|] == tl;
    }
  }

  lemma ConservingPrefix(jobs: seq<Job>, tl: seq<Tick>, t: nat)
    requires Conserving(jobs, tl) && t <= |tl|
    ensures Conserving(jobs, tl[..t])
  {
    forall u | 0 <= u < t ensures TickAllowed(jobs, tl[..t][..u], tl[..t][u]) {
      assert tl[..t][..u] == tl[..u];
    }
  }

  lemma {:induction false} CountExtends(tl: seq<Tick>, tick: Tick, name: string)
    ensures Count(tl + [tick], name) == Count(tl, name) + if tick == Run(name) then 1 else 0
  {
    assert (tl + [tick])[..|tl|] == tl;
  }

  function Copies(tick: Tick, n: nat): (r: seq<Tick>)
    ensures |r| == n
  {
    seq(n, _ => tick)
  }

  lemma {:induction false} CountCopies(tl: seq<Tick>, tick: Tick, n: nat, name: string)
    ensures Count(tl + Copies(tick, n), name) == Count(tl, name) + if tick == Run(name) then n else 0
  {
    if n == 0 {
      assert tl + Copies(tick, 0) == tl;
    } else {
      CountCopies(tl, tick, n - 1, name);
      assert tl + Copies(tick, n) == (tl + Copies(tick, n - 1)) + [tick];
      CountExtends(tl + Copies(tick, n - 1), tick, name);
    }
  }

  lemma CopiesGrow(tl: seq<Tick>, tick: Tick, n: nat)
    ensures tl + Copies(tick, 0) == tl
    ensures n > 0 ==> tl + Copies(tick, n) == (tl + Copies(tick, n - 1)) + [tick]
  {}

  /** Running an arrived job for no longer than it still needs stays work-conserving. */
  lemma {:induction false} RunsConserve(jobs: seq<Job>, tl: seq<Tick>, j: Job, n: nat)
    requires Conserving(jobs, tl) && j in jobs && j.arrival <= |tl| && Count(tl, j.name) + n <= j.burst
    ensures Conserving(jobs, tl + Copies(Run(j.name), n))
  {
    hide Conserving, Count, Copies;
    CopiesGrow(tl, Run(j.name), n);
    if n > 0 {
      RunsConserve(jobs, tl, j, n - 1);
      var before := tl + Copies(Run(j.name), n - 1);
      CountCopies(tl, Run(j.name), n - 1, j.name);
      assert TickAllowed(jobs, before, Run(j.name));
      ConservingExtends(jobs, before, Run(j.name));
    }
  }

  ghost function LatestArrival(pending: seq<Job>): nat {
    if pending == [] then 0
    else if pending[0].arrival > LatestArrival(pending[1..]) then pending[0].arrival else LatestArrival(pending[1..])
  }

  lemma {:induction false} LatestIsBound(pending: seq<Job>)
    ensures forall j | j in pending :: j.arrival <= LatestArrival(pending)
  {
    if pending != [] {
      LatestIsBound(pending[1..]);
      assert pending == [pending[0]] + pending[1..];
    }
  }

  // --- Work and busy time ---

  ghost function Busy(tl: seq<Tick>): nat {
    if tl == [] then 0 else Busy(tl[..|tl| - 1]) + if tl[|tl| - 1].Run? then 1 else 0
  }

  /** Ticks given to any of the jobs. */
  ghost function Served(jobs: seq<Job>, tl: seq<Tick>): nat {
    if jobs == [] then 0 else Count(tl, jobs[0].name) + Served(jobs[1..], tl)
  }

  /** Work brought in by the jobs that have arrived by time t. */
  ghost function Work(jobs: seq<Job>, t: nat): nat {
    if jobs == [] then 0 else (if jobs[0].arrival <= t then jobs[0].burst else 0) + Work(jobs[1..], t)
  }

  /** A prefix of a timeline: only arrived jobs have run, none beyond its burst. */
  ghost predicate Legal(jobs: seq<Job>, tl: seq<Tick>) {
    forall j | j in jobs :: Count(tl, j.name) <= if j.arrival <= |tl| then j.burst else 0
  }

  lemma {:induction false} ServedBounded(jobs: seq<Job>, tl: seq<Tick>)
    requires Legal(jobs, tl)
    ensures Served(jobs, tl) <= Work(jobs, |tl|)
    ensures Served(jobs, tl) == Work(jobs, |tl|)
       <==> forall j | j in jobs && j.arrival <= |tl| :: Finished(j, tl)
  {
    if jobs != [] {
      assert jobs == [jobs[0]] + jobs[1..];
      ServedBounded(jobs[1..], tl);
    }
  }

  lemma {:induction false} ServedExtends(jobs: seq<Job>, tl: seq<Tick>, tick: Tick)
    requires JobSet(jobs)
    ensures Served(jobs, tl + [tick])
         == Served(jobs, tl) + if tick.Run? && exists j | j in jobs :: j.name == tick.name then 1 else 0
  {
    if jobs != [] {
      var rest := jobs[1..];
      assert jobs == [jobs[0]] + rest;
      ServedExtends(rest, tl, tick);
      CountExtends(tl, tick, jobs[0].name);
      if tick == Run(jobs[0].name) {
        forall j | j in rest ensures j.name != tick.name {
          var i :| 0 <= i < |rest| && rest[i] == j;
          assert jobs[i + 1] == j;
        }
      }
    }
  }

  /** In a work-conserving timeline the busy ticks are exactly the ticks the jobs received. */
  lemma {:induction false} ConservingIsLegal(jobs: seq<Job>, tl: seq<Tick>)
    requires JobSet(jobs) && Conserving(jobs, tl)
    ensures Legal(jobs, tl) && Served(jobs, tl) == Busy(tl)
  {
    if tl == [] {
      NothingServed(jobs);
    } else {
      var before, tick := tl[..|tl| - 1], tl[|tl| - 1];
      assert tl == before + [tick];
      ConservingPrefix(jobs, tl, |before|);
      ConservingIsLegal(jobs, before);
      assert TickAllowed(jobs, before, tick);
      ServedExtends(jobs, before, tick);
      forall j | j in jobs ensures Count(tl, j.name) <= if j.arrival <= |tl| then j.burst else 0 {
        CountExtends(before, tick, j.name);
        if tick == Run(j.name) {
          var k :| k in jobs && k.name == j.name && k.arrival <= |before| && Count(before, j.name) < k.burst;
          SameName(jobs, j, k);
        }
      }
    }
  }

  lemma {:induction false} NothingServed(jobs: seq<Job>)
    ensures Served(jobs, []) == 0
  {
    if jobs != [] {
      NothingServed(jobs[1..]);
    }
  }

  lemma SameName(jobs: seq<Job>, j: Job, k: Job)
    requires JobSet(jobs) && j in jobs && k in jobs && j.name == k.name
    ensures j == k
  {}

  /** The next tick is idle exactly when all work that has arrived is done. */
  lemma IdleExactlyWhenCaughtUp(jobs: seq<Job>, tl: seq<Tick>, t: nat)
    requires JobSet(jobs) && Conserving(jobs, tl) && t < |tl|
    ensures tl[t].Idle? <==> Busy(tl[..t]) == Work(jobs, t)
    ensures Busy(tl[..t + 1]) == Busy(tl[..t]) + if tl[t].Idle? then 0 else 1
    ensures exists j | j in jobs :: !Finished(j, tl[..t])
  {
    hide Count, Served, Busy, Work, JobSet;
    var before := tl[..t];
    ConservingPrefix(jobs, tl, t);
    ConservingIsLegal(jobs, before);
    ServedBounded(jobs, before);
    assert TickAllowed(jobs, before, tl[t]);
    assert tl[..t + 1] == before + [tl[t]];
    BusyExtends(before, tl[t]);
    NextTickNeeded(jobs, before, tl[t]);
  }

  lemma {:induction false} BusyExtends(tl: seq<Tick>, tick: Tick)
    ensures Busy(tl + [tick]) == Busy(tl) + if tick.Run? then 1 else 0
  {
    assert (tl + [tick])[..|tl|] == tl;
  }

  /** Any further tick means some job is not finished: an arrived one if it is busy, a later one if it is idle. */
  lemma NextTickNeeded(jobs: seq<Job>, before: seq<Tick>, tick: Tick)
    requires JobSet(jobs) && Legal(jobs, before) && TickAllowed(jobs, before, tick)
    ensures exists j | j in jobs :: !Finished(j, before)
    ensures tick.Idle? <==> forall j | j in jobs && j.arrival <= |before| :: Finished(j, before)
  {
    hide Count;
    if tick.Idle? {
      var j :| j in jobs && j.arrival > |before|;
      assert Count(before, j.name) <= 0;
    } else {
      var j :| j in jobs && j.name == tick.name && j.arrival <= |before| && Count(before, j.name) < j.burst;
      assert !Finished(j, before);
    }
  }

  lemma {:induction false} SameBusy(jobs: seq<Job>, a: seq<Tick>, b: seq<Tick>, t: nat)
    requires JobSet(jobs) && Conserving(jobs, a) && Conserving(jobs, b) && t <= |a| && t <= |b|
    ensures Busy(a[..t]) == Busy(b[..t])
  {
    hide Conserving, Work, JobSet, Finished;
    if t > 0 {
      SameBusy(jobs, a, b, t - 1);
      IdleExactlyWhenCaughtUp(jobs, a, t - 1);
      IdleExactlyWhenCaughtUp(jobs, b, t - 1);
    }
  }

  /** Two complete work-conserving timelines of the same jobs idle at the same ticks and end together. */
  lemma SameIdleTicks(jobs: seq<Job>, a: seq<Tick>, b: seq<Tick>)
    requires JobSet(jobs) && IsSchedule(jobs, a) && IsSchedule(jobs, b)
    ensures |a| == |b|
    ensures forall t | 0 <= t < |a| :: a[t].Idle? <==> b[t].Idle?
  {
    NotShorter(jobs, a, b);
    NotShorter(jobs, b, a);
    forall t | 0 <= t < |a| ensures a[t].Idle? <==> b[t].Idle? {
      SameBusy(jobs, a, b, t);
      IdleExactlyWhenCaughtUp(jobs, a, t);
      IdleExactlyWhenCaughtUp(jobs, b, t);
    }
  }

  lemma NotShorter(jobs: seq<Job>, a: seq<Tick>, b: seq<Tick>)
    requires JobSet(jobs) && IsSchedule(jobs, a) && Conserving(jobs, b)
    ensures |b| <= |a|
  {
    if |a| < |b| {
      var t := |a|;
      SameBusy(jobs, a, b, t);
      assert a[..t] == a;
      ConservingIsLegal(jobs, a);
      ServedAll(jobs, a);
      var before := b[..t];
      ConservingPrefix(jobs, b, t);
      ConservingIsLegal(jobs, before);
      IdleExactlyWhenCaughtUp(jobs, b, t);
      ServedShort(jobs, before);
    }
  }

  ghost function Total(jobs: seq<Job>): nat {
    if jobs == [] then 0 else jobs[0].burst + Total(jobs[1..])
  }

  lemma {:induction false} ServedAll(jobs: seq<Job>, tl: seq<Tick>)
    requires forall j | j in jobs :: Finished(j, tl)
    ensures Served(jobs, tl) == Total(jobs)
  {
    if jobs != [] {
      assert Finished(jobs[0], tl);
      ServedAll(jobs[1..], tl);
    }
  }

  lemma {:induction false} ServedShort(jobs: seq<Job>, tl: seq<Tick>)
    requires forall j | j in jobs :: Count(tl, j.name) <= j.burst
    ensures Served(jobs, tl) <= Total(jobs)
    ensures Served(jobs, tl) == Total(jobs) <==> forall j | j in jobs :: Finished(j, tl)
  {
    if jobs != [] {
      assert jobs == [jobs[0]] + jobs[1..];
      ServedShort(jobs[1..], tl);
      assert Finished(jobs[0], tl) <==> Count(tl, jobs[0].name) == jobs[0].burst;
    }
  }

  lemma {:induction false} BusyCopies(tl: seq<Tick>, name: string, n: nat)
    ensures Busy(tl + Copies(Run(name), n)) == Busy(tl) + n
  {
    if n == 0 {
      assert tl + Copies(Run(name), 0) == tl;
    } else {
      BusyCopies(tl, name, n - 1);
      var before := tl + Copies(Run(name), n - 1);
      assert tl + Copies(Run(name), n) == before + [Run(name)];
      assert (before + [Run(name)])[..|before|] == before;
    }
  }

  /** Work not yet done. */
  lemma {:induction false} BusyBounded(jobs: seq<Job>, tl: seq<Tick>)
    requires JobSet(jobs) && Conserving(jobs, tl)
    ensures Busy(tl) <= Total(jobs)
  {
    ConservingIsLegal(jobs, tl);
    ServedShort(jobs, tl);
  }

  // --- When a job last ran ---

  /** One more than the last tick a job received. */
  ghost function Finish(tl: seq<Tick>, name: string): nat {
    if tl == [] then 0 else if tl[|tl| - 1] == Run(name) then |tl| else Finish(tl[..|tl| - 1], name)
  }

  lemma {:induction false} FinishCovers(tl: seq<Tick>, name: string)
    ensures Finish(tl, name) <= |tl|
    ensures forall t | Finish(tl, name) <= t <= |tl| :: Count(tl[..t], name) == Count(tl, name)
  {
    assert tl[..|tl|] == tl;
    if tl != [] && tl[|tl| - 1] != Run(name) {
      var before := tl[..|tl| - 1];
      FinishCovers(before, name);
      forall t | Finish(tl, name) <= t <= |tl| ensures Count(tl[..t], name) == Count(tl, name) {
        if t < |tl| {
          assert tl[..t] == before[..t];
        }
      }
    }
  }

  lemma {:induction false} FinishAfterRun(tl: seq<Tick>, run: string, n: nat, name: string)
    ensures Finish(tl + Copies(Run(run), n), name) == if name == run && n > 0 then |tl| + n else Finish(tl, name)
  {
    var longer := tl + Copies(Run(run), n);
    if n == 0 {
      assert longer == tl;
    } else {
      assert longer[..|longer| - 1] == tl + Copies(Run(run), n - 1);
      FinishAfterRun(tl, run, n - 1, name);
    }
  }
}
