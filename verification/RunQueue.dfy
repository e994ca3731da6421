/** learning/operating-systems/examples/scheduler.py: the order in which `round_robin` deals out its slices.
    A job joins the line when it arrives and again when a slice of its own ends. At the same moment arrivals come
    before the job whose slice ends, and among arrivals the earlier in the job list comes first. */
module RunQueue {
  import opened Scheduling

  ghost function JoinedAt(tl: seq<Tick>, j: Job): nat {
    if Count(tl, j.name) == 0 then j.arrival else Finish(tl, j.name)
  }

  ghost predicate Earlier(jobs: seq<Job>, j: Job, k: Job) {
    exists a, b | 0 <= a < b < |jobs| :: jobs[a] == j && jobs[b] == k
  }

  ghost predicate ListOrder(jobs: seq<Job>, arrivals: seq<Job>) {
    forall i, k | 0 <= i < k < |arrivals| :: Earlier(jobs, arrivals[i], arrivals[k])
  }

  /** j has been in line longer than k. */
  ghost predicate Ahead(jobs: seq<Job>, tl: seq<Tick>, j: Job, k: Job) {
    || JoinedAt(tl, j) < JoinedAt(tl, k)
    || (JoinedAt(tl, j) == JoinedAt(tl, k) && Count(tl, j.name) == 0 && (Count(tl, k.name) > 0 || Earlier(jobs, j, k)))
  }

  /** The queue is in order of joining, and everyone joined by `time`. */
  ghost predicate InLine(jobs: seq<Job>, tl: seq<Tick>, queue: seq<Job>, time: int) {
    && (forall i, k | 0 <= i < k < |queue| :: Ahead(jobs, tl, queue[i], queue[k]))
    && forall j | j in queue :: JoinedAt(tl, j) <= time
  }

  datatype Slice = Slice(job: Job, start: nat, length: nat)

  /** A quantum, or what the job still needs if that is less. */
  ghost function SliceLength(q: nat, before: seq<Tick>, job: Job): int {
    var needs := job.burst - Count(before, job.name);
    if q <= needs then q else needs
  }

  /** No other arrived unfinished job has been in line longer. */
  ghost predicate LongestInLine(jobs: seq<Job>, before: seq<Tick>, job: Job) {
    forall j | j in jobs && j != job && j.arrival <= |before| && !Finished(j, before) :: Ahead(jobs, before, job, j)
  }

  /** A whole slice for the job longest in line. */
  ghost predicate IsSlice(jobs: seq<Job>, q: nat, tl: seq<Tick>, s: Slice) {
    && s.job in jobs && s.length >= 1 && s.start + s.length <= |tl|
    && s.length == SliceLength(q, tl[..s.start], s.job)
    && (forall t | s.start <= t < s.start + s.length :: tl[t] == Run(s.job.name))
    && LongestInLine(jobs, tl[..s.start], s.job)
  }

  ghost predicate Covers(s: Slice, t: int) {
    s.start <= t < s.start + s.length
  }

  /** The slices follow one another and contain every busy tick. */
  ghost predicate Dealt(jobs: seq<Job>, q: nat, tl: seq<Tick>, slices: seq<Slice>) {
    && (forall i | 0 <= i < |slices| :: IsSlice(jobs, q, tl, slices[i]))
    && (forall i, k | 0 <= i < k < |slices| :: slices[i].start + slices[i].length <= slices[k].start)
    && forall t | 0 <= t < |tl| && tl[t].Run? :: exists i | 0 <= i < |slices| :: Covers(slices[i], t)
  }

  ghost predicate TakesTurns(jobs: seq<Job>, q: nat, tl: seq<Tick>) {
    exists slices :: Dealt(jobs, q, tl, slices)
  }

  // --- Building the slices ---

  lemma SliceStays(jobs: seq<Job>, q: nat, tl: seq<Tick>, more: seq<Tick>, s: Slice)
    requires IsSlice(jobs, q, tl, s)
    ensures IsSlice(jobs, q, tl + more, s)
  {
    hide LongestInLine, SliceLength;
    assert (tl + more)[..s.start] == tl[..s.start];
  }

  lemma DealtIdle(jobs: seq<Job>, q: nat, tl: seq<Tick>, slices: seq<Slice>)
    requires Dealt(jobs, q, tl, slices)
    ensures Dealt(jobs, q, tl + [Idle], slices)
  {
    hide IsSlice;
    forall i | 0 <= i < |slices| ensures IsSlice(jobs, q, tl + [Idle], slices[i]) {
      SliceStays(jobs, q, tl, [Idle], slices[i]);
    }
    forall t | 0 <= t < |tl + [Idle]| && (tl + [Idle])[t].Run?
      ensures exists i | 0 <= i < |slices| :: Covers(slices[i], t)
    {
      assert tl[t].Run?;
    }
  }

  lemma DealtSlice(jobs: seq<Job>, q: nat, tl: seq<Tick>, slices: seq<Slice>, longer: seq<Tick>, s: Slice)
    requires Dealt(jobs, q, tl, slices) && IsSlice(jobs, q, longer, s)
    requires s.start == |tl| && s.start + s.length == |longer| && tl <= longer
    ensures Dealt(jobs, q, longer, slices + [s])
  {
    var all := slices + [s];
    forall i | 0 <= i < |all| ensures IsSlice(jobs, q, longer, all[i]) {
      if i < |slices| {
        assert tl + longer[|tl|..] == longer;
        SliceStays(jobs, q, tl, longer[|tl|..], slices[i]);
      }
    }
    hide IsSlice;
    SlicesEnd(jobs, q, tl, slices);
    forall t | 0 <= t < |longer| && longer[t].Run? ensures exists i | 0 <= i < |all| :: Covers(all[i], t) {
      if t < |tl| {
        assert tl[t].Run?;
        var i :| 0 <= i < |slices| && Covers(slices[i], t);
        assert Covers(all[i], t);
      } else {
        assert Covers(all[|slices|], t);
      }
    }
  }

  lemma SlicesEnd(jobs: seq<Job>, q: nat, tl: seq<Tick>, slices: seq<Slice>)
    requires Dealt(jobs, q, tl, slices)
    ensures forall i | 0 <= i < |slices| :: slices[i].start + slices[i].length <= |tl|
  {
    hide LongestInLine, SliceLength, Covers;
    forall i | 0 <= i < |slices| ensures slices[i].start + slices[i].length <= |tl| {
      assert IsSlice(jobs, q, tl, slices[i]);
    }
  }

  /** Jobs that join now, in list order, behind everyone who joined before. */
  lemma {:induction false} JoinLine(jobs: seq<Job>, tl: seq<Tick>, queue: seq<Job>, before: int, arrivals: seq<Job>,
                                    time: int)
    requires InLine(jobs, tl, queue, before) && (before < time || (before == time && (queue == [] || arrivals == [])))
    requires forall j | j in arrivals :: j.arrival == time && Count(tl, j.name) == 0
    requires ListOrder(jobs, arrivals)
    ensures InLine(jobs, tl, queue + arrivals, time)
  {
    hide Earlier, Count, Finish;
    var all := queue + arrivals;
    forall i, k | 0 <= i < k < |all| ensures Ahead(jobs, tl, all[i], all[k]) {
      if k < |queue| {
        assert Ahead(jobs, tl, queue[i], queue[k]);
      } else {
        assert all[k] == arrivals[k - |queue|] && JoinedAt(tl, all[k]) == time;
        if i < |queue| {
          assert all[i] in queue;
        } else {
          assert all[i] == arrivals[i - |queue|] && JoinedAt(tl, all[i]) == time;
        }
      }
    }
  }

  /** Ticks for another job leave a job's place alone. */
  lemma {:induction false} PlaceKept(tl: seq<Tick>, name: string, n: nat, j: Job)
    requires j.name != name
    ensures Count(tl + Copies(Run(name), n), j.name) == Count(tl, j.name)
    ensures JoinedAt(tl + Copies(Run(name), n), j) == JoinedAt(tl, j)
  {
    CountCopies(tl, Run(name), n, j.name);
    FinishAfterRun(tl, name, n, j.name);
  }

  lemma LineKept(jobs: seq<Job>, tl: seq<Tick>, name: string, n: nat, queue: seq<Job>, time: int)
    requires InLine(jobs, tl, queue, time) && forall j | j in queue :: j.name != name
    ensures InLine(jobs, tl + Copies(Run(name), n), queue, time)
  {
    hide Earlier, Count, JoinedAt, Copies;
    forall j | j in queue ensures JoinedAt(tl + Copies(Run(name), n), j) == JoinedAt(tl, j)
                               && Count(tl + Copies(Run(name), n), j.name) == Count(tl, j.name) {
      PlaceKept(tl, name, n, j);
    }
    var longer := tl + Copies(Run(name), n);
    forall i, k | 0 <= i < k < |queue| ensures Ahead(jobs, longer, queue[i], queue[k]) {
      assert Ahead(jobs, tl, queue[i], queue[k]);
    }
  }

  /** The job whose slice ends goes behind everyone, even those who arrive at that moment. */
  lemma GoesToBack(jobs: seq<Job>, tl: seq<Tick>, job: Job, n: nat, queue: seq<Job>)
    requires n >= 1 && InLine(jobs, tl, queue, |tl| + n) && forall j | j in queue :: j.name != job.name
    ensures InLine(jobs, tl + Copies(Run(job.name), n), queue + [job], |tl| + n)
  {
    hide Earlier, Copies, Ahead;
    var longer := tl + Copies(Run(job.name), n);
    LineKept(jobs, tl, job.name, n, queue, |tl| + n);
    CountCopies(tl, Run(job.name), n, job.name);
    FinishAfterRun(tl, job.name, n, job.name);
    forall j | j in queue ensures Ahead(jobs, longer, j, job) {
      PlaceKept(tl, job.name, n, j);
      FinishCovers(tl, j.name);
      BehindAll(jobs, longer, j, job, |tl|);
    }
    var all := queue + [job];
    forall i, k | 0 <= i < k < |all| ensures Ahead(jobs, longer, all[i], all[k]) {
      if k < |queue| {
        assert Ahead(jobs, longer, queue[i], queue[k]);
      } else {
        assert all[i] in queue;
      }
    }
  }

  lemma {:induction false} BehindAll(jobs: seq<Job>, tl: seq<Tick>, j: Job, job: Job, before: nat)
    requires JoinedAt(tl, j) <= JoinedAt(tl, job) && before < JoinedAt(tl, job) && Count(tl, job.name) > 0
    requires Count(tl, j.name) > 0 ==> JoinedAt(tl, j) <= before
    ensures Ahead(jobs, tl, j, job)
  {}

  /** The head of a queue that holds all waiting jobs is the one longest in line. */
  lemma HeadIsLongest(jobs: seq<Job>, tl: seq<Tick>, queue: seq<Job>, time: int)
    requires queue != [] && InLine(jobs, tl, queue, time)
    requires forall j | j in jobs && j.arrival <= |tl| && !Finished(j, tl) :: j in queue
    ensures LongestInLine(jobs, tl, queue[0])
  {
    hide Ahead, Finished;
    forall j | j in jobs && j != queue[0] && j.arrival <= |tl| && !Finished(j, tl)
      ensures Ahead(jobs, tl, queue[0], j)
    {
      var k :| 0 <= k < |queue| && queue[k] == j;
      assert k > 0;
    }
  }

  lemma SliceDone(jobs: seq<Job>, q: nat, start: seq<Tick>, job: Job, n: nat)
    requires job in jobs && n >= 1 && n == SliceLength(q, start, job) && LongestInLine(jobs, start, job)
    ensures IsSlice(jobs, q, start + Copies(Run(job.name), n), Slice(job, |start|, n))
  {
    hide LongestInLine, SliceLength;
    assert (start + Copies(Run(job.name), n))[..|start|] == start;
  }

  // --- What the slices determine ---

  lemma LongestIsOne(jobs: seq<Job>, before: seq<Tick>, x: Job, y: Job)
    requires JobSet(jobs) && LongestInLine(jobs, before, x) && LongestInLine(jobs, before, y)
    requires x in jobs && x.arrival <= |before| && !Finished(x, before)
    requires y in jobs && y.arrival <= |before| && !Finished(y, before)
    ensures x == y
  {
    hide Finished, JoinedAt, Count;
  }

  /** The tick a slice covers goes to its job, which has arrived and is unfinished when the slice starts. */
  lemma SliceWaits(jobs: seq<Job>, q: nat, tl: seq<Tick>, s: Slice)
    requires JobSet(jobs) && Conserving(jobs, tl) && IsSlice(jobs, q, tl, s)
    ensures s.job.arrival <= s.start && !Finished(s.job, tl[..s.start])
  {
    hide LongestInLine, SliceLength, JobSet;
    assert tl[s.start] == Run(s.job.name);
    assert TickAllowed(jobs, tl[..s.start], tl[s.start]);
    var j :| j in jobs && j.name == s.job.name && j.arrival <= s.start && Count(tl[..s.start], j.name) < j.burst;
    SameName(jobs, j, s.job);
  }

  /** Up to t the timelines agree, and so do the starts of the slices that cover their ticks. */
  ghost predicate AgreeUpTo(a: seq<Tick>, b: seq<Tick>, sa: seq<Slice>, sb: seq<Slice>, t: nat)
    requires t <= |a| && t <= |b|
  {
    && a[..t] == b[..t]
    && forall u, i, k | 0 <= u < t && 0 <= i < |sa| && 0 <= k < |sb| && Covers(sa[i], u) && Covers(sb[k], u) ::
         sa[i].start == sb[k].start
  }

  /** If two slices start together after the same past, and share a tick of it, they are the same. */
  lemma SameStart(jobs: seq<Job>, q: nat, a: seq<Tick>, b: seq<Tick>, x: Slice, y: Slice, t: nat)
    requires JobSet(jobs) && IsSlice(jobs, q, a, x) && IsSlice(jobs, q, b, y) && t <= |a| && t <= |b|
    requires x.start == y.start < t && a[..t] == b[..t]
    ensures x == y
  {
    hide LongestInLine, JobSet;
    var s := x.start;
    assert a[s] == a[..t][s] && b[s] == b[..t][s];
    SameName(jobs, x.job, y.job);
    assert a[..s] == a[..t][..s] && b[..s] == b[..t][..s];
  }

  /** The slice that covers t in one timeline cannot have started before the one in the other. */
  lemma NotBefore(jobs: seq<Job>, q: nat, a: seq<Tick>, b: seq<Tick>, sa: seq<Slice>, sb: seq<Slice>, t: nat,
                  i: nat, k: nat)
    requires JobSet(jobs) && Dealt(jobs, q, a, sa) && Dealt(jobs, q, b, sb) && t <= |a| && t <= |b|
    requires AgreeUpTo(a, b, sa, sb, t) && i < |sa| && k < |sb| && Covers(sa[i], t) && Covers(sb[k], t)
    ensures sa[i].start >= sb[k].start
  {
    hide JobSet, LongestInLine, SliceLength;
    if sa[i].start < sb[k].start {
      var u := sb[k].start - 1;
      assert IsSlice(jobs, q, a, sa[i]);
      assert a[u] == a[..t][u] && b[u] == b[..t][u];
      var m :| 0 <= m < |sb| && Covers(sb[m], u);
      assert Covers(sa[i], u);
      SameStart(jobs, q, a, b, sa[i], sb[m], t);
    }
  }

  lemma SameTick(jobs: seq<Job>, q: nat, a: seq<Tick>, b: seq<Tick>, sa: seq<Slice>, sb: seq<Slice>, t: nat, i: nat,
                 k: nat)
    requires JobSet(jobs) && Dealt(jobs, q, a, sa) && Dealt(jobs, q, b, sb) && t < |a| && t < |b|
    requires Conserving(jobs, a) && Conserving(jobs, b)
    requires AgreeUpTo(a, b, sa, sb, t) && i < |sa| && k < |sb| && Covers(sa[i], t) && Covers(sb[k], t)
    ensures sa[i].start == sb[k].start && a[t] == b[t]
  {
    hide JobSet, LongestInLine, SliceLength, Conserving, AgreeUpTo;
    NotBefore(jobs, q, a, b, sa, sb, t, i, k);
    Mirrored(a, b, sa, sb, t);
    NotBefore(jobs, q, b, a, sb, sa, t, k, i);
    assert IsSlice(jobs, q, a, sa[i]) && IsSlice(jobs, q, b, sb[k]);
    if sa[i].start < t {
      SameStart(jobs, q, a, b, sa[i], sb[k], t);
    } else {
      SliceWaits(jobs, q, a, sa[i]);
      SliceWaits(jobs, q, b, sb[k]);
      LongestIsOne(jobs, a[..t], sa[i].job, sb[k].job);
    }
  }

  lemma Mirrored(a: seq<Tick>, b: seq<Tick>, sa: seq<Slice>, sb: seq<Slice>, t: nat)
    requires t <= |a| && t <= |b| && AgreeUpTo(a, b, sa, sb, t)
    ensures AgreeUpTo(b, a, sb, sa, t) && a[..t] == b[..t]
  {}

  lemma {:induction false} Agree(jobs: seq<Job>, q: nat, a: seq<Tick>, b: seq<Tick>, sa: seq<Slice>, sb: seq<Slice>,
                                 t: nat)
    requires JobSet(jobs) && Dealt(jobs, q, a, sa) && Dealt(jobs, q, b, sb) && t <= |a| && t <= |b|
    requires Conserving(jobs, a) && Conserving(jobs, b)
    requires forall u | 0 <= u < t :: a[u].Idle? <==> b[u].Idle?
    ensures AgreeUpTo(a, b, sa, sb, t)
  {
    hide JobSet, Conserving, IsSlice, Covers;
    if t > 0 {
      var u := t - 1;
      Agree(jobs, q, a, b, sa, sb, u);
      forall i, k | 0 <= i < |sa| && 0 <= k < |sb| && Covers(sa[i], u) && Covers(sb[k], u)
        ensures sa[i].start == sb[k].start
      {
        SameTick(jobs, q, a, b, sa, sb, u, i, k);
      }
      if a[u].Run? {
        var i :| 0 <= i < |sa| && Covers(sa[i], u);
        var k :| 0 <= k < |sb| && Covers(sb[k], u);
        SameTick(jobs, q, a, b, sa, sb, u, i, k);
      }
      assert a[..t] == a[..u] + [a[u]] && b[..t] == b[..u] + [b[u]];
    }
  }

  /** Taking turns determines the whole timeline: a job set and a quantum have one round-robin schedule. */
  lemma TurnsUnique(jobs: seq<Job>, q: nat, a: seq<Tick>, b: seq<Tick>)
    requires JobSet(jobs) && IsSchedule(jobs, a) && IsSchedule(jobs, b)
    requires TakesTurns(jobs, q, a) && TakesTurns(jobs, q, b)
    ensures a == b
  {
    hide JobSet, Dealt, Conserving;
    var sa :| Dealt(jobs, q, a, sa);
    var sb :| Dealt(jobs, q, b, sb);
    SameIdleTicks(jobs, a, b);
    Agree(jobs, q, a, b, sa, sb, |a|);
    assert a[..|a|] == a && b[..|b|] == b;
  }
}
