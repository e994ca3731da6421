/** learning/computer-architecture/examples/pipeline_model.py: the five-stage pipeline with load-use stalls. */
module PipelineModel {
  import opened Options

  datatype Name = Name(text: string)
  datatype Instruction = Instruction(name: Name, kind: string, destination: string, sources: seq<string>)
  type Program = seq<Instruction>

  datatype Stage = IF | ID | EX | MEM | WB
  type Slot = Option<Instruction>

  /** The dictionary from the five stages to the instruction each one holds. */
  datatype Pipeline = Pipeline(fetch: Slot, decode: Slot, execute: Slot, memory: Slot, writeBack: Slot) {
    function At(s: Stage): Slot {
      match s
      case IF => fetch
      case ID => decode
      case EX => execute
      case MEM => memory
      case WB => writeBack
    }
  }

  /** The dictionary from the five stages to the cycles an instruction spent there. */
  datatype Row = Row(fetch: seq<nat>, decode: seq<nat>, execute: seq<nat>, memory: seq<nat>, writeBack: seq<nat>) {
    function At(s: Stage): seq<nat> {
      match s
      case IF => fetch
      case ID => decode
      case EX => execute
      case MEM => memory
      case WB => writeBack
    }

    function Append(s: Stage, c: nat): (r: Row)
      ensures forall t: Stage :: r.At(t) == if t == s then At(t) + [c] else At(t)
    {
      match s
      case IF => this.(fetch := fetch + [c])
      case ID => this.(decode := decode + [c])
      case EX => this.(execute := execute + [c])
      case MEM => this.(memory := memory + [c])
      case WB => this.(writeBack := writeBack + [c])
    }
  }

  type Timeline = map<Name, Row>

  const STAGES: seq<Stage> := [IF, ID, EX, MEM, WB]

  predicate NamesDistinct(p: Program) {
    forall i, j | 0 <= i < j < |p| :: p[i].name != p[j].name
  }

  // --- The closed form ---

  /** Instruction j needs the result of the load just before it. */
  ghost predicate Hazard(p: Program, j: int) {
    1 <= j < |p| && p[j - 1].kind == "LOAD" && p[j - 1].destination in p[j].sources
  }

  /** Hazards among the first k instructions. */
  ghost function Stalls(p: Program, k: int): nat {
    if k <= 0 then 0 else Stalls(p, k - 1) + if Hazard(p, k - 1) then 1 else 0
  }

  /** The cycle instruction i enters ID; it moves on to EX when i + 1 enters ID. */
  ghost function Enter(p: Program, i: int): int {
    i + 2 + Stalls(p, i)
  }

  /** The cycle instruction i enters a stage. */
  ghost function From(p: Program, i: nat, s: Stage): int {
    match s
    case IF => if i == 0 then 1 else Enter(p, i - 1)
    case ID => Enter(p, i)
    case EX => Enter(p, i + 1)
    case MEM => Enter(p, i + 1) + 1
    case WB => Enter(p, i + 1) + 2
  }

  /** The first cycle instruction i is no longer in it. */
  ghost function Until(p: Program, i: nat, s: Stage): int {
    match s
    case IF => Enter(p, i)
    case ID => Enter(p, i + 1)
    case _ => From(p, i, s) + 1
  }

  ghost predicate Holds(p: Program, i: nat, s: Stage, c: int) {
    From(p, i, s) <= c < Until(p, i, s)
  }

  /** The cycles from `a` up to but not including `b`. */
  ghost function Span(a: int, b: int): seq<nat> {
    if 0 <= a < b then Span(a, b - 1) + [b - 1] else []
  }

  /** The bubbles instructions before k cause: EX is empty in the second cycle each one spends in ID. */
  ghost function Bubbles(p: Program, k: int): seq<int> {
    if k <= 0 then [] else Bubbles(p, k - 1) + if Hazard(p, k - 1) then [Enter(p, k - 1) + 1] else []
  }

  lemma {:induction false} BubbleCount(p: Program, k: int)
    ensures |Bubbles(p, k)| == Stalls(p, k)
  {
    if k > 0 {
      BubbleCount(p, k - 1);
    }
  }

  lemma {:induction false} EnterGrows(p: Program, i: int, j: int)
    requires i <= j
    ensures Enter(p, j) - Enter(p, i) >= j - i
    ensures j == i + 1 ==> Enter(p, j) == Enter(p, i) + 1 + if Hazard(p, i) then 1 else 0
    decreases j - i
  {
    if i < j {
      EnterGrows(p, i, j - 1);
    }
  }

  // --- The state of the simulation at a cycle ---

  /** d is in ID, or has passed the end of the program: the cycle lies between its entry and that of d + 1. */
  ghost predicate Front(p: Program, d: int, c: int) {
    d >= -1 && (if d == -1 then c == 1 else Enter(p, d) <= c < Enter(p, d + 1))
  }

  /** A stage holds exactly the instruction the closed form puts there. */
  ghost predicate AgreesAt(p: Program, slot: Slot, s: Stage, c: int) {
    && (slot.Some? ==> exists i | 0 <= i < |p| :: Holds(p, i, s, c) && slot == Some(p[i]))
    && (slot.None? ==> forall i | 0 <= i < |p| :: !Holds(p, i, s, c))
  }

  ghost predicate Agrees(p: Program, pipeline: Pipeline, c: int) {
    forall s: Stage :: AgreesAt(p, pipeline.At(s), s, c)
  }

  ghost function Fetch(p: Program, i: int): Slot {
    if 0 <= i < |p| then Some(p[i]) else None
  }

  /** Who holds which stage, in terms of the instruction in ID. */
  lemma HolderIs(p: Program, d: int, c: int, i: nat, s: Stage)
    requires Front(p, d, c) && i < |p|
    ensures Holds(p, i, IF, c) <==> i == d + 1
    ensures Holds(p, i, ID, c) <==> i == d
    ensures Holds(p, i, EX, c) <==> i == d - 1 && c == Enter(p, d)
    ensures Holds(p, i, MEM, c) <==> Enter(p, i + 1) == c - 1
    ensures Holds(p, i, WB, c) <==> Enter(p, i + 1) == c - 2
  {
    hide Stalls;
    if i < d {
      EnterGrows(p, i + 1, d);
      EnterGrows(p, i, d);
    } else {
      EnterGrows(p, d, i);
      EnterGrows(p, d + 1, i + 1);
    }
    if i >= 1 && i - 1 < d {
      EnterGrows(p, i - 1, d);
    }
    if d + 1 < i {
      EnterGrows(p, d + 1, i);
      EnterGrows(p, d + 1, i - 1);
    }
  }

  /** No two instructions are in one stage at once. */
  lemma OneHolder(p: Program, d: int, c: int, i: nat, j: nat, s: Stage)
    requires Front(p, d, c) && i < |p| && j < |p| && Holds(p, i, s, c) && Holds(p, j, s, c)
    ensures i == j
  {
    HolderIs(p, d, c, i, s);
    HolderIs(p, d, c, j, s);
    if i < j {
      EnterGrows(p, i + 1, j + 1);
    } else if j < i {
      EnterGrows(p, j + 1, i + 1);
    }
  }

  lemma SlotIs(p: Program, slot: Slot, d: int, c: int, i: nat, s: Stage)
    requires NamesDistinct(p) && AgreesAt(p, slot, s, c) && Front(p, d, c) && i < |p|
    ensures slot == Some(p[i]) <==> Holds(p, i, s, c)
  {
    hide Holds, Front;
    if slot.Some? {
      var j :| 0 <= j < |p| && Holds(p, j, s, c) && slot == Some(p[j]);
      if Holds(p, i, s, c) {
        OneHolder(p, d, c, i, j, s);
      }
    }
  }

  lemma HeldBy(p: Program, slot: Slot, s: Stage, c: int, k: int)
    requires forall i: nat | i < |p| :: Holds(p, i, s, c) <==> i == k
    ensures AgreesAt(p, slot, s, c) <==> slot == Fetch(p, k)
  {
    hide Holds;
    if 0 <= k < |p| {
      assert Holds(p, k, s, c);
    } else {
      assert forall i: nat | i < |p| :: !Holds(p, i, s, c);
    }
  }

  /** The first three stages, in terms of the instruction in ID. */
  lemma FrontSlots(p: Program, slot: Slot, d: int, c: int)
    requires Front(p, d, c)
    ensures AgreesAt(p, slot, IF, c) <==> slot == Fetch(p, d + 1)
    ensures AgreesAt(p, slot, ID, c) <==> slot == Fetch(p, d)
    ensures AgreesAt(p, slot, EX, c) <==> slot == if c == Enter(p, d) then Fetch(p, d - 1) else None
  {
    hide Holds, Front, Enter, AgreesAt;
    forall i: nat | i < |p|
      ensures Holds(p, i, IF, c) <==> i == d + 1
      ensures Holds(p, i, ID, c) <==> i == d
      ensures Holds(p, i, EX, c) <==> i == d - 1 && c == Enter(p, d)
    {
      HolderIs(p, d, c, i, IF);
    }
    HeldBy(p, slot, IF, c, d + 1);
    HeldBy(p, slot, ID, c, d);
    HeldBy(p, slot, EX, c, if c == Enter(p, d) then d - 1 else -1);
  }

  predicate LoadUse(pipeline: Pipeline) {
    var producer, consumer := pipeline.execute, pipeline.decode;
    producer.Some? && consumer.Some? && producer.value.kind == "LOAD"
    && producer.value.destination in consumer.value.sources
  }

  function Advance(pipeline: Pipeline, fetched: Slot): Pipeline {
    if LoadUse(pipeline) then
      Pipeline(pipeline.fetch, pipeline.decode, None, pipeline.execute, pipeline.memory)
    else
      Pipeline(fetched, pipeline.fetch, pipeline.decode, pipeline.execute, pipeline.memory)
  }

  ghost function NextFront(p: Program, d: int, c: int): int {
    if c + 1 < Enter(p, d + 1) then d else d + 1
  }

  /** The stall condition is met exactly in the first ID cycle of an instruction with a hazard. */
  lemma StallsExactly(p: Program, pipeline: Pipeline, d: int, c: int)
    requires Agrees(p, pipeline, c) && Front(p, d, c)
    ensures LoadUse(pipeline) <==> Hazard(p, d) && c == Enter(p, d)
    ensures LoadUse(pipeline) <==> NextFront(p, d, c) == d
    ensures Front(p, NextFront(p, d, c), c + 1)
    ensures NextFront(p, d, c) == d ==> c + 1 != Enter(p, d)
    ensures NextFront(p, d, c) != d ==> c + 1 == Enter(p, d + 1)
  {
    hide AgreesAt;
    EnterGrows(p, d, d + 1);
    EnterGrows(p, d + 1, d + 2);
    assert AgreesAt(p, pipeline.At(EX), EX, c) && AgreesAt(p, pipeline.At(ID), ID, c);
    FrontSlots(p, pipeline.execute, d, c);
    FrontSlots(p, pipeline.decode, d, c);
  }

  /** One cycle of the source keeps every stage where the closed form puts it. */
  lemma AdvanceAgrees(p: Program, pipeline: Pipeline, d: int, c: int)
    requires Agrees(p, pipeline, c) && Front(p, d, c)
    ensures Agrees(p, Advance(pipeline, Fetch(p, d + 2)), c + 1)
  {
    hide AgreesAt, Front, Enter, Hazard, LoadUse;
    var next, d' := Advance(pipeline, Fetch(p, d + 2)), NextFront(p, d, c);
    StallsExactly(p, pipeline, d, c);
    assert forall s :: AgreesAt(p, pipeline.At(s), s, c);
    assert AgreesAt(p, pipeline.At(IF), IF, c) && AgreesAt(p, pipeline.At(ID), ID, c);
    assert AgreesAt(p, pipeline.At(EX), EX, c) && AgreesAt(p, pipeline.At(MEM), MEM, c);
    FrontSlots(p, pipeline.fetch, d, c);
    FrontSlots(p, pipeline.decode, d, c);
    FrontSlots(p, pipeline.execute, d, c);
    FrontSlots(p, next.fetch, d', c + 1);
    FrontSlots(p, next.decode, d', c + 1);
    FrontSlots(p, next.execute, d', c + 1);
    MovesOn(p, pipeline.execute, pipeline.memory, c);
    forall s: Stage ensures AgreesAt(p, next.At(s), s, c + 1) {
      match s
      case IF =>
      case ID =>
      case EX =>
      case MEM =>
      case WB =>
    }
  }

  lemma MovesOn(p: Program, ex: Slot, mem: Slot, c: int)
    requires AgreesAt(p, ex, EX, c) && AgreesAt(p, mem, MEM, c)
    ensures AgreesAt(p, ex, MEM, c + 1) && AgreesAt(p, mem, WB, c + 1)
  {
    SameHolders(p, ex, EX, c, MEM);
    SameHolders(p, mem, MEM, c, WB);
  }

  lemma SameHolders(p: Program, slot: Slot, s: Stage, c: int, t: Stage)
    requires AgreesAt(p, slot, s, c) && forall i: nat | i < |p| :: Holds(p, i, s, c) <==> Holds(p, i, t, c + 1)
    ensures AgreesAt(p, slot, t, c + 1)
  {
    hide Holds;
    if slot.Some? {
      var i :| 0 <= i < |p| && Holds(p, i, s, c) && slot == Some(p[i]);
      assert Holds(p, i, t, c + 1);
    } else {
      var next := c + 1;
      forall i | 0 <= i < |p| ensures !Holds(p, i, t, next) {
        assert !Holds(p, i, s, c);
      }
    }
  }

  // --- Recording ---

  function Names(p: Program): set<Name> {
    set i | 0 <= i < |p| :: p[i].name
  }

  /** Every instruction's stages list exactly the cycles before c that the closed form gives them. */
  ghost predicate Recorded(p: Program, timeline: Timeline, c: int) {
    && timeline.Keys == Names(p)
    && forall i, s: Stage | 0 <= i < |p| ::
         p[i].name in timeline && timeline[p[i].name].At(s) == SpanBefore(p, i, s, c)
  }

  ghost function SpanBefore(p: Program, i: nat, s: Stage, c: int): seq<nat> {
    Span(From(p, i, s), if Until(p, i, s) < c then Until(p, i, s) else c)
  }

  lemma SpanGrows(p: Program, i: nat, s: Stage, c: int)
    requires c >= 1
    ensures SpanBefore(p, i, s, c + 1) == SpanBefore(p, i, s, c) + if Holds(p, i, s, c) then [c] else []
  {
    EnterGrows(p, i, i + 1);
    EnterGrows(p, i - 1, i);
  }

  /** The list of a name for a stage, with the cycle added if the stage holds that name. */
  ghost function Extended(cycles: seq<nat>, slot: Slot, name: Name, c: nat): seq<nat> {
    if slot.Some? && slot.value.name == name then cycles + [c] else cycles
  }

  ghost function Rank(s: Stage): (r: nat)
    ensures r < |STAGES| && STAGES[r] == s
  {
    match s
    case IF => 0
    case ID => 1
    case EX => 2
    case MEM => 3
    case WB => 4
  }

  lemma RankIs(k: nat)
    requires k < |STAGES|
    ensures Rank(STAGES[k]) == k
  {
    assert STAGES[0] == IF && STAGES[1] == ID && STAGES[2] == EX && STAGES[3] == MEM && STAGES[4] == WB;
  }

  /** The first k stages have been recorded. */
  ghost predicate RecordedFirst(k: nat, pipeline: Pipeline, timeline: Timeline, longer: Timeline, c: nat) {
    && longer.Keys == timeline.Keys
    && forall name, s: Stage | name in timeline :: RecordedAt(k, pipeline, timeline, longer, c, name, s)
  }

  ghost predicate RecordedAt(k: nat, pipeline: Pipeline, timeline: Timeline, longer: Timeline, c: nat,
                             name: Name, s: Stage)
  {
    name in timeline && name in longer && longer[name].At(s)
    == if Rank(s) < k then Extended(timeline[name].At(s), pipeline.At(s), name, c) else timeline[name].At(s)
  }

  /** One pass over the stages: each occupied one appends the cycle to its instruction's list. */
  method Record(pipeline: Pipeline, timeline: Timeline, c: nat) returns (longer: Timeline)
    requires forall s: Stage :: pipeline.At(s).Some? ==> pipeline.At(s).value.name in timeline
    ensures RecordedFirst(|STAGES|, pipeline, timeline, longer, c)
  {
    longer := timeline;
    for k := 0 to |STAGES|
      invariant RecordedFirst(k, pipeline, timeline, longer, c)
    {
      var s := STAGES[k];
      RankIs(k);
      RecordStep(k, pipeline, timeline, longer, c);
      if pipeline.At(s).Some? {
        var name := pipeline.At(s).value.name;
        longer := longer[name := longer[name].Append(s, c)];
      }
    }
  }

  lemma RecordStep(k: nat, pipeline: Pipeline, timeline: Timeline, longer: Timeline, c: nat)
    requires k < |STAGES| && RecordedFirst(k, pipeline, timeline, longer, c)
    requires pipeline.At(STAGES[k]).Some? ==> pipeline.At(STAGES[k]).value.name in timeline
    ensures var slot := pipeline.At(STAGES[k]);
      RecordedFirst(k + 1, pipeline, timeline,
        if slot.Some? then longer[slot.value.name := longer[slot.value.name].Append(STAGES[k], c)] else longer, c)
  {
    hide RecordedAt;
    var next, stage, slot := k + 1, STAGES[k], pipeline.At(STAGES[k]);
    var longer' := if slot.Some? then longer[slot.value.name := longer[slot.value.name].Append(stage, c)] else longer;
    forall name, s: Stage | name in timeline
      ensures RecordedAt(next, pipeline, timeline, longer', c, name, s)
    {
      assert RecordedAt(k, pipeline, timeline, longer, c, name, s);
      RankOf(k, s);
      RecordStepAt(k, pipeline, timeline, longer, longer', c, name, s);
    }
  }

  lemma RankOf(k: nat, s: Stage)
    requires k < |STAGES|
    ensures Rank(s) == k <==> s == STAGES[k]
  {
    RankIs(k);
  }

  /** The occupied stage adds the cycle to its own list of its own instruction, and to no other. */
  lemma RecordStepAt(k: nat, pipeline: Pipeline, timeline: Timeline, longer: Timeline, next: Timeline, c: nat,
                     name: Name, s: Stage)
    requires k < |STAGES| && RecordedAt(k, pipeline, timeline, longer, c, name, s) && name in next
    requires Rank(s) == k <==> s == STAGES[k]
    requires var slot := pipeline.At(STAGES[k]);
      next[name] == if slot.Some? && slot.value.name == name then longer[name].Append(STAGES[k], c) else longer[name]
    ensures RecordedAt(k + 1, pipeline, timeline, next, c, name, s)
  {
    hide Rank, Row.At, Pipeline.At;
  }

  /** Every instruction the pipeline holds has its lists. */
  lemma Recordable(p: Program, pipeline: Pipeline, timeline: Timeline, c: int)
    requires Agrees(p, pipeline, c) && timeline.Keys == Names(p)
    ensures forall s: Stage :: pipeline.At(s).Some? ==> pipeline.At(s).value.name in timeline
  {
    hide Holds;
    forall s: Stage | pipeline.At(s).Some? ensures pipeline.At(s).value.name in timeline {
      assert AgreesAt(p, pipeline.At(s), s, c);
      var i :| 0 <= i < |p| && Holds(p, i, s, c) && pipeline.At(s) == Some(p[i]);
      assert p[i].name in Names(p);
    }
  }

  lemma RecordKeeps(p: Program, pipeline: Pipeline, timeline: Timeline, longer: Timeline, d: int, c: nat)
    requires NamesDistinct(p) && Agrees(p, pipeline, c) && Front(p, d, c) && c >= 1
    requires Recorded(p, timeline, c) && RecordedFirst(|STAGES|, pipeline, timeline, longer, c)
    ensures Recorded(p, longer, c + 1) && longer.Keys == Names(p)
  {
    hide Front, SpanBefore, Holds, NamesDistinct, AgreesAt;
    forall i, s: Stage | 0 <= i < |p|
      ensures p[i].name in longer && longer[p[i].name].At(s) == SpanBefore(p, i, s, c + 1)
    {
      assert p[i].name in Names(p);
      assert AgreesAt(p, pipeline.At(s), s, c);
      SlotNamed(p, pipeline.At(s), d, c, i, s);
      SpanGrows(p, i, s, c);
      assert Rank(s) < |STAGES|;
      assert RecordedAt(|STAGES|, pipeline, timeline, longer, c, p[i].name, s);
    }
  }

  lemma SlotNamed(p: Program, slot: Slot, d: int, c: int, i: nat, s: Stage)
    requires NamesDistinct(p) && AgreesAt(p, slot, s, c) && Front(p, d, c) && i < |p|
    ensures slot.Some? && slot.value.name == p[i].name <==> Holds(p, i, s, c)
  {
    hide Front, Holds;
    SlotIs(p, slot, d, c, i, s);
    if slot.Some? {
      var j :| 0 <= j < |p| && Holds(p, j, s, c) && slot == Some(p[j]);
    }
  }

  // --- The simulation ---

  function Blank(p: Program): Timeline {
    map name | name in Names(p) :: Row([], [], [], [], [])
  }

  /** The bubbles seen before cycle c, when d is in ID. */
  ghost function BubblesBefore(p: Program, d: int, c: int): seq<int> {
    Bubbles(p, if c > Enter(p, d) then d + 1 else d)
  }

  /** The stage cycles of instruction i, with the stalls up to and including its own. */
  ghost predicate Settled(p: Program, timeline: Timeline, i: nat)
    requires i < |p|
  {
    var before, after := Stalls(p, i), Stalls(p, i + 1);
    && p[i].name in timeline
    && timeline[p[i].name] == Row(
         Span(if i == 0 then 1 else i + 1 + Stalls(p, i - 1), i + 2 + before),
         Span(i + 2 + before, i + 3 + after),
         [i + 3 + after],
         [i + 4 + after],
         [i + 5 + after])
  }

  predicate Occupied(pipeline: Pipeline) {
    exists s: Stage :: pipeline.At(s).Some?
  }

  function Initial(p: Program): Pipeline {
    Pipeline(if |p| > 0 then Some(p[0]) else None, None, None, None, None)
  }

  lemma SimulationStarts(p: Program)
    ensures Agrees(p, Initial(p), 1) && Front(p, -1, 1)
    ensures Recorded(p, Blank(p), 1) && Blank(p).Keys == Names(p) && BubblesBefore(p, -1, 1) == [] && NextFetch(p, -1) == 1
  {
    var pipeline := Initial(p);
    FrontSlots(p, pipeline.fetch, -1, 1);
    FrontSlots(p, None, -1, 1);
    forall i: nat | i < |p| ensures !Holds(p, i, MEM, 1) && !Holds(p, i, WB, 1) {
      HolderIs(p, -1, 1, i, MEM);
    }
    forall s: Stage ensures AgreesAt(p, pipeline.At(s), s, 1) {
      hide AgreesAt;
      HeldBy(p, None, MEM, 1, -1);
      HeldBy(p, None, WB, 1, -1);
      match s
      case IF =>
      case ID =>
      case EX =>
      case MEM =>
      case WB =>
    }
    forall i, s: Stage | 0 <= i < |p|
      ensures p[i].name in Blank(p) && Blank(p)[p[i].name].At(s) == SpanBefore(p, i, s, 1)
    {
      assert p[i].name in Names(p);
      NothingBefore(p, i, s);
    }
  }

  lemma NothingBefore(p: Program, i: nat, s: Stage)
    ensures SpanBefore(p, i, s, 1) == []
  {}

  /** A cycle in which some stage is occupied is not past the last write-back. */
  lemma StillRunning(p: Program, pipeline: Pipeline, c: int)
    requires Agrees(p, pipeline, c) && Occupied(pipeline)
    ensures |p| > 0 && c < Enter(p, |p|) + 3
  {
    var s: Stage :| pipeline.At(s).Some?;
    assert AgreesAt(p, pipeline.At(s), s, c);
    var i :| 0 <= i < |p| && Holds(p, i, s, c);
    EnterGrows(p, i, i + 1);
    EnterGrows(p, i + 1, |p|);
  }

  lemma NextBubbles(p: Program, pipeline: Pipeline, d: int, c: int)
    requires Agrees(p, pipeline, c) && Front(p, d, c)
    ensures BubblesBefore(p, NextFront(p, d, c), c + 1)
         == BubblesBefore(p, d, c) + if LoadUse(pipeline) then [c + 1] else []
  {
    StallsExactly(p, pipeline, d, c);
  }

  lemma {:induction false} BubblesStop(p: Program, k: int)
    requires k >= |p|
    ensures Bubbles(p, k) == Bubbles(p, |p|)
    decreases k - |p|
  {
    if k > |p| {
      BubblesStop(p, k - 1);
    }
  }

  /** Once every stage is empty, the last instruction left WB in the cycle before. */
  lemma PipelineDrained(p: Program, pipeline: Pipeline, d: int, c: int)
    requires Agrees(p, pipeline, c) && Front(p, d, c) && |p| > 0
    requires !Occupied(pipeline)
    ensures d >= |p| && c >= Enter(p, |p|) + 3
  {
    forall s: Stage, i: nat | i < |p| ensures !Holds(p, i, s, c) {
      assert AgreesAt(p, pipeline.At(s), s, c) && pipeline.At(s).None?;
    }
    if d < |p| {
      HolderIs(p, d, c, if d == -1 then 0 else d, IF);
    } else {
      EnterGrows(p, |p|, d);
      var last := |p| - 1;
      assert !Holds(p, last, EX, c) && !Holds(p, last, MEM, c) && !Holds(p, last, WB, c);
    }
  }

  lemma AllSettled(p: Program, timeline: Timeline, c: int, i: nat)
    requires Recorded(p, timeline, c) && c >= Enter(p, |p|) + 3 && i < |p|
    ensures Settled(p, timeline, i)
  {
    hide Stalls, Span;
    EnterGrows(p, i, i + 1);
    EnterGrows(p, i + 1, |p|);
    StalledPositive(p, i);
    var row := timeline[p[i].name];
    assert row.At(IF) == SpanBefore(p, i, IF, c) && row.At(ID) == SpanBefore(p, i, ID, c);
    assert row.At(EX) == SpanBefore(p, i, EX, c) && row.At(MEM) == SpanBefore(p, i, MEM, c);
    assert row.At(WB) == SpanBefore(p, i, WB, c);
    SpanOfOne(Enter(p, i + 1));
    SpanOfOne(Enter(p, i + 1) + 1);
    SpanOfOne(Enter(p, i + 1) + 2);
  }

  lemma StalledPositive(p: Program, i: nat)
    ensures Enter(p, i + 1) >= 2
  {}

  lemma {:induction false} SpanOfOne(c: nat)
    ensures Span(c, c + 1) == [c]
  {
    assert Span(c, c) == [];
  }

  lemma {:induction false} SimulationEnds(p: Program, pipeline: Pipeline, timeline: Timeline, d: int, c: int)
    requires Agrees(p, pipeline, c) && Front(p, d, c) && Recorded(p, timeline, c)
    requires !Occupied(pipeline)
    requires |p| == 0 ==> c == 1
    ensures |p| > 0 ==> c >= Enter(p, |p|) + 3
    ensures BubblesBefore(p, d, c) == Bubbles(p, |p|)
    ensures forall i | 0 <= i < |p| :: Settled(p, timeline, i)
  {
    if |p| > 0 {
      PipelineDrained(p, pipeline, d, c);
      BubblesStop(p, if c > Enter(p, d) then d + 1 else d);
      forall i: nat | i < |p| ensures Settled(p, timeline, i) {
        AllSettled(p, timeline, c, i);
      }
    }
  }

  /** All that one cycle of the loop does to the pipeline, the fetch position and the bubbles. */
  lemma CycleKeeps(p: Program, pipeline: Pipeline, d: int, c: int, next: nat, fetched: Slot)
    requires Agrees(p, pipeline, c) && Front(p, d, c) && next == NextFetch(p, d)
    requires fetched == if !LoadUse(pipeline) && next < |p| then Some(p[next]) else None
    ensures Agrees(p, Advance(pipeline, fetched), c + 1)
    ensures Front(p, NextFront(p, d, c), c + 1)
    ensures NextFetch(p, NextFront(p, d, c)) == if fetched.Some? then next + 1 else next
    ensures BubblesBefore(p, NextFront(p, d, c), c + 1)
         == BubblesBefore(p, d, c) + if LoadUse(pipeline) then [c + 1] else []
  {
    hide AgreesAt, Enter;
    StallsExactly(p, pipeline, d, c);
    AdvanceAgrees(p, pipeline, d, c);
    NextBubbles(p, pipeline, d, c);
    assert Advance(pipeline, fetched) == Advance(pipeline, Fetch(p, d + 2));
  }

  ghost function NextFetch(p: Program, d: int): int {
    if d + 2 <= |p| then d + 2 else if |p| == 0 then 1 else |p|
  }

  // --- What the stalls are for ---

  /** An instruction that uses what an earlier load puts in a register is in EX only after that load was in MEM. */
  ghost predicate LoadsInTime(p: Program, timeline: Timeline)
    requires forall i | 0 <= i < |p| :: p[i].name in timeline
  {
    forall i, j, m, e | 0 <= i < j < |p| && p[i].kind == "LOAD" && p[i].destination in p[j].sources
                     && m in timeline[p[i].name].memory && e in timeline[p[j].name].execute :: m < e
  }

  /** Every instruction is in EX for one cycle: the third for the first of them, and for any other the cycle after
      the one before it, or one later still if that is a load it uses. */
  ghost predicate IssuedOnTime(p: Program, timeline: Timeline)
    requires forall i | 0 <= i < |p| :: p[i].name in timeline
  {
    && (forall i | 0 <= i < |p| :: |timeline[p[i].name].execute| == 1)
    && (p != [] ==> timeline[p[0].name].execute == [3])
    && forall j | 1 <= j < |p| ::
         timeline[p[j].name].execute[0] == timeline[p[j - 1].name].execute[0]
           + if p[j - 1].kind == "LOAD" && p[j - 1].destination in p[j].sources then 2 else 1
  }

  /** The bubbles are the cycles just before the instructions that wait for a load are in EX. */
  ghost predicate BubblesBeforeUses(p: Program, timeline: Timeline, bubbles: seq<int>)
    requires forall i | 0 <= i < |p| :: p[i].name in timeline && |timeline[p[i].name].execute| == 1
  {
    forall c :: c in bubbles <==>
      exists j | 1 <= j < |p| :: p[j - 1].kind == "LOAD" && p[j - 1].destination in p[j].sources
                              && c + 1 == timeline[p[j].name].execute[0]
  }

  lemma SettledStages(p: Program, timeline: Timeline, i: nat)
    requires i < |p| && Settled(p, timeline, i)
    ensures p[i].name in timeline
    ensures timeline[p[i].name].execute == [Enter(p, i + 1)] && timeline[p[i].name].memory == [Enter(p, i + 1) + 1]
  {
    hide Stalls, Span;
  }

  lemma LoadsArriveInTime(p: Program, timeline: Timeline)
    requires forall i | 0 <= i < |p| :: Settled(p, timeline, i)
    ensures forall i | 0 <= i < |p| :: p[i].name in timeline
    ensures LoadsInTime(p, timeline)
  {
    hide Settled, Stalls, Enter;
    forall i | 0 <= i < |p| ensures p[i].name in timeline {
      SettledStages(p, timeline, i);
    }
    forall i, j, m, e | 0 <= i < j < |p| && p[i].kind == "LOAD" && p[i].destination in p[j].sources
                     && m in timeline[p[i].name].memory && e in timeline[p[j].name].execute
      ensures m < e
    {
      SettledStages(p, timeline, i);
      SettledStages(p, timeline, j);
      EnterGrows(p, i + 1, i + 2);
      EnterGrows(p, i + 2, j + 1);
    }
  }

  lemma InstructionsIssueOnTime(p: Program, timeline: Timeline)
    requires forall i | 0 <= i < |p| :: Settled(p, timeline, i)
    ensures forall i | 0 <= i < |p| :: p[i].name in timeline
    ensures IssuedOnTime(p, timeline)
  {
    hide Settled, Stalls;
    forall i | 0 <= i < |p| ensures p[i].name in timeline && timeline[p[i].name].execute == [Enter(p, i + 1)] {
      SettledStages(p, timeline, i);
    }
    if p != [] {
      FirstEnters(p);
    }
    hide Enter;
    forall j | 1 <= j < |p| ensures Enter(p, j + 1) == Enter(p, j)
      + if p[j - 1].kind == "LOAD" && p[j - 1].destination in p[j].sources then 2 else 1
    {
      EnterGrows(p, j, j + 1);
    }
  }

  lemma FirstEnters(p: Program)
    ensures Enter(p, 1) == 3
  {
    NoFirstHazard(p);
    assert Stalls(p, 0) == 0;
  }

  lemma {:induction false} BubblesAre(p: Program, k: int, c: int)
    ensures c in Bubbles(p, k) <==> exists j | 1 <= j < k :: Hazard(p, j) && c == Enter(p, j) + 1
  {
    hide Hazard, Enter;
    if k > 0 {
      BubblesAre(p, k - 1, c);
      NoFirstHazard(p);
    }
  }

  lemma NoFirstHazard(p: Program)
    ensures !Hazard(p, 0)
  {}

  lemma {:induction false} BubblesPrecedeUses(p: Program, timeline: Timeline)
    requires forall i | 0 <= i < |p| :: Settled(p, timeline, i)
    ensures forall i | 0 <= i < |p| :: p[i].name in timeline && |timeline[p[i].name].execute| == 1
    ensures BubblesBeforeUses(p, timeline, Bubbles(p, |p|))
  {
    hide Settled, Stalls, Enter, Bubbles;
    forall i | 0 <= i < |p| ensures p[i].name in timeline && timeline[p[i].name].execute == [Enter(p, i + 1)] {
      SettledStages(p, timeline, i);
    }
    forall c {
      BubblesAre(p, |p|, c);
    }
    forall j | 1 <= j < |p| && Hazard(p, j) ensures Enter(p, j + 1) == Enter(p, j) + 2 {
      EnterGrows(p, j, j + 1);
    }
  }

  method Simulate(program: Program) returns (timeline: Timeline, bubbleCycles: seq<int>, ghost cycles: nat)
    requires NamesDistinct(program)
    ensures timeline.Keys == Names(program)
    ensures forall i | 0 <= i < |program| :: Settled(program, timeline, i)
    ensures bubbleCycles == Bubbles(program, |program|)
    ensures cycles == if program == [] then 0 else |program| + 4 + Stalls(program, |program|)
    // Without the closed form: results are there when they are used, and nothing waits for anything else.
    ensures forall i | 0 <= i < |program| :: program[i].name in timeline && |timeline[program[i].name].execute| == 1
    ensures LoadsInTime(program, timeline) && IssuedOnTime(program, timeline)
    ensures BubblesBeforeUses(program, timeline, bubbleCycles)
  {
    hide LoadsInTime, IssuedOnTime, BubblesBeforeUses, Agrees, Recorded, Front, Stalls, Settled, Names, Advance,
      LoadUse, NextFetch, BubblesBefore, RecordedFirst, Occupied, Initial, Blank;
    var pipeline := Initial(program);
    var nextInstruction := 1;
    timeline := Blank(program);
    bubbleCycles := [];
    var cycle: nat := 1;
    ghost var d := -1;
    SimulationStarts(program);
    while Occupied(pipeline)
      invariant cycle >= 1 && Agrees(program, pipeline, cycle) && Front(program, d, cycle)
      invariant Recorded(program, timeline, cycle) && timeline.Keys == Names(program)
      invariant bubbleCycles == BubblesBefore(program, d, cycle)
      invariant nextInstruction == NextFetch(program, d) && nextInstruction >= 1
      invariant |program| == 0 ==> cycle == 1
      invariant |program| > 0 ==> cycle <= Enter(program, |program|) + 3
      decreases Enter(program, |program|) + 3 - cycle
    {
      StillRunning(program, pipeline, cycle);
      ghost var before := timeline;
      Recordable(program, pipeline, timeline, cycle);
      timeline := Record(pipeline, timeline, cycle);
      RecordKeeps(program, pipeline, before, timeline, d, cycle);
      var fetched := None;
      if LoadUse(pipeline) {
        CycleKeeps(program, pipeline, d, cycle, nextInstruction, fetched);
        bubbleCycles := bubbleCycles + [cycle + 1];
      } else if nextInstruction < |program| {
        fetched := Some(program[nextInstruction]);
        CycleKeeps(program, pipeline, d, cycle, nextInstruction, fetched);
        nextInstruction := nextInstruction + 1;
      } else {
        CycleKeeps(program, pipeline, d, cycle, nextInstruction, fetched);
        assert bubbleCycles + [] == bubbleCycles;
      }
      pipeline := Advance(pipeline, fetched);
      d := NextFront(program, d, cycle);
      cycle := cycle + 1;
    }
    SimulationEnds(program, pipeline, timeline, d, cycle);
    LoadsArriveInTime(program, timeline);
    InstructionsIssueOnTime(program, timeline);
    BubblesPrecedeUses(program, timeline);
    cycles := cycle - 1;
  }
}
