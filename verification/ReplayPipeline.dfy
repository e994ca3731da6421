/** kubernetes/observability/data-pipelines/examples/replay_demo.py: one log, two sinks, an injected rejection
    in front of the hot store, and an archive that pauses or finds the start of the log gone. */
module ReplayPipeline {
  import opened Collections
  import opened Options

  // --- Rows as they are loaded ---

  datatype Key = EventId | RunId | Sequence | State | EventTime | BytesCompleted | Extra(name: string)
  datatype Value = Text(text: string) | Number(n: int) | OtherValue
  datatype Raw = Object(fields: map<Key, Value>) | OtherRow

  const FIELDS := {EventId, RunId, Sequence, State, EventTime, BytesCompleted}
  const TEXTS := [EventId, RunId, State, EventTime]
  const NUMBERS := [Sequence, BytesCompleted]

  /** What `datetime.fromisoformat` makes of an event time. */
  datatype Stamp = Malformed | Naive | Aware

  datatype Id = Id(text: string)
  datatype Row = Row(eventId: Id, runId: Id, sequence: nat, state: string, eventTime: string, bytesCompleted: nat)

  datatype Fault = EmptyCorpus | UnexpectedFields | InvalidText | InvalidNumber | MalformedTime | NoTimezone
                 | ConflictingIdentity
  datatype Validity = Valid | Refused(fault: Fault)
  datatype Scenario = Outage | RetentionGap | Unknown(name: string)
  datatype Status = Complete | Gap

  datatype Report = Report(
    status: Status,
    sourceRecords: nat,
    logicalEvents: nat,
    duplicateSourceRecords: int,
    hotDocuments: nat,
    archiveRecords: nat,
    archiveLogicalEvents: nat,
    hotVisibleDuringArchivePause: nat,
    hotRetryWasSimulated: bool,
    archiveNextOffset: nat,
    earliestAvailableSourceOffset: nat,
    missingSourceOffsets: seq<nat>,
    logicalSinkSetsMatch: bool,
    naiveArrivalState: map<Id, string>,
    sourceSequenceState: map<Id, string>)

  datatype Outcome = Rejected(reason: Fault) | UnknownScenario | Simulated(report: Report)

  function Ids(rows: seq<Row>): set<Id> {
    set row | row in rows :: row.eventId
  }

  ghost predicate Consistent(rows: seq<Row>) {
    forall i, j | 0 <= i < |rows| && 0 <= j < |rows| && rows[i].eventId == rows[j].eventId :: rows[i] == rows[j]
  }

  /** A store with one document per event id of the rows, equal to the row. */
  ghost predicate Stores(store: map<Id, Row>, rows: seq<Row>) {
    store.Keys == Ids(rows) && forall i | 0 <= i < |rows| :: rows[i].eventId in store && store[rows[i].eventId] == rows[i]
  }

  lemma StoreNext(store: map<Id, Row>, rows: seq<Row>, row: Row)
    requires Stores(store, rows) && Consistent(rows + [row])
    ensures Stores(store[row.eventId := row], rows + [row])
  {
    var all := rows + [row];
    assert Ids(all) == Ids(rows) + {row.eventId};
    forall i | 0 <= i < |all|
      ensures all[i].eventId in store[row.eventId := row] && store[row.eventId := row][all[i].eventId] == all[i]
    {
      if i < |rows| {
        assert all[i] == rows[i] && all[|rows|] == row;
      }
    }
  }

  lemma PrefixConsistent(rows: seq<Row>, n: nat)
    requires Consistent(rows) && n <= |rows|
    ensures Consistent(rows[..n])
  {}

  // --- Validation ---

  predicate IsText(value: Value) {
    value.Text? && value.text != ""
  }

  predicate IsCount(value: Value) {
    value.Number? && value.n >= 0
  }

  predicate HasFields(raw: Raw) {
    raw.Object? && raw.fields.Keys == FIELDS
  }

  /** Exactly the six fields, of which four hold text and two a count. */
  predicate WellTyped(raw: Raw) {
    && HasFields(raw)
    && (forall k | k in TEXTS :: IsText(raw.fields[k]))
    && (forall k | k in NUMBERS :: IsCount(raw.fields[k]))
  }

  function RowOf(raw: Raw): Row
    requires WellTyped(raw)
  {
    assert forall k | k in TEXTS :: IsText(raw.fields[k]);
    TextAt(raw);
    Row(Id(raw.fields[EventId].text), Id(raw.fields[RunId].text), raw.fields[Sequence].n, raw.fields[State].text,
        raw.fields[EventTime].text, raw.fields[BytesCompleted].n)
  }

  lemma TextAt(raw: Raw)
    requires WellTyped(raw)
    ensures IsText(raw.fields[EventId]) && IsText(raw.fields[RunId]) && IsText(raw.fields[State])
    ensures IsText(raw.fields[EventTime]) && IsCount(raw.fields[Sequence]) && IsCount(raw.fields[BytesCompleted])
  {
    assert TEXTS[0] in TEXTS && TEXTS[1] in TEXTS && TEXTS[2] in TEXTS && TEXTS[3] in TEXTS;
    assert NUMBERS[0] in NUMBERS && NUMBERS[1] in NUMBERS;
  }

  /** Comparing rows by their contents is comparing what was loaded. */
  lemma RowsDetermined(a: Raw, b: Raw)
    requires WellTyped(a) && WellTyped(b)
    ensures RowOf(a) == RowOf(b) <==> a == b
  {
    TextAt(a);
    TextAt(b);
    if RowOf(a) == RowOf(b) {
      forall k | k in a.fields ensures a.fields[k] == b.fields[k] {
        assert k in FIELDS;
      }
    }
  }

  /** The first check a row fails on its own, in the order they are made. */
  ghost function RowFault(raw: Raw, stamp: string -> Stamp): Option<Fault> {
    if !HasFields(raw) then Some(UnexpectedFields)
    else if exists k | k in TEXTS :: !IsText(raw.fields[k]) then Some(InvalidText)
    else if exists k | k in NUMBERS :: !IsCount(raw.fields[k]) then Some(InvalidNumber)
    else match stamp(RowOf(raw).eventTime)
      case Malformed => Some(MalformedTime)
      case Naive => Some(NoTimezone)
      case Aware => None
  }

  method CheckRow(raw: Raw, stamp: string -> Stamp) returns (fault: Option<Fault>)
    ensures fault == RowFault(raw, stamp)
  {
    hide RowOf, IsText, IsCount;
    if raw.OtherRow? || raw.fields.Keys != FIELDS {
      return Some(UnexpectedFields);
    }
    for i := 0 to |TEXTS|
      invariant forall k | 0 <= k < i :: IsText(raw.fields[TEXTS[k]])
    {
      assert TEXTS[i] in TEXTS;
      if !IsText(raw.fields[TEXTS[i]]) {
        return Some(InvalidText);
      }
    }
    for i := 0 to |NUMBERS|
      invariant forall k | 0 <= k < i :: IsCount(raw.fields[NUMBERS[k]])
    {
      assert NUMBERS[i] in NUMBERS;
      if !IsCount(raw.fields[NUMBERS[i]]) {
        return Some(InvalidNumber);
      }
    }
    match stamp(RowOf(raw).eventTime)
    case Malformed => return Some(MalformedTime);
    case Naive => return Some(NoTimezone);
    case Aware => return None;
  }

  ghost predicate Sound(raws: seq<Raw>, stamp: string -> Stamp) {
    forall i | 0 <= i < |raws| :: RowFault(raws[i], stamp) == None
  }

  predicate AllTyped(raws: seq<Raw>) {
    forall i | 0 <= i < |raws| :: WellTyped(raws[i])
  }

  function RowsOf(raws: seq<Raw>): (rows: seq<Row>)
    requires AllTyped(raws)
    ensures |rows| == |raws|
  {
    seq(|raws|, i requires 0 <= i < |raws| => RowOf(raws[i]))
  }

  /** Every row passes on its own, and no two different rows share an event id. */
  ghost predicate GoodCorpus(raws: seq<Raw>, stamp: string -> Stamp) {
    Sound(raws, stamp) && AllTyped(raws) && Consistent(RowsOf(raws))
  }

  /** All rows before i are good together, and row i has this fault, on its own or beside them. */
  ghost predicate FirstFault(raws: seq<Raw>, stamp: string -> Stamp, i: nat, fault: Fault) {
    && i < |raws| && GoodCorpus(raws[..i], stamp)
    && match RowFault(raws[i], stamp)
       case Some(own) => fault == own
       case None => fault == ConflictingIdentity && !GoodCorpus(raws[..i + 1], stamp)
  }

  // --- The same in terms of the loaded fields ---

  function FieldOf(raw: Raw, key: Key): Option<Value> {
    if raw.Object? && key in raw.fields then Some(raw.fields[key]) else None
  }

  /** Two rows with one event id are one and the same. */
  ghost predicate OneRowPerEvent(raws: seq<Raw>) {
    forall i, j | 0 <= i < |raws| && 0 <= j < |raws| && FieldOf(raws[i], EventId) == FieldOf(raws[j], EventId) ::
      raws[i] == raws[j]
  }

  /** Which fault a row has, field by field, and in what order the checks are made. */
  lemma FaultIs(raw: Raw, stamp: string -> Stamp)
    ensures RowFault(raw, stamp) == Some(UnexpectedFields)
       <==> !(raw.Object? && raw.fields.Keys == {EventId, RunId, Sequence, State, EventTime, BytesCompleted})
    ensures raw.Object? && raw.fields.Keys == {EventId, RunId, Sequence, State, EventTime, BytesCompleted} ==>
      var f, fault := raw.fields, RowFault(raw, stamp);
      var badText := exists k | k in f && k != Sequence && k != BytesCompleted :: !f[k].Text? || f[k].text == "";
      var badNumber := exists k | k in f && (k == Sequence || k == BytesCompleted) :: !f[k].Number? || f[k].n < 0;
      && (fault == Some(InvalidText) <==> badText)
      && (fault == Some(InvalidNumber) <==> !badText && badNumber)
      && (!badText && !badNumber ==>
            && f[EventTime].Text?
            && (fault == Some(MalformedTime) <==> stamp(f[EventTime].text) == Malformed)
            && (fault == Some(NoTimezone) <==> stamp(f[EventTime].text) == Naive)
            && (fault == None <==> stamp(f[EventTime].text) == Aware))
  {
    hide IsText, IsCount, RowOf;
    if HasFields(raw) {
      BadFields(raw);
      if WellTyped(raw) {
        RowColumns(raw);
      }
    }
  }

  lemma BadFields(raw: Raw)
    requires HasFields(raw)
    ensures (exists k | k in TEXTS :: !IsText(raw.fields[k]))
       <==> exists k | k in raw.fields && k != Sequence && k != BytesCompleted ::
              !raw.fields[k].Text? || raw.fields[k].text == ""
    ensures (exists k | k in NUMBERS :: !IsCount(raw.fields[k]))
       <==> exists k | k in raw.fields && (k == Sequence || k == BytesCompleted) ::
              !raw.fields[k].Number? || raw.fields[k].n < 0
  {
    assert forall k | k in raw.fields :: k in TEXTS <==> k != Sequence && k != BytesCompleted;
    assert forall k | k in raw.fields :: k in NUMBERS <==> k == Sequence || k == BytesCompleted;
    assert forall k | k in TEXTS || k in NUMBERS :: k in raw.fields;
  }

  /** Where each column of a row comes from. */
  lemma RowColumns(raw: Raw)
    requires WellTyped(raw)
    ensures var row := RowOf(raw);
      && FieldOf(raw, EventId) == Some(Text(row.eventId.text)) && FieldOf(raw, RunId) == Some(Text(row.runId.text))
      && FieldOf(raw, State) == Some(Text(row.state)) && FieldOf(raw, EventTime) == Some(Text(row.eventTime))
      && FieldOf(raw, Sequence) == Some(Number(row.sequence))
      && FieldOf(raw, BytesCompleted) == Some(Number(row.bytesCompleted))
  {
    TextAt(raw);
  }

  lemma ColumnsOf(raws: seq<Raw>, i: nat)
    requires AllTyped(raws) && i < |raws|
    ensures RowsOf(raws)[i] == RowOf(raws[i]) && WellTyped(raws[i])
    ensures var row := RowsOf(raws)[i];
      && FieldOf(raws[i], EventId) == Some(Text(row.eventId.text))
      && FieldOf(raws[i], RunId) == Some(Text(row.runId.text))
      && FieldOf(raws[i], State) == Some(Text(row.state))
      && FieldOf(raws[i], Sequence) == Some(Number(row.sequence))
  {
    hide RowOf, WellTyped, FieldOf;
    assert WellTyped(raws[i]);
    RowColumns(raws[i]);
  }

  lemma SoundIsTyped(raws: seq<Raw>, stamp: string -> Stamp)
    requires Sound(raws, stamp)
    ensures AllTyped(raws)
  {
    hide RowFault, WellTyped;
    forall i | 0 <= i < |raws| ensures WellTyped(raws[i]) {
      PassedIsTyped(raws[i], stamp);
    }
  }

  /** A corpus whose rows all pass on their own is good exactly when rows with one event id are the same. */
  lemma GoodExactly(raws: seq<Raw>, stamp: string -> Stamp)
    ensures GoodCorpus(raws, stamp) <==> Sound(raws, stamp) && OneRowPerEvent(raws)
  {
    hide Sound, WellTyped, RowOf, FieldOf, RowFault;
    if Sound(raws, stamp) {
      SoundIsTyped(raws, stamp);
      forall i, j | 0 <= i < |raws| && 0 <= j < |raws|
        ensures FieldOf(raws[i], EventId) == FieldOf(raws[j], EventId)
           <==> RowsOf(raws)[i].eventId == RowsOf(raws)[j].eventId
        ensures raws[i] == raws[j] <==> RowsOf(raws)[i] == RowsOf(raws)[j]
      {
        ColumnsOf(raws, i);
        ColumnsOf(raws, j);
        RowsDetermined(raws[i], raws[j]);
      }
    }
  }

  ghost predicate OfRun(raw: Raw, run: Id) {
    FieldOf(raw, RunId) == Some(Text(run.text))
  }

  /** Row i is the last one of its run. */
  ghost predicate LastLoaded(raws: seq<Raw>, run: Id, i: int) {
    0 <= i < |raws| && OfRun(raws[i], run) && forall k | i < k < |raws| :: !OfRun(raws[k], run)
  }

  /** Row i is the first of the rows of its run with the largest sequence number. */
  ghost predicate NewestLoaded(raws: seq<Raw>, run: Id, i: int) {
    && 0 <= i < |raws| && OfRun(raws[i], run)
    && forall k, x, y | 0 <= k < |raws| && OfRun(raws[k], run)
                     && FieldOf(raws[k], Sequence) == Some(Number(x)) && FieldOf(raws[i], Sequence) == Some(Number(y)) ::
         x <= y && (k < i ==> x < y)
  }

  ghost predicate LastState(raws: seq<Raw>, states: map<Id, string>, run: Id) {
    if run in states then exists i :: LastLoaded(raws, run, i) && FieldOf(raws[i], State) == Some(Text(states[run]))
    else forall k | 0 <= k < |raws| :: !OfRun(raws[k], run)
  }

  ghost predicate NewestState(raws: seq<Raw>, states: map<Id, string>, run: Id) {
    if run in states then exists i :: NewestLoaded(raws, run, i) && FieldOf(raws[i], State) == Some(Text(states[run]))
    else forall k | 0 <= k < |raws| :: !OfRun(raws[k], run)
  }

  /** The state maps name exactly the loaded runs, each with the state of its last, or of its newest, row. */
  ghost predicate StatesOf(raws: seq<Raw>, naive: map<Id, string>, sequenced: map<Id, string>) {
    forall run :: LastState(raws, naive, run) && NewestState(raws, sequenced, run)
  }

  ghost function EventsOf(raws: seq<Raw>, n: nat): set<Option<Value>>
    requires n <= |raws|
  {
    set i | 0 <= i < n :: FieldOf(raws[i], EventId)
  }

  /** The rows whose documents are in the hot store when the archive's pause ends: half of them, at least one,
      and one fewer when that is four, because of the rejection. */
  ghost function SeenInPause(n: nat): nat
    requires n >= 1
    ensures SeenInPause(n) <= n
  {
    var half := if n < 2 then 1 else n / 2;
    if half == 4 then 3 else half
  }

  /** The report counts the loaded event ids and states what the loaded fields say of each run. */
  ghost predicate ReportsFields(raws: seq<Raw>, r: Report)
    requires raws != []
  {
    && r.logicalEvents == r.hotDocuments == |EventsOf(raws, |raws|)|
    && r.hotVisibleDuringArchivePause == |EventsOf(raws, SeenInPause(|raws|))|
    && StatesOf(raws, r.naiveArrivalState, r.sourceSequenceState)
  }

  lemma {:induction false} ImageSize(ids: set<Id>)
    ensures |set id | id in ids :: Some(Text(id.text))| == |ids|
  {
    var image := set id | id in ids :: Some(Text(id.text));
    if ids != {} {
      var first :| first in ids;
      var rest := ids - {first};
      ImageSize(rest);
      assert image == (set id | id in rest :: Some(Text(id.text))) + {Some(Text(first.text))};
      assert Some(Text(first.text)) !in (set id | id in rest :: Some(Text(id.text)));
    }
  }

  lemma EventsCounted(raws: seq<Raw>, n: nat)
    requires AllTyped(raws) && n <= |raws|
    ensures |EventsOf(raws, n)| == |Ids(RowsOf(raws)[..n])|
  {
    hide WellTyped, RowOf, FieldOf;
    var rows := RowsOf(raws)[..n];
    var image := set id | id in Ids(rows) :: Some(Text(id.text));
    forall i | 0 <= i < n ensures FieldOf(raws[i], EventId) == Some(Text(rows[i].eventId.text)) {
      ColumnsOf(raws, i);
    }
    forall e ensures e in EventsOf(raws, n) <==> e in image {
      if e in EventsOf(raws, n) {
        var i :| 0 <= i < n && e == FieldOf(raws[i], EventId);
        assert rows[i] in rows && rows[i].eventId in Ids(rows);
      }
      if e in image {
        var id :| id in Ids(rows) && e == Some(Text(id.text));
        var i :| 0 <= i < n && rows[i].eventId == id;
        assert FieldOf(raws[i], EventId) in EventsOf(raws, n);
      }
    }
    assert EventsOf(raws, n) == image;
    ImageSize(Ids(rows));
  }

  lemma RunColumn(raws: seq<Raw>, run: Id, i: nat)
    requires AllTyped(raws) && i < |raws|
    ensures OfRun(raws[i], run) <==> RowsOf(raws)[i].runId == run
  {
    hide WellTyped, RowOf, FieldOf;
    ColumnsOf(raws, i);
  }

  lemma LastMatches(raws: seq<Raw>, states: map<Id, string>, run: Id)
    requires AllTyped(raws) && ArrivalStates(RowsOf(raws), states)
    ensures LastState(raws, states, run)
  {
    hide WellTyped, RowOf, FieldOf, OfRun, RowsOf;
    var rows := RowsOf(raws);
    forall i | 0 <= i < |raws| ensures OfRun(raws[i], run) <==> rows[i].runId == run {
      RunColumn(raws, run, i);
    }
    if run in states {
      var i :| LastOf(rows, run, i) && states[run] == rows[i].state;
      ColumnsOf(raws, i);
      assert LastLoaded(raws, run, i);
    } else {
      assert forall k | 0 <= k < |rows| :: rows[k].runId != run;
    }
  }

  lemma NewestStateMatches(raws: seq<Raw>, states: map<Id, string>, run: Id)
    requires AllTyped(raws) && SequenceStates(RowsOf(raws), states)
    ensures NewestState(raws, states, run)
  {
    hide WellTyped, RowOf, FieldOf, OfRun, RowsOf, NewestLoaded;
    var rows := RowsOf(raws);
    if run in states {
      var i :| NewestOf(rows, run, i) && states[run] == rows[i].state;
      ColumnsOf(raws, i);
      NewestMatches(raws, run, i);
      assert NewestLoaded(raws, run, i);
    } else {
      assert forall k | 0 <= k < |rows| :: rows[k].runId != run;
      forall i | 0 <= i < |raws| ensures !OfRun(raws[i], run) {
        RunColumn(raws, run, i);
      }
    }
  }

  lemma StatesMatch(raws: seq<Raw>, naive: map<Id, string>, sequenced: map<Id, string>)
    requires AllTyped(raws) && ArrivalStates(RowsOf(raws), naive) && SequenceStates(RowsOf(raws), sequenced)
    ensures StatesOf(raws, naive, sequenced)
  {
    hide AllTyped, ArrivalStates, SequenceStates, LastState, NewestState;
    forall run ensures LastState(raws, naive, run) && NewestState(raws, sequenced, run) {
      LastMatches(raws, naive, run);
      NewestStateMatches(raws, sequenced, run);
    }
  }

  lemma NewestMatches(raws: seq<Raw>, run: Id, i: int)
    requires AllTyped(raws) && NewestOf(RowsOf(raws), run, i)
    ensures NewestLoaded(raws, run, i)
  {
    hide WellTyped, RowOf, FieldOf, OfRun, RowsOf;
    var rows := RowsOf(raws);
    forall k | 0 <= k < |raws|
      ensures OfRun(raws[k], run) <==> rows[k].runId == run
      ensures FieldOf(raws[k], Sequence) == Some(Number(rows[k].sequence))
    {
      RunColumn(raws, run, k);
      ColumnsOf(raws, k);
    }
  }

  lemma SeenIs(n: nat)
    requires n >= 1
    ensures SeenInPause(n) == HotCursor(PauseUntil(n))
  {}

  lemma FieldsReported(raws: seq<Raw>, scenario: Scenario, r: Report, hot: map<Id, Row>, archive: seq<(nat, Row)>)
    requires raws != [] && AllTyped(raws) && Accounted(RowsOf(raws), scenario, r, hot, archive)
    ensures ReportsFields(raws, r)
  {
    hide WellTyped, RowOf, FieldOf, Ids, EventsOf, ArrivalStates, SequenceStates, StatesOf, Stores, Numbered,
      SeenInPause, HotCursor, PauseUntil;
    var rows := RowsOf(raws);
    EventsCounted(raws, |raws|);
    assert rows[..|raws|] == rows;
    SeenIs(|raws|);
    EventsCounted(raws, SeenInPause(|raws|));
    StatesMatch(raws, r.naiveArrivalState, r.sourceSequenceState);
  }

  method Validate(raws: seq<Raw>, stamp: string -> Stamp) returns (r: Validity)
    ensures r.Valid? <==> raws != [] && GoodCorpus(raws, stamp)
    ensures r.Valid? <==> raws != [] && Sound(raws, stamp) && OneRowPerEvent(raws)
    ensures r.Refused? ==> if raws == [] then r.fault == EmptyCorpus else exists i :: FirstFault(raws, stamp, i, r.fault)
  {
    hide *;
    GoodExactly(raws, stamp);
    if raws == [] {
      return Refused(EmptyCorpus);
    }
    var identities: map<Id, Row> := map[];
    StartsGood(raws, stamp);
    for n := 0 to |raws|
      invariant GoodCorpus(raws[..n], stamp) && StoresCorpus(identities, raws[..n])
    {
      var fault := CheckRow(raws[n], stamp);
      if fault.Some? {
        FaultFound(raws, stamp, n, fault.value);
        return Refused(fault.value);
      }
      PassedIsTyped(raws[n], stamp);
      var row := RowOf(raws[n]);
      if row.eventId in identities && identities[row.eventId] != row {
        ConflictFound(raws, stamp, n, identities);
        return Refused(ConflictingIdentity);
      }
      RowKept(raws, stamp, n, identities);
      identities := identities[row.eventId := row];
    }
    assert raws[..|raws|] == raws;
    r := Valid;
  }

  ghost predicate StoresCorpus(store: map<Id, Row>, raws: seq<Raw>) {
    AllTyped(raws) && Stores(store, RowsOf(raws))
  }

  lemma StartsGood(raws: seq<Raw>, stamp: string -> Stamp)
    ensures GoodCorpus(raws[..0], stamp) && StoresCorpus(map[], raws[..0])
  {}

  lemma PassedIsTyped(raw: Raw, stamp: string -> Stamp)
    requires RowFault(raw, stamp) == None
    ensures WellTyped(raw)
  {
    hide RowOf, HasFields, IsText, IsCount;
  }

  lemma GoodPrefix(raws: seq<Raw>, stamp: string -> Stamp, n: nat)
    requires n <= |raws| && GoodCorpus(raws, stamp)
    ensures GoodCorpus(raws[..n], stamp)
  {
    hide RowFault, WellTyped, RowOf;
    assert RowsOf(raws[..n]) == RowsOf(raws)[..n];
  }

  lemma FaultFound(raws: seq<Raw>, stamp: string -> Stamp, n: nat, fault: Fault)
    requires n < |raws| && GoodCorpus(raws[..n], stamp) && RowFault(raws[n], stamp) == Some(fault)
    ensures FirstFault(raws, stamp, n, fault) && !GoodCorpus(raws, stamp)
  {
    hide RowFault, WellTyped, RowOf;
  }

  lemma OneMoreRow(raws: seq<Raw>, n: nat)
    requires n < |raws| && AllTyped(raws[..n]) && WellTyped(raws[n])
    ensures AllTyped(raws[..n + 1]) && RowsOf(raws[..n + 1]) == RowsOf(raws[..n]) + [RowOf(raws[n])]
  {
    hide WellTyped, RowOf;
    assert raws[..n + 1] == raws[..n] + [raws[n]];
  }

  lemma ConflictFound(raws: seq<Raw>, stamp: string -> Stamp, n: nat, identities: map<Id, Row>)
    requires n < |raws| && GoodCorpus(raws[..n], stamp) && StoresCorpus(identities, raws[..n])
    requires RowFault(raws[n], stamp) == None && WellTyped(raws[n])
    requires var row := RowOf(raws[n]); row.eventId in identities && identities[row.eventId] != row
    ensures FirstFault(raws, stamp, n, ConflictingIdentity) && !GoodCorpus(raws, stamp)
  {
    hide RowFault, WellTyped, RowOf, Sound;
    var rows, row := RowsOf(raws[..n]), RowOf(raws[n]);
    OneMoreRow(raws, n);
    var i :| 0 <= i < n && rows[i].eventId == row.eventId;
    assert (rows + [row])[i] == rows[i] && (rows + [row])[n] == row;
    if GoodCorpus(raws, stamp) {
      GoodPrefix(raws, stamp, n + 1);
    }
  }

  lemma RowKept(raws: seq<Raw>, stamp: string -> Stamp, n: nat, identities: map<Id, Row>)
    requires n < |raws| && GoodCorpus(raws[..n], stamp) && StoresCorpus(identities, raws[..n])
    requires RowFault(raws[n], stamp) == None && WellTyped(raws[n])
    requires var row := RowOf(raws[n]); row.eventId in identities ==> identities[row.eventId] == row
    ensures var row := RowOf(raws[n]); StoresCorpus(identities[row.eventId := row], raws[..n + 1])
    ensures GoodCorpus(raws[..n + 1], stamp)
  {
    hide RowFault, WellTyped, RowOf, Stores, Consistent;
    var rows, row := RowsOf(raws[..n]), RowOf(raws[n]);
    OneMoreRow(raws, n);
    ConsistentNext(identities, rows, row);
    StoreNext(identities, rows, row);
    assert raws[..n + 1] == raws[..n] + [raws[n]];
  }

  lemma ConsistentNext(store: map<Id, Row>, rows: seq<Row>, row: Row)
    requires Consistent(rows) && Stores(store, rows) && (row.eventId in store ==> store[row.eventId] == row)
    ensures Consistent(rows + [row])
  {}

  // --- Business state per run ---

  ghost predicate LastOf(rows: seq<Row>, run: Id, i: int) {
    0 <= i < |rows| && rows[i].runId == run && forall k | i < k < |rows| :: rows[k].runId != run
  }

  /** The first of the rows of a run with the largest sequence number. */
  ghost predicate NewestOf(rows: seq<Row>, run: Id, i: int) {
    && 0 <= i < |rows| && rows[i].runId == run
    && (forall k | 0 <= k < |rows| && rows[k].runId == run :: rows[k].sequence <= rows[i].sequence)
    && (forall k | 0 <= k < i && rows[k].runId == run :: rows[k].sequence < rows[i].sequence)
  }

  ghost predicate ArrivalStates(rows: seq<Row>, states: map<Id, string>) {
    forall run :: if run in states then exists i :: LastOf(rows, run, i) && states[run] == rows[i].state
                  else forall k | 0 <= k < |rows| :: rows[k].runId != run
  }

  ghost predicate NewestRows(rows: seq<Row>, newest: map<Id, Row>) {
    forall run :: if run in newest then exists i :: NewestOf(rows, run, i) && newest[run] == rows[i]
                  else forall k | 0 <= k < |rows| :: rows[k].runId != run
  }

  ghost predicate SequenceStates(rows: seq<Row>, states: map<Id, string>) {
    forall run :: if run in states then exists i :: NewestOf(rows, run, i) && states[run] == rows[i].state
                  else forall k | 0 <= k < |rows| :: rows[k].runId != run
  }

  lemma ArrivalNext(rows: seq<Row>, states: map<Id, string>, row: Row)
    requires ArrivalStates(rows, states)
    ensures ArrivalStates(rows + [row], states[row.runId := row.state])
  {
    var all, states' := rows + [row], states[row.runId := row.state];
    assert LastOf(all, row.runId, |rows|);
    forall run | run in states && run != row.runId
      ensures exists i :: LastOf(all, run, i) && states'[run] == all[i].state
    {
      var i :| LastOf(rows, run, i) && states[run] == rows[i].state;
      assert LastOf(all, run, i);
    }
  }

  lemma NewestNext(rows: seq<Row>, newest: map<Id, Row>, row: Row)
    requires NewestRows(rows, newest)
    ensures NewestRows(rows + [row],
      if row.runId !in newest || row.sequence > newest[row.runId].sequence then newest[row.runId := row] else newest)
  {
    var all, takes := rows + [row], row.runId !in newest || row.sequence > newest[row.runId].sequence;
    var newest' := if takes then newest[row.runId := row] else newest;
    forall run | run in newest' ensures exists i :: NewestOf(all, run, i) && newest'[run] == all[i] {
      if run == row.runId && takes {
        NewRowIsNewest(rows, newest, row);
      } else {
        OldRowStaysNewest(rows, newest, row, run);
      }
    }
  }

  lemma NewRowIsNewest(rows: seq<Row>, newest: map<Id, Row>, row: Row)
    requires NewestRows(rows, newest)
    requires row.runId !in newest || row.sequence > newest[row.runId].sequence
    ensures NewestOf(rows + [row], row.runId, |rows|)
  {
    if row.runId in newest {
      var i :| NewestOf(rows, row.runId, i) && newest[row.runId] == rows[i];
    }
  }

  lemma OldRowStaysNewest(rows: seq<Row>, newest: map<Id, Row>, row: Row, run: Id)
    requires NewestRows(rows, newest) && run in newest
    requires run == row.runId ==> row.sequence <= newest[run].sequence
    ensures exists i :: NewestOf(rows + [row], run, i) && newest[run] == (rows + [row])[i]
  {
    var i :| NewestOf(rows, run, i) && newest[run] == rows[i];
    assert NewestOf(rows + [row], run, i);
  }

  method BusinessStates(rows: seq<Row>) returns (arrival: map<Id, string>, sequenced: map<Id, string>)
    ensures ArrivalStates(rows, arrival) && SequenceStates(rows, sequenced)
  {
    arrival := map[];
    var newest: map<Id, Row> := map[];
    for n := 0 to |rows|
      invariant ArrivalStates(rows[..n], arrival) && NewestRows(rows[..n], newest)
    {
      hide ArrivalStates, NewestRows;
      var row := rows[n];
      assert rows[..n + 1] == rows[..n] + [row];
      ArrivalNext(rows[..n], arrival, row);
      NewestNext(rows[..n], newest, row);
      arrival := arrival[row.runId := row.state];
      if row.runId !in newest || row.sequence > newest[row.runId].sequence {
        newest := newest[row.runId := row];
      }
    }
    assert rows[..|rows|] == rows;
    sequenced := map run | run in newest :: newest[run].state;
  }

  // --- When the order of arrival does not matter ---

  /** All rows of a run carry one state. */
  ghost predicate OneStatePerRun(rows: seq<Row>) {
    forall r, s | r in rows && s in rows && r.runId == s.runId :: r.state == s.state
  }

  /** A row whose run has none with a larger sequence number. */
  ghost predicate Newest(rows: seq<Row>, r: Row) {
    r in rows && forall s | s in rows && s.runId == r.runId :: s.sequence <= r.sequence
  }

  /** The rows of a run with its largest sequence number carry one state. */
  ghost predicate OneNewestState(rows: seq<Row>) {
    forall r, s | Newest(rows, r) && Newest(rows, s) && r.runId == s.runId :: r.state == s.state
  }

  ghost predicate ArrivalOrderFree(rows: seq<Row>) {
    forall other, a, b | multiset(other) == multiset(rows) && ArrivalStates(rows, a) && ArrivalStates(other, b) :: a == b
  }

  ghost predicate SequenceOrderFree(rows: seq<Row>) {
    forall other, a, b | multiset(other) == multiset(rows) && SequenceStates(rows, a) && SequenceStates(other, b) :: a == b
  }

  lemma SameMembers(rows: seq<Row>, other: seq<Row>)
    requires multiset(rows) == multiset(other)
    ensures forall r :: r in rows <==> r in other
  {
    forall r ensures r in rows <==> r in other {
      assert r in multiset(rows) <==> r in multiset(other);
    }
  }

  lemma ArrivalStateAt(rows: seq<Row>, a: map<Id, string>, run: Id)
    requires ArrivalStates(rows, a)
    ensures run in a <==> exists r :: r in rows && r.runId == run
    ensures run in a ==> exists r :: r in rows && r.runId == run && a[run] == r.state
  {
    if run in a {
      var i :| LastOf(rows, run, i) && a[run] == rows[i].state;
      assert rows[i] in rows;
    }
  }

  /** The reported state is that of a newest row of the run. */
  lemma SequenceStateAt(rows: seq<Row>, a: map<Id, string>, run: Id)
    requires SequenceStates(rows, a)
    ensures run in a <==> exists r :: r in rows && r.runId == run
    ensures run in a ==> exists r :: Newest(rows, r) && r.runId == run && a[run] == r.state
  {
    if run in a {
      var i :| NewestOf(rows, run, i) && a[run] == rows[i].state;
      assert Newest(rows, rows[i]);
    }
  }

  /** With one state per run, every order of arrival gives the same arrival states. */
  lemma ArrivalStateIgnoresOrder(rows: seq<Row>, other: seq<Row>, a: map<Id, string>, b: map<Id, string>)
    requires multiset(rows) == multiset(other) && ArrivalStates(rows, a) && ArrivalStates(other, b)
    requires OneStatePerRun(rows)
    ensures a == b
  {
    hide ArrivalStates;
    SameMembers(rows, other);
    forall run ensures (run in a <==> run in b) && (run in a ==> a[run] == b[run]) {
      ArrivalStateAt(rows, a, run);
      ArrivalStateAt(other, b, run);
    }
  }

  /** With one newest state per run, every order of arrival gives the same sequence states. */
  lemma SequenceStateIgnoresOrder(rows: seq<Row>, other: seq<Row>, a: map<Id, string>, b: map<Id, string>)
    requires multiset(rows) == multiset(other) && SequenceStates(rows, a) && SequenceStates(other, b)
    requires OneNewestState(rows)
    ensures a == b
  {
    hide SequenceStates;
    SameMembers(rows, other);
    assert forall r :: Newest(other, r) <==> Newest(rows, r);
    hide Newest;
    forall run ensures (run in a <==> run in b) && (run in a ==> a[run] == b[run]) {
      SequenceStateAt(rows, a, run);
      SequenceStateAt(other, b, run);
    }
  }

  lemma {:induction false} ArrivalExists(rows: seq<Row>) returns (a: map<Id, string>)
    ensures ArrivalStates(rows, a)
  {
    if rows == [] {
      a := map[];
    } else {
      hide ArrivalStates;
      var n := |rows| - 1;
      a := ArrivalExists(rows[..n]);
      ArrivalNext(rows[..n], a, rows[n]);
      a := a[rows[n].runId := rows[n].state];
      assert rows == rows[..n] + [rows[n]];
    }
  }

  lemma {:induction false} NewestExists(rows: seq<Row>) returns (newest: map<Id, Row>)
    ensures NewestRows(rows, newest)
  {
    if rows == [] {
      newest := map[];
    } else {
      hide NewestRows;
      var n := |rows| - 1;
      newest := NewestExists(rows[..n]);
      NewestNext(rows[..n], newest, rows[n]);
      if rows[n].runId !in newest || rows[n].sequence > newest[rows[n].runId].sequence {
        newest := newest[rows[n].runId := rows[n]];
      }
      assert rows == rows[..n] + [rows[n]];
    }
  }

  lemma SequenceExists(rows: seq<Row>) returns (a: map<Id, string>)
    ensures SequenceStates(rows, a)
  {
    var newest := NewestExists(rows);
    a := map run | run in newest :: newest[run].state;
  }

  /** Some order of arrival makes any chosen row decide its run's arrival state: the one in which it comes last. */
  lemma ArrivesLast(rows: seq<Row>, r: Row) returns (other: seq<Row>, b: map<Id, string>)
    requires r in rows
    ensures multiset(other) == multiset(rows) && ArrivalStates(other, b) && r.runId in b && b[r.runId] == r.state
  {
    var before, after := SplitAt(rows, r);
    var rest := before + after;
    other := rest + [r];
    var a := ArrivalExists(rest);
    ArrivalNext(rest, a, r);
    b := a[r.runId := r.state];
  }

  /** Some order makes any newest row decide its run's sequence state: the one in which it comes first. */
  lemma ArrivesFirst(rows: seq<Row>, r: Row) returns (other: seq<Row>, b: map<Id, string>)
    requires Newest(rows, r)
    ensures multiset(other) == multiset(rows) && SequenceStates(other, b) && r.runId in b && b[r.runId] == r.state
  {
    var before, after := SplitAt(rows, r);
    other := [r] + (before + after);
    b := SequenceExists(other);
    SameMembers(rows, other);
    FirstDecides(other, b);
  }

  lemma FirstDecides(rows: seq<Row>, b: map<Id, string>)
    requires rows != [] && Newest(rows, rows[0]) && SequenceStates(rows, b)
    ensures rows[0].runId in b && b[rows[0].runId] == rows[0].state
  {
    var run := rows[0].runId;
    var i :| NewestOf(rows, run, i) && b[run] == rows[i].state;
    assert rows[i] in rows;
    assert i == 0;
  }

  /** The arrival states are the same for every order of the rows exactly when each run has one state throughout. */
  lemma ArrivalOrderFreeExactly(rows: seq<Row>)
    ensures ArrivalOrderFree(rows) <==> OneStatePerRun(rows)
  {
    hide ArrivalStates;
    if OneStatePerRun(rows) {
      forall other, a, b | multiset(other) == multiset(rows) && ArrivalStates(rows, a) && ArrivalStates(other, b)
        ensures a == b
      {
        ArrivalStateIgnoresOrder(rows, other, a, b);
      }
    }
    if ArrivalOrderFree(rows) {
      var a := ArrivalExists(rows);
      forall r, s | r in rows && s in rows && r.runId == s.runId ensures r.state == s.state {
        var first, b := ArrivesLast(rows, r);
        var second, c := ArrivesLast(rows, s);
        assert a == b && a == c;
      }
    }
  }

  /** The sequence states are the same for every order of the rows exactly when the rows with a run's largest
      sequence number agree. */
  lemma SequenceOrderFreeExactly(rows: seq<Row>)
    ensures SequenceOrderFree(rows) <==> OneNewestState(rows)
  {
    hide SequenceStates, Newest;
    if OneNewestState(rows) {
      forall other, a, b | multiset(other) == multiset(rows) && SequenceStates(rows, a) && SequenceStates(other, b)
        ensures a == b
      {
        SequenceStateIgnoresOrder(rows, other, a, b);
      }
    }
    if SequenceOrderFree(rows) {
      var a := SequenceExists(rows);
      forall r, s | Newest(rows, r) && Newest(rows, s) && r.runId == s.runId ensures r.state == s.state {
        var first, b := ArrivesFirst(rows, r);
        var second, c := ArrivesFirst(rows, s);
        assert a == b && a == c;
      }
    }
  }

  // --- The simulation ---

  /** Every row with its offset, in order. */
  function Numbered(rows: seq<Row>): (r: seq<(nat, Row)>)
    ensures |r| == |rows| && forall i | 0 <= i < |r| :: r[i] == (i, rows[i])
  {
    seq(|rows|, i requires 0 <= i < |rows| => (i, rows[i]))
  }

  function PauseUntil(n: nat): nat {
    if n / 2 >= 1 then n / 2 else 1
  }

  /** Rows the hot store has taken when the log holds n of them: the rejection at offset 3 costs one tick. */
  function HotCursor(n: nat): nat {
    if n == 4 then 3 else n
  }

  /** The rows whose documents are visible at the last tick of the archive's pause. */
  ghost function VisibleDuringPause(rows: seq<Row>): set<Id>
    requires rows != []
  {
    Ids(rows[..HotCursor(PauseUntil(|rows|))])
  }

  /** The hot store takes rows from the log until it is level, or meets the one injected rejection. */
  method DrainHot(source: seq<Row>, store: map<Id, Row>, cursor: nat, wasRetried: bool)
    returns (hot: map<Id, Row>, hotCursor: nat, retried: bool)
    requires Consistent(source) && cursor <= |source| && Stores(store, source[..cursor])
    ensures hotCursor <= |source| && Stores(hot, source[..hotCursor])
    ensures var rejects := !wasRetried && cursor <= 3 < |source|;
      && retried == (wasRetried || rejects)
      && hotCursor == if rejects then 3 else |source|
  {
    hot, hotCursor, retried := store, cursor, wasRetried;
    while hotCursor < |source|
      invariant cursor <= hotCursor <= |source| && Stores(hot, source[..hotCursor])
      invariant retried == wasRetried && (cursor <= 3 && !wasRetried ==> hotCursor <= 3)
    {
      if hotCursor == 3 && !retried {
        retried := true;
        break;
      }
      var event := source[hotCursor];
      assert source[..hotCursor + 1] == source[..hotCursor] + [event];
      PrefixConsistent(source, hotCursor + 1);
      StoreNext(hot, source[..hotCursor], event);
      hot := hot[event.eventId := event];
      hotCursor := hotCursor + 1;
    }
  }

  /** After the last arrival the hot store takes what is left. */
  method DrainRest(source: seq<Row>, store: map<Id, Row>, cursor: nat) returns (hot: map<Id, Row>, hotCursor: nat)
    requires Consistent(source) && cursor <= |source| && Stores(store, source[..cursor])
    ensures hotCursor == |source| && Stores(hot, source)
  {
    hot, hotCursor := store, cursor;
    while hotCursor < |source|
      invariant hotCursor <= |source| && Stores(hot, source[..hotCursor])
    {
      var event := source[hotCursor];
      assert source[..hotCursor + 1] == source[..hotCursor] + [event];
      PrefixConsistent(source, hotCursor + 1);
      StoreNext(hot, source[..hotCursor], event);
      hot := hot[event.eventId := event];
      hotCursor := hotCursor + 1;
    }
    assert source[..|source|] == source;
  }

  /** The archive appends every row it has not taken, with its offset. */
  method DrainArchive(source: seq<Row>, stored: seq<(nat, Row)>, cursor: nat)
    returns (archive: seq<(nat, Row)>, archiveCursor: nat)
    requires cursor <= |source| && stored == Numbered(source[..cursor])
    ensures archiveCursor == |source| && archive == Numbered(source)
  {
    archive, archiveCursor := stored, cursor;
    while archiveCursor < |source|
      invariant archiveCursor <= |source| && archive == Numbered(source[..archiveCursor])
    {
      archive := archive + [(archiveCursor, source[archiveCursor])];
      archiveCursor := archiveCursor + 1;
    }
    assert source[..|source|] == source;
  }

  /** What the report says of the rows. */
  ghost predicate Reported(rows: seq<Row>, scenario: Scenario, r: Report)
    requires rows != []
  {
    var n := |rows|;
    && r.hotDocuments == r.logicalEvents == |Ids(rows)|
    && r.sourceRecords == n && r.duplicateSourceRecords == n - |Ids(rows)|
    && r.hotRetryWasSimulated == (n >= 4)
    && r.hotVisibleDuringArchivePause == |VisibleDuringPause(rows)|
    && ArrivalStates(rows, r.naiveArrivalState) && SequenceStates(rows, r.sourceSequenceState)
    && if scenario == Outage then
         && r.archiveRecords == r.archiveNextOffset == n
         && r.status == Complete && r.missingSourceOffsets == [] && r.earliestAvailableSourceOffset == 0
         && r.archiveLogicalEvents == |Ids(rows)| && r.logicalSinkSetsMatch
       else
         && r.archiveRecords == r.archiveNextOffset == 0
         && r.status == Gap && r.earliestAvailableSourceOffset == (if n <= 3 then n else 3)
         && r.missingSourceOffsets == seq(if n <= 3 then n else 3, i => i)
         && r.archiveLogicalEvents == 0 && !r.logicalSinkSetsMatch
  }

  /** Nothing is lost and nothing invented: in the outage both sinks end up with the log, in the retention gap
      the archive refuses to skip and reports exactly the offsets it cannot read. */
  ghost predicate Accounted(rows: seq<Row>, scenario: Scenario, r: Report, hot: map<Id, Row>, archive: seq<(nat, Row)>)
    requires rows != []
  {
    Reported(rows, scenario, r) && Stores(hot, rows) && archive == if scenario == Outage then Numbered(rows) else []
  }

  /** The arrival loop: one row per tick, the hot store at once, the archive only after its pause. */
  method Ingest(rows: seq<Row>, scenario: Scenario)
    returns (store: map<Id, Row>, hotCursor: nat, stored: seq<(nat, Row)>, archiveCursor: nat, retried: bool, visible: nat)
    requires rows != [] && Consistent(rows)
    ensures hotCursor <= |rows| && Stores(store, rows[..hotCursor]) && retried == (|rows| >= 4)
    ensures archiveCursor <= |rows| && stored == Numbered(rows[..archiveCursor])
    ensures scenario == RetentionGap ==> archiveCursor == 0
    ensures visible == |VisibleDuringPause(rows)|
  {
    hide Stores, Consistent, Numbered, VisibleDuringPause, HotCursor;
    var source: seq<Row> := [];
    store, stored := map[], [];
    hotCursor, archiveCursor, retried, visible := 0, 0, false, 0;
    NothingStored();
    TickCursor(|rows|);
    var pauseUntil := PauseUntil(|rows|);
    for tick := 0 to |rows|
      invariant hotCursor == HotCursor(tick) <= tick && retried == (tick >= 4)
      invariant source == rows[..tick] && Stores(store, rows[..hotCursor])
      invariant archiveCursor == if scenario == Outage && tick > pauseUntil then tick else 0
      invariant stored == Numbered(rows[..archiveCursor])
      invariant tick >= pauseUntil ==> visible == |VisibleDuringPause(rows)|
    {
      source := source + [rows[tick]];
      PrefixConsistent(rows, tick + 1);
      TickCursor(tick);
      assert source == rows[..tick + 1];
      assert source[..hotCursor] == rows[..hotCursor] && source[..archiveCursor] == rows[..archiveCursor];
      store, hotCursor, retried := DrainHot(source, store, hotCursor, retried);
      assert source[..hotCursor] == rows[..hotCursor];
      if tick < pauseUntil {
        visible := |store|;
        StoreVisible(store, rows, tick + 1);
      }
      if scenario == Outage && tick >= pauseUntil {
        stored, archiveCursor := DrainArchive(source, stored, archiveCursor);
      }
    }
  }

  lemma NothingStored()
    ensures Stores(map[], []) && Numbered([]) == []
  {}

  lemma StoreSize(store: map<Id, Row>, rows: seq<Row>)
    requires Stores(store, rows)
    ensures store.Keys == Ids(rows) && |store| == |Ids(rows)|
  {}

  lemma StoreVisible(store: map<Id, Row>, rows: seq<Row>, n: nat)
    requires rows != [] && n <= |rows| && Stores(store, rows[..HotCursor(n)])
    ensures n == PauseUntil(|rows|) ==> |store| == |VisibleDuringPause(rows)|
  {}

  /** A tick drains the hot store, or stops it at offset 3 the first time. */
  lemma TickCursor(n: nat)
    ensures HotCursor(0) == 0 && HotCursor(n) <= n && HotCursor(n + 1) <= n + 1
    ensures var rejects := !(n >= 4) && HotCursor(n) <= 3 < n + 1;
      ((n >= 4) || rejects) == (n + 1 >= 4) && HotCursor(n + 1) == if rejects then 3 else n + 1
  {}

  lemma NumberedIds(rows: seq<Row>)
    ensures (set entry | entry in Numbered(rows) :: entry.1.eventId) == Ids(rows)
  {
    forall id ensures id in Ids(rows) ==> exists entry | entry in Numbered(rows) :: entry.1.eventId == id {
      if id in Ids(rows) {
        var i :| 0 <= i < |rows| && rows[i].eventId == id;
        assert Numbered(rows)[i] in Numbered(rows);
      }
    }
  }

  method Simulate(raws: seq<Raw>, scenario: Scenario, stamp: string -> Stamp)
    returns (r: Outcome, ghost hot: map<Id, Row>, ghost archive: seq<(nat, Row)>)
    ensures r.Rejected? <==> raws == [] || !GoodCorpus(raws, stamp)
    ensures r.Rejected? ==>
      if raws == [] then r.reason == EmptyCorpus else exists i :: FirstFault(raws, stamp, i, r.reason)
    ensures r.UnknownScenario? <==> raws != [] && GoodCorpus(raws, stamp) && scenario.Unknown?
    ensures r.Simulated? ==> raws != [] && AllTyped(raws) && Accounted(RowsOf(raws), scenario, r.report, hot, archive)
    // In terms of the loaded fields.
    ensures r.Rejected? <==> raws == [] || !Sound(raws, stamp) || !OneRowPerEvent(raws)
    ensures r.Simulated? ==> ReportsFields(raws, r.report)
  {
    hide *;
    GoodExactly(raws, stamp);
    hot, archive := map[], [];
    var validity := Validate(raws, stamp);
    if validity.Refused? {
      return Rejected(validity.fault), hot, archive;
    }
    if scenario.Unknown? {
      return UnknownScenario, hot, archive;
    }
    GoodIsConsistent(raws, stamp);
    var report;
    report, hot, archive := Replay(RowsOf(raws), scenario);
    FieldsReported(raws, scenario, report, hot, archive);
    r := Simulated(report);
  }

  lemma GoodIsConsistent(raws: seq<Raw>, stamp: string -> Stamp)
    requires GoodCorpus(raws, stamp)
    ensures AllTyped(raws) && Consistent(RowsOf(raws))
  {
    hide Sound, AllTyped, Consistent, RowsOf;
  }

  /** The simulation of a validated corpus. */
  method Replay(rows: seq<Row>, scenario: Scenario)
    returns (r: Report, ghost hot: map<Id, Row>, ghost archive: seq<(nat, Row)>)
    requires rows != [] && Consistent(rows) && !scenario.Unknown?
    ensures Reported(rows, scenario, r)
    ensures Accounted(rows, scenario, r, hot, archive)
  {
    hide Stores, Consistent, Numbered, ArrivalStates, SequenceStates, VisibleDuringPause, Ids;
    var store, hotCursor, stored, archiveCursor, retried, visible := Ingest(rows, scenario);
    store, hotCursor := DrainRest(rows, store, hotCursor);
    StoreSize(store, rows);
    var earliest := if scenario != RetentionGap then 0 else if |rows| <= 3 then |rows| else 3;
    var missing := if archiveCursor < earliest then seq(earliest - archiveCursor, i => archiveCursor + i) else [];
    if missing == [] {
      stored, archiveCursor := DrainArchive(rows, stored, archiveCursor);
      NumberedIds(rows);
    } else {
      assert rows[..0] == [];
      NothingStored();
      SomeId(rows);
    }
    var arrival, sequenced := BusinessStates(rows);
    var archiveIds := set entry | entry in stored :: entry.1.eventId;
    r := Report(
      if missing != [] then Gap else Complete,
      |rows|, |Ids(rows)|, |rows| - |Ids(rows)|, |store|, |stored|, |archiveIds|, visible, retried,
      archiveCursor, earliest, missing, store.Keys == archiveIds == Ids(rows), arrival, sequenced);
    hot, archive := store, stored;
  }

  lemma SomeId(rows: seq<Row>)
    requires rows != []
    ensures Ids(rows) != {}
  {
    assert rows[0].eventId in Ids(rows);
  }
}
