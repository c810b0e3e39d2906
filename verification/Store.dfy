/** The journal's tables, the triggers that keep its counters, and the accounting they owe. */
module Store {
  import opened Common
  import A = Ancestry

  // ----- Sums over tables -----

  function SumBy<T>(f: T -> int, s: seq<T>): int {
    if s == [] then 0 else SumBy(f, s[..|s| - 1]) + f(s[|s| - 1])
  }

  function Without<T>(s: seq<T>, k: nat): seq<T>
    requires k < |s|
  {
    s[..k] + s[k + 1..]
  }

  lemma WithoutInit<T>(s: seq<T>, k: nat)
    requires k < |s|
    ensures Without(s, k) == if k == |s| - 1 then s[..k] else Without(s[..|s| - 1], k) + [s[|s| - 1]]
  {
  }

  lemma UpdateInit<T>(s: seq<T>, k: nat, x: T)
    requires k < |s|
    ensures s[k := x] == if k == |s| - 1 then s[..k] + [x] else s[..|s| - 1][k := x] + [s[|s| - 1]]
  {
  }

  lemma SplitLast<T>(s: seq<T>)
    requires s != []
    ensures s == s[..|s| - 1] + [s[|s| - 1]]
  {
  }

  lemma SumAppend<T>(f: T -> int, s: seq<T>, x: T)
    ensures SumBy(f, s + [x]) == SumBy(f, s) + f(x)
  {
    assert (s + [x])[..|s|] == s;
  }

  lemma {:induction false} SumWithout<T>(f: T -> int, s: seq<T>, k: nat)
    requires k < |s|
    ensures SumBy(f, Without(s, k)) == SumBy(f, s) - f(s[k])
  {
    var last := |s| - 1;
    WithoutInit(s, k);
    if k < last {
      SumWithout(f, s[..last], k);
      SumAppend(f, Without(s[..last], k), s[last]);
    }
  }

  lemma {:induction false} SumUpdate<T>(f: T -> int, s: seq<T>, k: nat, x: T)
    requires k < |s|
    ensures SumBy(f, s[k := x]) == SumBy(f, s) - f(s[k]) + f(x)
  {
    var last := |s| - 1;
    UpdateInit(s, k, x);
    if k == last {
      SumAppend(f, s[..last], x);
    } else {
      SumUpdate(f, s[..last], k, x);
      SumAppend(f, s[..last][k := x], s[last]);
    }
  }

  lemma {:induction false} SumNonNegative<T>(f: T -> int, s: seq<T>)
    requires forall i :: 0 <= i < |s| ==> f(s[i]) >= 0
    ensures SumBy(f, s) >= 0
  {
    if s != [] { SumNonNegative(f, s[..|s| - 1]); }
  }

  lemma {:induction false} SumAtLeast<T>(f: T -> int, s: seq<T>, k: nat)
    requires k < |s| && forall i :: 0 <= i < |s| ==> f(s[i]) >= 0
    ensures SumBy(f, s) >= f(s[k])
  {
    SumWithout(f, s, k);
    SumNonNegative(f, Without(s, k));
  }

  // ----- Tables -----

  datatype ObservationState = Waiting | Dead(reason: string)

  datatype Observation = Observation(key: Digest, body: string, bytes: nat, state: ObservationState, protocol: nat)

  datatype CommandState = Received | Executing | ResultReady | Outboxed

  datatype Command = Command(key: string, scope: string, body: string, state: CommandState, result: Option<string>,
                             bytes: nat)

  datatype RecordDigest = OfRecord(record: Digest) | CheckpointOnly(checkpoint: Digest)

  datatype Checkpoint = Checkpoint(source: string, revision: string, value: string, record: RecordDigest, bytes: nat)

  /** One archived lifecycle original. */
  datatype Original = Original(key: Digest, body: string, bytes: nat)

  /** What parsing an observation line yields as far as the journal looks at it. */
  datatype Document = Document(protocol: nat, lifecycle: bool, fact: A.Fact, isObject: bool, eventId: Option<string>,
                               recordId: string)

  datatype Counters = Counters(retained: int, pending: int, dead: int, acknowledged: int,
                               historyBytes: int, historyCount: int, graphCount: int, graphUnresolved: int)

  datatype Database = Database(observations: seq<Observation>, commands: seq<Command>, checkpoints: seq<Checkpoint>,
                               history: seq<Original>, index: A.Index, counters: Counters)

  const Empty := Database([], [], [], [], map[], Counters(0, 0, 0, 0, 0, 0, 0, 0))

  function ObservationBytes(o: Observation): int { o.bytes }
  function OneIfWaiting(o: Observation): int { if o.state.Waiting? then 1 else 0 }
  function OneIfDead(o: Observation): int { if o.state.Dead? then 1 else 0 }
  function CommandBytes(c: Command): int { c.bytes }
  function CheckpointBytes(c: Checkpoint): int { c.bytes }
  function OriginalBytes(h: Original): int { h.bytes }

  /** The quota sum the code computes: two counters and two table scans. */
  function Retained(db: Database): int {
    db.counters.retained + SumBy(CommandBytes, db.commands)
    + SumBy(CheckpointBytes, db.checkpoints) + db.counters.historyBytes
  }

  /** The bytes the four tables really hold. */
  ghost function Held(db: Database): int {
    SumBy(ObservationBytes, db.observations) + SumBy(CommandBytes, db.commands)
    + SumBy(CheckpointBytes, db.checkpoints) + SumBy(OriginalBytes, db.history)
  }

  ghost function Unresolved(index: A.Index): set<nat> {
    set i | i in index && index[i].quality != 0
  }

  ghost predicate ObservationCounters(rows: seq<Observation>, c: Counters) {
    && c.retained == SumBy(ObservationBytes, rows)
    && c.pending == SumBy(OneIfWaiting, rows)
    && c.dead == SumBy(OneIfDead, rows)
  }

  ghost predicate ArchiveCounters(history: seq<Original>, index: A.Index, c: Counters) {
    && c.historyBytes == SumBy(OriginalBytes, history) && c.historyCount == |history|
    && c.graphCount == |index| && c.graphUnresolved == |Unresolved(index)|
  }

  /** Every trigger-kept counter equals the sum or count it stands for. */
  ghost predicate CountersExact(db: Database) {
    ObservationCounters(db.observations, db.counters) && ArchiveCounters(db.history, db.index, db.counters)
  }

  // ----- Statements with their triggers -----

  function InsertObservation(db: Database, o: Observation): Database {
    db.(observations := db.observations + [o],
        counters := db.counters.(retained := db.counters.retained + o.bytes,
                                 pending := db.counters.pending + OneIfWaiting(o),
                                 dead := db.counters.dead + OneIfDead(o)))
  }

  function DeleteObservation(db: Database, k: nat): Database
    requires k < |db.observations|
  {
    var o := db.observations[k];
    db.(observations := Without(db.observations, k),
        counters := db.counters.(retained := db.counters.retained - o.bytes,
                                 pending := db.counters.pending - OneIfWaiting(o),
                                 dead := db.counters.dead - OneIfDead(o)))
  }

  function UpdateObservation(db: Database, k: nat, o: Observation): Database
    requires k < |db.observations|
  {
    var was := db.observations[k];
    db.(observations := db.observations[k := o],
        counters := db.counters.(retained := db.counters.retained + o.bytes - was.bytes,
                                 pending := db.counters.pending - OneIfWaiting(was) + OneIfWaiting(o),
                                 dead := db.counters.dead - OneIfDead(was) + OneIfDead(o)))
  }

  /** Archives an original and indexes it in the same transaction. */
  function ArchiveOriginal(db: Database, h: Original, fact: A.Fact): Database {
    var row := A.IndexRowFor(fact);
    db.(history := db.history + [h],
        index := db.index[|db.history| := row],
        counters := db.counters.(historyBytes := db.counters.historyBytes + h.bytes,
                                 historyCount := db.counters.historyCount + 1,
                                 graphCount := db.counters.graphCount + 1,
                                 graphUnresolved := db.counters.graphUnresolved + if row.quality != 0 then 1 else 0))
  }

  lemma InsertKeepsCounters(db: Database, o: Observation)
    requires CountersExact(db)
    ensures CountersExact(InsertObservation(db, o))
  {
    SumAppend(ObservationBytes, db.observations, o);
    SumAppend(OneIfWaiting, db.observations, o);
    SumAppend(OneIfDead, db.observations, o);
    assert ObservationCounters(db.observations + [o], InsertObservation(db, o).counters);
  }

  lemma DeleteKeepsCounters(db: Database, k: nat)
    requires CountersExact(db) && k < |db.observations|
    ensures CountersExact(DeleteObservation(db, k))
  {
    SumWithout(ObservationBytes, db.observations, k);
    SumWithout(OneIfWaiting, db.observations, k);
    SumWithout(OneIfDead, db.observations, k);
  }

  lemma UpdateKeepsCounters(db: Database, k: nat, o: Observation)
    requires CountersExact(db) && k < |db.observations|
    ensures CountersExact(UpdateObservation(db, k, o))
  {
    SumUpdate(ObservationBytes, db.observations, k, o);
    SumUpdate(OneIfWaiting, db.observations, k, o);
    SumUpdate(OneIfDead, db.observations, k, o);
  }

  lemma ArchiveKeepsCounters(db: Database, h: Original, fact: A.Fact)
    requires CountersExact(db) && |db.history| !in db.index
    ensures CountersExact(ArchiveOriginal(db, h, fact))
  {
    hide SumBy;
    var t := ArchiveOriginal(db, h, fact);
    SumAppend(OriginalBytes, db.history, h);
    assert Unresolved(t.index) ==
      Unresolved(db.index) + if A.IndexRowFor(fact).quality != 0 then {|db.history|} else {};
  }

  // ----- The journal's standing invariant -----

  ghost function Archive(parse: string -> Document, history: seq<Original>): seq<A.Archived> {
    seq(|history|, i requires 0 <= i < |history| => A.Archived(|history[i].body|, parse(history[i].body).fact))
  }

  ghost predicate ObservationSized(o: Observation) {
    o.bytes == |o.body| + if o.state.Dead? then |o.state.reason| else 0
  }

  ghost predicate CommandSized(c: Command) {
    && c.bytes == |c.body| + (if c.result.Some? then |c.result.value| else 0)
    && (c.result.Some? <==> c.state.ResultReady? || c.state.Outboxed?)
  }

  ghost predicate KeysDistinct(rows: seq<Observation>) {
    forall i, j :: 0 <= i < j < |rows| ==> rows[i].key != rows[j].key
  }

  ghost predicate CommandKeysDistinct(rows: seq<Command>) {
    forall i, j :: 0 <= i < j < |rows| ==> rows[i].key != rows[j].key
  }

  ghost predicate ObservationsOk(rows: seq<Observation>) {
    KeysDistinct(rows) && forall i :: 0 <= i < |rows| ==> ObservationSized(rows[i])
  }

  ghost predicate CommandsOk(rows: seq<Command>) {
    CommandKeysDistinct(rows) && forall i :: 0 <= i < |rows| ==> CommandSized(rows[i])
  }

  ghost predicate CheckpointsOk(rows: seq<Checkpoint>) {
    forall i :: 0 <= i < |rows| ==> rows[i].bytes == |rows[i].value|
  }

  ghost predicate ArchiveOk(parse: string -> Document, history: seq<Original>, index: A.Index) {
    && A.IndexSound(Archive(parse, history), index) && |index| == |history|
    && forall i :: 0 <= i < |history| ==> history[i].bytes == |history[i].body|
  }

  /** Counters are exact, no byte is held beyond the quota, rows are charged their true size,
      keys are unique and every archived original is indexed by what it says. */
  ghost predicate Sound(db: Database, limit: nat, parse: string -> Document) {
    && CountersExact(db) && Held(db) <= limit
    && ObservationsOk(db.observations) && CommandsOk(db.commands) && CheckpointsOk(db.checkpoints)
    && ArchiveOk(parse, db.history, db.index)
  }

  ghost predicate NamesNoEntity(f: A.Fact) {
    f.Refused? || f.entity.None?
  }

  /** The unresolved counter is the number of archived originals that name no entity. */
  lemma UnresolvedCounted(db: Database, limit: nat, parse: string -> Document)
    requires Sound(db, limit, parse)
    ensures db.counters.graphUnresolved ==
      |set i: nat | i < |db.history| && NamesNoEntity(parse(db.history[i].body).fact)|
  {
    var archive := Archive(parse, db.history);
    A.IndexTotal(archive, db.index);
    forall i: nat | i < |db.history|
      ensures i in db.index && (db.index[i].quality != 0 <==> NamesNoEntity(parse(db.history[i].body).fact))
    {
      assert archive[i].fact == parse(db.history[i].body).fact;
    }
    assert Unresolved(db.index) == set i: nat | i < |db.history| && NamesNoEntity(parse(db.history[i].body).fact);
  }

  /** With exact counters the quota test sees what is really held. */
  lemma RetainedIsHeld(db: Database)
    requires CountersExact(db)
    ensures Retained(db) == Held(db)
  {
  }

  lemma QuotaSeesHeld(db: Database, limit: nat, parse: string -> Document)
    requires Sound(db, limit, parse)
    ensures Retained(db) == Held(db) && 0 <= Held(db) <= limit
  {
    RetainedIsHeld(db);
    HeldParts(db);
  }

  lemma EmptySound(limit: nat, parse: string -> Document)
    ensures Sound(Empty, limit, parse)
  {
    assert Unresolved(Empty.index) == {};
  }

  lemma HeldParts(db: Database)
    ensures SumBy(ObservationBytes, db.observations) >= 0 && SumBy(CommandBytes, db.commands) >= 0
    ensures SumBy(CheckpointBytes, db.checkpoints) >= 0 && SumBy(OriginalBytes, db.history) >= 0
  {
    SumNonNegative(ObservationBytes, db.observations);
    SumNonNegative(CommandBytes, db.commands);
    SumNonNegative(CheckpointBytes, db.checkpoints);
    SumNonNegative(OriginalBytes, db.history);
  }

  /** The last row with the key; keys are unique in every sound table. */
  function FindBy<T, K(==)>(keyOf: T -> K, rows: seq<T>, key: K): (r: Option<nat>)
    ensures r.Some? ==> r.value < |rows| && keyOf(rows[r.value]) == key
    ensures r.None? ==> forall i :: 0 <= i < |rows| ==> keyOf(rows[i]) != key
  {
    if rows == [] then None
    else if keyOf(rows[|rows| - 1]) == key then Some(|rows| - 1)
    else FindBy(keyOf, rows[..|rows| - 1], key)
  }

  function ObservationKey(row: Observation): Digest {
    row.key
  }

  function FindKey(rows: seq<Observation>, key: Digest): (r: Option<nat>)
    ensures r.Some? ==> r.value < |rows| && rows[r.value].key == key
    ensures r.None? ==> forall i :: 0 <= i < |rows| ==> rows[i].key != key
  {
    FindBy(ObservationKey, rows, key)
  }

  function OriginalKey(row: Original): Digest {
    row.key
  }

  function FindOriginal(rows: seq<Original>, key: Digest): (r: Option<nat>)
    ensures r.Some? ==> r.value < |rows| && rows[r.value].key == key
    ensures r.None? ==> forall i :: 0 <= i < |rows| ==> rows[i].key != key
  {
    FindBy(OriginalKey, rows, key)
  }

  function CommandKey(row: Command): string {
    row.key
  }

  function FindCommand(rows: seq<Command>, key: string): (r: Option<nat>)
    ensures r.Some? ==> r.value < |rows| && rows[r.value].key == key
    ensures r.None? ==> forall i :: 0 <= i < |rows| ==> rows[i].key != key
  {
    FindBy(CommandKey, rows, key)
  }

  function CheckpointSource(row: Checkpoint): string {
    row.source
  }

  function FindSource(rows: seq<Checkpoint>, source: string): (r: Option<nat>)
    ensures r.Some? ==> r.value < |rows| && rows[r.value].source == source
    ensures r.None? ==> forall i :: 0 <= i < |rows| ==> rows[i].source != source
  {
    FindBy(CheckpointSource, rows, source)
  }

  lemma InsertKeepsSound(db: Database, limit: nat, parse: string -> Document, o: Observation)
    requires Sound(db, limit, parse) && FindKey(db.observations, o.key) == None && ObservationSized(o)
    requires Held(db) + o.bytes <= limit
    ensures Sound(InsertObservation(db, o), limit, parse) && Held(InsertObservation(db, o)) == Held(db) + o.bytes
  {
    hide CountersExact, CommandsOk, CheckpointsOk, ArchiveOk, SumBy;
    InsertKeepsCounters(db, o);
    SumAppend(ObservationBytes, db.observations, o);
  }

  lemma ArchiveKeepsSound(db: Database, limit: nat, parse: string -> Document, h: Original)
    requires Sound(db, limit, parse) && h.bytes == |h.body| && Held(db) + h.bytes <= limit
    ensures var t := ArchiveOriginal(db, h, parse(h.body).fact);
      Sound(t, limit, parse) && Held(t) == Held(db) + h.bytes
  {
    hide CountersExact, ObservationsOk, CommandsOk, CheckpointsOk, SumBy;
    var t := ArchiveOriginal(db, h, parse(h.body).fact);
    assert |db.history| !in db.index;
    ArchiveKeepsCounters(db, h, parse(h.body).fact);
    SumAppend(OriginalBytes, db.history, h);
    var before, after := Archive(parse, db.history), Archive(parse, t.history);
    forall i | i in t.index ensures i < |after| && t.index[i] == A.IndexRowFor(after[i].fact) {
      if i in db.index { assert db.index[i] == A.IndexRowFor(before[i].fact) && after[i] == before[i]; }
    }
  }

  lemma DeleteKeepsSound(db: Database, limit: nat, parse: string -> Document, k: nat)
    requires Sound(db, limit, parse) && k < |db.observations|
    ensures Sound(DeleteObservation(db, k), limit, parse)
    ensures Held(DeleteObservation(db, k)) == Held(db) - db.observations[k].bytes
  {
    hide CountersExact, CommandsOk, CheckpointsOk, ArchiveOk, SumBy;
    DeleteKeepsCounters(db, k);
    SumWithout(ObservationBytes, db.observations, k);
  }

  lemma UpdateKeepsSound(db: Database, limit: nat, parse: string -> Document, k: nat, o: Observation)
    requires Sound(db, limit, parse) && k < |db.observations| && o.key == db.observations[k].key && ObservationSized(o)
    requires Held(db) - db.observations[k].bytes + o.bytes <= limit
    ensures Sound(UpdateObservation(db, k, o), limit, parse)
    ensures Held(UpdateObservation(db, k, o)) == Held(db) - db.observations[k].bytes + o.bytes
  {
    hide CountersExact, CommandsOk, CheckpointsOk, ArchiveOk, SumBy;
    UpdateKeepsCounters(db, k, o);
    SumUpdate(ObservationBytes, db.observations, k, o);
  }

  lemma AddCommandKeepsSound(db: Database, limit: nat, parse: string -> Document, c: Command)
    requires Sound(db, limit, parse) && FindCommand(db.commands, c.key) == None && CommandSized(c)
    requires Held(db) + c.bytes <= limit
    ensures Sound(db.(commands := db.commands + [c]), limit, parse)
  {
    hide ObservationsOk, CheckpointsOk, ArchiveOk, SumBy;
    SumAppend(CommandBytes, db.commands, c);
  }

  lemma SetCommandKeepsSound(db: Database, limit: nat, parse: string -> Document, k: nat, c: Command)
    requires Sound(db, limit, parse) && k < |db.commands| && c.key == db.commands[k].key && CommandSized(c)
    requires Held(db) - db.commands[k].bytes + c.bytes <= limit
    ensures Sound(db.(commands := db.commands[k := c]), limit, parse)
  {
    hide ObservationsOk, CheckpointsOk, ArchiveOk, SumBy;
    SumUpdate(CommandBytes, db.commands, k, c);
  }

  /** Replacing or adding a source's checkpoint row. */
  function PutCheckpoint(rows: seq<Checkpoint>, c: Checkpoint): seq<Checkpoint> {
    match FindSource(rows, c.source)
    case Some(k) => rows[k := c]
    case None => rows + [c]
  }

  function CheckpointSize(rows: seq<Checkpoint>, source: string): nat {
    match FindSource(rows, source)
    case Some(k) => rows[k].bytes
    case None => 0
  }

  lemma PutKeepsSound(db: Database, limit: nat, parse: string -> Document, c: Checkpoint)
    requires Sound(db, limit, parse) && c.bytes == |c.value|
    requires Held(db) - CheckpointSize(db.checkpoints, c.source) + c.bytes <= limit
    ensures Sound(db.(checkpoints := PutCheckpoint(db.checkpoints, c)), limit, parse)
  {
    hide ObservationsOk, CommandsOk, ArchiveOk, SumBy;
    match FindSource(db.checkpoints, c.source)
    case Some(k) => SumUpdate(CheckpointBytes, db.checkpoints, k, c);
    case None => SumAppend(CheckpointBytes, db.checkpoints, c);
  }

  /** The quota test of a checkpoint write never subtracts more than is retained. */
  lemma CheckpointSubtractionSafe(db: Database, source: string)
    requires CountersExact(db)
    ensures CheckpointSize(db.checkpoints, source) <= Retained(db)
  {
    RetainedIsHeld(db);
    HeldParts(db);
    match FindSource(db.checkpoints, source)
    case Some(k) => SumAtLeast(CheckpointBytes, db.checkpoints, k);
    case None =>
  }

  lemma ReplacedIsRetained(db: Database, limit: nat, parse: string -> Document, source: string)
    requires Sound(db, limit, parse)
    ensures CheckpointSize(db.checkpoints, source) <= Retained(db)
  {
    CheckpointSubtractionSafe(db, source);
  }
}
