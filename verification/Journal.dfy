/** The durable journal: observations, source checkpoints and response commands in one
    transactional store under one byte quota. Every public method is one transaction. */
module Journal {
  import opened Common
  import opened Store
  import opened Delivery
  import opened SourceLog
  import opened Checkpoints
  import A = Ancestry

  /** What the storage underneath does to one call: the sampled growth admission may refuse, a
      commit may fail, or a commit may take effect and still be reported as failed. */
  datatype Fault = NoFault | AdmissionRefused | CommitFailed | CommitUnreported

  datatype Error =
    | InvalidArgument | QuotaExhausted | StorageFailure | RevisionConflict | CountLimit
    | InvalidReceipt | HeadTooLarge | IdentityCollision | NoSuchCommand | NoIntent

  type Outcome = Result<(), Error>

  /** The character scans of the argument checks. */
  predicate HasAny(text: string, chars: set<char>) {
    exists i :: 0 <= i < |text| && text[i] in chars
  }

  predicate HasOther(text: string, chars: set<char>) {
    exists i :: 0 <= i < |text| && text[i] !in chars
  }

  ghost predicate Blank(line: string) {
    forall i :: 0 <= i < |line| ==> line[i] == ' ' || line[i] == '\t'
  }

  ghost predicate SingleLine(line: string) {
    forall i :: 0 <= i < |line| ==> line[i] != '\n' && line[i] != '\r'
  }

  ghost predicate ValidSource(source: string) {
    0 < |source| <= 512 && SingleLine(source) && forall i :: 0 <= i < |source| ==> source[i] != '\0'
  }

  ghost predicate ValidCheckpoint(source: string, checkpoint: string, expected: nat) {
    ValidSource(source) && 0 < |checkpoint| <= 16384 && expected < U64_MAX
  }

  /** The copies an observation still needs: one to deliver, and one archived if it is a process
      lifecycle record. */
  ghost function Copies(db: Database, d: Document, key: Digest): nat {
    (if FindKey(db.observations, key).Some? then 0 else 1)
    + (if d.lifecycle && FindOriginal(db.history, key).None? then 1 else 0)
  }

  /** The observation is retained, and archived if it is a lifecycle record; nothing is duplicated. */
  ghost predicate Inserted(db: Database, t: Database, d: Document, line: string, key: Digest) {
    && t.commands == db.commands && t.checkpoints == db.checkpoints
    && t.counters.acknowledged == db.counters.acknowledged
    && t.observations == db.observations +
         (if FindKey(db.observations, key).Some? then [] else [Observation(key, line, |line|, Waiting, d.protocol)])
    && t.history == db.history +
         (if d.lifecycle && FindOriginal(db.history, key).None? then [Original(key, line, |line|)] else [])
  }

  /** The receipt has been applied: every row has its fate and retired rows are counted. */
  ghost predicate SettledBy(db: Database, t: Database, batch: Batch, receipt: Receipt) {
    && receipt.Receipt?
    && t == db.(
        observations := Settled(db.observations, batch.lines, VerdictList(receipt, |batch.lines|), |batch.lines|),
        counters := t.counters)
    && t.counters.acknowledged == db.counters.acknowledged + |db.observations| - |t.observations|
  }

  ghost predicate InState(rows: seq<Command>, scope: string, key: string, state: CommandState) {
    match FindCommand(rows, key)
    case None => false
    case Some(k) => rows[k].scope == scope && rows[k].state == state
  }

  ghost predicate Holds(rows: seq<Command>, scope: string, key: string, body: string) {
    match FindCommand(rows, key)
    case None => false
    case Some(k) => rows[k].scope == scope && rows[k].body == body
  }

  /** A scope's commands that still need work, oldest first. */
  function Unfinished(rows: seq<Command>, scope: string): seq<Command> {
    if rows == [] then [] else
      var c := rows[|rows| - 1];
      Unfinished(rows[..|rows| - 1], scope) + if c.scope == scope && c.state != Outboxed then [c] else []
  }

  lemma {:induction false} UnfinishedMembers(rows: seq<Command>, scope: string, c: Command)
    ensures c in Unfinished(rows, scope) <==> c in rows && c.scope == scope && c.state != Outboxed
  {
    if rows != [] {
      UnfinishedMembers(rows[..|rows| - 1], scope, c);
      SplitLast(rows);
    }
  }

  lemma {:induction false} UnfinishedDistinct(rows: seq<Command>, scope: string)
    requires CommandKeysDistinct(rows)
    ensures CommandKeysDistinct(Unfinished(rows, scope))
  {
    if rows != [] {
      var rest, last := rows[..|rows| - 1], rows[|rows| - 1];
      UnfinishedDistinct(rest, scope);
      var u := Unfinished(rest, scope);
      forall i | 0 <= i < |u| ensures u[i].key != last.key {
        UnfinishedMembers(rest, scope, u[i]);
        var k :| 0 <= k < |rest| && rest[k] == u[i];
        assert rest[k] == rows[k];
      }
    }
  }

  ghost predicate NeedsWork(c: Command, scope: string) {
    c.scope == scope && c.state != Outboxed
  }

  /** The listed commands are the rows at these positions of the table, going up and skipping none that needs
      work. */
  ghost predicate ListedAt(rows: seq<Command>, scope: string, list: seq<Command>, at: seq<nat>) {
    && |at| == |list|
    && (forall i, j :: 0 <= i < j < |at| ==> at[i] < at[j])
    && (forall j :: 0 <= j < |at| ==> at[j] < |rows| && NeedsWork(rows[at[j]], scope) && list[j] == rows[at[j]])
    && (forall i, j :: 0 <= i < |rows| && NeedsWork(rows[i], scope) && i !in at && 0 <= j < |at| ==> at[j] < i)
  }

  /** The oldest unfinished commands of a scope, as the table determines them: all of them, or `count`. */
  ghost predicate OldestUnfinished(rows: seq<Command>, scope: string, count: nat, list: seq<Command>) {
    exists at :: ListedAt(rows, scope, list, at) && |list| <= count &&
      (|list| == count || forall i :: 0 <= i < |rows| && NeedsWork(rows[i], scope) ==> i in at)
  }

  /** The positions of a scope's unfinished commands in the table. */
  ghost function WorkPlaces(rows: seq<Command>, scope: string): seq<nat> {
    if rows == [] then [] else
      var last := |rows| - 1;
      WorkPlaces(rows[..last], scope) + if NeedsWork(rows[last], scope) then [last] else []
  }

  lemma {:induction false} WorkPlacesMean(rows: seq<Command>, scope: string)
    ensures |WorkPlaces(rows, scope)| == |Unfinished(rows, scope)|
    ensures forall i, j :: 0 <= i < j < |WorkPlaces(rows, scope)| ==>
      WorkPlaces(rows, scope)[i] < WorkPlaces(rows, scope)[j]
    ensures forall j :: 0 <= j < |WorkPlaces(rows, scope)| ==>
      WorkPlaces(rows, scope)[j] < |rows| && rows[WorkPlaces(rows, scope)[j]] == Unfinished(rows, scope)[j]
    ensures forall i :: 0 <= i < |rows| ==> (i in WorkPlaces(rows, scope) <==> NeedsWork(rows[i], scope))
  {
    if rows != [] {
      var last := |rows| - 1;
      WorkPlacesMean(rows[..last], scope);
      forall i | 0 <= i < last ensures i in WorkPlaces(rows, scope) <==> NeedsWork(rows[i], scope) {
        assert rows[..last][i] == rows[i];
      }
    }
  }

  /** A prefix of the unfinished commands, cut only at the bound, is what the table determines. */
  lemma UnfinishedPrefix(rows: seq<Command>, scope: string, count: nat, list: seq<Command>)
    requires list <= Unfinished(rows, scope) && |list| <= count && (|list| == count || list == Unfinished(rows, scope))
    ensures OldestUnfinished(rows, scope, count, list)
  {
    hide Unfinished, WorkPlaces;
    var places := WorkPlaces(rows, scope);
    WorkPlacesMean(rows, scope);
    var at := places[..|list|];
    forall i, j | 0 <= i < |rows| && NeedsWork(rows[i], scope) && i !in at && 0 <= j < |at| ensures at[j] < i {
      var k :| 0 <= k < |places| && places[k] == i;
      assert forall m :: 0 <= m < |at| ==> at[m] == places[m];
    }
    assert ListedAt(rows, scope, list, at);
  }

  ghost predicate HasResult(rows: seq<Command>, scope: string, key: string, result: string) {
    match FindCommand(rows, key)
    case None => false
    case Some(k) =>
      && rows[k].scope == scope && rows[k].result == Some(result)
      && (rows[k].state == ResultReady || rows[k].state == Outboxed)
  }

  /** The command table after one command moved to a state, with a result if one was added. */
  ghost function Moved(rows: seq<Command>, key: string, state: CommandState, result: Option<string>): seq<Command> {
    match FindCommand(rows, key)
    case None => rows
    case Some(k) =>
      var c := rows[k].(state := state);
      rows[k := if result.Some? then c.(result := result, bytes := c.bytes + |result.value|) else c]
  }

  lemma {:induction false} FindMoved(rows: seq<Command>, key: string, state: CommandState, result: Option<string>,
                                     other: string)
    ensures FindCommand(Moved(rows, key, state, result), other) == FindCommand(rows, other)
  {
    var moved := Moved(rows, key, state, result);
    SameKeysFind(rows, moved, other);
  }

  lemma {:induction false} SameKeysFind(a: seq<Command>, b: seq<Command>, key: string)
    requires |a| == |b| && forall i :: 0 <= i < |a| ==> a[i].key == b[i].key
    ensures FindCommand(a, key) == FindCommand(b, key)
  {
    if a != [] { SameKeysFind(a[..|a| - 1], b[..|b| - 1], key); }
  }

  lemma FindAdded(rows: seq<Command>, c: Command)
    ensures FindCommand(rows + [c], c.key) == Some(|rows|)
    ensures forall key :: key != c.key ==> FindCommand(rows + [c], key) == FindCommand(rows, key)
  {
    assert (rows + [c])[..|rows|] == rows;
  }

  lemma CommandSizedWhenSound(db: Database, limit: nat, parse: string -> Document, k: nat)
    requires Sound(db, limit, parse) && k < |db.commands|
    ensures CommandSized(db.commands[k])
  {
  }

  /** Neither the next revision of the source nor a retry of its last one. */
  ghost predicate Conflicts(history: seq<Accepted>, e: Accepted, expected: nat) {
    |history| != expected && !(|history| == expected + 1 && history[expected] == e)
  }

  /** What a checkpoint commit answers: bad arguments are refused, a conflict exactly when the attempt
      is neither the next revision nor a retry, a retry succeeds, and only an attempt at the next
      revision can meet a limit. Without a fault there is no other answer. */
  ghost predicate Answers(history: seq<Accepted>, e: Accepted, expected: nat, valid: bool, fault: Fault, r: Outcome) {
    && (r.Failure? ==> r.error in {InvalidArgument, RevisionConflict, CountLimit, QuotaExhausted, StorageFailure})
    && (r == Failure(InvalidArgument) <==> !valid)
    && (r == Failure(RevisionConflict) <==> valid && Conflicts(history, e, expected))
    && (r == Failure(CountLimit) || r == Failure(QuotaExhausted) ==> |history| == expected)
    && (r == Failure(CountLimit) ==> expected == 0)
    && (r == Failure(StorageFailure) ==> fault != NoFault)
    && (fault == NoFault && valid && |history| == expected + 1 && history[expected] == e ==> r.Success?)
  }

  lemma NextOrRetry(history: seq<Accepted>, e: Accepted, expected: nat)
    ensures !Conflicts(history, e, expected) <==>
      |history| == expected || (|history| == expected + 1 && history[expected] == e)
  {
  }

  /** What the last accepted cursor of a source takes in the checkpoint table. */
  ghost function LastBytes(history: seq<Accepted>): nat {
    if history == [] then 0 else |history[|history| - 1].cursor|
  }

  lemma SizeOfLast(db: Database, limit: nat, parse: string -> Document, log: Logs, source: string)
    requires Sound(db, limit, parse) && Logged(db.checkpoints, log)
    ensures CheckpointSize(db.checkpoints, source) == LastBytes(History(log, source))
  {
    match FindSource(db.checkpoints, source)
    case None => RevisionCounts(db.checkpoints, log, source);
    case Some(k) => assert RowLogged(db.checkpoints[k], log);
  }

  lemma RoomToGrow(source: string, checkpoint: string, expected: nat)
    requires ValidCheckpoint(source, checkpoint, expected)
    ensures expected < U64_MAX
  {
  }

  /** Without a fault, an attempt at the next revision fails only for its arguments or a limit. */
  lemma AnswerMeans(history: seq<Accepted>, e: Accepted, expected: nat, valid: bool, fault: Fault, r: Outcome)
    requires Answers(history, e, expected, valid, fault, r)
    ensures fault == NoFault && |history| == expected && r.Failure? ==>
      !valid || r.error == CountLimit || r.error == QuotaExhausted
    ensures r == Failure(CountLimit) ==> expected == 0
  {
  }

  lemma AnswerIs(history: seq<Accepted>, e: Accepted, expected: nat, valid: bool, fault: Fault, r: Outcome)
    requires || (!valid && r == Failure(InvalidArgument))
             || (valid && Conflicts(history, e, expected) && r == Failure(RevisionConflict))
             || (valid && |history| == expected && r == Failure(QuotaExhausted))
             || (valid && |history| == expected == 0 && r == Failure(CountLimit))
             || (valid && !Conflicts(history, e, expected) && r.Success?)
             || (valid && !Conflicts(history, e, expected) && r == Failure(StorageFailure) && fault != NoFault)
    ensures Answers(history, e, expected, valid, fault, r)
  {
  }

  /** The texts of the receipt's rejections do not fit the quota beside what is held. */
  ghost predicate TextsExceed(db: Database, limit: nat, batch: Batch, receipt: Receipt) {
    receipt.Receipt? && Held(db) + ReasonBytes(VerdictList(receipt, |batch.lines|)) > limit
  }

  ghost predicate Extends(before: Run, after: Run) {
    before.logs <= after.logs && before.attempts <= after.attempts
  }

  /** If the attempt was told yes, its entry is in the history at its revision. */
  ghost predicate StillTold(runs: Runs, log: Logs, source: string, i: nat)
    requires i < |RunOf(runs, source).attempts|
  {
    var a := RunOf(runs, source).attempts[i];
    a.accepted ==> a.expected < |History(log, source)| && History(log, source)[a.expected] == a.entry
  }

  class DurableJournal {
    const limit: nat
    const eventLimit: nat
    const parse: string -> Document
    var db: Database
    /** Every entry each source has had accepted, oldest first. */
    ghost var log: Logs
    /** How many observations were ever inserted. */
    ghost var insertions: nat
    /** Every checkpoint commit ever attempted on each source, with what it was told. */
    ghost var runs: Runs

    ghost predicate Valid()
      reads this
    {
      Consistent() && Witnessed(runs, log)
    }

    ghost predicate Consistent()
      reads `db, `log, `insertions
    {
      && Sound(db, limit, parse) && Logged(db.checkpoints, log) && |db.checkpoints| <= 64 && |db.commands| <= 65536
      && insertions == db.counters.pending + db.counters.dead + db.counters.acknowledged
    }

    constructor (limit: nat, eventLimit: nat, parse: string -> Document)
      ensures Valid() && db == Empty && log == map[] && insertions == 0 && runs == map[]
      ensures this.limit == limit && this.eventLimit == eventLimit && this.parse == parse
    {
      this.limit, this.eventLimit, this.parse := limit, eventLimit, parse;
      db, log, insertions, runs := Empty, map[], 0, map[];
      new;
      EmptySound(limit, parse);
    }

    ghost predicate ValidLine(line: string) {
      !Blank(line) && SingleLine(line) && |line| <= eventLimit
    }

    method CheckLine(line: string) returns (ok: bool)
      ensures ok <==> ValidLine(line)
    {
      ok := HasOther(line, {' ', '\t'}) && !HasAny(line, {'\r', '\n'}) && |line| <= eventLimit;
    }

    method CheckSource(source: string) returns (ok: bool)
      ensures ok <==> ValidSource(source)
    {
      ok := source != "" && |source| <= 512 && !HasAny(source, {'\r', '\n', '\0'});
    }

    method CheckCheckpoint(source: string, checkpoint: string, expected: nat) returns (ok: bool)
      ensures ok <==> ValidCheckpoint(source, checkpoint, expected)
    {
      ok := CheckSource(source);
      ok := ok && checkpoint != "" && |checkpoint| <= 16384 && expected < U64_MAX;
    }

    /** The record's missing copies do not fit the quota, or not together with the cursor that takes the place of
        the source's last one. */
    ghost predicate TooMuch(line: string, source: string, checkpoint: string)
      reads `db, `log
    {
      var more := Held(db) + Copies(db, parse(line), Sha256(line)) * |line|;
      more > limit || more - LastBytes(History(log, source)) + |checkpoint| > limit
    }

    /** A limit stands against a checkpointed append at the source's next revision. */
    ghost predicate NoRoom(line: string, source: string, checkpoint: string, expected: nat)
      reads `db, `log
    {
      || !ValidCheckpoint(source, checkpoint, expected) || !ValidLine(line)
      || (expected == 0 && |db.checkpoints| == 64) || TooMuch(line, source, checkpoint)
    }

    // ----- Observations -----

    /** Adds an observation inside a transaction. Refused only for the quota or by growth
        admission, and the quota test neither underflows nor lets a byte over the limit in. */
    method Insert(tx: Database, line: string, key: Digest, fault: Fault) returns (r: Result<Database, Error>)
      requires Sound(tx, limit, parse)
      ensures r.Success? ==> Sound(r.value, limit, parse) && Inserted(tx, r.value, parse(line), line, key)
      ensures r.Success? ==> Held(r.value) == Held(tx) + Copies(tx, parse(line), key) * |line|
      ensures r.Failure? ==> r.error == QuotaExhausted || (r.error == StorageFailure && fault == AdmissionRefused)
      ensures r == Failure(QuotaExhausted) <==> Held(tx) + Copies(tx, parse(line), key) * |line| > limit
      ensures fault == AdmissionRefused && r.Success? ==> r.value == tx
    {
      hide Sound, Held, Retained, FindKey, FindOriginal;
      var document := parse(line);
      var present := FindKey(tx.observations, key).Some?;
      var archived := FindOriginal(tx.history, key).Some?;
      var archive := document.lifecycle && !archived;
      QuotaSeesHeld(tx, limit, parse);
      if present && !archive { return Success(tx); }
      var bytes: nat := Retained(tx);
      var copies := (if present then 0 else 1) + (if archive then 1 else 0);
      QuotaTest(limit, copies, |line|, bytes);
      if |line| > limit / copies || bytes > Minus(limit, copies * |line|) { return Failure(QuotaExhausted); }
      if fault == AdmissionRefused { return Failure(StorageFailure); }
      var t := tx;
      if archive {
        var original := Original(key, line, |line|);
        ArchiveKeepsSound(t, limit, parse, original);
        t := ArchiveOriginal(t, original, document.fact);
      }
      if !present {
        var observation := Observation(key, line, |line|, Waiting, document.protocol);
        InsertKeepsSound(t, limit, parse, observation);
        t := InsertObservation(t, observation);
      }
      return Success(t);
    }

    /** Commits a transaction, or not, as the storage decides. */
    method Commit(tx: Database, fault: Fault) returns (r: Outcome)
      modifies this`db
      ensures db == if fault == CommitFailed then old(db) else tx
      ensures r.Success? <==> fault != CommitFailed && fault != CommitUnreported
      ensures r.Failure? ==> r.error == StorageFailure
    {
      if fault == CommitFailed { return Failure(StorageFailure); }
      db := tx;
      if fault == CommitUnreported { return Failure(StorageFailure); }
      return Success(());
    }

    /** Accepts one observation. Whatever is reported, the journal either is unchanged or holds
        the observation; success means it holds it; and only a fault or the quota refuses a valid line. */
    method Append(line: string, fault: Fault) returns (r: Outcome)
      requires Valid()
      modifies this
      ensures Valid() && log == old(log) && runs == old(runs)
      ensures r.Failure? ==> r.error in {InvalidArgument, QuotaExhausted, StorageFailure}
      ensures r == Failure(InvalidArgument) <==> !ValidLine(line)
      ensures r == Failure(QuotaExhausted) <==>
        ValidLine(line) && old(Held(db) + Copies(db, parse(line), Sha256(line)) * |line|) > limit
      ensures r == Failure(StorageFailure) ==> fault != NoFault
      ensures r.Success? ==> Inserted(old(db), db, parse(line), line, Sha256(line))
      ensures db == old(db) || Inserted(old(db), db, parse(line), line, Sha256(line))
      ensures (r.Failure? && r.error != StorageFailure) || fault == AdmissionRefused ==> db == old(db)
    {
      hide Sound, Logged, Witnessed, Inserted, Held, Copies;
      var ok := CheckLine(line);
      if !ok { return Failure(InvalidArgument); }
      var tx := Insert(db, line, Sha256(line), fault);
      if tx.Failure? { return Failure(tx.error); }
      CountInserted(db, tx.value, limit, parse, parse(line), line, Sha256(line));
      ghost var added := |tx.value.observations| - |db.observations|;
      r := Commit(tx.value, fault);
      if fault != CommitFailed { insertions := insertions + added; }
    }

    // ----- Source checkpoints -----

    /** Stores the checkpoint that follows an accepted entry. Its quota test replaces the bytes
        of the row it overwrites. */
    method StoreCheckpoint(tx: Database, source: string, e: Accepted, expected: nat, fault: Fault)
      returns (r: Result<Database, Error>)
      requires Sound(tx, limit, parse)
      ensures r.Success? ==> Sound(r.value, limit, parse)
      ensures r.Success? ==>
        r.value == tx.(checkpoints := PutCheckpoint(tx.checkpoints, CheckpointFor(source, e, expected + 1)))
      ensures r.Failure? ==> r.error == QuotaExhausted || (r.error == StorageFailure && fault == AdmissionRefused)
      ensures r == Failure(QuotaExhausted) <==> Held(tx) - CheckpointSize(tx.checkpoints, source) + |e.cursor| > limit
      ensures fault == AdmissionRefused ==> r.Failure?
    {
      hide Sound, Held, Retained, CheckpointSize, PutCheckpoint;
      QuotaSeesHeld(tx, limit, parse);
      ReplacedIsRetained(tx, limit, parse, source);
      var retained: nat, oldBytes := Retained(tx), CheckpointSize(tx.checkpoints, source);
      if retained < oldBytes || |e.cursor| > limit || Minus(retained, oldBytes) > Minus(limit, |e.cursor|) {
        return Failure(QuotaExhausted);
      }
      if fault == AdmissionRefused { return Failure(StorageFailure); }
      var c := CheckpointFor(source, e, expected + 1);
      PutKeepsSound(tx, limit, parse, c);
      return Success(tx.(checkpoints := PutCheckpoint(tx.checkpoints, c)));
    }

    /** The part of the two checkpoint commits that looks at the stored row: a retry of the most
        recent commit, a conflict, a refused new source, or go ahead. */
    method CompareRevision(source: string, e: Accepted, expected: nat) returns (r: Result<bool, Error>)
      requires Consistent()
      ensures r == Success(true) ==> |History(log, source)| == expected && (expected == 0 ==> |db.checkpoints| < 64)
      ensures r == Success(false) ==> |History(log, source)| == expected + 1 && History(log, source)[expected] == e
      ensures r == Failure(CountLimit) <==> expected == 0 && History(log, source) == [] && |db.checkpoints| == 64
      ensures r.Failure? ==> r.error == CountLimit || r.error == RevisionConflict
      ensures r == Failure(RevisionConflict) <==> Conflicts(History(log, source), e, expected)
    {
      hide Sound, FindSource;
      RevisionCounts(db.checkpoints, log, source);
      var revision := StoredRevision(db.checkpoints, source);
      if revision != Some(expected) {
        if IsRetry(db.checkpoints, source, e, expected) {
          RetryIsLast(db.checkpoints, log, source, e, expected);
          return Success(false);
        }
        NotRetry(db.checkpoints, log, source, e, expected);
        return Failure(RevisionConflict);
      }
      if expected == 0 && |db.checkpoints| >= 64 { return Failure(CountLimit); }
      return Success(true);
    }

    /** Accepts a record together with the cursor that follows it, against the expected revision.
        The record is retained in the same transaction; a retry of the last commit succeeds without
        effect, whatever the quota; a refusal changes nothing. Every call is one attempt of the
        source's run. */
    method AppendCheckpointed(line: string, source: string, checkpoint: string, expected: nat, fault: Fault)
      returns (r: Outcome)
      requires Valid()
      modifies this
      ensures Valid()
      ensures var e := Entry(OfRecord(Sha256(line)), checkpoint);
        && Commits(old(History(log, source)), e, expected, r.Success?, History(log, source))
        && runs == Noted(old(runs), source, Attempt(e, expected, r.Success?), History(log, source))
        && var valid := ValidCheckpoint(source, checkpoint, expected) && ValidLine(line);
          Answers(old(History(log, source)), e, expected, valid, fault, r)
      ensures forall s :: s != source ==> History(log, s) == old(History(log, s))
      ensures History(log, source) == old(History(log, source)) ==> db == old(db) && insertions == old(insertions)
      ensures History(log, source) != old(History(log, source)) ==>
        exists t :: Inserted(old(db), t, parse(line), line, Sha256(line)) && db == t.(checkpoints := db.checkpoints)
      ensures r == Failure(CountLimit) ==> old(|db.checkpoints|) == 64
      ensures r == Failure(QuotaExhausted) ==> old(TooMuch(line, source, checkpoint))
      ensures fault == AdmissionRefused || (fault == NoFault && r.Failure?) ==> log == old(log) && db == old(db)
      ensures fault == NoFault && old(|History(log, source)|) == expected ==>
        (r.Failure? <==> old(NoRoom(line, source, checkpoint, expected)))
    {
      hide Sound, Logged, Witnessed, Inserted, Held, Copies, Consistent, Commits, History, Answers, TooMuch;
      r := CommitRecord(line, source, checkpoint, expected, fault);
      ghost var attempt := Attempt(Entry(OfRecord(Sha256(line)), checkpoint), expected, r.Success?);
      AnswerMeans(old(History(log, source)), attempt.entry, expected,
                  ValidCheckpoint(source, checkpoint, expected) && ValidLine(line), fault, r);
      NoteKeeps(runs, old(log), log, source, attempt);
      runs := Noted(runs, source, attempt, History(log, source));
    }

    /** The transaction of a checkpointed append. */
    method CommitRecord(line: string, source: string, checkpoint: string, expected: nat, fault: Fault)
      returns (r: Outcome)
      requires Consistent()
      modifies this`db, this`log, this`insertions
      ensures Consistent()
      ensures var e := Entry(OfRecord(Sha256(line)), checkpoint);
        && Commits(old(History(log, source)), e, expected, r.Success?, History(log, source))
        && var valid := ValidCheckpoint(source, checkpoint, expected) && ValidLine(line);
          Answers(old(History(log, source)), e, expected, valid, fault, r)
      ensures forall s :: s != source ==> History(log, s) == old(History(log, s))
      ensures History(log, source) == old(History(log, source)) ==> db == old(db) && insertions == old(insertions)
      ensures History(log, source) != old(History(log, source)) ==>
        exists t :: Inserted(old(db), t, parse(line), line, Sha256(line)) && db == t.(checkpoints := db.checkpoints)
      ensures r == Failure(CountLimit) ==> old(|db.checkpoints|) == 64
      ensures r == Failure(QuotaExhausted) ==> old(TooMuch(line, source, checkpoint))
      ensures fault == AdmissionRefused || (fault == NoFault && r.Failure?) ==> log == old(log) && db == old(db)
      ensures fault == NoFault && old(|History(log, source)|) == expected ==>
        (old(NoRoom(line, source, checkpoint, expected)) ==> r.Failure?)
    {
      hide Sound, Logged, Inserted, Held, Copies, CheckpointSize, PutCheckpoint, Answers, Conflicts, ValidCheckpoint,
        TooMuch;
      ghost var history := History(log, source);
      ghost var valid := ValidCheckpoint(source, checkpoint, expected) && ValidLine(line);
      var e := Entry(OfRecord(Sha256(line)), checkpoint);
      var okLine := CheckLine(line);
      var okCheckpoint := CheckCheckpoint(source, checkpoint, expected);
      if !okCheckpoint || !okLine {
        r := Failure(InvalidArgument);
        AnswerIs(history, e, expected, valid, fault, r);
        return;
      }
      var proceed := CompareRevision(source, e, expected);
      NextOrRetry(history, e, expected);
      if proceed.Failure? {
        r := Failure(proceed.error);
      } else if !proceed.value {
        r := Commit(db, fault);
      } else {
        RoomToGrow(source, checkpoint, expected);
        r := CommitNext(line, source, e, expected, fault);
      }
      AnswerIs(history, e, expected, valid, fault, r);
    }

    /** The transaction of a checkpointed append at the source's next revision. */
    method CommitNext(line: string, source: string, e: Accepted, expected: nat, fault: Fault) returns (r: Outcome)
      requires Consistent() && |History(log, source)| == expected < U64_MAX && e.record == OfRecord(Sha256(line))
      requires expected == 0 ==> |db.checkpoints| < 64
      modifies this`db, this`log, this`insertions
      ensures Consistent()
      ensures (r.Failure? ==> r.error == QuotaExhausted || (r.error == StorageFailure && fault != NoFault))
      ensures (log == old(log) && db == old(db) && insertions == old(insertions)) || log == Extend(old(log), source, e)
      ensures r.Success? ==> log == Extend(old(log), source, e)
      ensures log != old(log) ==>
        exists t :: Inserted(old(db), t, parse(line), line, Sha256(line)) && db == t.(checkpoints := db.checkpoints)
      ensures r == Failure(QuotaExhausted) ==> log == old(log) && old(TooMuch(line, source, e.cursor))
      ensures fault == AdmissionRefused ==> log == old(log)
      ensures fault == NoFault && old(TooMuch(line, source, e.cursor)) ==> r == Failure(QuotaExhausted)
    {
      hide Sound, Logged, Inserted, Held, Copies, CheckpointSize, PutCheckpoint;
      SizeOfLast(db, limit, parse, log, source);
      var key := Sha256(line);
      var tx := Insert(db, line, key, fault);
      if tx.Failure? { return Failure(tx.error); }
      CountInserted(db, tx.value, limit, parse, parse(line), line, key);
      ghost var added := |tx.value.observations| - |db.observations|;
      var saved := StoreCheckpoint(tx.value, source, e, expected, fault);
      if saved.Failure? { return Failure(saved.error); }
      PutKeepsLogged(db.checkpoints, log, source, e);
      PutSize(db.checkpoints, log, source, e, expected + 1);
      r := Commit(saved.value, fault);
      if fault != CommitFailed {
        insertions := insertions + added;
        log := Extend(log, source, e);
        assert Inserted(old(db), tx.value, parse(line), line, Sha256(line));
        assert db == tx.value.(checkpoints := db.checkpoints);
      }
    }

    /** Advances a source's cursor without a record. */
    method AdvanceCheckpoint(source: string, checkpoint: string, expected: nat, fault: Fault) returns (r: Outcome)
      requires Valid()
      modifies this
      ensures Valid() && insertions == old(insertions) && db == old(db).(checkpoints := db.checkpoints)
      ensures var e := Entry(CheckpointOnly(Sha256(checkpoint)), checkpoint);
        && Commits(old(History(log, source)), e, expected, r.Success?, History(log, source))
        && runs == Noted(old(runs), source, Attempt(e, expected, r.Success?), History(log, source))
        && Answers(old(History(log, source)), e, expected, ValidCheckpoint(source, checkpoint, expected), fault, r)
      ensures forall s :: s != source ==> History(log, s) == old(History(log, s))
      ensures History(log, source) == old(History(log, source)) ==> db == old(db)
      ensures fault == AdmissionRefused ==> log == old(log) && db == old(db)
      ensures r == Failure(CountLimit) ==> old(|db.checkpoints|) == 64
      ensures r == Failure(QuotaExhausted) <==>
        && ValidCheckpoint(source, checkpoint, expected) && old(|History(log, source)|) == expected
        && (expected == 0 ==> old(|db.checkpoints|) < 64)
        && old(Held(db)) - LastBytes(old(History(log, source))) + |checkpoint| > limit
    {
      hide Sound, Logged, Witnessed, Held, Consistent, Commits, History, Answers;
      r := CommitCursor(source, checkpoint, expected, fault);
      ghost var attempt := Attempt(Entry(CheckpointOnly(Sha256(checkpoint)), checkpoint), expected, r.Success?);
      NoteKeeps(runs, old(log), log, source, attempt);
      runs := Noted(runs, source, attempt, History(log, source));
    }

    /** The transaction of a cursor advanced alone. */
    method CommitCursor(source: string, checkpoint: string, expected: nat, fault: Fault) returns (r: Outcome)
      requires Consistent()
      modifies this`db, this`log
      ensures Consistent() && db == old(db).(checkpoints := db.checkpoints)
      ensures var e := Entry(CheckpointOnly(Sha256(checkpoint)), checkpoint);
        && Commits(old(History(log, source)), e, expected, r.Success?, History(log, source))
        && Answers(old(History(log, source)), e, expected, ValidCheckpoint(source, checkpoint, expected), fault, r)
      ensures forall s :: s != source ==> History(log, s) == old(History(log, s))
      ensures History(log, source) == old(History(log, source)) ==> db == old(db)
      ensures fault == AdmissionRefused ==> log == old(log) && db == old(db)
      ensures r == Failure(CountLimit) ==> old(|db.checkpoints|) == 64
      ensures r == Failure(QuotaExhausted) <==>
        && ValidCheckpoint(source, checkpoint, expected) && old(|History(log, source)|) == expected
        && (expected == 0 ==> old(|db.checkpoints|) < 64)
        && old(Held(db)) - LastBytes(old(History(log, source))) + |checkpoint| > limit
    {
      hide Sound, Logged, Held, CheckpointSize, PutCheckpoint, Answers, Conflicts, ValidCheckpoint;
      ghost var history := History(log, source);
      var e := Entry(CheckpointOnly(Sha256(checkpoint)), checkpoint);
      ghost var valid := ValidCheckpoint(source, checkpoint, expected);
      var ok := CheckCheckpoint(source, checkpoint, expected);
      if !ok {
        r := Failure(InvalidArgument);
        AnswerIs(history, e, expected, valid, fault, r);
        return;
      }
      var proceed := CompareRevision(source, e, expected);
      NextOrRetry(history, e, expected);
      if proceed.Failure? {
        r := Failure(proceed.error);
      } else if !proceed.value {
        r := Commit(db, fault);
      } else {
        RoomToGrow(source, checkpoint, expected);
        SizeOfLast(db, limit, parse, log, source);
        var saved := StoreCheckpoint(db, source, e, expected, fault);
        if saved.Failure? {
          r := Failure(saved.error);
        } else {
          PutKeepsLogged(db.checkpoints, log, source, e);
          PutSize(db.checkpoints, log, source, e, expected + 1);
          r := Commit(saved.value, fault);
          if fault != CommitFailed { log := Extend(log, source, e); }
        }
      }
      AnswerIs(history, e, expected, valid, fault, r);
    }

    /** The stored checkpoint of a source: how many entries it has had accepted, and the last cursor. */
    method SourceCheckpoint(source: string) returns (r: Result<Option<(nat, string)>, Error>)
      requires Valid()
      ensures r == Failure(InvalidArgument) <==> !ValidSource(source)
      ensures r.Failure? ==> r.error == InvalidArgument
      ensures r.Success? ==> (r.value.None? <==> History(log, source) == [])
      ensures r.Success? && r.value.Some? ==>
        var h := History(log, source);
        h != [] && r.value.value == (|h|, h[|h| - 1].cursor)
    {
      hide Sound, Witnessed;
      var ok := CheckSource(source);
      if !ok { return Failure(InvalidArgument); }
      RevisionCounts(db.checkpoints, log, source);
      match FindSource(db.checkpoints, source)
      case None => return Success(None);
      case Some(k) =>
        assert RowLogged(db.checkpoints[k], log);
        return Success(Some((StoredRevision(db.checkpoints, source).value, db.checkpoints[k].value)));
    }

    // ----- Delivery -----

    /** Chooses the next delivery batch without changing anything. */
    method Peek(maxEvents: nat, maxBytes: nat) returns (r: Result<Option<Batch>, Error>)
      ensures r == Failure(InvalidArgument) <==> !(0 < maxEvents <= 1000 && 0 < maxBytes <= 8 * 1024 * 1024)
      ensures r.Failure? ==> r.error == InvalidArgument || r.error == HeadTooLarge
      ensures r != Failure(InvalidArgument) ==>
        var head := Oldest(db.observations);
        r == Failure(HeadTooLarge) <==> head.Some? && |db.observations[head.value].body| + 1 > maxBytes
      ensures r != Failure(InvalidArgument) ==> (r == Success(None) <==> Oldest(db.observations).None?)
      ensures r.Success? && r.value.Some? ==> BatchFrom(db.observations, r.value.value, maxEvents, maxBytes)
      ensures r.Success? && r.value.Some? ==> OldestRun(db.observations, r.value.value, maxEvents, maxBytes)
    {
      hide Queue, WireSize, Oldest, OldestRun;
      if !(0 < maxEvents <= 1000 && 0 < maxBytes <= 8 * 1024 * 1024) { return Failure(InvalidArgument); }
      var head := Oldest(db.observations);
      if head.None? { return Success(None); }
      var protocol := db.observations[head.value].protocol;
      var q := Queue(db.observations, protocol);
      QueueHead(db.observations, head.value);
      var n, size := 0, 0;
      NothingFits(q);
      while n < |q| && n < maxEvents
        invariant 0 <= n <= |q| && n <= maxEvents && size == WireSize(q[..n]) && size <= maxBytes
        invariant n > 0 ==> |q[0].body| + 1 <= maxBytes
      {
        WireSizeStep(q, n);
        if |q[n].body| + 1 > Minus(maxBytes, size) {
          if n == 0 { return Failure(HeadTooLarge); }
          break;
        }
        size := size + |q[n].body| + 1;
        n := n + 1;
      }
      LongestFit(q, n, maxEvents, maxBytes);
      var lines := LinesOf(q[..n]);
      var batch := Batch(seq(n, i requires 0 <= i < n => lines[i].key), protocol, lines);
      BatchIsOldestRun(db.observations, batch, maxEvents, maxBytes);
      return Success(Some(batch));
    }

    /** One receipt line inside the transaction. A rejection is charged its text. */
    method SettleLine(tx: Database, key: Digest, verdict: Option<string>, fault: Fault)
      returns (r: Result<Database, Error>)
      requires Sound(tx, limit, parse)
      ensures r.Success? ==> Sound(r.value, limit, parse)
      ensures r.Success? ==>
        r.value == tx.(observations := SettleOne(tx.observations, key, verdict), counters := r.value.counters)
      ensures r.Success? ==>
        r.value.counters.acknowledged == tx.counters.acknowledged + |tx.observations| - |r.value.observations|
      ensures r.Success? ==> var c, d := r.value.counters, tx.counters;
        c.pending + c.dead + c.acknowledged == d.pending + d.dead + d.acknowledged
      ensures r.Success? ==> Held(r.value) <= Held(tx) + if verdict.Some? then |verdict.value| else 0
      ensures r.Failure? ==>
        verdict.Some? && (r.error == QuotaExhausted || (r.error == StorageFailure && fault == AdmissionRefused))
      ensures r == Failure(QuotaExhausted) ==> Held(tx) + |verdict.value| > limit
      ensures fault == AdmissionRefused && r.Success? ==> r.value.counters.dead == tx.counters.dead
    {
      hide Sound, Held, Retained, FindWaiting, SettleOne, Without;
      QuotaSeesHeld(tx, limit, parse);
      DistinctWhenSound(tx, limit, parse);
      match FindWaiting(tx.observations, key)
      case None =>
        SettleNothing(tx.observations, key, verdict);
        return Success(tx);
      case Some(k) =>
        var o := tx.observations[k];
        SizedWhenSound(tx, limit, parse, k);
        match verdict
        case Some(text) =>
          if |text| > limit || Retained(tx) > Minus(limit, |text|) { return Failure(QuotaExhausted); }
          if fault == AdmissionRefused { return Failure(StorageFailure); }
          BuryAt(tx.observations, k, text);
          UpdateKeepsSound(tx, limit, parse, k, Buried(o, text));
          return Success(UpdateObservation(tx, k, Buried(o, text)));
        case None =>
          RetireAt(tx.observations, k);
          WithoutShorter(tx.observations, k);
          DeleteKeepsSound(tx, limit, parse, k);
          var t := DeleteObservation(tx, k);
          AcknowledgedKeepsSound(t, limit, parse);
          return Success(t.(counters := t.counters.(acknowledged := t.counters.acknowledged + 1)));
    }

    /** Applies a delivery receipt. An invalid or refused receipt changes nothing; an applied one
        settles exactly the lines of the batch that still wait, each by its verdict. */
    method Acknowledge(batch: Batch, receipt: Receipt, fault: Fault) returns (r: Outcome)
      requires Valid()
      modifies this
      ensures Valid() && log == old(log) && insertions == old(insertions) && runs == old(runs)
      ensures r == Failure(InvalidReceipt) <==> !ValidReceipt(parse, batch, receipt)
      ensures r.Failure? ==> r.error == InvalidReceipt || r.error == QuotaExhausted || r.error == StorageFailure
      ensures r.Failure? && r.error != StorageFailure ==> db == old(db)
      ensures r.Success? ==> SettledBy(old(db), db, batch, receipt)
      ensures db == old(db) || SettledBy(old(db), db, batch, receipt)
      ensures r.Success? ==> RowsSettled(old(db).observations, batch.lines, receipt.rejected, db.observations)
      ensures fault == NoFault ==> r != Failure(StorageFailure)
      ensures r == Failure(QuotaExhausted) ==>
        receipt.Receipt? && old(Held(db)) + ReasonBytes(VerdictList(receipt, |batch.lines|)) > limit
      ensures fault == AdmissionRefused ==> db.counters.dead == old(db.counters.dead)
    {
      hide Sound, Logged, Witnessed, Held, ValidReceipt, VerdictList, Settled, ReasonBytes, SettleOne, RowsSettled;
      var read := ReadReceipt(parse, batch, receipt);
      if read.None? { return Failure(InvalidReceipt); }
      DistinctWhenSound(db, limit, parse);
      ReceiptSettlesRows(parse, db.observations, batch, receipt);
      ValidIsReceipt(parse, batch, receipt);
      var verdicts, n := read.value, |batch.lines|;
      VerdictListSize(receipt, n);
      var tx := db;
      var i := 0;
      SettleStart(db.observations, batch.lines, verdicts);
      while i < n
        modifies {}
        invariant 0 <= i <= n && Sound(tx, limit, parse)
        invariant tx == db.(observations := Settled(db.observations, batch.lines, verdicts, i), counters := tx.counters)
        invariant tx.counters.acknowledged == db.counters.acknowledged + |db.observations| - |tx.observations|
        invariant tx.counters.pending + tx.counters.dead + tx.counters.acknowledged == insertions
        invariant Held(tx) <= Held(db) + ReasonBytes(verdicts[..i])
        invariant fault == AdmissionRefused ==> tx.counters.dead == db.counters.dead
      {
        SettleNext(db.observations, batch.lines, verdicts, i);
        ReasonBytesGrow(verdicts, i + 1);
        var settled := SettleLine(tx, batch.lines[i].key, verdicts[i], fault);
        if settled.Failure? { return Failure(settled.error); }
        tx := settled.value;
        i := i + 1;
      }
      r := Commit(tx, fault);
    }

    /** Alternating peek with valid receipts empties the queue, whatever mix of protocols it holds
        and however the receipts reject, as long as every row fits a batch. It stops early only at
        a batch whose rejection texts do not fit the quota; a manager that rejects nothing always
        drains it. */
    method Drain(maxEvents: nat, maxBytes: nat, answer: Batch -> Receipt) returns (drained: bool)
      requires Valid() && 0 < maxEvents <= 1000 && 0 < maxBytes <= 8 * 1024 * 1024
      requires forall i :: 0 <= i < |db.observations| && db.observations[i].state.Waiting? ==>
        |db.observations[i].body| + 1 <= maxBytes
      requires forall b: Batch :: b.lines != [] ==> ValidReceipt(parse, b, answer(b))
      modifies this
      ensures Valid() && insertions == old(insertions)
      ensures drained ==> db.counters.pending == 0
      ensures !drained ==>
        exists b: Batch :: BatchFrom(db.observations, b, maxEvents, maxBytes) && TextsExceed(db, limit, b, answer(b))
    {
      hide Sound, Logged, Witnessed, Held, Settled, ValidReceipt, VerdictList, ReasonBytes, Oldest, IsOldest, BatchFrom;
      while true
        invariant Valid() && insertions == old(insertions)
        invariant forall i :: 0 <= i < |db.observations| && db.observations[i].state.Waiting? ==>
          |db.observations[i].body| + 1 <= maxBytes
        decreases db.counters.pending
      {
        PendingCount(db, limit, parse);
        var next := Peek(maxEvents, maxBytes);
        OldestFits(db.observations, maxBytes);
        if next == Success(None) { return true; }
        var batch := next.value.value;
        var receipt := answer(batch);
        ghost var before := db;
        BatchHasLines(db.observations, batch, maxEvents, maxBytes);
        var r := Acknowledge(batch, receipt, NoFault);
        if r.Failure? {
          assert TextsExceed(db, limit, batch, receipt);
          return false;
        }
        PendingCount(db, limit, parse);
        WaitingBatchSettled(before, db, limit, parse, batch, receipt, maxEvents, maxBytes);
        WaitingRowsFit(before, db, batch, receipt, maxBytes);
      }
    }

    /** The other half: while a row waits that is larger than every byte bound used, no alternation of
        peek and acknowledge, with any receipts and any storage behaviour, brings pending to zero. */
    method NeverDrains(rounds: nat, ceiling: nat, o: Observation)
      requires Valid() && o in db.observations && o.state.Waiting? && |o.body| + 1 > ceiling
      modifies this
      ensures Valid() && o in db.observations && db.counters.pending > 0
    {
      hide Sound, Logged, Witnessed, Held, Settled, ValidReceipt, VerdictList, BatchFrom;
      for i := 0 to rounds
        invariant Valid() && o in db.observations
      {
        var maxEvents: nat, maxBytes: nat, receipt: Receipt, fault: Fault := *, *, *, *;
        if maxBytes <= ceiling {
          var next := Peek(maxEvents, maxBytes);
          if next.Success? && next.value.Some? {
            var batch := next.value.value;
            ghost var before := db;
            var _ := Acknowledge(batch, receipt, fault);
            if db != before { OversizedStays(before, db, limit, parse, batch, receipt, maxEvents, maxBytes, o); }
          }
        }
      }
      SomebodyWaits(db, limit, parse, o);
    }

    // ----- Ancestry -----

    /** The ancestry query over this journal's own archive. Lifecycle records are indexed as they
        are accepted, so the query never finds an index that contradicts the archive, nothing is
        ever left to index, and an answer that is not truncated is the exact reachable ancestry. When
        no reading of the evidence exhausts a bound, it is complete exactly when every reachable
        entity is within the depth and the node bound, however the ancestry cycles. */
    method QueryAncestry(root: string, b: A.Bounds, sizes: A.Sizes) returns (r: Result<A.Answer, A.Refusal>)
      requires Valid() && sizes.base <= 4096
      ensures r.Failure? ==> r.error == A.InvalidRequest || r.error == A.OutputTooLarge
      ensures r == Failure(A.InvalidRequest) <==> !A.IsEntityId(root) || !b.Admissible()
      ensures var archive := Archive(parse, db.history);
        && (r.Success? ==>
              A.Truthful(archive, db.index, root, b, sizes, r.value) && sizes.answer(r.value) <= b.maxBytes)
        && (r == Failure(A.OutputTooLarge) ==>
              exists a :: A.Truthful(archive, db.index, root, b, sizes, a) && sizes.answer(a) > b.maxBytes)
        && (r.Success? && !r.value.truncated ==> A.Exact(archive, root, r.value.nodes, r.value.edges))
        && (r.Success? && !A.Heavy(archive, db.index, root, b, sizes) ==>
              (r.value.complete <==> A.Compact(A.Claimed(archive), root, b)))
    {
      hide A.Exact, A.Summarized, A.EdgeKnown, A.Accounts, A.Modest, A.Heavy, A.Compact, Witnessed, Logged;
      var history := db.history;
      var archive := seq(|history|, i requires 0 <= i < |history| =>
        A.Archived(|history[i].body|, parse(history[i].body).fact));
      assert archive == Archive(parse, history);
      r := A.ProcessAncestry(archive, db.index, root, b, sizes);
    }

    // ----- Response commands -----

    /** Records a command for execution. The same command may arrive any number of times; a
        different body or scope under a known key is refused and the first one kept. */
    method ReceiveCommand(scope: string, key: string, body: string, fault: Fault) returns (r: Outcome)
      requires Valid()
      modifies this`db
      ensures Valid()
      ensures var c := Command(key, scope, body, Received, None, |body|);
        db == old(db) || db == old(db).(commands := old(db.commands) + [c])
      ensures db != old(db) ==> old(FindCommand(db.commands, key)).None?
      ensures r.Success? ==> Holds(db.commands, scope, key, body)
      ensures r.Failure? ==> r.error in {InvalidArgument, IdentityCollision, CountLimit, QuotaExhausted, StorageFailure}
      ensures r == Failure(InvalidArgument) <==> !(0 < |scope| <= 128 && 0 < |key| <= 128 && 0 < |body| <= 8192)
      ensures r == Failure(IdentityCollision) <==>
        && r != Failure(InvalidArgument) && old(FindCommand(db.commands, key)).Some?
        && !Holds(old(db.commands), scope, key, body)
      ensures r == Failure(CountLimit) || r == Failure(QuotaExhausted) ==> old(FindCommand(db.commands, key)).None?
      ensures r == Failure(CountLimit) ==> old(|db.commands|) == 65536
      ensures r == Failure(QuotaExhausted) ==> old(Held(db)) + |body| > limit
      ensures r == Failure(StorageFailure) ==> fault != NoFault
      ensures fault == NoFault && Holds(old(db.commands), scope, key, body) && r != Failure(InvalidArgument) ==>
        r.Success? && db == old(db)
      ensures (r.Failure? && r.error != StorageFailure) || fault == AdmissionRefused ==> db == old(db)
    {
      hide Sound, Logged, Witnessed, Held, Retained, FindCommand;
      if !(0 < |scope| <= 128 && 0 < |key| <= 128 && 0 < |body| <= 8192) { return Failure(InvalidArgument); }
      match FindCommand(db.commands, key)
      case Some(k) =>
        var c := db.commands[k];
        if c.scope != scope || c.body != body { return Failure(IdentityCollision); }
        r := Commit(db, fault);
      case None =>
        if |db.commands| >= 65536 { return Failure(CountLimit); }
        QuotaSeesHeld(db, limit, parse);
        if |body| > limit || Retained(db) > Minus(limit, |body|) { return Failure(QuotaExhausted); }
        if fault == AdmissionRefused { return Failure(StorageFailure); }
        var c := Command(key, scope, body, Received, None, |body|);
        AddCommandKeepsSound(db, limit, parse, c);
        FindAdded(db.commands, c);
        r := Commit(db.(commands := db.commands + [c]), fault);
    }

    /** The oldest unfinished commands of a scope. */
    method PendingCommands(scope: string, count: nat) returns (r: Result<seq<Command>, Error>)
      requires Valid()
      ensures r == Failure(InvalidArgument) <==> !(0 < |scope| <= 128 && 0 < count <= 1000)
      ensures r.Failure? ==> r.error == InvalidArgument
      ensures r.Success? ==> r.value <= Unfinished(db.commands, scope) && CommandKeysDistinct(r.value)
      ensures r.Success? ==> |r.value| <= count && (|r.value| == count || r.value == Unfinished(db.commands, scope))
      ensures r.Success? ==> OldestUnfinished(db.commands, scope, count, r.value)
      ensures r.Success? ==> forall c :: c in r.value ==> c in db.commands && c.scope == scope && c.state != Outboxed
    {
      if !(0 < |scope| <= 128 && 0 < count <= 1000) { return Failure(InvalidArgument); }
      var all := Unfinished(db.commands, scope);
      UnfinishedDistinct(db.commands, scope);
      var out := if count < |all| then all[..count] else all;
      UnfinishedPrefix(db.commands, scope, count, out);
      forall c | c in out ensures c in db.commands && c.scope == scope && c.state != Outboxed {
        UnfinishedMembers(db.commands, scope, c);
      }
      return Success(out);
    }

    /** Takes a received command into execution. Yes is answered exactly once per command. */
    method BeginCommand(scope: string, key: string, fault: Fault) returns (r: Result<bool, Error>)
      requires Valid()
      modifies this`db
      ensures Valid()
      ensures db == old(db) || db == old(db).(commands := Moved(old(db.commands), key, Executing, None))
      ensures db != old(db) || r == Success(true) ==> InState(old(db.commands), scope, key, Received)
      ensures r == Success(true) ==> db == old(db).(commands := Moved(old(db.commands), key, Executing, None))
      ensures r == Success(false) ==> db == old(db) && !InState(old(db.commands), scope, key, Received)
      ensures r.Failure? ==> r.error == StorageFailure && fault != NoFault
      ensures fault == AdmissionRefused ==> db == old(db)
    {
      hide Sound, Logged, Witnessed, Held, FindCommand;
      var found := FindCommand(db.commands, key);
      if found.None? || db.commands[found.value].scope != scope || db.commands[found.value].state != Received {
        var done := Commit(db, fault);
        return if done.Success? then Success(false) else Failure(StorageFailure);
      }
      if fault == AdmissionRefused { return Failure(StorageFailure); }
      var k := found.value;
      CommandSizedWhenSound(db, limit, parse, k);
      QuotaSeesHeld(db, limit, parse);
      var taken := db.commands[k].(state := Executing);
      SetCommandKeepsSound(db, limit, parse, k, taken);
      var done := Commit(db.(commands := db.commands[k := taken]), fault);
      return if done.Success? then Success(true) else Failure(StorageFailure);
    }

    /** Stores a command's result once. Repeating the same result is accepted; a different one is
        refused, and a result without execution intent is refused. */
    method FinishCommand(scope: string, key: string, result: string, fault: Fault) returns (r: Outcome)
      requires Valid()
      modifies this`db
      ensures Valid()
      ensures db == old(db) || db == old(db).(commands := Moved(old(db.commands), key, ResultReady, Some(result)))
      ensures db != old(db) ==> InState(old(db.commands), scope, key, Executing)
      ensures r.Success? ==> HasResult(db.commands, scope, key, result)
      ensures r.Failure? ==>
        r.error in {InvalidArgument, NoSuchCommand, IdentityCollision, NoIntent, QuotaExhausted, StorageFailure}
      ensures r == Failure(InvalidArgument) <==> !(0 < |result| <= eventLimit)
      ensures r.Failure? && r.error != StorageFailure ==> db == old(db)
      ensures fault == NoFault && HasResult(old(db.commands), scope, key, result) && r != Failure(InvalidArgument) ==>
        r.Success? && db == old(db)
      ensures r == Failure(NoSuchCommand) ==>
        var k := FindCommand(db.commands, key);
        db == old(db) && !(k.Some? && db.commands[k.value].scope == scope)
      ensures r == Failure(IdentityCollision) ==> db == old(db) && !HasResult(db.commands, scope, key, result)
      ensures r == Failure(NoIntent) <==> 0 < |result| <= eventLimit && InState(old(db.commands), scope, key, Received)
      ensures fault == NoFault && InState(old(db.commands), scope, key, Executing) && r.Failure? ==>
        !(0 < |result| <= eventLimit && old(Held(db)) + |result| <= limit)
      ensures fault == AdmissionRefused ==> db == old(db)
    {
      hide Sound, Logged, Witnessed, Held, Retained, FindCommand;
      if !(0 < |result| <= eventLimit) { return Failure(InvalidArgument); }
      match FindCommand(db.commands, key)
      case None => return Failure(NoSuchCommand);
      case Some(k) =>
        var c := db.commands[k];
        if c.scope != scope { return Failure(NoSuchCommand); }
        CommandSizedWhenSound(db, limit, parse, k);
        if c.state == ResultReady || c.state == Outboxed {
          if c.result != Some(result) { return Failure(IdentityCollision); }
          r := Commit(db, fault);
          return;
        }
        if c.state != Executing { return Failure(NoIntent); }
        QuotaSeesHeld(db, limit, parse);
        if |result| > limit || Retained(db) > Minus(limit, |result|) { return Failure(QuotaExhausted); }
        if fault == AdmissionRefused { return Failure(StorageFailure); }
        var done := c.(state := ResultReady, result := Some(result), bytes := c.bytes + |result|);
        SetCommandKeepsSound(db, limit, parse, k, done);
        FindMoved(db.commands, key, ResultReady, Some(result), key);
        r := Commit(db.(commands := db.commands[k := done]), fault);
    }

    /** Records that a stored result was handed to the outbox. */
    method MarkCommandOutboxed(scope: string, key: string, fault: Fault) returns (r: Outcome)
      requires Valid()
      modifies this`db
      ensures Valid()
      ensures db == old(db) || db == old(db).(commands := Moved(old(db.commands), key, Outboxed, None))
      ensures db != old(db) ==> InState(old(db.commands), scope, key, ResultReady)
      ensures r.Success? ==> InState(db.commands, scope, key, Outboxed)
      ensures r == Failure(NoIntent) <==>
        !InState(old(db.commands), scope, key, ResultReady) && !InState(old(db.commands), scope, key, Outboxed)
      ensures r.Failure? ==> r.error == NoIntent || (r.error == StorageFailure && fault != NoFault)
      ensures fault == AdmissionRefused ==> db == old(db)
    {
      hide Sound, Logged, Witnessed, Held, FindCommand;
      var found := FindCommand(db.commands, key);
      if found.None? || db.commands[found.value].scope != scope { return Failure(NoIntent); }
      var k := found.value;
      if db.commands[k].state == Outboxed {
        r := Commit(db, fault);
        return;
      }
      if db.commands[k].state != ResultReady { return Failure(NoIntent); }
      if fault == AdmissionRefused { return Failure(StorageFailure); }
      CommandSizedWhenSound(db, limit, parse, k);
      QuotaSeesHeld(db, limit, parse);
      var closed := db.commands[k].(state := Outboxed);
      SetCommandKeepsSound(db, limit, parse, k, closed);
      FindMoved(db.commands, key, Outboxed, None, key);
      r := Commit(db.(commands := db.commands[k := closed]), fault);
    }

    // ----- Every run -----

    /** One operation, with any arguments and any storage behaviour. */
    method AnyStep()
      requires Valid()
      modifies this
      ensures Valid()
      ensures forall source :: old(History(log, source)) <= History(log, source)
      ensures forall source :: Extends(old(RunOf(runs, source)), RunOf(runs, source))
    {
      hide Sound, Logged, Witnessed, Consistent, Inserted, SettledBy, Held, BatchFrom, HasResult, Holds, Moved,
        ValidReceipt, Answers, InState, FindCommand, Copies, ReasonBytes, VerdictList;
      var operation: nat, fault: Fault, expected: nat := *, *, *;
      var line: string, source: string, checkpoint: string, scope: string := *, *, *, *;
      var batch: Batch, receipt: Receipt := *, *;
      if operation == 0 {
        var _ := Append(line, fault);
      } else if operation == 1 {
        var _ := AppendCheckpointed(line, source, checkpoint, expected, fault);
      } else if operation == 2 {
        var _ := AdvanceCheckpoint(source, checkpoint, expected, fault);
      } else if operation == 3 {
        var _ := Acknowledge(batch, receipt, fault);
      } else if operation == 4 {
        var _ := ReceiveCommand(scope, source, line, fault);
      } else if operation == 5 {
        var _ := BeginCommand(scope, source, fault);
      } else if operation == 6 {
        var _ := FinishCommand(scope, source, line, fault);
      } else {
        var _ := MarkCommandOutboxed(scope, source, fault);
      }
    }

    /** Any sequence of operations, with any arguments and any storage behaviour. Throughout, the
        counters equal what the tables hold, nothing is held beyond the quota, every insertion is
        pending, dead or acknowledged, each source's revisions count its accepted entries, and the
        attempts on each source form a run, so everything ever told to a caller stays true. */
    method AnyRun(steps: nat)
      requires Valid()
      modifies this
      ensures Valid() && CountersExact(db) && Held(db) <= limit
      ensures insertions == db.counters.pending + db.counters.dead + db.counters.acknowledged
      ensures forall source :: StoredRevision(db.checkpoints, source) == Some(|History(log, source)|)
      ensures forall source :: old(History(log, source)) <= History(log, source)
      ensures forall source :: RunLeads(runs, log, source) && Extends(old(RunOf(runs, source)), RunOf(runs, source))
      ensures forall source, i :: 0 <= i < |RunOf(runs, source).attempts| ==> StillTold(runs, log, source, i)
    {
      hide Sound, Logged, StoredRevision, Held, CountersExact, IsRun;
      for i := 0 to steps
        invariant Valid() && forall source :: old(History(log, source)) <= History(log, source)
        invariant forall source :: Extends(old(RunOf(runs, source)), RunOf(runs, source))
      {
        AnyStep();
      }
      SoundMeans(db, limit, parse);
      forall source ensures StoredRevision(db.checkpoints, source) == Some(|History(log, source)|) {
        RevisionCounts(db.checkpoints, log, source);
      }
      forall source, i | 0 <= i < |RunOf(runs, source).attempts| ensures StillTold(runs, log, source, i) {
        if RunOf(runs, source).attempts[i].accepted { AcceptedStays(runs, log, source, i); }
      }
    }
  }

  /** The division form of the quota test decides the sum without ever overflowing. */
  lemma QuotaTest(limit: nat, copies: nat, size: nat, bytes: nat)
    requires copies == 1 || copies == 2
    ensures size > limit / copies || bytes > limit - copies * size <==> bytes + copies * size > limit
    ensures size <= limit / copies ==> copies * size <= limit
  {
  }

  lemma CountInserted(db: Database, t: Database, limit: nat, parse: string -> Document, d: Document, line: string,
                      key: Digest)
    requires Sound(db, limit, parse) && Sound(t, limit, parse) && Inserted(db, t, d, line, key)
    ensures |db.observations| <= |t.observations|
    ensures t.checkpoints == db.checkpoints && t.commands == db.commands
    ensures t.counters.acknowledged == db.counters.acknowledged
    ensures t.counters.pending + t.counters.dead ==
      db.counters.pending + db.counters.dead + |t.observations| - |db.observations|
  {
    if FindKey(db.observations, key).None? {
      var o := Observation(key, line, |line|, Waiting, d.protocol);
      SumAppend(OneIfWaiting, db.observations, o);
      SumAppend(OneIfDead, db.observations, o);
    } else {
      assert t.observations == db.observations;
    }
  }

  lemma NothingFits(q: seq<Observation>)
    ensures WireSize(q[..0]) == 0
  {
  }

  /** Stopping at the first row that does not fit leaves the longest fitting run. */
  lemma LongestFit(q: seq<Observation>, n: nat, maxEvents: nat, maxBytes: nat)
    requires Fits(q, n, maxEvents, maxBytes)
    requires n == |q| || n == maxEvents || WireSize(q[..n + 1]) > maxBytes
    ensures forall m: nat :: Fits(q, m, maxEvents, maxBytes) ==> m <= n
  {
    forall m: nat | Fits(q, m, maxEvents, maxBytes) ensures m <= n {
      if m > n { WireSizeGrows(q, n + 1, m); }
    }
  }

  lemma DistinctWhenSound(db: Database, limit: nat, parse: string -> Document)
    requires Sound(db, limit, parse)
    ensures KeysDistinct(db.observations)
  {
  }

  lemma SizedWhenSound(db: Database, limit: nat, parse: string -> Document, k: nat)
    requires Sound(db, limit, parse) && k < |db.observations|
    ensures ObservationSized(db.observations[k])
  {
  }

  lemma WithoutShorter<T>(s: seq<T>, k: nat)
    requires k < |s|
    ensures |Without(s, k)| == |s| - 1
  {
  }

  lemma AcknowledgedKeepsSound(db: Database, limit: nat, parse: string -> Document)
    requires Sound(db, limit, parse)
    ensures var t := db.(counters := db.counters.(acknowledged := db.counters.acknowledged + 1));
      Sound(t, limit, parse) && Held(t) == Held(db)
  {
  }

  lemma ValidIsReceipt(parse: string -> Document, batch: Batch, receipt: Receipt)
    requires ValidReceipt(parse, batch, receipt)
    ensures receipt.Receipt?
  {
  }

  lemma VerdictListSize(receipt: Receipt, n: nat)
    requires receipt.Receipt?
    ensures |VerdictList(receipt, n)| == n
  {
  }

  lemma SettleStart(rows: seq<Observation>, lines: seq<Line>, verdicts: Verdicts)
    requires |lines| == |verdicts|
    ensures Settled(rows, lines, verdicts, 0) == rows && ReasonBytes(verdicts[..0]) == 0
  {
  }

  lemma SettleNext(rows: seq<Observation>, lines: seq<Line>, verdicts: Verdicts, i: nat)
    requires i < |lines| == |verdicts|
    ensures Settled(rows, lines, verdicts, i + 1) ==
      SettleOne(Settled(rows, lines, verdicts, i), lines[i].key, verdicts[i])
    ensures ReasonBytes(verdicts[..i + 1]) ==
      ReasonBytes(verdicts[..i]) + if verdicts[i].Some? then |verdicts[i].value| else 0
  {
    assert verdicts[..i + 1][..i] == verdicts[..i];
  }

  lemma {:induction false} ReasonBytesGrow(v: Verdicts, n: nat)
    requires n <= |v|
    ensures ReasonBytes(v[..n]) <= ReasonBytes(v)
    decreases |v| - n
  {
    if n < |v| {
      ReasonBytesGrow(v, n + 1);
      assert v[..n + 1][..n] == v[..n];
    } else {
      assert v[..n] == v;
    }
  }

  lemma PendingCount(db: Database, limit: nat, parse: string -> Document)
    requires Sound(db, limit, parse)
    ensures db.counters.pending >= 0
    ensures Oldest(db.observations).None? ==> db.counters.pending == 0
  {
    SumNonNegative(OneIfWaiting, db.observations);
    if Oldest(db.observations).None? { NobodyWaits(db.observations); }
  }

  lemma {:induction false} NobodyWaits(rows: seq<Observation>)
    requires forall i :: 0 <= i < |rows| ==> !rows[i].state.Waiting?
    ensures SumBy(OneIfWaiting, rows) == 0
  {
    if rows != [] { NobodyWaits(rows[..|rows| - 1]); }
  }

  lemma OldestFits(rows: seq<Observation>, maxBytes: nat)
    requires forall i :: 0 <= i < |rows| && rows[i].state.Waiting? ==> |rows[i].body| + 1 <= maxBytes
    ensures Oldest(rows).Some? ==> |rows[Oldest(rows).value].body| + 1 <= maxBytes
  {
  }

  lemma BatchHasLines(rows: seq<Observation>, b: Batch, maxEvents: nat, maxBytes: nat)
    requires BatchFrom(rows, b, maxEvents, maxBytes)
    ensures b.lines != []
  {
  }

  /** A valid receipt for a batch that still waits: exactly its rejected lines become dead
      letters, exactly accepted plus duplicates are retired and counted, and the number of
      insertions stays equal to pending plus dead plus acknowledged. */
  lemma WaitingBatchSettled(db: Database, t: Database, limit: nat, parse: string -> Document, batch: Batch,
                            receipt: Receipt,
                            maxEvents: nat, maxBytes: nat)
    requires Sound(db, limit, parse) && Sound(t, limit, parse) && SettledBy(db, t, batch, receipt)
    requires BatchFrom(db.observations, batch, maxEvents, maxBytes) && ValidReceipt(parse, batch, receipt)
    ensures t.counters.pending == db.counters.pending - |batch.lines| < db.counters.pending
    ensures t.counters.dead == db.counters.dead + |receipt.rejected|
    ensures t.counters.acknowledged == db.counters.acknowledged + receipt.accepted + receipt.duplicates
  {
    hide Settled, BatchFrom, VerdictList, ReasonAt, Held;
    var n, verdicts := |batch.lines|, VerdictList(receipt, |batch.lines|);
    BatchHasLines(db.observations, batch, maxEvents, maxBytes);
    BatchWaits(db.observations, batch, maxEvents, maxBytes);
    VerdictListSize(receipt, n);
    WaitingBatchCounts(db.observations, batch.lines, verdicts, n);
    ReceiptAccountsForAll(parse, batch, receipt);
    assert verdicts[..n] == verdicts;
  }

  /** Applying the same receipt again, with nothing appended in between, changes no row. */
  lemma ReplayedReceiptSettlesNothing(db: Database, t: Database, u: Database, batch: Batch, receipt: Receipt)
    requires SettledBy(db, t, batch, receipt) && SettledBy(t, u, batch, receipt)
    ensures u.observations == t.observations && u.counters.acknowledged == t.counters.acknowledged
  {
    VerdictListSize(receipt, |batch.lines|);
    ReplaySettlesNothing(db.observations, batch.lines, VerdictList(receipt, |batch.lines|));
  }

  lemma WaitingRowsFit(db: Database, t: Database, batch: Batch, receipt: Receipt, maxBytes: nat)
    requires SettledBy(db, t, batch, receipt)
    requires forall i :: 0 <= i < |db.observations| && db.observations[i].state.Waiting? ==>
      |db.observations[i].body| + 1 <= maxBytes
    ensures forall i :: 0 <= i < |t.observations| && t.observations[i].state.Waiting? ==>
      |t.observations[i].body| + 1 <= maxBytes
  {
    hide Settled, VerdictList;
    VerdictListSize(receipt, |batch.lines|);
    forall i | 0 <= i < |t.observations| && t.observations[i].state.Waiting?
      ensures |t.observations[i].body| + 1 <= maxBytes
    {
      SettledStillWaiting(db.observations, batch.lines, VerdictList(receipt, |batch.lines|), t.observations[i]);
    }
  }

  lemma SoundMeans(db: Database, limit: nat, parse: string -> Document)
    requires Sound(db, limit, parse)
    ensures CountersExact(db) && Held(db) <= limit
  {
  }

  /** The oversized row is among the rows after any batch chosen under the bound was settled. */
  lemma OversizedStays(db: Database, t: Database, limit: nat, parse: string -> Document, batch: Batch, receipt: Receipt,
                       maxEvents: nat, maxBytes: nat, o: Observation)
    requires Sound(db, limit, parse) && SettledBy(db, t, batch, receipt)
    requires BatchFrom(db.observations, batch, maxEvents, maxBytes) && o in db.observations && |o.body| + 1 > maxBytes
    ensures o in t.observations
  {
    hide BatchFrom, Settled, VerdictList, Held;
    VerdictListSize(receipt, |batch.lines|);
    DistinctWhenSound(db, limit, parse);
    OversizedSurvives(db.observations, batch, maxEvents, maxBytes, VerdictList(receipt, |batch.lines|), o);
  }

  lemma SomebodyWaits(db: Database, limit: nat, parse: string -> Document, o: Observation)
    requires Sound(db, limit, parse) && o in db.observations && o.state.Waiting?
    ensures db.counters.pending > 0
  {
    var k :| 0 <= k < |db.observations| && db.observations[k] == o;
    SumAtLeast(OneIfWaiting, db.observations, k);
  }

  /** The failing input. The journal may be configured for lines of 8 MiB; such a line is accepted,
      and then no admissible peek returns anything, because the largest byte bound is 8 MiB and a
      line is sent with its newline. */
  method OversizedLineBlocks(parse: string -> Document, maxEvents: nat, maxBytes: nat)
    returns (journal: DurableJournal, accepted: Outcome, next: Result<Option<Batch>, Error>)
    requires 0 < maxEvents <= 1000 && 0 < maxBytes <= 8 * 1024 * 1024
    ensures fresh(journal) && journal.Valid() && journal.eventLimit == 8 * 1024 * 1024
    ensures accepted.Success? && journal.db.counters.pending > 0 && next == Failure(HeadTooLarge)
  {
    hide Sound, Witnessed, Logged, Held, Blank, SingleLine, Inserted, Copies, IsOldest;
    journal := new DurableJournal(32 * 1024 * 1024, 8 * 1024 * 1024, parse);
    var line := seq(8 * 1024 * 1024, i => 'x');
    PlainLine(line);
    FirstInsert(parse(line), line, Sha256(line));
    NothingHeld();
    accepted := journal.Append(line, NoFault);
    FirstRow(journal.db, parse(line), line, Sha256(line));
    SomebodyWaits(journal.db, journal.limit, journal.parse, journal.db.observations[0]);
    next := journal.Peek(maxEvents, maxBytes);
  }

  lemma PlainLine(line: string)
    requires line != "" && forall i :: 0 <= i < |line| ==> line[i] == 'x'
    ensures !Blank(line) && SingleLine(line)
  {
    assert line[0] == 'x';
  }

  lemma FirstInsert(d: Document, line: string, key: Digest)
    ensures Copies(Empty, d, key) * |line| <= 2 * |line|
  {
  }

  lemma FirstRow(t: Database, d: Document, line: string, key: Digest)
    requires Inserted(Empty, t, d, line, key)
    ensures t.observations == [Observation(key, line, |line|, Waiting, d.protocol)] && Oldest(t.observations) == Some(0)
  {
  }

  lemma NothingHeld()
    ensures Held(Empty) == 0
  {
  }

  /** Moving a command changes the bytes held by the result it gains, and by nothing else. */
  lemma HeldMoved(db: Database, key: string, state: CommandState, result: Option<string>)
    ensures var t := db.(commands := Moved(db.commands, key, state, result));
      Held(db) <= Held(t) <= Held(db) + if result.Some? then |result.value| else 0
  {
    var k := FindCommand(db.commands, key);
    if k.Some? {
      SumUpdate(CommandBytes, db.commands, k.value, Moved(db.commands, key, state, result)[k.value]);
    }
  }

  lemma MovedInState(rows: seq<Command>, scope: string, key: string, from: CommandState, to: CommandState,
                     result: Option<string>)
    requires InState(rows, scope, key, from)
    ensures InState(Moved(rows, key, to, result), scope, key, to)
  {
    FindMoved(rows, key, to, result, key);
  }
}
