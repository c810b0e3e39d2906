/** The change-journal worker of one volume: a cursor protocol over the compare-and-swap
    checkpoint log. The native journal may be truncated, recreated, or return anything; commits
    may be refused or reported wrongly; the worker may stop and start again anywhere; and other
    workers of the same source may race it. */
module UsnWorker {
  import opened Common
  import opened SourceLog
  import opened UsnDecoder
  import C = Checkpoints
  import D = Delivery
  import J = Journal
  import St = Store

  datatype GapReason = InitialCursor | InstanceChanged | BeforeRetainedRange | AheadOfJournal

  datatype Content = Decoded(batch: UsnDecoder.Batch) | Blind(raw: seq<byte>)

  datatype Record =
    | Gap(reason: GapReason, previous: Option<Cursor>, replacement: Cursor)
    | Resumed
    | Changes(journalId: nat, start: int, next: int, content: Content)

  type LogEntry = SourceLog.Entry<Record, Cursor>

  type Log = seq<LogEntry>

  /** The state of the native journal as queried. */
  datatype Native = Native(journalId: nat, first: int, lowestValid: int, next: int) {
    ghost predicate Sane() {
      journalId <= U64_MAX && first >= 0 && lowestValid >= 0 && first <= next && lowestValid <= next <= I64_MAX
    }
  }

  predicate Storable(c: Cursor) {
    c.journalId <= U64_MAX && 0 <= c.nextUsn <= I64_MAX
  }

  function CursorBefore(log: Log, i: nat): Option<Cursor>
    requires i <= |log|
  {
    if i == 0 then None else Some(log[i - 1].cursor)
  }

  /** A record is honest about the cursor it moves: a batch starts exactly where the preceding
      record ended, a resumption moves nothing, and a gap names both ends of its jump. */
  predicate Follows(before: Option<Cursor>, e: LogEntry) {
    && Storable(e.cursor)
    && match e.record
      case Gap(reason, previous, replacement) =>
        previous == before && e.cursor == replacement && (reason == InitialCursor <==> before.None?)
      case Resumed => before == Some(e.cursor)
      case Changes(id, start, next, content) =>
        && before == Some(Cursor(id, start)) && e.cursor == Cursor(id, next) && start <= next
        && (content.Decoded? ==> content.batch.start == start && content.batch.next == next)
  }

  ghost predicate Chained(log: Log) {
    forall i: nat :: i < |log| ==> FollowsAt(log, i)
  }

  predicate FollowsAt(log: Log, i: nat)
    requires i < |log|
  {
    Follows(CursorBefore(log, i), log[i])
  }

  lemma ChainExtends(log: Log, e: LogEntry)
    requires Chained(log) && Follows(CursorBefore(log, |log|), e)
    ensures Chained(log + [e])
  {
    var more := log + [e];
    forall i: nat | i < |more| ensures FollowsAt(more, i) {
      if i < |log| { assert FollowsAt(log, i); }
    }
  }

  /** The cursor before an existing position does not depend on what was appended since. */
  lemma CursorStable(log: Log, more: Log, i: nat)
    requires log <= more && i <= |log|
    ensures CursorBefore(more, i) == CursorBefore(log, i)
  {
  }

  /** No range of the change journal is skipped silently: between two points of the log with no gap
      record in between, the journal instance is the same and every USN passed over lies in the
      range of some committed batch. */
  lemma {:induction false} NothingSkipped(log: Log, i: nat, j: nat, usn: int) returns (k: nat)
    requires Chained(log) && i < j < |log|
    requires forall m :: i < m <= j ==> !log[m].record.Gap?
    requires log[i].cursor.nextUsn <= usn < log[j].cursor.nextUsn
    ensures i < k <= j && log[k].record.Changes? && log[k].record.start <= usn < log[k].record.next
    ensures log[k].record.journalId == log[i].cursor.journalId
    decreases j
  {
    SameInstance(log, i, j - 1);
    assert FollowsAt(log, j);
    if usn >= log[j - 1].cursor.nextUsn {
      k := j;
    } else {
      k := NothingSkipped(log, i, j - 1, usn);
    }
  }

  /** Without a gap record the worker stays on one instance of the journal and never goes back. */
  lemma {:induction false} SameInstance(log: Log, i: nat, j: nat)
    requires Chained(log) && i <= j < |log| && forall m :: i < m <= j ==> !log[m].record.Gap?
    ensures log[j].cursor.journalId == log[i].cursor.journalId && log[i].cursor.nextUsn <= log[j].cursor.nextUsn
  {
    if i < j {
      SameInstance(log, i, j - 1);
      assert FollowsAt(log, j);
    }
  }

  /** The first record of a source says that history before it was not observed. */
  lemma FirstIsInitialGap(log: Log)
    requires Chained(log) && log != []
    ensures log[0].record.Gap? && log[0].record.reason == InitialCursor
  {
    assert FollowsAt(log, 0);
  }

  // ----- What the journal's entries say -----

  /** The text formats of the worker: how a record becomes a journal line, with whatever identity it is
      stamped with, what a line says, and the cursor document as text and back. */
  datatype Formats = Formats(line: (Record, nat) -> string, says: string -> Option<Record>,
                             write: CursorText -> string, read: string -> Option<CursorText>)
  {
    ghost predicate Faithful() {
      && (forall r, n :: says(line(r, n)) == Some(r))
      && (forall t :: read(write(t)) == Some(t))
    }

    function CursorOf(text: string): Option<Cursor> {
      if read(text).Some? then DecodeCursor(read(text).value) else None
    }

    /** What an accepted journal entry of this source means. */
    ghost function Meaning(e: C.Accepted): Option<LogEntry> {
      if e.record.OfRecord? && e.record.record.Sha256? && says(e.record.record.of).Some? && CursorOf(e.cursor).Some?
      then Some(Entry(says(e.record.record.of).value, CursorOf(e.cursor).value)) else None
    }
  }

  /** The journal's history of the source, entry by entry, says exactly this. */
  ghost predicate Mirrors(f: Formats, history: seq<C.Accepted>, log: Log) {
    |history| == |log| && forall i :: 0 <= i < |log| ==> f.Meaning(history[i]) == Some(log[i])
  }

  /** A commit on the journal is a commit on what its entries say. */
  lemma CommitMirrored(f: Formats, history: seq<C.Accepted>, log: Log, a: C.Accepted,
                       e: LogEntry,
                       expected: nat, accepted: bool, history': seq<C.Accepted>)
    requires Mirrors(f, history, log) && f.Meaning(a) == Some(e) && Commits(history, a, expected, accepted, history')
    ensures var log' := if history' == history then log else log + [e];
      Mirrors(f, history', log') && Commits(log, e, expected, accepted, log')
  {
  }

  lemma StorableReads(f: Formats, c: Cursor)
    requires f.Faithful() && Storable(c)
    ensures EncodeCursor(c).Some? && f.CursorOf(f.write(EncodeCursor(c).value)) == Some(c)
  {
    CursorRoundTrip(c, EncodeCursor(c).value);
  }

  class Worker {
    const journal: J.DurableJournal
    const source: string
    const formats: Formats
    /** What the accepted entries of this source in the durable journal say. */
    ghost var log: Log

    ghost predicate Valid()
      reads this, journal
    {
      journal.Valid() && formats.Faithful() && Mirrors(formats, C.History(journal.log, source), log) && Chained(log)
    }

    constructor (journal: J.DurableJournal, source: string, formats: Formats)
      requires journal.Valid() && formats.Faithful() && C.History(journal.log, source) == []
      ensures Valid() && log == [] && this.journal == journal && this.source == source && this.formats == formats
    {
      this.journal, this.source, this.formats, log := journal, source, formats, [];
    }

    /** Anything the rest of the program may do to the journal in between: append and acknowledge
        observations, commit for other sources, receive and move commands, and commit for this source as
        another worker following the same protocol. */
    method Interfere(steps: nat)
      requires Valid()
      modifies this, journal
      ensures Valid() && old(log) <= log
      ensures steps == 0 ==> log == old(log) && journal.db == old(journal.db) && journal.log == old(journal.log)
    {
      hide Chained, Mirrors, Formats.Faithful, J.DurableJournal.Valid;
      for i := 0 to steps
        invariant Valid() && old(log) <= log
        invariant i == 0 ==> log == old(log) && journal.db == old(journal.db) && journal.log == old(journal.log)
      {
        var operation: nat, fault: J.Fault := *, *;
        if operation == 0 {
          var line: string := *;
          var _ := journal.Append(line, fault);
        } else if operation == 1 {
          var batch: D.Batch, receipt: D.Receipt := *, *;
          var _ := journal.Acknowledge(batch, receipt, fault);
        } else if operation <= 3 {
          var line: string, other: string, text: string, expected: nat := *, *, *, *;
          if other != source && operation == 2 {
            var _ := journal.AppendCheckpointed(line, other, text, expected, fault);
          } else if other != source {
            var _ := journal.AdvanceCheckpoint(other, text, expected, fault);
          }
        } else if operation <= 7 {
          var scope: string, key: string, body: string := *, *, *;
          if operation == 4 {
            var _ := journal.ReceiveCommand(scope, key, body, fault);
          } else if operation == 5 {
            var _ := journal.BeginCommand(scope, key, fault);
          } else if operation == 6 {
            var _ := journal.FinishCommand(scope, key, body, fault);
          } else {
            var _ := journal.MarkCommandOutboxed(scope, key, fault);
          }
        } else {
          var ok, revision, cursor := Load();
          var e: LogEntry, stamp: nat := *, *;
          if ok && Follows(cursor, e) {
            var _ := Commit(e, stamp, revision, fault);
          }
        }
      }
    }

    /** A limit of the journal stands against committing this record. */
    ghost predicate Blocked(e: LogEntry, stamp: nat, expected: nat)
      reads journal`db, journal`log
    {
      && EncodeCursor(e.cursor).Some?
      && journal.NoRoom(formats.line(e.record, stamp), source, formats.write(EncodeCursor(e.cursor).value), expected)
    }

    /** One durable commit attempt with any storage behaviour: a checkpointed append to the journal. */
    method Commit(e: LogEntry, stamp: nat, expected: nat, fault: J.Fault)
      returns (accepted: bool)
      requires Valid() && expected <= |log| && Follows(CursorBefore(log, expected), e)
      modifies this, journal
      ensures Valid() && Commits(old(log), e, expected, accepted, log)
      ensures fault == J.NoFault && |old(log)| == expected ==> (accepted <==> !old(Blocked(e, stamp, expected)))
      ensures fault == J.NoFault && |old(log)| == expected && !accepted ==>
        log == old(log) && Blocked(e, stamp, expected)
    {
      hide Chained, Mirrors, J.Answers, C.Noted, J.DurableJournal.Valid;
      ghost var history := C.History(journal.log, source);
      var line := formats.line(e.record, stamp);
      StorableReads(formats, e.cursor);
      var text := formats.write(EncodeCursor(e.cursor).value);
      ghost var a := Entry(St.OfRecord(Sha256(line)), text);
      assert formats.Meaning(a) == Some(e);
      var r := journal.AppendCheckpointed(line, source, text, expected, fault);
      CommitMirrored(formats, history, log, a, e, expected, r.Success?, C.History(journal.log, source));
      if C.History(journal.log, source) != history {
        ChainExtends(log, e);
        log := log + [e];
      }
      return r.Success?;
    }

    /** Offers one immutable record until it is accepted or the worker is stopped, after so many attempts. In quiet
        conditions, that is, without faults and without anybody else at work, a record at the next revision is
        accepted at once unless a limit of the journal stands against it. */
    method Accept(record: Record, cursor: Cursor, revision: nat, attempts: nat, stamp: nat, quiet: bool)
      returns (accepted: bool, tries: nat)
      requires Valid() && revision <= |log| && Follows(CursorBefore(log, revision), Entry(record, cursor))
      modifies this, journal
      ensures Valid() && old(log) <= log
      ensures accepted ==> revision < |log| && log[revision] == Entry(record, cursor)
      ensures tries <= attempts && (!accepted ==> tries == attempts)
      ensures quiet && |old(log)| == revision && !accepted ==> log == old(log)
      ensures quiet && |old(log)| == revision && accepted ==> |log| == revision + 1
      ensures quiet && |old(log)| == revision && !accepted && attempts > 0 ==>
        Blocked(Entry(record, cursor), stamp, revision)
    {
      hide Chained, Mirrors, Formats.Faithful, J.DurableJournal.Valid, Blocked;
      var e := Entry(record, cursor);
      tries := 0;
      while tries < attempts
        invariant tries <= attempts && Valid() && old(log) <= log
        invariant quiet && |old(log)| == revision ==> log == old(log)
        invariant quiet && |old(log)| == revision && tries > 0 ==> Blocked(e, stamp, revision)
      {
        var steps: nat, fault: J.Fault := *, *;
        if quiet { steps, fault := 0, J.NoFault; }
        Interfere(steps);
        CursorStable(old(log), log, revision);
        accepted := Commit(e, stamp, revision, fault);
        tries := tries + 1;
        if accepted { return; }
      }
      accepted := false;
    }

    /** The durable checkpoint of the source: its revision and the cursor decoded from its text. */
    method Load() returns (ok: bool, revision: nat, cursor: Option<Cursor>)
      requires Valid()
      ensures ok <==> J.ValidSource(source)
      ensures ok ==> revision == |log| && cursor == CursorBefore(log, |log|)
    {
      hide Chained, Formats.Faithful, J.DurableJournal.Valid;
      var r := journal.SourceCheckpoint(source);
      if r.Failure? { return false, 0, None; }
      if r.value.None? { return true, 0, None; }
      var (n, text) := r.value.value;
      assert formats.Meaning(C.History(journal.log, source)[n - 1]) == Some(log[n - 1]);
      return true, n, formats.CursorOf(text);
    }

    /** One poll of the inner loop, given what the native journal reports and what reading it
        returns. A completed poll leaves the worker exactly at the USN the read returned, its first
        record is the gap or the resumption the saved cursor calls for, and a batch starts inside the
        range the native journal holds. */
    method Poll(position: Position, resumed: bool, current: Native, read: Option<seq<byte>>, utf8: seq<byte> -> bool,
                oversized: UsnDecoder.Batch -> bool, attempts: nat, stamp: nat, quiet: bool)
      returns (s: Progress, p: Position, active: bool)
      requires Valid() && At(log, position)
      modifies this, journal
      ensures Valid() && old(log) <= log && At(log, p) && position.revision <= p.revision
      ensures s == Polled ==>
        && active && read.Some? && |read.value| >= 8
        && p.cursor == Some(Cursor(current.journalId, Signed(read.value[..8])))
      ensures s == Polled ==> Resynced(log, position, resumed, current)
      ensures s == Polled && |read.value| > 8 ==> EndsWithBatch(log, p.revision, read.value, utf8, oversized)
      ensures s == Polled ==> forall k :: position.revision <= k < p.revision && log[k].record.Changes? ==>
        Within(Cursor(log[k].record.journalId, log[k].record.start), current)
      ensures !current.Sane() ==> s == Failed && p == position && log == old(log)
      ensures s == Failed ==>
        !current.Sane() || read.None? || p.revision == U64_MAX || p.cursor.None? || BadRead(read.value, p.cursor.value)
      ensures quiet && attempts > 0 && |old(log)| == position.revision && s == Stopped ==>
        exists e: LogEntry :: Blocked(e, stamp, p.revision) &&
          (ResyncEntry(e, position.cursor, current) ||
           (p.cursor.Some? && read.Some? && BatchEntry(e, p.cursor.value, read.value, utf8, oversized)))
    {
      hide Chained, I64, Resynced, EndsWithBatch, J.DurableJournal.Valid, Mirrors, Formats.Faithful, Blocked;
      if current.journalId > U64_MAX || current.first < 0 || current.lowestValid < 0 || current.next > I64_MAX
         || current.first > current.next || current.lowestValid > current.next {
        return Failed, position, resumed;
      }
      s, p, active := Resync(position, resumed, current, attempts, stamp, quiet);
      if s != Polled { return; }
      if read.None? { return Failed, p, active; }
      ghost var before := log;
      s, p := Consume(p, read.value, utf8, oversized, attempts, stamp, quiet);
      ResyncedStays(before, log, position, resumed, current);
    }

    /** Replaces a cursor that cannot be continued, or says that a saved one is continued. Then the worker
        is inside what the native journal holds. */
    method Resync(position: Position, resumed: bool, current: Native, attempts: nat, stamp: nat, quiet: bool)
      returns (s: Progress, p: Position, active: bool)
      requires Valid() && At(log, position) && current.Sane()
      modifies this, journal
      ensures Valid() && old(log) <= log && At(log, p)
      ensures p.revision == position.revision || p.revision == position.revision + 1
      ensures s == Polled ==> active && p.cursor.Some? && Within(p.cursor.value, current)
      ensures s == Polled && p.revision > position.revision ==> !log[position.revision].record.Changes?
      ensures position.cursor.Some? && Within(position.cursor.value, current) && resumed ==>
        s == Polled && p == position && log == old(log)
      ensures s != Polled ==> p == position && (s == Failed ==> p.revision == U64_MAX)
      ensures quiet && |old(log)| == position.revision && s == Polled ==> |log| == p.revision
      ensures quiet && attempts > 0 && |old(log)| == position.revision && s == Stopped ==>
        exists e: LogEntry :: Blocked(e, stamp, p.revision) && ResyncEntry(e, position.cursor, current)
      ensures s == Polled ==> Resynced(log, position, resumed, current)
    {
      hide Chained, J.DurableJournal.Valid, Mirrors, Formats.Faithful, Blocked;
      p, active := position, resumed;
      var reason := None;
      var first := if current.first > current.lowestValid then current.first else current.lowestValid;
      if p.cursor.None? {
        reason := Some(InitialCursor);
      } else if p.cursor.value.journalId != current.journalId {
        reason := Some(InstanceChanged);
      } else if p.cursor.value.nextUsn < first {
        reason := Some(BeforeRetainedRange);
      } else if p.cursor.value.nextUsn > current.next {
        reason := Some(AheadOfJournal);
      }
      if reason.Some? {
        var replacement := Cursor(current.journalId, if p.cursor.None? then current.next else first);
        s, p := Advance(p, Gap(reason.value, p.cursor, replacement), replacement, attempts, stamp, quiet);
        if s != Polled { return; }
        active := true;
      } else if !active {
        LastStorable(log, p);
        s, p := Advance(p, Resumed, p.cursor.value, attempts, stamp, quiet);
        if s != Polled { return; }
        active := true;
      }
      return Polled, p, active;
    }

    /** Commits what one native read returned, decoded or, failing that, in full as it was read. */
    method Consume(position: Position, read: seq<byte>, utf8: seq<byte> -> bool, oversized: UsnDecoder.Batch -> bool,
                   attempts: nat, stamp: nat, quiet: bool)
      returns (s: Progress, p: Position)
      requires Valid() && At(log, position) && position.cursor.Some?
      modifies this, journal
      ensures Valid() && old(log) <= log && At(log, p)
      ensures p.revision == position.revision || p.revision == position.revision + 1
      ensures s == Polled ==>
        |read| >= 8 && p.cursor == Some(Cursor(position.cursor.value.journalId, Signed(read[..8])))
      ensures s == Polled && p.revision > position.revision ==>
        var r := log[position.revision].record;
        r.Changes? && Cursor(r.journalId, r.start) == position.cursor.value
      ensures s == Polled && |read| > 8 ==> EndsWithBatch(log, p.revision, read, utf8, oversized)
      ensures s == Polled ==>
        (p.revision > position.revision <==> |read| > 8 || Signed(read[..8]) != position.cursor.value.nextUsn)
      ensures s != Polled ==> p == position
      ensures s == Failed ==> p.revision == U64_MAX || BadRead(read, position.cursor.value)
      ensures quiet && |old(log)| == position.revision && s == Polled ==> |log| == p.revision
      ensures quiet && attempts > 0 && |old(log)| == position.revision && s == Stopped ==>
        exists e: LogEntry :: Blocked(e, stamp, p.revision) &&
          BatchEntry(e, position.cursor.value, read, utf8, oversized)
    {
      hide Chained, I64, Decodes, J.DurableJournal.Valid, Mirrors, Formats.Faithful, Signed, Blocked;
      p := position;
      if |read| < 8 || |read| > 16384 { return Failed, p; }
      var next := I64(read, 0);
      I64Reads(read, 0);
      assert read[0..8] == read[..8];
      var cursor := p.cursor.value;
      if next < cursor.nextUsn { return Failed, p; }
      var decoded := DecodeUsnBuffer(read, cursor.nextUsn, utf8);
      if |read| > 8 || next != cursor.nextUsn {
        LastStorable(log, p);
        var content := if decoded.Success? && !oversized(decoded.value) then Decoded(decoded.value) else Blind(read);
        ContentIs(read, cursor.nextUsn, utf8, oversized, decoded);
        var changes := Changes(cursor.journalId, cursor.nextUsn, next, content);
        s, p := Advance(p, changes, Cursor(cursor.journalId, next), attempts, stamp, quiet);
        return;
      }
      return Polled, p;
    }

    /** Commits one record at the worker's position and moves the position past it. */
    method Advance(p: Position, record: Record, cursor: Cursor, attempts: nat, stamp: nat, quiet: bool)
      returns (s: Progress, q: Position)
      requires Valid() && At(log, p) && Follows(p.cursor, Entry(record, cursor))
      modifies this, journal
      ensures Valid() && old(log) <= log && At(log, q)
      ensures s == Polled ==> q == Position(p.revision + 1, Some(cursor)) && log[p.revision] == Entry(record, cursor)
      ensures s != Polled ==> q == p && (s == Failed <==> p.revision == U64_MAX)
      ensures quiet && |old(log)| == p.revision && s == Polled ==> |log| == q.revision
      ensures quiet && attempts > 0 && |old(log)| == p.revision && s == Stopped ==>
        Blocked(Entry(record, cursor), stamp, p.revision)
    {
      hide J.DurableJournal.Valid, Mirrors, Formats.Faithful, Blocked;
      if p.revision == U64_MAX { return Failed, p; }
      CursorStable(log, log, p.revision);
      var accepted, _ := Accept(record, cursor, p.revision, attempts, stamp, quiet);
      if !accepted { return Stopped, p; }
      return Polled, Position(p.revision + 1, Some(cursor));
    }

    /** Any run of the worker: it loads its checkpoint, polls, fails, is stopped and starts again in
        any order, with any native behaviour. Every committed record follows the one before it. */
    method Run(rounds: nat, utf8: seq<byte> -> bool, oversized: UsnDecoder.Batch -> bool)
      requires Valid()
      modifies this, journal
      ensures Valid() && old(log) <= log
    {
      hide J.DurableJournal.Valid, Mirrors, Formats.Faithful;
      var active := false;
      for i := 0 to rounds
        invariant Valid() && old(log) <= log
      {
        var restart: bool, polls: nat := *, *;
        if restart { active := false; }
        var ok, revision, cursor := Load();
        if !ok { continue; }
        var p, s := Position(revision, cursor), Polled;
        while polls > 0 && s == Polled
          invariant Valid() && old(log) <= log && At(log, p)
          decreases polls
        {
          var current: Native, read: Option<seq<byte>> := *, *;
          var attempts: nat, stamp: nat, quiet: bool := *, *, *;
          s, p, active := Poll(p, active, current, read, utf8, oversized, attempts, stamp, quiet);
          polls := polls - 1;
        }
      }
    }
  }

  /** Where a worker believes its source is: the revision it expects and the cursor there. */
  datatype Position = Position(revision: nat, cursor: Option<Cursor>)

  datatype Progress = Polled | Stopped | Failed

  /** The belief is right about the log, however much other workers have appended since. */
  ghost predicate At(log: Log, p: Position) {
    p.revision <= |log| && p.cursor == CursorBefore(log, p.revision)
  }

  /** The cursor is one of this journal instance, inside what it holds and vouches for. */
  ghost predicate Within(c: Cursor, current: Native) {
    && c.journalId == current.journalId
    && current.first <= c.nextUsn && current.lowestValid <= c.nextUsn && c.nextUsn <= current.next
  }

  /** What a native read returned has no acceptable length, or goes back before the cursor. */
  ghost predicate BadRead(read: seq<byte>, c: Cursor) {
    |read| < 8 || |read| > 16384 || Signed(read[..8]) < c.nextUsn
  }

  /** The reason tells what is wrong with a saved cursor. */
  ghost predicate TellsWhy(reason: GapReason, cursor: Option<Cursor>, current: Native) {
    match reason
    case InitialCursor => cursor.None?
    case InstanceChanged => cursor.Some? && cursor.value.journalId != current.journalId
    case BeforeRetainedRange =>
      && cursor.Some? && cursor.value.journalId == current.journalId
      && (cursor.value.nextUsn < current.first || cursor.value.nextUsn < current.lowestValid)
    case AheadOfJournal =>
      cursor.Some? && cursor.value.journalId == current.journalId && cursor.value.nextUsn > current.next
  }

  /** The gap record for a cursor that cannot be continued. It names the cursor and what is wrong with it; a first
      cursor starts at the tail, any other one resumes at the oldest USN the journal holds and vouches for, so
      nothing that is still there is passed over. */
  ghost predicate GapFrom(e: LogEntry, cursor: Option<Cursor>, current: Native) {
    && e.record.Gap? && e.record.previous == cursor && e.record.replacement == e.cursor
    && TellsWhy(e.record.reason, cursor, current) && Within(e.cursor, current)
    && (cursor.None? ==> e.cursor.nextUsn == current.next)
    && (cursor.Some? ==> e.cursor.nextUsn == current.first || e.cursor.nextUsn == current.lowestValid)
  }

  /** The record that settles where to continue: a resumption, or the gap the saved cursor calls for. */
  ghost predicate ResyncEntry(e: LogEntry, cursor: Option<Cursor>, current: Native) {
    if cursor.Some? && Within(cursor.value, current) then e == Entry(Resumed, cursor.value)
    else GapFrom(e, cursor, current)
  }

  /** The record of a native read: from the cursor to the USN it returned, with what it held. */
  ghost predicate BatchEntry(e: LogEntry, cursor: Cursor, read: seq<byte>, utf8: seq<byte> -> bool,
                             oversized: UsnDecoder.Batch -> bool) {
    && e.record.Changes? && |read| >= 8 && e.cursor == Cursor(cursor.journalId, Signed(read[..8]))
    && e.record == Changes(cursor.journalId, cursor.nextUsn, e.cursor.nextUsn, e.record.content)
    && Holds(e.record.content, read, cursor.nextUsn, utf8, oversized)
  }

  /** What the record at the worker's position is, once it has settled where to continue. */
  ghost predicate Resynced(log: Log, position: Position, resumed: bool, current: Native) {
    if position.cursor.Some? && Within(position.cursor.value, current) then
      resumed || (position.revision < |log| && log[position.revision].record == Resumed)
    else
      position.revision < |log| && GapFrom(log[position.revision], position.cursor, current)
  }

  lemma ResyncedStays(log: Log, more: Log, position: Position, resumed: bool, current: Native)
    requires Resynced(log, position, resumed, current) && log <= more
    ensures Resynced(more, position, resumed, current)
  {
  }

  /** The last record before the revision holds all of the native buffer: its decoding, or, when it has none or
      one that is too large to commit, its very bytes. */
  ghost predicate EndsWithBatch(log: Log, revision: nat, read: seq<byte>, utf8: seq<byte> -> bool,
                                oversized: UsnDecoder.Batch -> bool) {
    && 0 < revision <= |log| && log[revision - 1].record.Changes?
    && Holds(log[revision - 1].record.content, read, log[revision - 1].record.start, utf8, oversized)
  }

  ghost predicate Holds(content: Content, read: seq<byte>, start: int, utf8: seq<byte> -> bool,
                        oversized: UsnDecoder.Batch -> bool) {
    match content
    case Decoded(batch) => IsDecoding(read, start, utf8, batch) && !oversized(batch)
    case Blind(raw) => raw == read && forall batch :: IsDecoding(read, start, utf8, batch) ==> oversized(batch)
  }

  lemma ContentIs(read: seq<byte>, start: int, utf8: seq<byte> -> bool, oversized: UsnDecoder.Batch -> bool,
                  decoded: Result<UsnDecoder.Batch, UsnDecoder.Refusal>)
    requires decoded.Success? ==> IsDecoding(read, start, utf8, decoded.value)
    requires decoded.Failure? ==> forall entries :: !Decodes(read, start, utf8, entries)
    ensures decoded.Success? && !oversized(decoded.value) ==>
      Holds(Decoded(decoded.value), read, start, utf8, oversized)
    ensures decoded.Failure? || oversized(decoded.value) ==>
      Holds(Blind(read), read, start, utf8, oversized)
  {
    hide Decodes;
    forall batch | IsDecoding(read, start, utf8, batch) ensures decoded == Success(batch) {
      DecodingUnique(read, start, utf8, batch, decoded.value);
    }
  }

  lemma LastStorable(log: Log, p: Position)
    requires Chained(log) && At(log, p) && p.cursor.Some?
    ensures Storable(p.cursor.value)
  {
    assert FollowsAt(log, p.revision - 1);
  }
}
