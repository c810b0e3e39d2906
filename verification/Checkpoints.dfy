/** The checkpoint table against the history of entries each source has had accepted. */
module Checkpoints {
  import opened Common
  import opened Store
  import opened SourceLog
  import D = Decimal

  type Accepted = Entry<RecordDigest, string>

  type Logs = map<string, seq<Accepted>>

  ghost function History(log: Logs, source: string): seq<Accepted> {
    if source in log then log[source] else []
  }

  /** The checkpoint row is the last accepted entry of its source, and its revision counts them. */
  ghost predicate RowLogged(c: Checkpoint, log: Logs) {
    && c.source in log && 0 < |log[c.source]| <= U64_MAX
    && c.revision == D.ToDecimal(|log[c.source]|)
    && log[c.source][|log[c.source]| - 1] == Entry(c.record, c.value)
  }

  ghost predicate Logged(rows: seq<Checkpoint>, log: Logs) {
    && (forall i :: 0 <= i < |rows| ==> RowLogged(rows[i], log))
    && (forall i, j :: 0 <= i < j < |rows| ==> rows[i].source != rows[j].source)
    && (forall s :: s in log ==> FindSource(rows, s).Some?)
  }

  /** The stored revision of a source: zero before its first checkpoint, nothing when the stored
      text is not a canonical positive 64-bit number. */
  function StoredRevision(rows: seq<Checkpoint>, source: string): Option<nat> {
    match FindSource(rows, source)
    case None => Some(0)
    case Some(k) =>
      match D.ParseCanonical(rows[k].revision, U64_MAX)
      case Some(n) => if n == 0 then None else Some(n)
      case None => None
  }

  lemma RevisionCounts(rows: seq<Checkpoint>, log: Logs, source: string)
    requires Logged(rows, log)
    ensures StoredRevision(rows, source) == Some(|History(log, source)|)
  {
    match FindSource(rows, source)
    case None =>
    case Some(k) =>
      assert RowLogged(rows[k], log);
      D.CanonicalText(rows[k].revision, U64_MAX, |log[source]|);
  }

  /** The stored row is exactly this entry at the revision after `expected`: a retry of the most
      recent commit. */
  predicate IsRetry(rows: seq<Checkpoint>, source: string, e: Accepted, expected: nat) {
    match FindSource(rows, source)
    case None => false
    case Some(k) =>
      StoredRevision(rows, source) == Some(expected + 1) && rows[k].record == e.record && rows[k].value == e.cursor
  }

  lemma RetryIsLast(rows: seq<Checkpoint>, log: Logs, source: string, e: Accepted, expected: nat)
    requires Logged(rows, log) && IsRetry(rows, source, e, expected)
    ensures |History(log, source)| == expected + 1 && History(log, source)[expected] == e
  {
    RevisionCounts(rows, log, source);
    var k := FindSource(rows, source).value;
    assert RowLogged(rows[k], log);
  }

  function CheckpointFor(source: string, e: Accepted, revision: nat): Checkpoint {
    Checkpoint(source, D.ToDecimal(revision), e.cursor, e.record, |e.cursor|)
  }

  ghost function Extend(log: Logs, source: string, e: Accepted): Logs {
    log[source := History(log, source) + [e]]
  }

  lemma {:induction false} FindPut(rows: seq<Checkpoint>, c: Checkpoint, source: string)
    requires forall i, j :: 0 <= i < j < |rows| ==> rows[i].source != rows[j].source
    ensures FindSource(PutCheckpoint(rows, c), source).Some? <==> source == c.source || FindSource(rows, source).Some?
  {
    var put := PutCheckpoint(rows, c);
    match FindSource(rows, c.source)
    case Some(k) =>
      if FindSource(rows, source).Some? {
        var i := FindSource(rows, source).value;
        assert put[i].source == source;
      }
      if FindSource(put, source).Some? {
        var i := FindSource(put, source).value;
        assert rows[i].source == source;
      }
      assert put[k].source == c.source;
    case None =>
      assert put == rows + [c] && put[..|rows|] == rows;
  }

  /** Storing the next checkpoint extends its source's history by that entry and no other's. */
  lemma PutKeepsLogged(rows: seq<Checkpoint>, log: Logs, source: string, e: Accepted)
    requires Logged(rows, log) && |History(log, source)| < U64_MAX
    ensures Logged(PutCheckpoint(rows, CheckpointFor(source, e, |History(log, source)| + 1)), Extend(log, source, e))
  {
    hide D.ToDecimal, FindSource;
    var c, after := CheckpointFor(source, e, |History(log, source)| + 1), Extend(log, source, e);
    var put := PutCheckpoint(rows, c);
    forall i | 0 <= i < |put| ensures RowLogged(put[i], after) {
      if i < |rows| { assert RowLogged(rows[i], log); }
    }
    forall s | s in after ensures FindSource(put, s).Some? { FindPut(rows, c, s); }
  }

  lemma PutSize(rows: seq<Checkpoint>, log: Logs, source: string, e: Accepted, revision: nat)
    requires Logged(rows, log)
    ensures |PutCheckpoint(rows, CheckpointFor(source, e, revision))| ==
      |rows| + if History(log, source) == [] then 1 else 0
  {
    RevisionCounts(rows, log, source);
  }

  lemma NotRetry(rows: seq<Checkpoint>, log: Logs, source: string, e: Accepted, expected: nat)
    requires Logged(rows, log) && !IsRetry(rows, source, e, expected)
    ensures !(|History(log, source)| == expected + 1 && History(log, source)[expected] == e)
  {
    RevisionCounts(rows, log, source);
    match FindSource(rows, source)
    case None =>
    case Some(k) => assert RowLogged(rows[k], log);
  }

  // ----- Every attempt on a source, in order -----

  datatype Run = Run(logs: seq<seq<Accepted>>, attempts: seq<Attempt<RecordDigest, string>>)

  type Runs = map<string, Run>

  ghost function RunOf(runs: Runs, source: string): Run {
    if source in runs then runs[source] else Run([[]], [])
  }

  /** The attempts made on a source form a run that led to its history. */
  ghost predicate RunLeads(runs: Runs, log: Logs, source: string) {
    var run := RunOf(runs, source);
    IsRun(run.logs, run.attempts) && run.logs[|run.attempts|] == History(log, source)
  }

  ghost predicate Witnessed(runs: Runs, log: Logs) {
    forall source :: RunLeads(runs, log, source)
  }

  /** The runs after one more attempt on a source. */
  ghost function Noted(runs: Runs, source: string, a: Attempt<RecordDigest, string>, history: seq<Accepted>): Runs {
    var run := RunOf(runs, source);
    runs[source := Run(run.logs + [history], run.attempts + [a])]
  }

  lemma NoteKeeps(runs: Runs, log: Logs, log': Logs, source: string, a: Attempt<RecordDigest, string>)
    requires Witnessed(runs, log) && forall s :: s != source ==> History(log', s) == History(log, s)
    requires Commits(History(log, source), a.entry, a.expected, a.accepted, History(log', source))
    ensures Witnessed(Noted(runs, source, a, History(log', source)), log')
  {
    hide IsRun, History;
    var noted := Noted(runs, source, a, History(log', source));
    forall s ensures RunLeads(noted, log', s) {
      assert RunLeads(runs, log, s);
      if s == source { NoteExtends(RunOf(runs, source), a, History(log', source)); }
    }
  }

  lemma NoteExtends(run: Run, a: Attempt<RecordDigest, string>, history: seq<Accepted>)
    requires IsRun(run.logs, run.attempts)
    requires Commits(run.logs[|run.attempts|], a.entry, a.expected, a.accepted, history)
    ensures IsRun(run.logs + [history], run.attempts + [a])
    ensures (run.logs + [history])[|run.attempts| + 1] == history
  {
    RunExtends(run.logs, run.attempts, a, history);
  }

  /** Whatever any caller was told was accepted is in the source's history, at its revision. */
  lemma AcceptedStays(runs: Runs, log: Logs, source: string, i: nat)
    requires Witnessed(runs, log) && i < |RunOf(runs, source).attempts| && RunOf(runs, source).attempts[i].accepted
    ensures var a := RunOf(runs, source).attempts[i];
      a.expected < |History(log, source)| && History(log, source)[a.expected] == a.entry
  {
    assert RunLeads(runs, log, source);
    var run := RunOf(runs, source);
    AcceptedIsFinal(run.logs, run.attempts, i, |run.attempts|);
  }
}
