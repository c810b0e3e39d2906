/** Delivery batches and the receipts that settle them. */
module Delivery {
  import opened Common
  import opened Store

  datatype Line = Line(key: Digest, body: string)

  /** A batch is identified by the digest of the keys it carries. */
  datatype Batch = Batch(id: seq<Digest>, protocol: nat, lines: seq<Line>)

  // ----- Choosing a batch -----

  /** The waiting rows of one protocol, oldest first. */
  function Queue(rows: seq<Observation>, protocol: nat): seq<Observation> {
    if rows == [] then [] else
      var last := rows[|rows| - 1];
      Queue(rows[..|rows| - 1], protocol) + if last.state.Waiting? && last.protocol == protocol then [last] else []
  }

  function LineOf(o: Observation): Line {
    Line(o.key, o.body)
  }

  function LinesOf(rows: seq<Observation>): seq<Line> {
    seq(|rows|, i requires 0 <= i < |rows| => LineOf(rows[i]))
  }

  /** Transport size: every line is followed by a newline. */
  ghost function WireSize(rows: seq<Observation>): nat {
    if rows == [] then 0 else WireSize(rows[..|rows| - 1]) + |rows[|rows| - 1].body| + 1
  }

  ghost predicate Fits(q: seq<Observation>, n: nat, maxEvents: nat, maxBytes: nat) {
    n <= |q| && n <= maxEvents && WireSize(q[..n]) <= maxBytes
  }

  lemma {:induction false} WireSizeGrows(q: seq<Observation>, m: nat, n: nat)
    requires m <= n <= |q|
    ensures WireSize(q[..m]) <= WireSize(q[..n])
  {
    if m < n {
      WireSizeGrows(q, m, n - 1);
      assert q[..n][..n - 1] == q[..n - 1];
    }
  }

  /** The rows that precede the first row of a protocol's queue are not waiting. */
  ghost predicate IsOldest(rows: seq<Observation>, k: nat) {
    k < |rows| && rows[k].state.Waiting? && forall i :: 0 <= i < k ==> !rows[i].state.Waiting?
  }

  /** The oldest waiting row of any protocol. */
  function Oldest(rows: seq<Observation>): (r: Option<nat>)
    ensures r.Some? ==> IsOldest(rows, r.value)
    ensures r.None? ==> forall i :: 0 <= i < |rows| ==> !rows[i].state.Waiting?
  {
    if rows == [] then None
    else match Oldest(rows[..|rows| - 1])
      case Some(k) => Some(k)
      case None => if rows[|rows| - 1].state.Waiting? then Some(|rows| - 1) else None
  }

  /** The batch is the longest run of waiting rows that share the oldest row's protocol and fit
      both bounds, in order, starting with the globally oldest waiting row. */
  ghost predicate BatchFrom(rows: seq<Observation>, b: Batch, maxEvents: nat, maxBytes: nat) {
    && Oldest(rows).Some? && b.protocol == rows[Oldest(rows).value].protocol
    && var q, n := Queue(rows, b.protocol), |b.lines|;
      && 0 < n && Fits(q, n, maxEvents, maxBytes) && b.lines == LinesOf(q[..n])
      && b.id == seq(n, i requires 0 <= i < n => b.lines[i].key)
      && (forall m: nat :: Fits(q, m, maxEvents, maxBytes) ==> m <= n)
      && b.lines[0] == LineOf(rows[Oldest(rows).value])
  }

  /** Every line of a chosen batch is a distinct waiting row. */
  lemma BatchWaits(rows: seq<Observation>, b: Batch, maxEvents: nat, maxBytes: nat)
    requires KeysDistinct(rows) && BatchFrom(rows, b, maxEvents, maxBytes)
    ensures LinesDistinct(b.lines) && AllWaiting(rows, b.lines, 0)
  {
    var q := Queue(rows, b.protocol);
    QueueKeysDistinct(rows, b.protocol);
    forall j | 0 <= j < |b.lines| ensures FindWaiting(rows, b.lines[j].key).Some? {
      assert b.lines[j] == LineOf(q[j]);
      QueueMembers(rows, b.protocol, q[j]);
    }
    forall i, j | 0 <= i < j < |b.lines| ensures b.lines[i].key != b.lines[j].key {
      assert b.lines[i] == LineOf(q[i]) && b.lines[j] == LineOf(q[j]);
    }
  }

  // ----- The same choice, told by the table alone -----

  ghost function LineBytes(lines: seq<Line>): nat {
    if lines == [] then 0 else LineBytes(lines[..|lines| - 1]) + |lines[|lines| - 1].body| + 1
  }

  ghost predicate WaitsFor(o: Observation, protocol: nat) {
    o.state.Waiting? && o.protocol == protocol
  }

  /** The lines of the batch are the rows at these positions of the table, first the oldest waiting row of
      all, going up, all waiting for the batch's protocol and skipping none that does. */
  ghost predicate TakenAt(rows: seq<Observation>, b: Batch, at: seq<nat>) {
    && |at| == |b.lines| > 0
    && (forall i, j :: 0 <= i < j < |at| ==> at[i] < at[j])
    && (forall j :: 0 <= j < |at| ==> at[j] < |rows| && WaitsFor(rows[at[j]], b.protocol))
    && (forall j :: 0 <= j < |at| ==> b.lines[j].key == rows[at[j]].key && b.lines[j].body == rows[at[j]].body)
    && (forall i :: 0 <= i < |rows| && WaitsFor(rows[i], b.protocol) && i !in at ==> at[|at| - 1] < i)
    && (forall i :: 0 <= i < at[0] ==> !rows[i].state.Waiting?)
  }

  /** The batch fits the bounds, and with the first waiting row it leaves behind it would not. */
  ghost predicate Full(rows: seq<Observation>, b: Batch, at: seq<nat>, maxEvents: nat, maxBytes: nat) {
    && |b.lines| <= maxEvents && LineBytes(b.lines) <= maxBytes
    && forall i :: 0 <= i < |rows| && WaitsFor(rows[i], b.protocol) && i !in at ==>
        |b.lines| == maxEvents || exists k :: 0 <= k <= i && Overflows(rows, b, k, maxBytes)
  }

  ghost predicate Overflows(rows: seq<Observation>, b: Batch, k: nat, maxBytes: nat) {
    k < |rows| && WaitsFor(rows[k], b.protocol) && LineBytes(b.lines) + |rows[k].body| + 1 > maxBytes
  }

  /** A batch as the table determines it. */
  ghost predicate OldestRun(rows: seq<Observation>, b: Batch, maxEvents: nat, maxBytes: nat) {
    exists at :: TakenAt(rows, b, at) && Full(rows, b, at, maxEvents, maxBytes)
  }

  /** The positions of a protocol's queue in the table. */
  ghost function Places(rows: seq<Observation>, protocol: nat): seq<nat> {
    if rows == [] then [] else
      var last := |rows| - 1;
      Places(rows[..last], protocol) + if WaitsFor(rows[last], protocol) then [last] else []
  }

  lemma {:induction false} PlacesMean(rows: seq<Observation>, protocol: nat)
    ensures |Places(rows, protocol)| == |Queue(rows, protocol)|
    ensures forall i, j :: 0 <= i < j < |Places(rows, protocol)| ==>
      Places(rows, protocol)[i] < Places(rows, protocol)[j]
    ensures forall j :: 0 <= j < |Places(rows, protocol)| ==>
      Places(rows, protocol)[j] < |rows| && rows[Places(rows, protocol)[j]] == Queue(rows, protocol)[j]
    ensures forall i :: 0 <= i < |rows| ==> (i in Places(rows, protocol) <==> WaitsFor(rows[i], protocol))
  {
    if rows != [] {
      var last := |rows| - 1;
      PlacesMean(rows[..last], protocol);
      forall i | 0 <= i < last ensures i in Places(rows, protocol) <==> WaitsFor(rows[i], protocol) {
        assert rows[..last][i] == rows[i];
      }
    }
  }

  lemma {:induction false} LineBytesAre(q: seq<Observation>, n: nat)
    requires n <= |q|
    ensures LineBytes(LinesOf(q[..n])) == WireSize(q[..n])
  {
    if n > 0 {
      LineBytesAre(q, n - 1);
      assert q[..n][..n - 1] == q[..n - 1];
      assert LinesOf(q[..n])[..n - 1] == LinesOf(q[..n - 1]);
    }
  }

  /** A waiting row outside the first `n` places of its queue comes at or after the next place. */
  lemma LeftBehind(rows: seq<Observation>, protocol: nat, n: nat, i: nat)
    requires n <= |Places(rows, protocol)| && i < |rows| && WaitsFor(rows[i], protocol)
    requires i !in Places(rows, protocol)[..n]
    ensures n < |Places(rows, protocol)| && Places(rows, protocol)[n] <= i
  {
    hide Places, Queue;
    var places := Places(rows, protocol);
    PlacesMean(rows, protocol);
    var j :| 0 <= j < |places| && places[j] == i;
    assert forall k :: 0 <= k < n ==> places[..n][k] == places[k];
  }

  lemma BatchIsTaken(rows: seq<Observation>, b: Batch, maxEvents: nat, maxBytes: nat)
    requires BatchFrom(rows, b, maxEvents, maxBytes)
    ensures |b.lines| <= |Places(rows, b.protocol)|
    ensures TakenAt(rows, b, Places(rows, b.protocol)[..|b.lines|])
  {
    hide Queue, Places, WireSize, Oldest;
    var n, places := |b.lines|, Places(rows, b.protocol);
    PlacesMean(rows, b.protocol);
    var at := places[..n];
    HeadPlace(rows, b, maxEvents, maxBytes);
    forall i | 0 <= i < |rows| && WaitsFor(rows[i], b.protocol) && i !in at ensures at[n - 1] < i {
      LeftBehind(rows, b.protocol, n, i);
    }
  }

  /** The longest fitting prefix of the queue is what the table determines. */
  lemma BatchIsOldestRun(rows: seq<Observation>, b: Batch, maxEvents: nat, maxBytes: nat)
    requires BatchFrom(rows, b, maxEvents, maxBytes)
    ensures OldestRun(rows, b, maxEvents, maxBytes)
  {
    hide Queue, Places, WireSize, LineBytes, TakenAt, Oldest;
    var q, n, places := Queue(rows, b.protocol), |b.lines|, Places(rows, b.protocol);
    BatchIsTaken(rows, b, maxEvents, maxBytes);
    PlacesMean(rows, b.protocol);
    LineBytesAre(q, n);
    forall i | 0 <= i < |rows| && WaitsFor(rows[i], b.protocol) && i !in places[..n]
      ensures |b.lines| == maxEvents || exists k :: 0 <= k <= i && Overflows(rows, b, k, maxBytes)
    {
      LeftBehind(rows, b.protocol, n, i);
      WireSizeStep(q, n);
      assert !Fits(q, n + 1, maxEvents, maxBytes);
      assert n == maxEvents || Overflows(rows, b, places[n], maxBytes);
    }
    assert Full(rows, b, places[..n], maxEvents, maxBytes);
  }

  lemma HeadPlace(rows: seq<Observation>, b: Batch, maxEvents: nat, maxBytes: nat)
    requires BatchFrom(rows, b, maxEvents, maxBytes)
    ensures Places(rows, b.protocol) != [] && Places(rows, b.protocol)[0] == Oldest(rows).value
  {
    hide Queue, Places, WireSize, Oldest;
    PlacesMean(rows, b.protocol);
    var k := Oldest(rows).value;
    var j :| 0 <= j < |Places(rows, b.protocol)| && Places(rows, b.protocol)[j] == k;
    assert rows[Places(rows, b.protocol)[0]].state.Waiting?;
  }

  lemma {:induction false} QueueHead(rows: seq<Observation>, k: nat)
    requires IsOldest(rows, k)
    ensures Queue(rows, rows[k].protocol) != [] && Queue(rows, rows[k].protocol)[0] == rows[k]
  {
    var last := |rows| - 1;
    if k < last {
      QueueHead(rows[..last], k);
    } else {
      NothingWaiting(rows[..last], rows[k].protocol);
    }
  }

  lemma {:induction false} NothingWaiting(rows: seq<Observation>, protocol: nat)
    requires forall i :: 0 <= i < |rows| ==> !rows[i].state.Waiting?
    ensures Queue(rows, protocol) == []
  {
    if rows != [] { NothingWaiting(rows[..|rows| - 1], protocol); }
  }

  lemma {:induction false} QueueMembers(rows: seq<Observation>, protocol: nat, o: Observation)
    ensures o in Queue(rows, protocol) <==> o in rows && o.state.Waiting? && o.protocol == protocol
  {
    if rows != [] {
      QueueMembers(rows[..|rows| - 1], protocol, o);
      SplitLast(rows);
    }
  }

  lemma {:induction false} QueueKeysDistinct(rows: seq<Observation>, protocol: nat)
    requires KeysDistinct(rows)
    ensures KeysDistinct(Queue(rows, protocol))
  {
    if rows != [] {
      var rest, last := rows[..|rows| - 1], rows[|rows| - 1];
      QueueKeysDistinct(rest, protocol);
      var q := Queue(rest, protocol);
      forall i | 0 <= i < |q| ensures q[i].key != last.key {
        QueueMembers(rest, protocol, q[i]);
        var k :| 0 <= k < |rest| && rest[k] == q[i];
        assert rest[k] == rows[k];
      }
    }
  }

  // ----- Receipts -----

  /** The rejection semantics the journal understands, and anything else. */
  datatype Reason = SchemaInvalid | UnsupportedSchemaVersion | JsonInvalid | Unknown(text: string)

  function ReasonName(r: Reason): string {
    match r
    case SchemaInvalid => "schema_invalid"
    case UnsupportedSchemaVersion => "unsupported_schema_version"
    case JsonInvalid => "json_invalid"
    case Unknown(text) => text
  }

  datatype Rejection = Rejection(line: nat, reason: Reason, detail: string, eventId: Option<string>)

  datatype Receipt =
    | Malformed
    | Receipt(size: nat, batchId: seq<Digest>, received: nat, accepted: nat, duplicates: nat, rejected: seq<Rejection>)

  function ReasonText(r: Rejection): string {
    ReasonName(r.reason) + ": " + r.detail
  }

  /** A rejection that names an event must name the observation on that line. */
  ghost predicate Identifies(d: Document, id: string) {
    d.isObject && (d.eventId == Some(id) || d.recordId == id)
  }

  ghost predicate RejectionFits(parse: string -> Document, batch: Batch, r: Rejection) {
    && 0 < r.line <= |batch.lines| && !r.reason.Unknown? && |r.detail| <= 16384
    && (r.eventId.Some? ==> Identifies(parse(batch.lines[r.line - 1].body), r.eventId.value))
  }

  ghost predicate CountsFit(batch: Batch, r: Receipt) {
    && batch.lines != [] && r.Receipt? && r.size <= 256 * 1024
    && r.batchId == batch.id && r.received == |batch.lines| && r.accepted <= r.received && r.duplicates <= r.received
    && r.accepted + r.duplicates + |r.rejected| == r.received
  }

  /** What the first `k` rejections say about a line, if anything. */
  ghost function ReasonAt(rejected: seq<Rejection>, k: nat, line: nat): Option<string>
    requires k <= |rejected|
  {
    if k == 0 then None
    else if rejected[k - 1].line == line then Some(ReasonText(rejected[k - 1]))
    else ReasonAt(rejected, k - 1, line)
  }

  /** Rejection `j` is acceptable and names a line no earlier rejection named. */
  ghost predicate Acceptable(parse: string -> Document, batch: Batch, rejected: seq<Rejection>, j: nat)
    requires j < |rejected|
  {
    RejectionFits(parse, batch, rejected[j]) && ReasonAt(rejected, j, rejected[j].line).None?
  }

  ghost predicate Checked(parse: string -> Document, batch: Batch, rejected: seq<Rejection>, k: nat) {
    k <= |rejected| && forall j: nat :: j < k ==> Acceptable(parse, batch, rejected, j)
  }

  /** The receipt accounts for every submitted line exactly once. */
  ghost predicate ValidReceipt(parse: string -> Document, batch: Batch, r: Receipt) {
    CountsFit(batch, r) && Checked(parse, batch, r.rejected, |r.rejected|)
  }

  type Verdicts = seq<Option<string>>

  /** What the first `k` rejections of a receipt say, line by line. */
  ghost function VerdictsBy(rejected: seq<Rejection>, k: nat, n: nat): Verdicts
    requires k <= |rejected|
  {
    seq(n, i requires 0 <= i < n => ReasonAt(rejected, k, i + 1))
  }

  /** The verdicts of a receipt, line by line. */
  ghost function VerdictList(r: Receipt, n: nat): Verdicts
    requires r.Receipt?
  {
    VerdictsBy(r.rejected, |r.rejected|, n)
  }

  ghost function Rejections(v: Verdicts): nat {
    if v == [] then 0 else Rejections(v[..|v| - 1]) + if v[|v| - 1].Some? then 1 else 0
  }

  lemma {:induction false} RejectionsUpdate(v: Verdicts, k: nat, text: string)
    requires k < |v| && v[k].None?
    ensures Rejections(v[k := Some(text)]) == Rejections(v) + 1
  {
    var last := |v| - 1;
    var u := v[k := Some(text)];
    if k == last {
      assert u[..last] == v[..last];
    } else {
      RejectionsUpdate(v[..last], k, text);
      assert u[..last] == v[..last][k := Some(text)];
    }
  }

  lemma VerdictsStep(rejected: seq<Rejection>, k: nat, n: nat)
    requires k < |rejected| && 0 < rejected[k].line <= n
    ensures VerdictsBy(rejected, k + 1, n) ==
      VerdictsBy(rejected, k, n)[rejected[k].line - 1 := Some(ReasonText(rejected[k]))]
  {
  }

  /** Reads a receipt against the batch it answers: success exactly for a valid receipt, with one
      verdict per line. */
  method ReadReceipt(parse: string -> Document, batch: Batch, r: Receipt) returns (v: Option<Verdicts>)
    ensures v.Some? <==> ValidReceipt(parse, batch, r)
    ensures v.Some? ==> v.value == VerdictList(r, |batch.lines|)
  {
    if batch.lines == [] || r.Malformed? || r.size > 256 * 1024 { return None; }
    if r.batchId != batch.id || r.received != |batch.lines| { return None; }
    if r.accepted > r.received || r.duplicates > r.received { return None; }
    if r.accepted + r.duplicates + |r.rejected| != r.received { return None; }
    var n := |batch.lines|;
    var verdicts: Verdicts := seq(n, _ => None);
    for k := 0 to |r.rejected|
      invariant verdicts == VerdictsBy(r.rejected, k, n)
      invariant Checked(parse, batch, r.rejected, k)
    {
      var x := r.rejected[k];
      var known := x.reason == SchemaInvalid || x.reason == UnsupportedSchemaVersion || x.reason == JsonInvalid;
      if x.line == 0 || x.line > n || verdicts[x.line - 1].Some? || !known || |x.detail| > 16384 {
        assert !Acceptable(parse, batch, r.rejected, k);
        return None;
      }
      if x.eventId.Some? {
        var d := parse(batch.lines[x.line - 1].body);
        if !d.isObject || (d.eventId != x.eventId && d.recordId != x.eventId.value) {
          assert !Acceptable(parse, batch, r.rejected, k);
          return None;
        }
      }
      VerdictsStep(r.rejected, k, n);
      verdicts := verdicts[x.line - 1 := Some(ReasonText(x))];
    }
    return Some(verdicts);
  }

  lemma {:induction false} NoneRejected(verdicts: Verdicts)
    requires forall i :: 0 <= i < |verdicts| ==> verdicts[i].None?
    ensures Rejections(verdicts) == 0
  {
    if verdicts != [] { NoneRejected(verdicts[..|verdicts| - 1]); }
  }

  lemma {:induction false} RejectedCount(parse: string -> Document, batch: Batch, rejected: seq<Rejection>, k: nat)
    requires Checked(parse, batch, rejected, k)
    ensures Rejections(VerdictsBy(rejected, k, |batch.lines|)) == k
  {
    if k == 0 {
      NoneRejected(VerdictsBy(rejected, 0, |batch.lines|));
    } else {
      assert Acceptable(parse, batch, rejected, k - 1);
      RejectedCount(parse, batch, rejected, k - 1);
      VerdictsStep(rejected, k - 1, |batch.lines|);
      var last := rejected[k - 1];
      RejectionsUpdate(VerdictsBy(rejected, k - 1, |batch.lines|), last.line - 1, ReasonText(last));
    }
  }

  /** A valid receipt rejects as many lines as it lists and leaves accepted plus duplicates. */
  lemma ReceiptAccountsForAll(parse: string -> Document, batch: Batch, r: Receipt)
    requires ValidReceipt(parse, batch, r)
    ensures Rejections(VerdictList(r, |batch.lines|)) == |r.rejected|
    ensures |batch.lines| - Rejections(VerdictList(r, |batch.lines|)) == r.accepted + r.duplicates
  {
    RejectedCount(parse, batch, r.rejected, |r.rejected|);
  }

  // ----- Settling rows -----

  function Buried(o: Observation, text: string): Observation {
    o.(state := Dead(text), bytes := o.bytes + |text|)
  }

  /** A row after one line's verdict: gone when accepted, dead with its reason when rejected. */
  ghost function SettleRow(o: Observation, key: Digest, verdict: Option<string>): Option<Observation> {
    if o.key != key || !o.state.Waiting? then Some(o)
    else match verdict
      case Some(text) => Some(Buried(o, text))
      case None => None
  }

  ghost function SettleOne(rows: seq<Observation>, key: Digest, verdict: Option<string>): seq<Observation> {
    if rows == [] then [] else
      var settled := SettleRow(rows[|rows| - 1], key, verdict);
      SettleOne(rows[..|rows| - 1], key, verdict) + if settled.Some? then [settled.value] else []
  }

  /** The table after the first `n` lines of a batch have been settled, in line order. */
  ghost function Settled(rows: seq<Observation>, lines: seq<Line>, verdicts: Verdicts, n: nat): seq<Observation>
    requires n <= |lines| == |verdicts|
  {
    if n == 0 then rows else SettleOne(Settled(rows, lines, verdicts, n - 1), lines[n - 1].key, verdicts[n - 1])
  }

  function FindWaiting(rows: seq<Observation>, key: Digest): (r: Option<nat>)
    ensures r.Some? ==> r.value < |rows| && rows[r.value].key == key && rows[r.value].state.Waiting?
    ensures r.None? ==> forall i :: 0 <= i < |rows| ==> !(rows[i].key == key && rows[i].state.Waiting?)
  {
    if rows == [] then None
    else if rows[|rows| - 1].key == key && rows[|rows| - 1].state.Waiting? then Some(|rows| - 1)
    else FindWaiting(rows[..|rows| - 1], key)
  }

  lemma {:induction false} SettleNothing(rows: seq<Observation>, key: Digest, verdict: Option<string>)
    requires forall i :: 0 <= i < |rows| ==> !(rows[i].key == key && rows[i].state.Waiting?)
    ensures SettleOne(rows, key, verdict) == rows
  {
    if rows != [] {
      SettleNothing(rows[..|rows| - 1], key, verdict);
      SplitLast(rows);
    }
  }

  /** Settling touches exactly the one waiting row with that key: a rejected row stays in place
      with its reason, an accepted one goes. */
  lemma {:induction false} BuryAt(rows: seq<Observation>, k: nat, text: string)
    requires KeysDistinct(rows) && k < |rows| && rows[k].state.Waiting?
    ensures SettleOne(rows, rows[k].key, Some(text)) == rows[k := Buried(rows[k], text)]
  {
    var last, dead := |rows| - 1, Buried(rows[k], text);
    UpdateInit(rows, k, dead);
    if k < last {
      BuryAt(rows[..last], k, text);
    } else {
      SettleNothing(rows[..last], rows[k].key, Some(text));
    }
  }

  lemma {:induction false} RetireAt(rows: seq<Observation>, k: nat)
    requires KeysDistinct(rows) && k < |rows| && rows[k].state.Waiting?
    ensures SettleOne(rows, rows[k].key, None) == Without(rows, k)
  {
    var last := |rows| - 1;
    WithoutInit(rows, k);
    if k < last {
      RetireAt(rows[..last], k);
    } else {
      SettleNothing(rows[..last], rows[k].key, None);
    }
  }

  // ----- What settling means -----

  ghost function FirstLine(lines: seq<Line>, n: nat, key: Digest): (r: Option<nat>)
    requires n <= |lines|
    ensures r.Some? ==> r.value < n && lines[r.value].key == key && forall i :: 0 <= i < r.value ==> lines[i].key != key
    ensures r.None? ==> forall i :: 0 <= i < n ==> lines[i].key != key
  {
    if n == 0 then None
    else match FirstLine(lines, n - 1, key)
      case Some(i) => Some(i)
      case None => if lines[n - 1].key == key then Some(n - 1) else None
  }

  /** What the whole batch does to one row: only the first line that names it counts. */
  ghost function Fate(o: Observation, lines: seq<Line>, verdicts: Verdicts, n: nat): Option<Observation>
    requires n <= |lines| == |verdicts|
  {
    match FirstLine(lines, n, o.key)
    case None => Some(o)
    case Some(i) => SettleRow(o, o.key, verdicts[i])
  }

  ghost function Fates(rows: seq<Observation>, lines: seq<Line>, verdicts: Verdicts, n: nat): seq<Observation>
    requires n <= |lines| == |verdicts|
  {
    if rows == [] then [] else
      var fate := Fate(rows[|rows| - 1], lines, verdicts, n);
      Fates(rows[..|rows| - 1], lines, verdicts, n) + if fate.Some? then [fate.value] else []
  }

  lemma {:induction false} FatesStart(rows: seq<Observation>, lines: seq<Line>, verdicts: Verdicts)
    requires |lines| == |verdicts|
    ensures Fates(rows, lines, verdicts, 0) == rows
  {
    if rows != [] {
      FatesStart(rows[..|rows| - 1], lines, verdicts);
      SplitLast(rows);
    }
  }

  lemma FateStep(o: Observation, lines: seq<Line>, verdicts: Verdicts, n: nat)
    requires 0 < n <= |lines| == |verdicts|
    ensures var before := Fate(o, lines, verdicts, n - 1);
      Fate(o, lines, verdicts, n) ==
        if before.None? then None else SettleRow(before.value, lines[n - 1].key, verdicts[n - 1])
  {
  }

  lemma {:induction false} FatesStep(rows: seq<Observation>, lines: seq<Line>, verdicts: Verdicts, n: nat)
    requires 0 < n <= |lines| == |verdicts|
    ensures SettleOne(Fates(rows, lines, verdicts, n - 1), lines[n - 1].key, verdicts[n - 1]) ==
      Fates(rows, lines, verdicts, n)
  {
    if rows != [] {
      var rest, last := rows[..|rows| - 1], rows[|rows| - 1];
      FatesStep(rest, lines, verdicts, n);
      var before := Fates(rest, lines, verdicts, n - 1);
      var fate := Fate(last, lines, verdicts, n - 1);
      FateStep(last, lines, verdicts, n);
      assert Fates(rows, lines, verdicts, n - 1) == before + if fate.Some? then [fate.value] else [];
      if fate.Some? {
        assert (before + [fate.value])[..|before|] == before;
      } else {
        assert before + [] == before;
      }
    }
  }

  /** Settling line by line gives every row its fate and keeps the rows in order: rows outside
      the batch, and rows no longer waiting, are untouched. */
  lemma {:induction false} SettledMeansFates(rows: seq<Observation>, lines: seq<Line>, verdicts: Verdicts, n: nat)
    requires n <= |lines| == |verdicts|
    ensures Settled(rows, lines, verdicts, n) == Fates(rows, lines, verdicts, n)
  {
    if n == 0 {
      FatesStart(rows, lines, verdicts);
    } else {
      SettledMeansFates(rows, lines, verdicts, n - 1);
      FatesStep(rows, lines, verdicts, n);
    }
  }

  ghost predicate NoneWaiting(rows: seq<Observation>, lines: seq<Line>, n: nat)
    requires n <= |lines|
  {
    forall i, j :: 0 <= i < |rows| && 0 <= j < n && rows[i].state.Waiting? ==> rows[i].key != lines[j].key
  }

  lemma {:induction false} FatesUntouched(rows: seq<Observation>, lines: seq<Line>, verdicts: Verdicts)
    requires |lines| == |verdicts| && NoneWaiting(rows, lines, |lines|)
    ensures Fates(rows, lines, verdicts, |lines|) == rows
  {
    if rows != [] {
      FatesUntouched(rows[..|rows| - 1], lines, verdicts);
      SplitLast(rows);
    }
  }

  lemma {:induction false} FatesNoneWaiting(rows: seq<Observation>, lines: seq<Line>, verdicts: Verdicts)
    requires |lines| == |verdicts|
    ensures NoneWaiting(Fates(rows, lines, verdicts, |lines|), lines, |lines|)
  {
    if rows != [] { FatesNoneWaiting(rows[..|rows| - 1], lines, verdicts); }
  }

  /** Replaying the same verdicts settles nothing more. */
  lemma ReplaySettlesNothing(rows: seq<Observation>, lines: seq<Line>, verdicts: Verdicts)
    requires |lines| == |verdicts|
    ensures var once := Settled(rows, lines, verdicts, |lines|);
      Settled(once, lines, verdicts, |lines|) == once && NoneWaiting(once, lines, |lines|)
  {
    var once := Settled(rows, lines, verdicts, |lines|);
    SettledMeansFates(rows, lines, verdicts, |lines|);
    FatesNoneWaiting(rows, lines, verdicts);
    SettledMeansFates(once, lines, verdicts, |lines|);
    FatesUntouched(once, lines, verdicts);
  }

  ghost function ReasonBytes(v: Verdicts): nat {
    if v == [] then 0 else ReasonBytes(v[..|v| - 1]) + if v[|v| - 1].Some? then |v[|v| - 1].value| else 0
  }

  ghost predicate AllWaiting(rows: seq<Observation>, lines: seq<Line>, n: nat) {
    forall j :: n <= j < |lines| ==> FindWaiting(rows, lines[j].key).Some?
  }

  ghost predicate LinesDistinct(lines: seq<Line>) {
    forall i, j :: 0 <= i < j < |lines| ==> lines[i].key != lines[j].key
  }

  lemma {:induction false} WaitingKept(rows: seq<Observation>, key: Digest, verdict: Option<string>, other: Digest)
    requires other != key && FindWaiting(rows, other).Some?
    ensures FindWaiting(SettleOne(rows, key, verdict), other).Some?
  {
    var last := |rows| - 1;
    var rest := SettleOne(rows[..last], key, verdict);
    var settled := SettleRow(rows[last], key, verdict);
    if settled.Some? { assert (rest + [settled.value])[..|rest|] == rest; } else { assert rest + [] == rest; }
    if !(rows[last].key == other && rows[last].state.Waiting?) {
      WaitingKept(rows[..last], key, verdict, other);
    }
  }

  lemma {:induction false} SettleKeepsDistinct(rows: seq<Observation>, key: Digest, verdict: Option<string>)
    requires KeysDistinct(rows)
    ensures KeysDistinct(SettleOne(rows, key, verdict))
  {
    match FindWaiting(rows, key)
    case None => SettleNothing(rows, key, verdict);
    case Some(k) =>
      if verdict.Some? { BuryAt(rows, k, verdict.value); } else { RetireAt(rows, k); }
  }

  /** One line of a waiting batch: a rejection turns a waiting row into a dead one, anything else
      removes a waiting row. */
  lemma OneLineCounts(rows: seq<Observation>, key: Digest, verdict: Option<string>)
    requires KeysDistinct(rows) && FindWaiting(rows, key).Some?
    ensures var s := SettleOne(rows, key, verdict);
      && SumBy(OneIfWaiting, s) == SumBy(OneIfWaiting, rows) - 1
      && SumBy(OneIfDead, s) == SumBy(OneIfDead, rows) + (if verdict.Some? then 1 else 0)
      && |s| == |rows| - (if verdict.Some? then 0 else 1)
  {
    var k := FindWaiting(rows, key).value;
    if verdict.Some? {
      BuryAt(rows, k, verdict.value);
      SumUpdate(OneIfWaiting, rows, k, Buried(rows[k], verdict.value));
      SumUpdate(OneIfDead, rows, k, Buried(rows[k], verdict.value));
    } else {
      RetireAt(rows, k);
      SumWithout(OneIfWaiting, rows, k);
      SumWithout(OneIfDead, rows, k);
    }
  }

  /** A batch all of whose lines still wait: settling it dead-letters exactly the rejected lines
      and retires exactly the others. */
  lemma {:induction false} WaitingBatchCounts(rows: seq<Observation>, lines: seq<Line>, verdicts: Verdicts, n: nat)
    requires n <= |lines| == |verdicts| && KeysDistinct(rows) && LinesDistinct(lines) && AllWaiting(rows, lines, 0)
    ensures var s := Settled(rows, lines, verdicts, n);
      && KeysDistinct(s) && AllWaiting(s, lines, n)
      && SumBy(OneIfWaiting, s) == SumBy(OneIfWaiting, rows) - n
      && SumBy(OneIfDead, s) == SumBy(OneIfDead, rows) + Rejections(verdicts[..n])
      && |s| == |rows| - (n - Rejections(verdicts[..n]))
  {
    hide SumBy, SettleOne, FindWaiting, KeysDistinct;
    if n > 0 {
      WaitingBatchCounts(rows, lines, verdicts, n - 1);
      var before := Settled(rows, lines, verdicts, n - 1);
      var key, verdict := lines[n - 1].key, verdicts[n - 1];
      SettleKeepsDistinct(before, key, verdict);
      OneLineCounts(before, key, verdict);
      assert verdicts[..n][..n - 1] == verdicts[..n - 1];
      forall j | n <= j < |lines| ensures FindWaiting(SettleOne(before, key, verdict), lines[j].key).Some? {
        WaitingKept(before, key, verdict, lines[j].key);
      }
    }
  }

  /** A row that waits after settling waited before, unchanged. */
  lemma {:induction false} FatesStillWaiting(rows: seq<Observation>, lines: seq<Line>, verdicts: Verdicts,
                                             o: Observation)
    requires |lines| == |verdicts| && o in Fates(rows, lines, verdicts, |lines|) && o.state.Waiting?
    ensures o in rows
  {
    var last := |rows| - 1;
    SplitLast(rows);
    if Fate(rows[last], lines, verdicts, |lines|) != Some(o) {
      FatesStillWaiting(rows[..last], lines, verdicts, o);
    }
  }

  lemma SettledStillWaiting(rows: seq<Observation>, lines: seq<Line>, verdicts: Verdicts, o: Observation)
    requires |lines| == |verdicts| && o in Settled(rows, lines, verdicts, |lines|) && o.state.Waiting?
    ensures o in rows
  {
    SettledMeansFates(rows, lines, verdicts, |lines|);
    FatesStillWaiting(rows, lines, verdicts, o);
  }

  // ----- Rows too large for a batch -----

  lemma WireSizeStep(q: seq<Observation>, n: nat)
    requires n < |q|
    ensures WireSize(q[..n + 1]) == WireSize(q[..n]) + |q[n].body| + 1
  {
    assert q[..n + 1][..n] == q[..n];
  }

  /** A row larger than the byte bound is on no line of a chosen batch. */
  lemma OversizedNotSent(rows: seq<Observation>, b: Batch, maxEvents: nat, maxBytes: nat, o: Observation, j: nat)
    requires KeysDistinct(rows) && BatchFrom(rows, b, maxEvents, maxBytes) && j < |b.lines|
    requires o in rows && |o.body| + 1 > maxBytes
    ensures b.lines[j].key != o.key
  {
    hide Queue, Oldest;
    var q, n := Queue(rows, b.protocol), |b.lines|;
    assert b.lines[j] == LineOf(q[j]);
    WireSizeStep(q, j);
    WireSizeGrows(q, j + 1, n);
    QueueMembers(rows, b.protocol, q[j]);
    var k :| 0 <= k < |rows| && rows[k] == o;
    var m :| 0 <= m < |rows| && rows[m] == q[j];
    assert k != m;
  }

  lemma {:induction false} UnnamedKept(rows: seq<Observation>, lines: seq<Line>, verdicts: Verdicts, o: Observation)
    requires |lines| == |verdicts| && o in rows && forall j :: 0 <= j < |lines| ==> lines[j].key != o.key
    ensures o in Fates(rows, lines, verdicts, |lines|)
  {
    var last := |rows| - 1;
    if rows[last] != o {
      SplitLast(rows);
      UnnamedKept(rows[..last], lines, verdicts, o);
    }
  }

  /** A row larger than the byte bound survives the settling of any batch chosen under it. */
  lemma OversizedSurvives(rows: seq<Observation>, b: Batch, maxEvents: nat, maxBytes: nat, verdicts: Verdicts,
                          o: Observation)
    requires KeysDistinct(rows) && BatchFrom(rows, b, maxEvents, maxBytes) && |b.lines| == |verdicts|
    requires o in rows && |o.body| + 1 > maxBytes
    ensures o in Settled(rows, b.lines, verdicts, |b.lines|)
  {
    hide BatchFrom, Settled, Fates;
    forall j | 0 <= j < |b.lines| ensures b.lines[j].key != o.key {
      OversizedNotSent(rows, b, maxEvents, maxBytes, o, j);
    }
    UnnamedKept(rows, b.lines, verdicts, o);
    SettledMeansFates(rows, b.lines, verdicts, |b.lines|);
  }

  // ----- A receipt, row by row -----

  ghost predicate Names(r: Reason, name: string) {
    match r
    case SchemaInvalid => name == "schema_invalid"
    case UnsupportedSchemaVersion => name == "unsupported_schema_version"
    case JsonInvalid => name == "json_invalid"
    case Unknown(_) => false
  }

  /** The row stays as a dead letter that says why: the reason's name, a colon and the detail. */
  ghost predicate DiedOf(o: Observation, x: Rejection, after: seq<Observation>) {
    exists name: string :: Names(x.reason, name) &&
      Observation(o.key, o.body, o.bytes + |name| + 2 + |x.detail|, Dead(name + ": " + x.detail), o.protocol) in after
  }

  /** Line `j` is the first that names this key. */
  ghost predicate NamedAt(lines: seq<Line>, j: nat, key: Digest) {
    j < |lines| && lines[j].key == key && forall i :: 0 <= i < j ==> lines[i].key != key
  }

  /** A waiting row on line `j` stays dead when the receipt rejects that line, and is gone when it does not. */
  ghost predicate LineSettled(o: Observation, j: nat, rejected: seq<Rejection>, after: seq<Observation>) {
    && (forall k :: 0 <= k < |rejected| && rejected[k].line == j + 1 ==> DiedOf(o, rejected[k], after))
    && ((forall k :: 0 <= k < |rejected| ==> rejected[k].line != j + 1) ==>
        forall i :: 0 <= i < |after| ==> after[i].key != o.key)
  }

  /** What a receipt does to one row of the table. */
  ghost predicate RowSettled(o: Observation, lines: seq<Line>, rejected: seq<Rejection>, after: seq<Observation>) {
    && (!o.state.Waiting? || (forall j :: 0 <= j < |lines| ==> lines[j].key != o.key) ==> o in after)
    && (forall j: nat :: o.state.Waiting? && NamedAt(lines, j, o.key) ==> LineSettled(o, j, rejected, after))
  }

  ghost predicate RowsSettled(rows: seq<Observation>, lines: seq<Line>, rejected: seq<Rejection>,
                              after: seq<Observation>) {
    && (forall i :: 0 <= i < |rows| ==> RowSettled(rows[i], lines, rejected, after))
    && (forall i :: 0 <= i < |after| ==> HasKey(rows, after[i].key))
  }

  ghost predicate HasKey(rows: seq<Observation>, key: Digest) {
    exists k :: 0 <= k < |rows| && rows[k].key == key
  }

  lemma {:induction false} ReasonIs(parse: string -> Document, batch: Batch, rejected: seq<Rejection>, k: nat, m: nat)
    requires Checked(parse, batch, rejected, k) && m < k
    ensures ReasonAt(rejected, k, rejected[m].line) == Some(ReasonText(rejected[m]))
    decreases k
  {
    if m < k - 1 {
      assert Acceptable(parse, batch, rejected, k - 1);
      ReasonIs(parse, batch, rejected, k - 1, m);
    }
  }

  lemma {:induction false} NoReason(rejected: seq<Rejection>, k: nat, line: nat)
    requires k <= |rejected| && forall m :: 0 <= m < |rejected| ==> rejected[m].line != line
    ensures ReasonAt(rejected, k, line) == None
  {
    if k > 0 { NoReason(rejected, k - 1, line); }
  }

  lemma {:induction false} FatePresent(rows: seq<Observation>, lines: seq<Line>, verdicts: Verdicts, i: nat)
    requires |lines| == |verdicts| && i < |rows| && Fate(rows[i], lines, verdicts, |lines|).Some?
    ensures Fate(rows[i], lines, verdicts, |lines|).value in Fates(rows, lines, verdicts, |lines|)
  {
    if i < |rows| - 1 {
      FatePresent(rows[..|rows| - 1], lines, verdicts, i);
    }
  }

  /** Every row after settling is the fate of a row before. */
  lemma {:induction false} FateOrigin(rows: seq<Observation>, lines: seq<Line>, verdicts: Verdicts, i: nat)
    returns (k: nat)
    requires |lines| == |verdicts| && i < |Fates(rows, lines, verdicts, |lines|)|
    ensures k < |rows| && Fate(rows[k], lines, verdicts, |lines|) == Some(Fates(rows, lines, verdicts, |lines|)[i])
  {
    var last := |rows| - 1;
    if i < |Fates(rows[..last], lines, verdicts, |lines|)| {
      k := FateOrigin(rows[..last], lines, verdicts, i);
    } else {
      k := last;
    }
  }

  lemma FateWhenNamed(o: Observation, lines: seq<Line>, verdicts: Verdicts, j: nat)
    requires |lines| == |verdicts| && o.state.Waiting? && NamedAt(lines, j, o.key)
    ensures j < |lines| && Fate(o, lines, verdicts, |lines|) ==
      match verdicts[j] { case Some(text) => Some(Buried(o, text)) case None => None }
  {
    assert FirstLine(lines, |lines|, o.key) == Some(j);
  }

  lemma BuriedSaysWhy(o: Observation, x: Rejection, after: seq<Observation>)
    requires Buried(o, ReasonText(x)) in after && !x.reason.Unknown?
    ensures DiedOf(o, x, after)
  {
    assert Names(x.reason, ReasonName(x.reason));
  }

  lemma RejectedDies(parse: string -> Document, rows: seq<Observation>, batch: Batch, r: Receipt, i: nat, j: nat,
                     k: nat)
    requires ValidReceipt(parse, batch, r) && i < |rows| && rows[i].state.Waiting?
    requires NamedAt(batch.lines, j, rows[i].key) && k < |r.rejected| && r.rejected[k].line == j + 1
    ensures DiedOf(rows[i], r.rejected[k], Fates(rows, batch.lines, VerdictList(r, |batch.lines|), |batch.lines|))
  {
    hide Fates, Fate, ReasonAt, NamedAt, DiedOf, ReasonText, Buried;
    var o, lines, verdicts, x := rows[i], batch.lines, VerdictList(r, |batch.lines|), r.rejected[k];
    ReasonIs(parse, batch, r.rejected, |r.rejected|, k);
    FateWhenNamed(o, lines, verdicts, j);
    assert verdicts[j] == Some(ReasonText(x));
    FatePresent(rows, lines, verdicts, i);
    assert Acceptable(parse, batch, r.rejected, k);
    BuriedSaysWhy(o, x, Fates(rows, lines, verdicts, |lines|));
  }

  lemma AcceptedGoes(rows: seq<Observation>, batch: Batch, r: Receipt, i: nat, j: nat, m: nat)
    requires KeysDistinct(rows) && r.Receipt? && i < |rows| && rows[i].state.Waiting?
    requires NamedAt(batch.lines, j, rows[i].key) && forall k :: 0 <= k < |r.rejected| ==> r.rejected[k].line != j + 1
    requires m < |Fates(rows, batch.lines, VerdictList(r, |batch.lines|), |batch.lines|)|
    ensures Fates(rows, batch.lines, VerdictList(r, |batch.lines|), |batch.lines|)[m].key != rows[i].key
  {
    hide Fates, ReasonAt, NamedAt;
    var lines, verdicts := batch.lines, VerdictList(r, |batch.lines|);
    NoReason(r.rejected, |r.rejected|, j + 1);
    FateWhenNamed(rows[i], lines, verdicts, j);
    assert verdicts[j] == None;
    var k := FateOrigin(rows, lines, verdicts, m);
    assert k != i;
  }

  lemma ReceiptSettlesRow(parse: string -> Document, rows: seq<Observation>, batch: Batch, r: Receipt, i: nat)
    requires KeysDistinct(rows) && ValidReceipt(parse, batch, r) && i < |rows|
    ensures RowSettled(rows[i], batch.lines, r.rejected,
        Fates(rows, batch.lines, VerdictList(r, |batch.lines|), |batch.lines|))
  {
    hide Fates, ReasonAt, DiedOf, Checked, NamedAt;
    var o, lines, n, verdicts := rows[i], batch.lines, |batch.lines|, VerdictList(r, |batch.lines|);
    var after := Fates(rows, lines, verdicts, n);
    if !o.state.Waiting? || FirstLine(lines, n, o.key).None? { FatePresent(rows, lines, verdicts, i); }
    forall j: nat | o.state.Waiting? && NamedAt(lines, j, o.key) ensures LineSettled(o, j, r.rejected, after) {
      forall k | 0 <= k < |r.rejected| && r.rejected[k].line == j + 1 ensures DiedOf(o, r.rejected[k], after) {
        RejectedDies(parse, rows, batch, r, i, j, k);
      }
      if forall k :: 0 <= k < |r.rejected| ==> r.rejected[k].line != j + 1 {
        forall m | 0 <= m < |after| ensures after[m].key != o.key { AcceptedGoes(rows, batch, r, i, j, m); }
      }
    }
  }

  /** A valid receipt, row by row of the table. */
  lemma ReceiptSettlesRows(parse: string -> Document, rows: seq<Observation>, batch: Batch, r: Receipt)
    requires KeysDistinct(rows) && ValidReceipt(parse, batch, r)
    ensures |VerdictList(r, |batch.lines|)| == |batch.lines|
    ensures RowsSettled(rows, batch.lines, r.rejected,
        Settled(rows, batch.lines, VerdictList(r, |batch.lines|), |batch.lines|))
  {
    hide Fates, Settled, RowSettled, Checked;
    var lines, verdicts := batch.lines, VerdictList(r, |batch.lines|);
    var after := Settled(rows, lines, verdicts, |lines|);
    SettledMeansFates(rows, lines, verdicts, |lines|);
    forall i | 0 <= i < |rows| ensures RowSettled(rows[i], lines, r.rejected, after) {
      ReceiptSettlesRow(parse, rows, batch, r, i);
    }
    forall i | 0 <= i < |after| ensures HasKey(rows, after[i].key) {
      var k := FateOrigin(rows, lines, verdicts, i);
      assert rows[k].key == after[i].key;
    }
  }
}
