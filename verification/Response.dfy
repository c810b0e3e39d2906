/** The response command pipeline: poll, record, begin, execute, finish, hand over. Storage calls
    may be refused, fail, or take effect and report failure; the process may crash between any
    two steps. Durable state survives a crash and the pending result does not. */
module Response {
  import opened Common
  import opened Store
  import opened Journal

  datatype Action = AcquireFile | OtherAction

  datatype Parsed = Parsed(commandId: string, action: Action, expiresAt: int, canonical: string)

  datatype Code = Succeeded | Indeterminate | Expired | OtherCode

  datatype Receipt = Receipt(commandId: string, code: Code, summary: string)

  /** How a step ended: normally, by an exception the cycle catches, or by losing the process. */
  datatype Status = Done | Threw | Crashed

  ghost function Row(rows: seq<Command>, key: string): Option<Command> {
    match FindCommand(rows, key)
    case None => None
    case Some(k) => Some(rows[k])
  }

  lemma RowMoved(rows: seq<Command>, key: string, state: CommandState, result: Option<string>, other: string)
    ensures Row(Moved(rows, key, state, result), other) ==
      if other == key && Row(rows, key).Some? then
        var c := Row(rows, key).value.(state := state);
        Some(if result.Some? then c.(result := result, bytes := c.bytes + |result.value|) else c)
      else Row(rows, other)
  {
    FindMoved(rows, key, state, result, other);
  }

  lemma RowAdded(rows: seq<Command>, c: Command, other: string)
    requires FindCommand(rows, c.key).None?
    ensures Row(rows + [c], other) == if other == c.key then Some(c) else Row(rows, other)
  {
    FindAdded(rows, c);
  }

  lemma RowOfMember(rows: seq<Command>, c: Command)
    requires CommandKeysDistinct(rows) && c in rows
    ensures Row(rows, c.key) == Some(c)
  {
    var i :| 0 <= i < |rows| && rows[i] == c;
    assert FindCommand(rows, c.key).Some?;
  }

  // ----- What every step keeps -----

  datatype Handed = Handed(key: string, result: string)

  /** What has happened outside the journal: commands freshly dispatched, commands resumed, and
      results handed to the outbox, over all process lifetimes; and the results serialized in
      this lifetime. */
  datatype Trace = Trace(dispatched: seq<string>, resumed: seq<string>, handed: seq<Handed>,
                         serialized: map<string, string>)

  /** A dispatched command is durably past `received`, and no command is dispatched twice. */
  ghost predicate DispatchTracked(rows: seq<Command>, t: Trace) {
    && NoRepeats(t.dispatched)
    && forall i :: 0 <= i < |t.dispatched| ==>
        Row(rows, t.dispatched[i]).Some? && Row(rows, t.dispatched[i]).value.state != Received
  }

  /** Whatever was handed over is the durable result of that command. */
  ghost predicate HandedTracked(rows: seq<Command>, t: Trace) {
    forall i :: 0 <= i < |t.handed| ==>
      Row(rows, t.handed[i].key).Some? && Row(rows, t.handed[i].key).value.result == Some(t.handed[i].result)
  }

  ghost predicate DurableOrPending(row: Option<Command>, result: string, isPending: bool) {
    row.Some? && (row.value.result == Some(result) || (row.value.result == None && isPending))
  }

  /** A result serialized in this lifetime is either durable or the pending one. */
  ghost predicate SerializedTracked(rows: seq<Command>, t: Trace, pending: Option<string>, pendingKey: string) {
    && (forall k :: k in t.serialized ==>
          DurableOrPending(Row(rows, k), t.serialized[k], pending == Some(t.serialized[k]) && pendingKey == k))
    && (pending.Some? ==> pendingKey in t.serialized && t.serialized[pendingKey] == pending.value)
  }

  /** Commands are stored under the digest of their scope and identity. */
  ghost predicate KeyedByDigest(rows: seq<Command>, scope: string, digest: string -> string,
                                parse: string -> Option<Parsed>) {
    forall k :: Row(rows, k).Some? && Row(rows, k).value.scope == scope && parse(Row(rows, k).value.body).Some? ==>
      k == digest(scope + ":" + parse(Row(rows, k).value.body).value.commandId)
  }

  ghost predicate ResumedTracked(scope: string, digest: string -> string, resumed: seq<string>) {
    forall i :: 0 <= i < |resumed| ==> resumed[i] == digest(scope + ":" + resumed[i])
  }

  ghost predicate Tracked(rows: seq<Command>, t: Trace, pending: Option<string>, pendingKey: string) {
    DispatchTracked(rows, t) && HandedTracked(rows, t) && SerializedTracked(rows, t, pending, pendingKey)
  }

  /** A command moving forward without gaining a result disturbs nothing. */
  lemma MoveKeeps(rows: seq<Command>, t: Trace, pending: Option<string>, pendingKey: string, key: string,
                  state: CommandState)
    requires Tracked(rows, t, pending, pendingKey) && state != Received
    ensures Tracked(Moved(rows, key, state, None), t, pending, pendingKey)
  {
    var after := Moved(rows, key, state, None);
    forall k
      ensures Row(after, k).Some? == Row(rows, k).Some?
      ensures Row(rows, k).Some? ==> Row(after, k).value.result == Row(rows, k).value.result
      ensures Row(rows, k).Some? ==>
        Row(after, k).value.state == Row(rows, k).value.state || Row(after, k).value.state == state
    {
      RowMoved(rows, key, state, None, k);
    }
  }

  /** A dispatch of a command that is no longer received and was not dispatched before, or a resumption
      under a fixed point of the keyed digest, disturbs nothing. */
  lemma CallKeeps(rows: seq<Command>, t: Trace, pending: Option<string>, pendingKey: string, scope: string,
                  digest: string -> string, key: string)
    requires Tracked(rows, t, pending, pendingKey) && ResumedTracked(scope, digest, t.resumed) && Row(rows, key).Some?
    ensures Row(rows, key).value.state != Received && key !in t.dispatched ==>
      Tracked(rows, t.(dispatched := t.dispatched + [key]), pending, pendingKey)
    ensures Tracked(rows, t.(resumed := t.resumed + [key]), pending, pendingKey)
    ensures key == digest(scope + ":" + key) ==> ResumedTracked(scope, digest, t.resumed + [key])
  {
    hide Row;
  }

  /** Storing the serialized result makes it durable and frees the pending slot. */
  lemma FinishKeeps(rows: seq<Command>, t: Trace, pending: Option<string>, pendingKey: string, result: string)
    requires Tracked(rows, t, pending, pendingKey) && pending == Some(result)
    requires Row(rows, pendingKey).Some? && Row(rows, pendingKey).value.result.None?
    ensures Tracked(Moved(rows, pendingKey, ResultReady, Some(result)), t, pending, pendingKey)
    ensures Tracked(Moved(rows, pendingKey, ResultReady, Some(result)), t, None, pendingKey)
  {
    var after := Moved(rows, pendingKey, ResultReady, Some(result));
    forall k ensures Row(after, k).Some? == Row(rows, k).Some? && (k != pendingKey ==> Row(after, k) == Row(rows, k)) {
      RowMoved(rows, pendingKey, ResultReady, Some(result), k);
    }
    RowMoved(rows, pendingKey, ResultReady, Some(result), pendingKey);
  }

  /** Serializing a result that is neither durable nor pending yet. */
  lemma SerializeKeeps(rows: seq<Command>, t: Trace, pendingKey: string, key: string, result: string)
    requires Tracked(rows, t, None, pendingKey) && Row(rows, key).Some? && Row(rows, key).value.result.None?
    ensures key !in t.serialized
    ensures Tracked(rows, t.(serialized := t.serialized[key := result]), Some(result), key)
  {
  }

  lemma ReleaseKeeps(rows: seq<Command>, t: Trace, pending: Option<string>, pendingKey: string)
    requires Tracked(rows, t, pending, pendingKey)
    requires Row(rows, pendingKey).Some? && Row(rows, pendingKey).value.result == pending
    ensures Tracked(rows, t, None, pendingKey)
  {
  }

  lemma HandKeeps(rows: seq<Command>, t: Trace, pending: Option<string>, pendingKey: string, key: string,
                  result: string)
    requires Tracked(rows, t, pending, pendingKey)
    requires Row(rows, key).Some? && Row(rows, key).value.result == Some(result)
    ensures Tracked(rows, t.(handed := t.handed + [Handed(key, result)]), pending, pendingKey)
  {
  }

  lemma AddKeeps(rows: seq<Command>, t: Trace, pending: Option<string>, pendingKey: string, c: Command)
    requires Tracked(rows, t, pending, pendingKey) && FindCommand(rows, c.key).None?
    ensures Tracked(rows + [c], t, pending, pendingKey)
  {
    forall k ensures Row(rows, k).Some? ==> Row(rows + [c], k) == Row(rows, k) { RowAdded(rows, c, k); }
  }

  /** Losing the process forgets what this lifetime serialized and nothing else. */
  lemma CrashKeeps(rows: seq<Command>, t: Trace, pending: Option<string>, pendingKey: string)
    requires Tracked(rows, t, pending, pendingKey)
    ensures Tracked(rows, t.(serialized := map[]), None, "")
  {
  }

  // ----- The guard of the resume path -----

  ghost predicate Injective(digest: string -> string) {
    forall a, b :: digest(a) == digest(b) ==> a == b
  }

  /** An interrupted file acquisition is resumed only when its identity equals the key it is stored
      under, that is, exactly when that key is a fixed point of the keyed digest. */
  lemma ResumeGuard(digest: string -> string, scope: string, key: string, commandId: string)
    requires Injective(digest) && key == digest(scope + ":" + commandId)
    ensures key == commandId <==> digest(scope + ":" + key) == key
  {
    if digest(scope + ":" + key) == key {
      assert scope + ":" + key == scope + ":" + commandId;
      assert (scope + ":" + key)[|scope| + 1..] == key && (scope + ":" + commandId)[|scope| + 1..] == commandId;
    }
  }

  /** The failing inputs of the guard: keys are 64 characters, so an interrupted acquisition whose id
      has any other length is never resumed. */
  lemma OtherLengthNeverResumes(digest: string -> string, scope: string, key: string, commandId: string)
    requires key == digest(scope + ":" + commandId) && |key| == KEY_LENGTH && |commandId| != KEY_LENGTH
    ensures key != commandId && (Injective(digest) ==> digest(scope + ":" + key) != key)
  {
    if Injective(digest) { ResumeGuard(digest, scope, key, commandId); }
  }

  const KEY_LENGTH: nat := 64

  /** Digests have their fixed length and no command id has that length. */
  ghost predicate IdsUnlikeKeys(digest: string -> string, parse: string -> Option<Parsed>) {
    && (forall x :: |digest(x)| == KEY_LENGTH)
    && (forall body :: parse(body).Some? ==> |parse(body).value.commandId| != KEY_LENGTH)
  }

  /** Storing the canonical form of a parsed command keeps its meaning. */
  ghost predicate CanonicalForms(parse: string -> Option<Parsed>) {
    forall body :: parse(body).Some? ==> parse(parse(body).value.canonical) == parse(body)
  }

  lemma MoveKeepsKeys(rows: seq<Command>, scope: string, digest: string -> string, parse: string -> Option<Parsed>,
                      key: string, state: CommandState, result: Option<string>)
    requires KeyedByDigest(rows, scope, digest, parse)
    ensures KeyedByDigest(Moved(rows, key, state, result), scope, digest, parse)
  {
    forall k
      ensures Row(Moved(rows, key, state, result), k).Some? == Row(rows, k).Some?
      ensures Row(rows, k).Some? ==> Row(Moved(rows, key, state, result), k).value.scope == Row(rows, k).value.scope
      ensures Row(rows, k).Some? ==> Row(Moved(rows, key, state, result), k).value.body == Row(rows, k).value.body
    {
      RowMoved(rows, key, state, result, k);
    }
  }

  lemma AddKeepsKeys(rows: seq<Command>, scope: string, digest: string -> string, parse: string -> Option<Parsed>,
                     p: Parsed)
    requires KeyedByDigest(rows, scope, digest, parse) && parse(p.canonical) == Some(p)
    requires FindCommand(rows, digest(scope + ":" + p.commandId)).None?
    ensures var c := Command(digest(scope + ":" + p.commandId), scope, p.canonical, Received, None, |p.canonical|);
      KeyedByDigest(rows + [c], scope, digest, parse)
  {
    var c := Command(digest(scope + ":" + p.commandId), scope, p.canonical, Received, None, |p.canonical|);
    forall k ensures Row(rows + [c], k) == if k == c.key then Some(c) else Row(rows, k) { RowAdded(rows, c, k); }
  }

  ghost predicate OthersKept(before: seq<Command>, after: seq<Command>, key: string) {
    forall k :: k != key ==> Row(after, k) == Row(before, k)
  }

  ghost predicate Executes(row: Option<Command>) {
    row.Some? && row.value.state == Executing && row.value.result.None?
  }

  /** What a listed command still says about its row when its turn comes. */
  ghost predicate StillTrue(row: Option<Command>, stored: Command) {
    && row.Some? && row.value.scope == stored.scope && row.value.body == stored.body && stored.state != Outboxed
    && (stored.state == Executing ==> row.value.result.None?)
    && (stored.state == ResultReady ==> stored.result.Some? && row.value.result == stored.result)
  }

  /** The command is finished: its durable result was the last thing put into the outbox. */
  ghost predicate DeliveredAs(row: Option<Command>, t: Trace, outbox: seq<string>, key: string, result: string) {
    && row.Some? && row.value.state == Outboxed && row.value.result == Some(result)
    && t.handed != [] && t.handed[|t.handed| - 1] == Handed(key, result)
    && outbox != [] && outbox[|outbox| - 1] == result
  }

  ghost predicate Delivered(row: Option<Command>, t: Trace, outbox: seq<string>, key: string) {
    row.Some? && row.value.result.Some? && DeliveredAs(row, t, outbox, key, row.value.result.value)
  }

  // ----- What no step undoes -----

  /** Rows are never dropped or rewritten: a command keeps its scope and body, a result once stored stays, and a
      closed row does not change at all. */
  ghost predicate Grown(before: seq<Command>, after: seq<Command>) {
    forall k :: Row(before, k).Some? ==> RowKept(Row(before, k).value, Row(after, k))
  }

  ghost predicate RowKept(c: Command, row: Option<Command>) {
    && row.Some? && row.value.scope == c.scope && row.value.body == c.body
    && (c.result.Some? ==> row.value.result == c.result) && (c.state == Outboxed ==> row.value == c)
  }

  lemma GrownSame(rows: seq<Command>)
    ensures Grown(rows, rows)
  {
  }

  lemma GrownOn(a: seq<Command>, b: seq<Command>, c: seq<Command>)
    requires Grown(a, b) && Grown(b, c)
    ensures Grown(a, c)
  {
    hide Row;
    forall k | Row(a, k).Some? ensures RowKept(Row(a, k).value, Row(c, k)) {
      assert RowKept(Row(a, k).value, Row(b, k)) && RowKept(Row(b, k).value, Row(c, k));
    }
  }

  /** A command that is not closed may move on, gaining a result only if it has none. */
  lemma GrownMoved(rows: seq<Command>, key: string, state: CommandState, result: Option<string>)
    requires Row(rows, key).Some? ==> Row(rows, key).value.state != Outboxed
    requires Row(rows, key).Some? && result.Some? ==> Row(rows, key).value.result.None?
    ensures Grown(rows, Moved(rows, key, state, result))
  {
    hide Row;
    forall k | Row(rows, k).Some? ensures RowKept(Row(rows, k).value, Row(Moved(rows, key, state, result), k)) {
      RowMoved(rows, key, state, result, k);
    }
  }

  lemma GrownAdded(rows: seq<Command>, c: Command)
    requires FindCommand(rows, c.key).None?
    ensures Grown(rows, rows + [c])
  {
    forall k | Row(rows, k).Some? ensures RowKept(Row(rows, k).value, Row(rows + [c], k)) { RowAdded(rows, c, k); }
  }

  /** The polled command is on record under its keyed digest. */
  ghost predicate OnRecord(rows: seq<Command>, scope: string, digest: string -> string, p: Parsed) {
    var row := Row(rows, digest(scope + ":" + p.commandId));
    row.Some? && row.value.scope == scope && row.value.body == p.canonical
  }

  lemma StaysOnRecord(a: seq<Command>, b: seq<Command>, scope: string, digest: string -> string, p: Parsed)
    requires Grown(a, b) && OnRecord(a, scope, digest, p)
    ensures OnRecord(b, scope, digest, p)
  {
    assert RowKept(Row(a, digest(scope + ":" + p.commandId)).value, Row(b, digest(scope + ":" + p.commandId)));
  }

  lemma KeepsResult(a: seq<Command>, b: seq<Command>, key: string, result: Option<string>)
    requires Grown(a, b)
    ensures result.Some? && Row(a, key).Some? && Row(a, key).value.result == result ==>
      Row(b, key).Some? && Row(b, key).value.result == result
  {
    if Row(a, key).Some? { assert RowKept(Row(a, key).value, Row(b, key)); }
  }

  /** The inbox has a reason not to take the command: its sizes, another command under its key, too many commands,
      or the quota. */
  ghost predicate Unreceivable(db: Database, limit: nat, scope: string, digest: string -> string, p: Parsed) {
    var key := digest(scope + ":" + p.commandId);
    || !(0 < |scope| <= 128 && 0 < |key| <= 128 && 0 < |p.canonical| <= 8192)
    || (Row(db.commands, key).Some? && !OnRecord(db.commands, scope, digest, p))
    || |db.commands| == 65536 || Held(db) + |p.canonical| > limit
  }

  lemma RefusedForCause(db: Database, limit: nat, scope: string, digest: string -> string, p: Parsed, error: Error)
    requires error == InvalidArgument ==>
      var key := digest(scope + ":" + p.commandId);
      !(0 < |scope| <= 128 && 0 < |key| <= 128 && 0 < |p.canonical| <= 8192)
    requires error == IdentityCollision ==>
      var key := digest(scope + ":" + p.commandId);
      FindCommand(db.commands, key).Some? && !Holds(db.commands, scope, key, p.canonical)
    requires error == CountLimit ==> |db.commands| == 65536
    requires error == QuotaExhausted ==> Held(db) + |p.canonical| > limit
    requires error in {InvalidArgument, IdentityCollision, CountLimit, QuotaExhausted}
    ensures Unreceivable(db, limit, scope, digest, p)
  {
  }

  lemma HeldOnRecord(rows: seq<Command>, scope: string, digest: string -> string, p: Parsed)
    requires Holds(rows, scope, digest(scope + ":" + p.commandId), p.canonical)
    ensures OnRecord(rows, scope, digest, p)
  {
  }

  /** What the outbox was given, in order. */
  ghost function Results(handed: seq<Handed>): seq<string> {
    seq(|handed|, i requires 0 <= i < |handed| => handed[i].result)
  }

  /** A polled command in execution whose interruption left nothing to resume by. */
  ghost predicate Interrupted(stored: Command, p: Parsed) {
    stored.state == Executing && !(p.action == AcquireFile && stored.key == p.commandId)
  }

  /** How an execution ends: a receipt that is no success stays as it is, a fresh command is not executed after its
      expiry, and only otherwise does it end as the action does. */
  ghost function Executed(command: Parsed, receipt: Receipt, now: int, recovering: bool,
                          acted: Option<Receipt>): Option<Receipt> {
    if receipt.code == Succeeded && (recovering || now < command.expiresAt) then acted
    else if receipt.code == Succeeded then
      Some(Receipt(receipt.commandId, Expired, "command expired before OS action dispatch"))
    else Some(receipt)
  }

  const UNPROVEN := "prior execution intent recovered; completion cannot be proven; action not repeated"

  lemma KeptResult(rows: seq<Command>, key: string, state: CommandState)
    ensures Row(Moved(rows, key, state, None), key).Some? == Row(rows, key).Some?
    ensures Row(rows, key).Some? ==>
      Row(Moved(rows, key, state, None), key).value == Row(rows, key).value.(state := state)
  {
    RowMoved(rows, key, state, None, key);
  }

  /** What one pass works through: the oldest 32 unfinished commands of the scope. */
  ghost function WorkList(rows: seq<Command>, scope: string): seq<Command> {
    var all := Unfinished(rows, scope);
    if |all| <= 32 then all else all[..32]
  }

  lemma WorkListIsOldest(rows: seq<Command>, scope: string)
    ensures OldestUnfinished(rows, scope, 32, WorkList(rows, scope))
  {
    UnfinishedPrefix(rows, scope, 32, WorkList(rows, scope));
  }

  /** The command's row is closed and its result has been put into the outbox. */
  ghost predicate Finished(row: Option<Command>, t: Trace, outbox: seq<string>, key: string) {
    && row.Some? && row.value.state == Outboxed && row.value.result.Some?
    && Handed(key, row.value.result.value) in t.handed && row.value.result.value in outbox
  }

  lemma DeliveredIsFinished(row: Option<Command>, t: Trace, outbox: seq<string>, key: string)
    requires Delivered(row, t, outbox, key)
    ensures Finished(row, t, outbox, key)
  {
  }

  lemma StaysFinished(a: seq<Command>, b: seq<Command>, t: Trace, u: Trace, before: seq<string>, after: seq<string>,
                      key: string)
    requires Grown(a, b) && t.handed <= u.handed && before <= after && Finished(Row(a, key), t, before, key)
    ensures Finished(Row(b, key), u, after, key)
  {
    assert RowKept(Row(a, key).value, Row(b, key));
  }

  /** What was serialized in this lifetime stays what it was. */
  ghost predicate SerializedOnce(before: Trace, after: Trace) {
    forall k :: k in before.serialized ==> k in after.serialized && after.serialized[k] == before.serialized[k]
  }

  ghost predicate Began(row: Option<Command>) {
    row.Some? && row.value.state != Received
  }

  /** The listed commands are the rows under their keys. */
  lemma ListedRows(inbox: DurableJournal, list: seq<Command>)
    requires inbox.Valid() && forall c :: c in list ==> c in inbox.db.commands && c.state != Outboxed
    ensures forall j :: 0 <= j < |list| ==> Row(inbox.db.commands, list[j].key) == Some(list[j])
    ensures forall j :: 0 <= j < |list| ==> StillTrue(Some(list[j]), list[j])
  {
    forall j | 0 <= j < |list|
      ensures Row(inbox.db.commands, list[j].key) == Some(list[j])
      ensures StillTrue(Some(list[j]), list[j])
    {
      assert list[j] in list;
      RowOfMember(inbox.db.commands, list[j]);
    }
  }

  lemma StoredKey(rows: seq<Command>, scope: string, digest: string -> string, parse: string -> Option<Parsed>,
                  key: string)
    requires KeyedByDigest(rows, scope, digest, parse) && Row(rows, key).Some? && Row(rows, key).value.scope == scope
    requires parse(Row(rows, key).value.body).Some?
    ensures key == digest(scope + ":" + parse(Row(rows, key).value.body).value.commandId)
  {
  }

  lemma MoveKeepsOthers(rows: seq<Command>, key: string, state: CommandState, result: Option<string>)
    ensures OthersKept(rows, Moved(rows, key, state, result), key)
  {
    forall k | k != key ensures Row(Moved(rows, key, state, result), k) == Row(rows, k) {
      RowMoved(rows, key, state, result, k);
    }
  }

  lemma NotDispatched(rows: seq<Command>, t: Trace, key: string)
    requires DispatchTracked(rows, t)
    ensures Row(rows, key).Some? && Row(rows, key).value.state == Received ==> key !in t.dispatched
  {
  }

  lemma BegunExecutes(db: Database, limit: nat, parse: string -> Document, rows: seq<Command>, key: string)
    requires Sound(db, limit, parse)
    ensures db.commands == Moved(rows, key, Executing, None) && Row(rows, key).Some? ==> Executes(Row(db.commands, key))
  {
    RowMoved(rows, key, Executing, None, key);
  }

  lemma ExecutingHasNoResult(db: Database, limit: nat, parse: string -> Document, scope: string, key: string)
    requires Sound(db, limit, parse)
    ensures InState(db.commands, scope, key, Executing) ==>
      Row(db.commands, key).Some? && Row(db.commands, key).value.result.None?
  {
  }

  lemma ResultRow(rows: seq<Command>, scope: string, key: string, result: string)
    requires HasResult(rows, scope, key, result)
    ensures Row(rows, key).Some? && Row(rows, key).value.result == Some(result)
  {
  }

  /** The room so many results may take. */
  ghost function Room(n: nat, each: nat): nat {
    n * each
  }

  lemma RoomLeft(i: nat, each: nat)
    ensures Room(0, each) == 0 && Room(i + 1, each) == Room(i, each) + each
    ensures i < 32 ==> Room(i + 1, each) <= Room(32, each)
  {
    if i < 32 { assert (i + 1) * each <= 32 * each; }
  }

  lemma StateRow(rows: seq<Command>, scope: string, key: string, state: CommandState)
    ensures InState(rows, scope, key, state) <==>
      Row(rows, key).Some? && Row(rows, key).value.scope == scope && Row(rows, key).value.state == state
  {
  }

  /** A command with a result is ready to be handed over, or was. */
  lemma ResultState(db: Database, limit: nat, parse: string -> Document, scope: string, key: string)
    requires Sound(db, limit, parse) && Row(db.commands, key).Some? && Row(db.commands, key).value.scope == scope
    requires Row(db.commands, key).value.result.Some?
    ensures InState(db.commands, scope, key, ResultReady) || InState(db.commands, scope, key, Outboxed)
  {
  }

  /** The exclusive owner of one response scope. */
  class ResponseRuntime {
    const inbox: DurableJournal
    const scope: string
    const digest: string -> string
    const parse: string -> Option<Parsed>
    const serialize: Receipt -> Option<string>
    var outbox: seq<string>
    var pendingResult: Option<string>
    var pendingKey: string
    ghost var trace: Trace

    ghost predicate Valid()
      reads this, inbox
    {
      && inbox.Valid() && CanonicalForms(parse)
      && Tracked(inbox.db.commands, trace, pendingResult, pendingKey)
      && KeyedByDigest(inbox.db.commands, scope, digest, parse)
      && ResumedTracked(scope, digest, trace.resumed)
      && outbox == Results(trace.handed)
    }

    constructor (inbox: DurableJournal, scope: string, digest: string -> string, parse: string -> Option<Parsed>,
                 serialize: Receipt -> Option<string>)
      requires inbox.Valid() && inbox.db.commands == [] && CanonicalForms(parse)
      ensures Valid() && this.inbox == inbox && trace == Trace([], [], [], map[]) && pendingResult == None
      ensures outbox == []
    {
      this.inbox, this.scope, this.digest, this.parse, this.serialize := inbox, scope, digest, parse, serialize;
      outbox, pendingResult, pendingKey, trace := [], None, "", Trace([], [], [], map[]);
    }

    predicate BodiesParse(bodies: seq<string>) {
      forall i :: 0 <= i < |bodies| ==> parse(bodies[i]).Some?
    }

    ghost predicate Fits(result: string) {
      0 < |result| <= inbox.eventLimit
    }

    ghost predicate AllParse(commands: seq<Command>) {
      forall i :: 0 <= i < |commands| ==> parse(commands[i].body).Some?
    }

    /** Every receipt becomes a result the inbox can store. */
    ghost predicate AlwaysSerializes() {
      forall r :: serialize(r).Some? && Fits(serialize(r).value)
    }

    /** The dispatch entry: a receipt that already failed is returned, a fresh command that has expired
        by now is refused as expired, and otherwise the operating-system action is taken and ends as it ends, in a
        receipt or an exception. Both kinds of call are recorded. */
    method ExecuteCommand(key: string, command: Parsed, receipt: Receipt, now: int, recovering: bool,
                          acted: Option<Receipt>)
      returns (out: Option<Receipt>)
      requires Valid() && Row(inbox.db.commands, key).Some?
      requires !recovering ==> Row(inbox.db.commands, key).value.state != Received && key !in trace.dispatched
      requires recovering ==> key == digest(scope + ":" + key)
      modifies this`trace
      ensures Valid()
      ensures recovering ==> trace == old(trace).(resumed := old(trace.resumed) + [key])
      ensures !recovering ==> trace == old(trace).(dispatched := old(trace.dispatched) + [key])
      ensures out == Executed(command, receipt, now, recovering, acted)
    {
      hide Tracked, KeyedByDigest, CanonicalForms, ResumedTracked, Row;
      CallKeeps(inbox.db.commands, trace, pendingResult, pendingKey, scope, digest, key);
      if recovering {
        trace := trace.(resumed := trace.resumed + [key]);
      } else {
        trace := trace.(dispatched := trace.dispatched + [key]);
      }
      if receipt.code != Succeeded { return Some(receipt); }
      if !recovering && now >= command.expiresAt {
        return Some(receipt.(code := Expired, summary := "command expired before OS action dispatch"));
      }
      return acted;
    }

    /** Records the durable intent to execute. Only a command that is still `received` begins, so a
        begun command was never dispatched before. */
    method Begin(key: string, quiet: bool) returns (s: Status, begun: bool)
      requires Valid()
      modifies inbox`db
      ensures Valid() && OthersKept(old(inbox.db.commands), inbox.db.commands, key)
      ensures Grown(old(inbox.db.commands), inbox.db.commands)
      ensures old(Row(inbox.db.commands, key)).Some? ==> Row(inbox.db.commands, key).Some?
      ensures s == Done && begun ==> key !in trace.dispatched && Executes(Row(inbox.db.commands, key))
      ensures s == Done && !begun ==> !InState(old(inbox.db.commands), scope, key, Received)
      ensures s == Done && begun ==> InState(inbox.db.commands, scope, key, Executing)
      ensures Held(inbox.db) == old(Held(inbox.db)) && (quiet ==> s == Done)
    {
      hide DispatchTracked, HandedTracked, SerializedTracked, KeyedByDigest, ResumedTracked, CanonicalForms,
        FindCommand, Sound, CommandSized, Held, Grown;
      var before: bool, after: bool, fault: Fault := *, *, *;
      if quiet { before, after, fault := false, false, NoFault; }
      HeldMoved(inbox.db, key, Executing, None);
      GrownSame(inbox.db.commands);
      if before { return Crashed, false; }
      ghost var rows := inbox.db.commands;
      var r := inbox.BeginCommand(scope, key, fault);
      MoveKeeps(rows, trace, pendingResult, pendingKey, key, Executing);
      MoveKeepsKeys(rows, scope, digest, parse, key, Executing, None);
      MoveKeepsOthers(rows, key, Executing, None);
      NotDispatched(rows, trace, key);
      StateRow(rows, scope, key, Received);
      if InState(rows, scope, key, Received) {
        MovedInState(rows, scope, key, Received, Executing, None);
        GrownMoved(rows, key, Executing, None);
      }
      BegunExecutes(inbox.db, inbox.limit, inbox.parse, rows, key);
      if after { return Crashed, false; }
      if r.Failure? { return Threw, false; }
      return Done, r.value;
    }

    /** Makes the pending result durable. Once this is done the result never changes again. */
    method Finish(quiet: bool) returns (s: Status)
      requires Valid() && pendingResult.Some?
      modifies inbox`db
      ensures Valid() && OthersKept(old(inbox.db.commands), inbox.db.commands, pendingKey)
      ensures s == Done ==>
        Row(inbox.db.commands, pendingKey).Some? && Row(inbox.db.commands, pendingKey).value.result == pendingResult
      ensures s == Done ==> Row(inbox.db.commands, pendingKey).value.scope == scope
      ensures Grown(old(inbox.db.commands), inbox.db.commands)
      ensures Held(inbox.db) <= old(Held(inbox.db)) + inbox.eventLimit
      ensures quiet && InState(old(inbox.db.commands), scope, pendingKey, Executing) && Fits(pendingResult.value) ==>
        s == Done || old(Held(inbox.db)) + |pendingResult.value| > inbox.limit
    {
      hide DispatchTracked, HandedTracked, SerializedTracked, KeyedByDigest, ResumedTracked, CanonicalForms,
        FindCommand, Sound, CommandSized, Held, Grown;
      var before: bool, after: bool, fault: Fault := *, *, *;
      if quiet { before, after, fault := false, false, NoFault; }
      HeldMoved(inbox.db, pendingKey, ResultReady, pendingResult);
      GrownSame(inbox.db.commands);
      if before { return Crashed; }
      ghost var rows, result := inbox.db.commands, pendingResult.value;
      ExecutingHasNoResult(inbox.db, inbox.limit, inbox.parse, scope, pendingKey);
      var r := inbox.FinishCommand(scope, pendingKey, pendingResult.value, fault);
      StateRow(rows, scope, pendingKey, Executing);
      if inbox.db.commands != rows {
        GrownMoved(rows, pendingKey, ResultReady, Some(result));
        FinishKeeps(rows, trace, pendingResult, pendingKey, result);
        MoveKeepsKeys(rows, scope, digest, parse, pendingKey, ResultReady, Some(result));
        MoveKeepsOthers(rows, pendingKey, ResultReady, Some(result));
      }
      if after { return Crashed; }
      if r.Failure? { return Threw; }
      ResultRow(inbox.db.commands, scope, pendingKey, result);
      return Done;
    }

    /** Hands a durable result to the outbox and records that; both may be repeated after a crash,
        always with the same bytes. */
    method HandOver(key: string, result: string, quiet: bool) returns (s: Status)
      requires Valid() && Row(inbox.db.commands, key).Some? && Row(inbox.db.commands, key).value.result == Some(result)
      modifies this`outbox, this`trace, inbox`db
      ensures Valid() && OthersKept(old(inbox.db.commands), inbox.db.commands, key)
      ensures trace == old(trace).(handed := trace.handed)
      ensures trace.handed == old(trace.handed) || trace.handed == old(trace.handed) + [Handed(key, result)]
      ensures outbox == old(outbox) || outbox == old(outbox) + [result]
      ensures s == Done ==> outbox == old(outbox) + [result]
      ensures Grown(old(inbox.db.commands), inbox.db.commands)
      ensures s == Done ==> DeliveredAs(Row(inbox.db.commands, key), trace, outbox, key, result)
      ensures Held(inbox.db) == old(Held(inbox.db))
      ensures quiet && old(Row(inbox.db.commands, key)).value.scope == scope ==> s == Done
    {
      hide DispatchTracked, HandedTracked, SerializedTracked, KeyedByDigest, CanonicalForms, FindCommand, Sound,
        CommandSized, Held, InState, Grown;
      var refused: bool, reported: bool, before: bool, after: bool, fault: Fault := *, *, *, *, *;
      if quiet { refused, reported, before, after, fault := false, true, false, false, NoFault; }
      HeldMoved(inbox.db, key, Outboxed, None);
      if Row(inbox.db.commands, key).value.scope == scope {
        ResultState(inbox.db, inbox.limit, inbox.parse, scope, key);
      }
      GrownSame(inbox.db.commands);
      if refused { return Threw; }
      HandKeeps(inbox.db.commands, trace, pendingResult, pendingKey, key, result);
      outbox := outbox + [result];
      trace := trace.(handed := trace.handed + [Handed(key, result)]);
      if !reported { return Threw; }
      if before { return Crashed; }
      ghost var rows := inbox.db.commands;
      var r := inbox.MarkCommandOutboxed(scope, key, fault);
      StateRow(rows, scope, key, ResultReady);
      if inbox.db.commands != rows { GrownMoved(rows, key, Outboxed, None); }
      MoveKeeps(rows, trace, pendingResult, pendingKey, key, Outboxed);
      MoveKeepsKeys(rows, scope, digest, parse, key, Outboxed, None);
      MoveKeepsOthers(rows, key, Outboxed, None);
      if after { return Crashed; }
      if r.Failure? { return Threw; }
      KeptResult(rows, key, Outboxed);
      StateRow(inbox.db.commands, scope, key, Outboxed);
      return Done;
    }

    /** Brings a command to a receipt: a received one begins and is dispatched with what the gate says, an
        interrupted file acquisition under the guard is resumed, any other interrupted one is not repeated. */
    method Attempt(stored: Command, command: Parsed, gate: Receipt, now: int, acted: Option<Receipt>, quiet: bool)
      returns (s: Status, go: bool, receipt: Receipt)
      requires Valid() && stored.scope == scope && StillTrue(Row(inbox.db.commands, stored.key), stored)
      requires stored.state != ResultReady
      requires parse(stored.body) == Some(command)
      modifies this`trace, inbox`db
      ensures Valid() && OthersKept(old(inbox.db.commands), inbox.db.commands, stored.key)
      ensures trace == old(trace).(dispatched := trace.dispatched, resumed := trace.resumed)
      ensures s == Done && go ==>
        Row(inbox.db.commands, stored.key).Some? && Row(inbox.db.commands, stored.key).value.result.None?
      ensures s == Done && !go ==>
        stored.state == Received && !InState(old(inbox.db.commands), scope, stored.key, Received)
      ensures s == Done && go && stored.state == Received ==> stored.key in trace.dispatched
      ensures stored.state != Received ==> trace.dispatched == old(trace.dispatched)
      ensures trace.resumed == old(trace.resumed) || trace.resumed == old(trace.resumed) + [stored.key]
      ensures Grown(old(inbox.db.commands), inbox.db.commands)
      ensures s == Done && Interrupted(stored, command) ==>
        go && receipt == Receipt(command.commandId, Indeterminate, UNPROVEN) && trace == old(trace)
      ensures IdsUnlikeKeys(digest, parse) ==> trace.resumed == old(trace.resumed)
      ensures s == Done || trace.resumed != old(trace.resumed) ==>
        var guard := stored.state == Executing && command.action == AcquireFile && stored.key == command.commandId;
        trace.resumed != old(trace.resumed) <==> guard
      ensures s == Done && go && stored.state == Received ==>
        Some(receipt) == Executed(command, gate, now, false, acted)
      ensures s == Done && stored.state == Executing && !Interrupted(stored, command) ==> Some(receipt) == acted
      ensures Held(inbox.db) == old(Held(inbox.db)) && (quiet && acted.Some? ==> s == Done)
      ensures s == Done && go && old(Row(inbox.db.commands, stored.key)) == Some(stored) ==>
        InState(inbox.db.commands, scope, stored.key, Executing)
    {
      hide DispatchTracked, HandedTracked, SerializedTracked, KeyedByDigest, CanonicalForms, FindCommand, Sound,
        CommandSized, ResumedTracked, InState, Held, Grown;
      StateRow(inbox.db.commands, scope, stored.key, Executing);
      var key := stored.key;
      receipt := Receipt(command.commandId, Indeterminate, UNPROVEN);
      GrownSame(inbox.db.commands);
      var out := Some(receipt);
      if stored.state == Received {
        s, go := Begin(key, quiet);
        if s != Done || !go { return; }
        out := ExecuteCommand(key, command, gate, now, false, acted);
      } else if stored.state == Executing && command.action == AcquireFile && key == command.commandId {
        StoredKey(inbox.db.commands, scope, digest, parse, key);
        out := ExecuteCommand(key, command, Receipt(command.commandId, Succeeded, ""), now, true, acted);
      }
      var crash: bool := *;
      if quiet { crash := false; }
      if crash { return Crashed, true, receipt; }
      if out.None? { return Threw, true, receipt; }
      return Done, true, out.value;
    }

    /** Turns a receipt into the command's one durable result and hands that over. */
    method Conclude(key: string, receipt: Receipt, quiet: bool) returns (s: Status)
      requires Valid() && pendingResult.None? && Row(inbox.db.commands, key).Some?
      requires Row(inbox.db.commands, key).value.result.None?
      modifies this, inbox`db
      ensures Valid() && OthersKept(old(inbox.db.commands), inbox.db.commands, key)
      ensures trace.dispatched == old(trace.dispatched) && trace.resumed == old(trace.resumed)
      ensures SerializedOnce(old(trace), trace)
      ensures old(trace.handed) <= trace.handed && old(outbox) <= outbox
      ensures Grown(old(inbox.db.commands), inbox.db.commands)
      ensures s == Done ==> pendingResult.None? && serialize(receipt).Some?
      ensures s == Done ==> DeliveredAs(Row(inbox.db.commands, key), trace, outbox, key, serialize(receipt).value)
      ensures Held(inbox.db) <= old(Held(inbox.db)) + inbox.eventLimit
      ensures quiet && InState(old(inbox.db.commands), scope, key, Executing) && AlwaysSerializes() ==>
        s == Done || old(Held(inbox.db)) + inbox.eventLimit > inbox.limit
    {
      hide Tracked, KeyedByDigest, CanonicalForms, FindCommand, Sound, CommandSized, ResumedTracked, DeliveredAs, Held,
        InState, Grown;
      ghost var rows := inbox.db.commands;
      GrownSame(rows);
      var result := serialize(receipt);
      if result.None? { return Threw; }
      SerializeKeeps(inbox.db.commands, trace, pendingKey, key, result.value);
      pendingKey, pendingResult := key, result;
      trace := trace.(serialized := trace.serialized[key := result.value]);
      s := Finish(quiet);
      if s != Done { return; }
      ReleaseKeeps(inbox.db.commands, trace, pendingResult, pendingKey);
      pendingResult := None;
      ghost var finished := inbox.db.commands;
      s := HandOver(key, result.value, quiet);
      GrownOn(rows, finished, inbox.db.commands);
    }

    /** One stored command of the durable work list. When it is done, its durable result is in the
        outbox; a command found received was dispatched once; any other was not dispatched. */
    method ProcessOne(stored: Command, quiet: bool) returns (s: Status)
      requires Valid() && pendingResult.None? && stored.scope == scope
      requires StillTrue(Row(inbox.db.commands, stored.key), stored)
      modifies this, inbox`db
      ensures Valid() && OthersKept(old(inbox.db.commands), inbox.db.commands, stored.key)
      ensures s == Done ==> pendingResult.None?
      ensures SerializedOnce(old(trace), trace) && old(trace.handed) <= trace.handed && old(outbox) <= outbox
      ensures Grown(old(inbox.db.commands), inbox.db.commands)
      ensures s == Done && old(Row(inbox.db.commands, stored.key)) == Some(stored) ==>
        Delivered(Row(inbox.db.commands, stored.key), trace, outbox, stored.key)
      ensures s == Done && parse(stored.body).Some? && Interrupted(stored, parse(stored.body).value) ==>
        var result := serialize(Receipt(parse(stored.body).value.commandId, Indeterminate, UNPROVEN));
        result.Some? && DeliveredAs(Row(inbox.db.commands, stored.key), trace, outbox, stored.key, result.value)
      ensures s == Done && old(Row(inbox.db.commands, stored.key)) == Some(stored) && stored.state == Received ==>
        stored.key in trace.dispatched
      ensures stored.state != Received ==> trace.dispatched == old(trace.dispatched)
      ensures IdsUnlikeKeys(digest, parse) ==> trace.resumed == old(trace.resumed)
      ensures s == Done && stored.state == Executing ==>
        var p := parse(stored.body);
        trace.resumed != old(trace.resumed) <==>
          p.Some? && p.value.action == AcquireFile && stored.key == p.value.commandId
      ensures Held(inbox.db) <= old(Held(inbox.db)) + inbox.eventLimit
      ensures quiet && AlwaysSerializes() && AllParse([stored]) ==>
        old(Row(inbox.db.commands, stored.key)) != Some(stored) || s == Done
        || old(Held(inbox.db)) + inbox.eventLimit > inbox.limit
    {
      hide Tracked, KeyedByDigest, CanonicalForms, FindCommand, Sound, CommandSized, ResumedTracked, Held, InState,
        AlwaysSerializes, Grown;
      ghost var rows := inbox.db.commands;
      GrownSame(rows);
      StateRow(inbox.db.commands, scope, stored.key, Received);
      assert [stored][0] == stored;
      if stored.state == ResultReady {
        s := HandOver(stored.key, stored.result.value, quiet);
        return;
      }
      var command := parse(stored.body);
      if command.None? { return Threw; }
      var go, receipt;
      var gate: Receipt, now: int, acted: Option<Receipt> := *, *, *;
      if quiet && acted.None? { acted := Some(gate); }
      s, go, receipt := Attempt(stored, command.value, gate, now, acted, quiet);
      if s != Done || !go { return; }
      ghost var attempted := inbox.db.commands;
      s := Conclude(stored.key, receipt, quiet);
      GrownOn(rows, attempted, inbox.db.commands);
    }

    /** The durable work list: at most 32 unfinished commands of the scope, oldest first. It runs
        only when no serialized result is pending. In quiet conditions, that is, without faults,
        crashes and exceptions, with commands that parse and room for their results, it completes. */
    method ProcessDurableCommands(quiet: bool) returns (s: Status)
      requires Valid() && pendingResult.None?
      modifies this, inbox`db
      ensures Valid() && SerializedOnce(old(trace), trace) && (s == Done ==> pendingResult.None?)
      ensures Grown(old(inbox.db.commands), inbox.db.commands)
      ensures old(trace.handed) <= trace.handed && old(outbox) <= outbox
      ensures IdsUnlikeKeys(digest, parse) ==> trace.resumed == old(trace.resumed)
      ensures s == Done ==>
        forall c :: c in old(WorkList(inbox.db.commands, scope)) ==>
          Finished(Row(inbox.db.commands, c.key), trace, outbox, c.key)
      ensures quiet && 0 < |scope| <= 128 && AlwaysSerializes() && AllParse(old(WorkList(inbox.db.commands, scope))) ==>
        s == Done || old(Held(inbox.db)) + Room(32, inbox.eventLimit) > inbox.limit
    {
      hide Tracked, KeyedByDigest, CanonicalForms, ResumedTracked, FindCommand, Sound, CommandSized, Held,
        AlwaysSerializes, Room, Unfinished, DurableJournal.Valid, OldestUnfinished, Grown, Interrupted, Finished,
        Delivered, DeliveredAs, StillTrue;
      ghost var rows := inbox.db.commands;
      GrownSame(rows);
      var list := inbox.PendingCommands(scope, 32);
      if list.Failure? { return Threw; }
      ListedRows(inbox, list.value);
      RoomLeft(0, inbox.eventLimit);
      for i := 0 to |list.value|
        invariant Valid() && pendingResult.None? && SerializedOnce(old(trace), trace)
        invariant IdsUnlikeKeys(digest, parse) ==> trace.resumed == old(trace.resumed)
        invariant forall j :: i <= j < |list.value| ==> Row(inbox.db.commands, list.value[j].key) == Some(list.value[j])
        invariant Held(inbox.db) <= old(Held(inbox.db)) + Room(i, inbox.eventLimit)
        invariant forall j :: 0 <= j < i ==>
          Finished(Row(inbox.db.commands, list.value[j].key), trace, outbox, list.value[j].key)
        invariant Grown(rows, inbox.db.commands) && old(trace.handed) <= trace.handed && old(outbox) <= outbox
      {
        RoomLeft(i, inbox.eventLimit);
        ghost var before := inbox.db.commands;
        ghost var earlier, box := trace, outbox;
        s := ProcessOne(list.value[i], quiet);
        GrownOn(rows, before, inbox.db.commands);
        if s != Done { return; }
        DeliveredIsFinished(Row(inbox.db.commands, list.value[i].key), trace, outbox, list.value[i].key);
        forall j | 0 <= j < i
          ensures Finished(Row(inbox.db.commands, list.value[j].key), trace, outbox, list.value[j].key)
        {
          StaysFinished(before, inbox.db.commands, earlier, trace, box, outbox, list.value[j].key);
        }
      }
      return Done;
    }

    /** Records polled commands under their keyed digest; a repeated command is recorded once. */
    method ReceiveAll(bodies: seq<string>, quiet: bool) returns (s: Status)
      requires Valid() && BodiesParse(bodies)
      modifies inbox`db
      ensures Valid() && Grown(old(inbox.db.commands), inbox.db.commands)
      ensures s == Done ==>
        forall i :: 0 <= i < |bodies| ==> OnRecord(inbox.db.commands, scope, digest, parse(bodies[i]).value)
      ensures quiet && s != Done ==>
        exists i :: 0 <= i < |bodies| && Unreceivable(inbox.db, inbox.limit, scope, digest, parse(bodies[i]).value)
    {
      hide Tracked, KeyedByDigest, ResumedTracked, FindCommand, Sound, CommandSized, Grown, OnRecord, Held, Holds,
        Unreceivable, DurableJournal.Valid;
      ghost var start := inbox.db.commands;
      GrownSame(start);
      for i := 0 to |bodies|
        invariant Valid() && Grown(start, inbox.db.commands)
        invariant forall j :: 0 <= j < i ==> OnRecord(inbox.db.commands, scope, digest, parse(bodies[j]).value)
      {
        var before: bool, after: bool, fault: Fault := *, *, *;
        if quiet { before, after, fault := false, false, NoFault; }
        if before { return Crashed; }
        var p := parse(bodies[i]).value;
        ghost var rows := inbox.db.commands;
        var key := digest(scope + ":" + p.commandId);
        var r := inbox.ReceiveCommand(scope, key, p.canonical, fault);
        if inbox.db.commands != rows {
          var c := Command(key, scope, p.canonical, Received, None, |p.canonical|);
          AddKeeps(rows, trace, pendingResult, pendingKey, c);
          AddKeepsKeys(rows, scope, digest, parse, p);
          GrownAdded(rows, c);
          GrownOn(start, rows, inbox.db.commands);
          forall j | 0 <= j < i ensures OnRecord(inbox.db.commands, scope, digest, parse(bodies[j]).value) {
            StaysOnRecord(rows, inbox.db.commands, scope, digest, parse(bodies[j]).value);
          }
        }
        if after { return Crashed; }
        if r.Failure? {
          if quiet { RefusedForCause(inbox.db, inbox.limit, scope, digest, p, r.error); }
          return Threw;
        }
        HeldOnRecord(inbox.db.commands, scope, digest, p);
      }
      return Done;
    }

    /** One response cycle, with what the poll brought. A result that is still pending is stored before anything
        else runs, and what was on record before the poll is finished first. */
    method RunResponseCycle(polled: Option<seq<string>>, flushed: bool, quiet: bool) returns (s: Status)
      requires Valid()
      modifies this, inbox`db
      ensures Valid() && SerializedOnce(old(trace), trace) && (s == Done ==> pendingResult.None?)
      ensures Grown(old(inbox.db.commands), inbox.db.commands)
      ensures old(trace.handed) <= trace.handed && old(outbox) <= outbox
      ensures IdsUnlikeKeys(digest, parse) ==> trace.resumed == old(trace.resumed)
      ensures s == Done && old(pendingResult).Some? ==>
        var row := Row(inbox.db.commands, old(pendingKey));
        row.Some? && row.value.result == old(pendingResult)
      ensures s == Done && old(pendingResult).None? ==>
        forall c :: c in old(WorkList(inbox.db.commands, scope)) ==>
          Finished(Row(inbox.db.commands, c.key), trace, outbox, c.key)
      ensures s == Done && polled.Some? && BodiesParse(polled.value) ==>
        forall i :: 0 <= i < |polled.value| ==> OnRecord(inbox.db.commands, scope, digest, parse(polled.value[i]).value)
      ensures !flushed ==> s != Done
      ensures quiet && flushed && polled.None? && old(pendingResult).None? && 0 < |scope| <= 128 ==>
        (AlwaysSerializes() && AllParse(old(WorkList(inbox.db.commands, scope))) ==>
           s == Done || old(Held(inbox.db)) + Room(32, inbox.eventLimit) > inbox.limit)
    {
      hide Tracked, KeyedByDigest, CanonicalForms, ResumedTracked, FindCommand, Sound, CommandSized, Held, InState,
        AlwaysSerializes, AllParse, WorkList, Finished, Grown, OnRecord, DurableJournal.Valid;
      ghost var start := inbox.db.commands;
      GrownSame(start);
      if pendingResult.Some? {
        s := Finish(quiet);
        if s != Done { return; }
        ReleaseKeeps(inbox.db.commands, trace, pendingResult, pendingKey);
        pendingResult := None;
      }
      ghost var stored := inbox.db.commands;
      s := ProcessDurableCommands(quiet);
      GrownOn(start, stored, inbox.db.commands);
      if s != Done { return; }
      if !flushed { return Threw; }
      ghost var first, firstBox, firstTrace := inbox.db.commands, outbox, trace;
      KeepsResult(stored, first, old(pendingKey), old(pendingResult));
      if polled.None? || !BodiesParse(polled.value) { return Done; }
      s := ReceiveAll(polled.value, quiet);
      ghost var received := inbox.db.commands;
      GrownOn(start, first, received);
      if s != Done { return; }
      s := ProcessDurableCommands(quiet);
      GrownOn(start, received, inbox.db.commands);
      GrownOn(first, received, inbox.db.commands);
      KeepsResult(first, inbox.db.commands, old(pendingKey), old(pendingResult));
      forall i | 0 <= i < |polled.value|
        ensures OnRecord(inbox.db.commands, scope, digest, parse(polled.value[i]).value)
      {
        StaysOnRecord(received, inbox.db.commands, scope, digest, parse(polled.value[i]).value);
      }
      if old(pendingResult).None? {
        forall c | c in old(WorkList(inbox.db.commands, scope))
          ensures Finished(Row(inbox.db.commands, c.key), trace, outbox, c.key)
        {
          StaysFinished(first, inbox.db.commands, firstTrace, trace, firstBox, outbox, c.key);
        }
      }
    }

    /** The process starts again: only durable state is left. */
    method Restart()
      requires Valid()
      modifies this
      ensures Valid() && pendingResult.None? && trace == old(trace).(serialized := map[]) && outbox == old(outbox)
    {
      CrashKeeps(inbox.db.commands, trace, pendingResult, pendingKey);
      pendingResult, pendingKey := None, "";
      trace := trace.(serialized := map[]);
    }

    /** Any run: cycles and restarts in any order, with any polled commands, faults and crashes.
        No command is freshly dispatched twice, every dispatched command durably began first,
        all results ever handed to the outbox for one command are the same bytes, and a file
        acquisition is resumed only under a key that is a fixed point of the keyed digest; none is
        when no command id has the length of a key. */
    method AnyRun(steps: nat)
      requires Valid()
      modifies this, inbox`db
      ensures Valid()
      ensures Grown(old(inbox.db.commands), inbox.db.commands) && old(outbox) <= outbox
      ensures NoRepeats(trace.dispatched)
      ensures forall i :: 0 <= i < |trace.dispatched| ==> Began(Row(inbox.db.commands, trace.dispatched[i]))
      ensures forall i, j :: 0 <= i < |trace.handed| && 0 <= j < |trace.handed| ==>
        (trace.handed[i].key == trace.handed[j].key ==> trace.handed[i].result == trace.handed[j].result)
      ensures forall i :: 0 <= i < |trace.resumed| ==> digest(scope + ":" + trace.resumed[i]) == trace.resumed[i]
      ensures IdsUnlikeKeys(digest, parse) ==> trace.resumed == old(trace.resumed)
    {
      hide Grown;
      ghost var start := inbox.db.commands;
      GrownSame(start);
      for i := 0 to steps
        invariant Valid() && (IdsUnlikeKeys(digest, parse) ==> trace.resumed == old(trace.resumed))
        invariant Grown(start, inbox.db.commands) && old(outbox) <= outbox
      {
        var crash: bool, polled: Option<seq<string>>, flushed: bool, quiet: bool := *, *, *, *;
        ghost var before := inbox.db.commands;
        var s := RunResponseCycle(polled, flushed, quiet);
        GrownOn(start, before, inbox.db.commands);
        if crash || s == Crashed { Restart(); }
      }
    }
  }
}
