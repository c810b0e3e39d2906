/** Volume discovery: a durable log of volume-set transitions with explicit blind intervals. */
module VolumeDiscovery {
  import opened Common
  import opened SourceLog
  import D = Decimal

  // ----- Ordered text -----

  predicate Less(a: string, b: string) {
    if b == [] then false
    else if a == [] then true
    else if a[0] != b[0] then a[0] < b[0]
    else Less(a[1..], b[1..])
  }

  /** Where two texts part, if the first comes before the second. */
  ghost predicate PartsAt(a: string, b: string, k: nat) {
    k <= |a| && k < |b| && (forall i :: 0 <= i < k ==> a[i] == b[i]) && (k == |a| || a[k] < b[k])
  }

  /** The order is that of the first difference, and a proper prefix comes first. */
  lemma {:induction false} LessMeans(a: string, b: string)
    ensures Less(a, b) <==> exists k: nat :: PartsAt(a, b, k)
  {
    if a == [] || b == [] || a[0] != b[0] {
      if Less(a, b) { assert PartsAt(a, b, 0); }
    } else {
      LessMeans(a[1..], b[1..]);
      forall k: nat | PartsAt(a[1..], b[1..], k) ensures PartsAt(a, b, k + 1) {
        forall i | 0 <= i < k + 1 ensures a[i] == b[i] {
          if i > 0 { assert a[1..][i - 1] == b[1..][i - 1]; }
        }
      }
      forall k: nat | PartsAt(a, b, k) ensures k > 0 && PartsAt(a[1..], b[1..], k - 1) {}
    }
  }

  lemma {:induction false} LessTrichotomy(a: string, b: string)
    ensures a == b <==> !Less(a, b) && !Less(b, a)
    ensures !(Less(a, b) && Less(b, a))
  {
    if a != [] && b != [] && a[0] == b[0] {
      LessTrichotomy(a[1..], b[1..]);
      assert a == [a[0]] + a[1..] && b == [b[0]] + b[1..];
    }
  }

  lemma {:induction false} LessTransitive(a: string, b: string, c: string)
    requires Less(a, b) && Less(b, c)
    ensures Less(a, c)
  {
    if a != [] && a[0] == b[0] && b[0] == c[0] { LessTransitive(a[1..], b[1..], c[1..]); }
  }

  ghost predicate StrictlyOrdered(s: seq<string>) {
    forall i: nat :: i + 1 < |s| ==> Less(s[i], s[i + 1])
  }

  lemma {:induction false} OrderedPairs(s: seq<string>, i: nat, j: nat)
    requires StrictlyOrdered(s) && i < j < |s|
    ensures Less(s[i], s[j])
  {
    if i + 1 < j {
      OrderedPairs(s, i, j - 1);
      assert Less(s[j - 1], s[(j - 1) + 1]);
      LessTransitive(s[i], s[j - 1], s[j]);
    } else {
      assert Less(s[i], s[i + 1]);
    }
  }

  /** The merge of two ordered ranges that keeps what is only in the first. */
  function SetDifference(a: seq<string>, b: seq<string>): seq<string>
    decreases |a| + |b|
  {
    if a == [] then []
    else if b == [] then a
    else if Less(a[0], b[0]) then [a[0]] + SetDifference(a[1..], b)
    else if Less(b[0], a[0]) then SetDifference(a, b[1..])
    else SetDifference(a[1..], b[1..])
  }

  ghost function Members(s: seq<string>): set<string> {
    set x | x in s
  }

  lemma TailOrdered(s: seq<string>)
    requires StrictlyOrdered(s) && s != []
    ensures StrictlyOrdered(s[1..]) && Members(s) == {s[0]} + Members(s[1..])
    ensures forall x :: x in s[1..] ==> Less(s[0], x)
  {
    var t := s[1..];
    assert s == [s[0]] + t;
    forall i: nat | i + 1 < |t| ensures Less(t[i], t[i + 1]) { assert Less(s[i + 1], s[(i + 1) + 1]); }
    forall x | x in t ensures Less(s[0], x) {
      var k :| 0 <= k < |t| && t[k] == x;
      OrderedPairs(s, 0, k + 1);
    }
  }

  /** Everything in an ordered range is at least its first element. */
  lemma BelowHeadAbsent(x: string, s: seq<string>)
    requires StrictlyOrdered(s) && s != [] && Less(x, s[0])
    ensures x !in s
  {
    TailOrdered(s);
    LessTrichotomy(x, s[0]);
  }

  lemma {:induction false} DifferenceIsDifference(a: seq<string>, b: seq<string>)
    requires StrictlyOrdered(a) && StrictlyOrdered(b)
    ensures Members(SetDifference(a, b)) == Members(a) - Members(b)
    decreases |a| + |b|
  {
    hide StrictlyOrdered, Less;
    if a != [] && b != [] {
      TailOrdered(a);
      TailOrdered(b);
      LessTrichotomy(a[0], b[0]);
      if Less(a[0], b[0]) {
        BelowHeadAbsent(a[0], b);
        DifferenceIsDifference(a[1..], b);
        assert Members([a[0]] + SetDifference(a[1..], b)) == {a[0]} + Members(SetDifference(a[1..], b));
      } else if Less(b[0], a[0]) {
        BelowHeadAbsent(b[0], a);
        DifferenceIsDifference(a, b[1..]);
      } else {
        DifferenceIsDifference(a[1..], b[1..]);
        LessTrichotomy(a[0], a[0]);
        LessTrichotomy(b[0], b[0]);
      }
    }
  }

  // ----- Volume names -----

  predicate IsHex(c: char) {
    '0' <= c <= '9' || 'a' <= c <= 'f' || 'A' <= c <= 'F'
  }

  function Lower(c: char): char {
    if 'A' <= c <= 'F' then (c as int - 'A' as int + 'a' as int) as char else c
  }

  predicate VolumeCharOk(s: string, i: nat)
    requires i < |s|
  {
    if i == 19 || i == 24 || i == 29 || i == 34 then s[i] == '-' else IsHex(s[i])
  }

  /** A native volume GUID path, with its digits in lower case. */
  function VolumeName(s: string): Option<string> {
    if |s| != 49 || s[..11] != "\\\\?\\Volume{" || s[47..] != "}\\"
       || !(forall i: nat :: 11 <= i < 47 ==> VolumeCharOk(s, i))
    then None
    else Some(s[..11] + seq(36, i requires 0 <= i < 36 => Lower(s[11 + i])) + s[47..])
  }

  ghost predicate HexRun(s: string, from: nat, to: nat)
    requires to <= |s|
  {
    forall i :: from <= i < to ==> s[i] in "0123456789abcdefABCDEF"
  }

  /** A volume GUID path: 32 hexadecimal digits in groups of 8, 4, 4, 4 and 12. */
  ghost predicate IsVolumePath(s: string) {
    && |s| == 49 && s[..11] == "\\\\?\\Volume{" && s[47..] == "}\\"
    && HexRun(s, 11, 19) && s[19] == '-' && HexRun(s, 20, 24) && s[24] == '-' && HexRun(s, 25, 29) && s[29] == '-'
    && HexRun(s, 30, 34) && s[34] == '-' && HexRun(s, 35, 47)
  }

  lemma HexDigit(c: char)
    ensures IsHex(c) <==> c in "0123456789abcdefABCDEF"
  {
    var digits := "0123456789abcdefABCDEF";
    assert forall i :: 0 <= i < 10 ==> digits[i] == ('0' as int + i) as char;
    assert forall i :: 10 <= i < 16 ==> digits[i] == ('a' as int + i - 10) as char;
    assert forall i :: 16 <= i < 22 ==> digits[i] == ('A' as int + i - 16) as char;
    if '0' <= c <= '9' { assert digits[c as int - '0' as int] == c; }
    if 'a' <= c <= 'f' { assert digits[10 + c as int - 'a' as int] == c; }
    if 'A' <= c <= 'F' { assert digits[16 + c as int - 'A' as int] == c; }
  }

  /** A character stands where a volume path has its digits and dashes. */
  lemma PathCharacters(s: string)
    requires |s| == 49
    ensures (forall i: nat :: 11 <= i < 47 ==> VolumeCharOk(s, i)) <==>
      && HexRun(s, 11, 19) && s[19] == '-' && HexRun(s, 20, 24) && s[24] == '-' && HexRun(s, 25, 29) && s[29] == '-'
      && HexRun(s, 30, 34) && s[34] == '-' && HexRun(s, 35, 47)
  {
    hide IsHex;
    forall i: nat | i < 49 ensures IsHex(s[i]) <==> s[i] in "0123456789abcdefABCDEF" { HexDigit(s[i]); }
    if forall i: nat :: 11 <= i < 47 ==> VolumeCharOk(s, i) {
      assert VolumeCharOk(s, 19) && VolumeCharOk(s, 24) && VolumeCharOk(s, 29) && VolumeCharOk(s, 34);
      forall i: nat | 11 <= i < 47 && i != 19 && i != 24 && i != 29 && i != 34 ensures IsHex(s[i]) {
        assert VolumeCharOk(s, i);
      }
    }
  }

  /** The normalizer accepts exactly the volume paths, and changes upper-case digits to lower case, nothing else. */
  lemma VolumeNameIs(s: string)
    ensures VolumeName(s).Some? <==> IsVolumePath(s)
    ensures VolumeName(s).Some? ==> |VolumeName(s).value| == 49 && forall i :: 0 <= i < 49 ==>
      VolumeName(s).value[i] == if 11 <= i < 47 && 'A' <= s[i] <= 'F' then (s[i] as int + 32) as char else s[i]
  {
    hide HexRun, VolumeCharOk;
    if |s| == 49 { PathCharacters(s); }
    if VolumeName(s).Some? {
      var middle := seq(36, i requires 0 <= i < 36 => Lower(s[11 + i]));
      assert VolumeName(s).value == s[..11] + middle + s[47..];
    }
  }

  /** Normalizing is idempotent: a normalized name is accepted unchanged. */
  lemma VolumeNameIdempotent(s: string)
    requires VolumeName(s).Some?
    ensures VolumeName(VolumeName(s).value) == VolumeName(s)
  {
    var t := VolumeName(s).value;
    var middle := seq(36, i requires 0 <= i < 36 => Lower(s[11 + i]));
    assert t == s[..11] + middle + s[47..];
    assert t[..11] == s[..11] && t[47..] == s[47..];
    forall i: nat | 11 <= i < 47 ensures t[i] == Lower(s[i]) && VolumeCharOk(t, i) && Lower(t[i]) == t[i] {
      assert t[i] == middle[i - 11];
      assert VolumeCharOk(s, i);
    }
    assert seq(36, i requires 0 <= i < 36 => Lower(t[11 + i])) == middle;
  }

  // ----- The durable checkpoint -----

  const MAX_VOLUMES: nat := 16

  datatype Checkpoint = Checkpoint(sequence: nat, initialized: bool, blind: bool, volumes: seq<string>,
                                   blindStart: string)

  const Fresh := Checkpoint(0, false, false, [], "")

  /** The members of the checkpoint document; an empty marker is written as null. */
  datatype Document = Document(sequence: string, initialized: bool, blind: bool, volumes: seq<string>,
                               blindStart: Option<string>)

  function Encode(c: Checkpoint): Document {
    var blindStart := if c.blindStart == "" then None else Some(c.blindStart);
    Document(D.ToDecimal(c.sequence), c.initialized, c.blind, c.volumes, blindStart)
  }

  /** The decoder's volume loop: each name is normalized and must exceed the one before it. */
  function DecodeVolumes(names: seq<string>): Option<seq<string>> {
    if names == [] then Some([]) else
      var rest := DecodeVolumes(names[..|names| - 1]);
      var name := VolumeName(names[|names| - 1]);
      if rest.None? || name.None? then None
      else if rest.value != [] && !Less(rest.value[|rest.value| - 1], name.value) then None
      else Some(rest.value + [name.value])
  }

  function Decode(d: Document): Option<Checkpoint> {
    if |d.volumes| > MAX_VOLUMES then None
    else match (D.ParseCanonical(d.sequence, U64_MAX), DecodeVolumes(d.volumes))
      case (Some(n), Some(volumes)) =>
        if d.blindStart.Some? && |d.blindStart.value| > 256 then None
        else
          var marker := if d.blindStart.Some? then d.blindStart.value else "";
          if !d.blind && marker != "" then None
          else Some(Checkpoint(n, d.initialized, d.blind, volumes, marker))
      case _ => None
  }

  /** Names the decoder leaves alone, in strictly increasing order. */
  ghost predicate CanonicalVolumes(volumes: seq<string>) {
    StrictlyOrdered(volumes) && forall i :: 0 <= i < |volumes| ==> VolumeName(volumes[i]) == Some(volumes[i])
  }

  ghost predicate Storable(c: Checkpoint) {
    && c.sequence <= U64_MAX && |c.volumes| <= 16 && CanonicalVolumes(c.volumes)
    && |c.blindStart| <= 256 && (!c.blind ==> c.blindStart == "")
  }

  lemma CanonicalInit(names: seq<string>, last: string)
    ensures CanonicalVolumes(names + [last]) <==>
      CanonicalVolumes(names) && VolumeName(last) == Some(last) && (names != [] ==> Less(names[|names| - 1], last))
  {
    hide VolumeName, Less;
    var all := names + [last];
    if CanonicalVolumes(all) {
      forall i: nat | i + 1 < |names| ensures Less(names[i], names[i + 1]) { assert Less(all[i], all[i + 1]); }
      forall i | 0 <= i < |names| ensures VolumeName(names[i]) == Some(names[i]) {
        assert VolumeName(all[i]) == Some(all[i]);
      }
      assert VolumeName(all[|names|]) == Some(all[|names|]);
      if names != [] { assert Less(all[|names| - 1], all[(|names| - 1) + 1]); }
    } else if
      CanonicalVolumes(names) && VolumeName(last) == Some(last) && (names != [] ==> Less(names[|names| - 1], last))
    {
      forall i: nat | i + 1 < |all| ensures Less(all[i], all[i + 1]) {
        if i + 1 < |names| { assert Less(names[i], names[i + 1]); }
      }
    }
  }

  lemma {:induction false} DecodeVolumesExact(names: seq<string>)
    ensures DecodeVolumes(names) == Some(names) <==> CanonicalVolumes(names)
    ensures DecodeVolumes(names).Some? ==> |DecodeVolumes(names).value| == |names|
  {
    hide VolumeName, Less, CanonicalVolumes;
    if names == [] {
      NoVolumes();
    } else {
      var rest, last := names[..|names| - 1], names[|names| - 1];
      DecodeVolumesExact(rest);
      CanonicalInit(rest, last);
      assert names == rest + [last];
      var decoded := DecodeVolumes(rest);
      if DecodeVolumes(names).Some? {
        var name := VolumeName(last).value;
        assert DecodeVolumes(names).value == decoded.value + [name];
        if decoded.value + [name] == rest + [last] {
          assert (decoded.value + [name])[..|rest|] == decoded.value && (rest + [last])[..|rest|] == rest;
          assert (decoded.value + [name])[|rest|] == name && (rest + [last])[|rest|] == last;
        }
      }
    }
  }

  lemma NoVolumes()
    ensures CanonicalVolumes([])
  {
  }

  /** A checkpoint survives being written and read back exactly when its volumes are normalized and
      strictly ordered, it is within the bounds, and only a blind checkpoint carries a marker. An
      enumeration that repeats a volume therefore writes a checkpoint that cannot be read. */
  lemma CheckpointRoundTrip(c: Checkpoint)
    ensures Decode(Encode(c)) == Some(c) <==> Storable(c)
    ensures Encode(c).blindStart.None? <==> c.blindStart == ""
  {
    hide DecodeVolumes, CanonicalVolumes, D.ToDecimal, D.ParseCanonical;
    DecodeVolumesExact(c.volumes);
    D.CanonicalText(D.ToDecimal(c.sequence), U64_MAX, c.sequence);
    var parsed := D.ParseCanonical(D.ToDecimal(c.sequence), U64_MAX);
    if parsed.Some? { D.CanonicalText(D.ToDecimal(c.sequence), U64_MAX, parsed.value); }
  }

  // ----- Transitions -----

  datatype Transition = BlindStarted | Recovered | Initial | Changed

  datatype Record = Record(id: string, transition: Transition, sequence: nat, previous: seq<string>,
                           current: Option<seq<string>>,
                           added: seq<string>, removed: seq<string>, unknownStart: Option<string>)

  datatype Scan = Scan(volumes: seq<string>, complete: bool, boundExceeded: bool) {
    predicate Failed() {
      !complete || boundExceeded
    }
  }

  type Log = seq<Entry<Record, Checkpoint>>

  /** The transition a scan causes, if any. */
  function TransitionOf(previous: Checkpoint, scan: Scan): Option<Transition> {
    if scan.Failed() then (if previous.blind then None else Some(BlindStarted))
    else if previous.blind then Some(Recovered)
    else if !previous.initialized then Some(Initial)
    else if scan.volumes != previous.volumes then Some(Changed)
    else None
  }

  /** The kind of transition, told from the checkpoint before and the scan. */
  ghost predicate KindFits(previous: Checkpoint, scan: Scan, t: Transition) {
    var complete := scan.complete && !scan.boundExceeded;
    match t
    case BlindStarted => !complete && !previous.blind
    case Recovered => complete && previous.blind
    case Initial => complete && !previous.blind && !previous.initialized
    case Changed => complete && !previous.blind && previous.initialized && scan.volumes != previous.volumes
  }

  /** The checkpoint says what the scan said: these volumes, or that the volumes are unknown. */
  ghost predicate CaughtUp(c: Checkpoint, scan: Scan) {
    if scan.complete && !scan.boundExceeded then c.initialized && !c.blind && c.volumes == scan.volumes else c.blind
  }

  /** There is a transition exactly when the checkpoint has not caught up; it is of the fitting kind, and the
      checkpoint after it has caught up. */
  lemma TransitionCatchesUp(previous: Checkpoint, scan: Scan, id: string)
    ensures var t := TransitionOf(previous, scan);
      && (t == None <==> CaughtUp(previous, scan))
      && (t.Some? ==> KindFits(previous, scan, t.value))
      && (t.Some? ==> CaughtUp(NextEntry(previous, scan, t.value, id).cursor, scan))
      && (t.Some? ==> NextEntry(previous, scan, t.value, id).record.transition == t.value)
  {
  }

  function NextEntry(previous: Checkpoint, scan: Scan, t: Transition, id: string): Entry<Record, Checkpoint> {
    var added := match t
      case BlindStarted => []
      case Initial => scan.volumes
      case _ => SetDifference(scan.volumes, previous.volumes);
    var removed := if t == Recovered || t == Changed then SetDifference(previous.volumes, scan.volumes) else [];
    var marker := if previous.blindStart == "" then None else Some(previous.blindStart);
    var current := if scan.Failed() then None else Some(scan.volumes);
    var record := Record(id, t, previous.sequence + 1, previous.volumes, current, added, removed, marker);
    var next := match t
      case BlindStarted =>
        previous.(blind := true, blindStart := if previous.blindStart == "" then id else previous.blindStart)
      case Changed => previous.(volumes := scan.volumes)
      case _ => previous.(initialized := true, blind := false, volumes := scan.volumes, blindStart := "");
    Entry(record, next.(sequence := previous.sequence + 1))
  }

  /** A native enumeration without repeated volumes, within the admission bound. */
  ghost predicate Enumerated(scan: Scan) {
    CanonicalVolumes(scan.volumes) && |scan.volumes| <= 16
  }

  // ----- What the log means -----

  ghost function Before(log: Log, i: nat): Checkpoint
    requires i <= |log|
  {
    if i == 0 then Fresh else log[i - 1].cursor
  }

  /** A blind checkpoint names the record its interval started with; no volume set is known before
      the first complete enumeration. */
  ghost predicate Reached(c: Checkpoint) {
    Storable(c) && (c.blind ==> c.blindStart != "") && (!c.initialized ==> c.volumes == [])
  }

  /** Each record accounts for the step from the checkpoint before it to its own. */
  ghost predicate Accounts(previous: Checkpoint, e: Entry<Record, Checkpoint>) {
    && Reached(e.cursor) && e.record.sequence == e.cursor.sequence == previous.sequence + 1
    && e.record.previous == previous.volumes
    && Members(e.record.added) == Members(e.cursor.volumes) - Members(previous.volumes)
    && Members(e.record.removed) == Members(previous.volumes) - Members(e.cursor.volumes)
    && (e.record.transition == BlindStarted ==>
          !previous.blind && e.cursor.blind && e.cursor.blindStart == e.record.id)
    && (e.record.transition == BlindStarted ==> e.cursor.volumes == previous.volumes && e.record.current == None)
    && e.cursor.initialized == (previous.initialized || e.record.transition != BlindStarted)
    && (e.record.transition == Recovered ==> previous.blind && e.record.unknownStart == Some(previous.blindStart))
    && (e.record.transition != BlindStarted ==> !e.cursor.blind && e.record.current == Some(e.cursor.volumes))
    && (e.record.transition != Recovered ==> !previous.blind && e.record.unknownStart == None)
  }

  ghost predicate AccountsAt(log: Log, i: nat)
    requires i < |log|
  {
    Accounts(Before(log, i), log[i])
  }

  ghost predicate Coherent(log: Log) {
    forall i: nat :: i < |log| ==> AccountsAt(log, i)
  }

  lemma CoherentExtends(log: Log, e: Entry<Record, Checkpoint>)
    requires Coherent(log) && Accounts(Before(log, |log|), e)
    ensures Coherent(log + [e])
  {
    var more := log + [e];
    forall i: nat | i < |more| ensures AccountsAt(more, i) {
      if i < |log| { assert AccountsAt(log, i); }
    }
  }


  /** What the publisher writes accounts for the transition it reports. */
  lemma PublishedAccounts(previous: Checkpoint, scan: Scan, id: string)
    requires Reached(previous) && previous.sequence < U64_MAX && (scan.Failed() || Enumerated(scan))
    requires 0 < |id| <= 256 && TransitionOf(previous, scan).Some?
    ensures Accounts(previous, NextEntry(previous, scan, TransitionOf(previous, scan).value, id))
  {
    hide CanonicalVolumes;
    OrderedWhenCanonical(previous.volumes);
    if !scan.Failed() {
      OrderedWhenCanonical(scan.volumes);
      DifferenceIsDifference(scan.volumes, previous.volumes);
      DifferenceIsDifference(previous.volumes, scan.volumes);
    }
  }

  lemma OrderedWhenCanonical(volumes: seq<string>)
    requires CanonicalVolumes(volumes)
    ensures StrictlyOrdered(volumes)
  {
  }

  /** Replaying the added and removed sets of the first `n` records. */
  ghost function Replay(log: Log, n: nat): set<string>
    requires n <= |log|
  {
    if n == 0 then {} else Replay(log, n - 1) - Members(log[n - 1].record.removed) + Members(log[n - 1].record.added)
  }

  /** Replaying the records reconstructs the checkpointed volume set at every point of the log. */
  lemma {:induction false} ReplayReconstructs(log: Log, n: nat)
    requires Coherent(log) && n <= |log|
    ensures Replay(log, n) == Members(Before(log, n).volumes)
  {
    if n > 0 {
      ReplayReconstructs(log, n - 1);
      assert AccountsAt(log, n - 1);
    }
  }

  lemma ReplayAtEnd(log: Log)
    ensures Coherent(log) ==> Replay(log, |log|) == Members(Before(log, |log|).volumes)
  {
    if Coherent(log) { ReplayReconstructs(log, |log|); }
  }

  /** That set is the one of the last complete enumeration: blind intervals do not change it. */
  lemma {:induction false} VolumesAreLastComplete(log: Log, n: nat)
    requires Coherent(log) && n < |log| && log[n].record.transition == BlindStarted && n > 0
    ensures log[n].cursor.volumes == log[n - 1].cursor.volumes
    ensures log[n - 1].record.current == Some(log[n].cursor.volumes)
  {
    assert AccountsAt(log, n);
    assert AccountsAt(log, n - 1);
  }

  /** Blind starts and recoveries strictly alternate: a recovery directly follows the start it
      names, and nothing but a recovery can follow a start. */
  lemma BlindIntervalsPair(log: Log, n: nat)
    requires Coherent(log) && n < |log|
    ensures log[n].record.transition == Recovered ==>
      n > 0 && log[n - 1].record.transition == BlindStarted && log[n].record.unknownStart == Some(log[n - 1].record.id)
    ensures n > 0 && log[n - 1].record.transition == BlindStarted ==> log[n].record.transition == Recovered
  {
    assert AccountsAt(log, n);
    if n > 0 { assert AccountsAt(log, n - 1); }
  }

  lemma {:induction false} SequencesCount(log: Log, n: nat)
    requires Coherent(log) && n <= |log|
    ensures Before(log, n).sequence == n && Reached(Before(log, n))
  {
    if n > 0 {
      SequencesCount(log, n - 1);
      assert AccountsAt(log, n - 1);
    }
  }

  // ----- The publisher -----

  /** What a native enumeration yields: normalized names within the bound, possibly repeated. */
  ghost predicate Plausible(scan: Scan) {
    || scan.Failed()
    || (&& |scan.volumes| <= 16
        && forall i :: 0 <= i < |scan.volumes| ==> VolumeName(scan.volumes[i]) == Some(scan.volumes[i]))
  }

  /** The last checkpoint cannot be read back. */
  ghost predicate Poisoned(log: Log) {
    log != [] && Decode(Encode(log[|log| - 1].cursor)) == None
  }

  lemma {:induction false} RepeatsUnreadable(names: seq<string>)
    requires forall i :: 0 <= i < |names| ==> VolumeName(names[i]) == Some(names[i])
    ensures DecodeVolumes(names) == None || DecodeVolumes(names) == Some(names)
  {
    if names != [] {
      RepeatsUnreadable(names[..|names| - 1]);
      assert names == names[..|names| - 1] + [names[|names| - 1]];
    }
  }

  /** Publishing an enumeration that repeats a volume leaves a checkpoint nothing can read. */
  lemma RepeatPoisons(log: Log, scan: Scan, id: string)
    requires Coherent(log) && Plausible(scan) && !scan.Failed() && !StrictlyOrdered(scan.volumes)
    requires TransitionOf(Before(log, |log|), scan).Some?
    ensures Poisoned(log + [NextEntry(Before(log, |log|), scan, TransitionOf(Before(log, |log|), scan).value, id)])
  {
    hide DecodeVolumes, StrictlyOrdered;
    RepeatsUnreadable(scan.volumes);
    DecodeVolumesExact(scan.volumes);
  }

  class Publisher {
    var log: Log

    ghost predicate Valid()
      reads this
    {
      Coherent(log) || Poisoned(log)
    }

    constructor ()
      ensures Valid() && log == []
    {
      log := [];
    }

    /** Records what a scan changed, retrying the one immutable record. The log stays coherent unless
        a repeated volume is published, after which nothing is ever published again. When it
        reports success the log has caught up with the scan; in quiet conditions, that is, without
        faults, it does. */
    method Publish(scan: Scan, id: string, attempts: nat, quiet: bool) returns (durable: bool)
      requires Valid() && Plausible(scan) && 0 < |id| <= 256
      modifies this
      ensures Valid() && old(log) <= log && |log| <= |old(log)| + 1
      ensures log != old(log) ==>
        var previous := Before(old(log), |old(log)|);
        var t := TransitionOf(previous, scan);
        t.Some? && log == old(log) + [NextEntry(previous, scan, t.value, id)]
      ensures Coherent(old(log)) && (scan.Failed() || StrictlyOrdered(scan.volumes)) ==> Coherent(log)
      ensures Poisoned(old(log)) ==> log == old(log) && !durable
      ensures log != old(log) ==> KindFits(Before(old(log), |old(log)|), scan, log[|log| - 1].record.transition)
      ensures CaughtUp(Before(old(log), |old(log)|), scan) ==> log == old(log)
      ensures durable ==> CaughtUp(Before(log, |log|), scan)
      ensures durable && Coherent(log) && scan.complete && !scan.boundExceeded ==>
        Replay(log, |log|) == Members(scan.volumes)
      ensures quiet && attempts > 0 && Coherent(old(log)) && |old(log)| < U64_MAX ==> durable
      ensures log != old(log) && !scan.Failed() && !StrictlyOrdered(scan.volumes) ==> Poisoned(log)
    {
      hide Coherent, StrictlyOrdered, Encode, Decode, VolumeName, Accounts, NextEntry, Replay, TransitionOf;
      ReadBack(log);
      TransitionCatchesUp(Before(log, |log|), scan, id);
      ReplayAtEnd(log);
      var previous := if log == [] then Some(Fresh) else Decode(Encode(log[|log| - 1].cursor));
      if previous.None? { return false; }
      var t := TransitionOf(previous.value, scan);
      if t.None? { return true; }
      if previous.value.sequence == U64_MAX || |log| == U64_MAX { return false; }
      var e, expected := NextEntry(previous.value, scan, t.value, id), |log|;
      EntryFacts(log, scan, id);
      ReplayAtEnd(log + [e]);
      for i := 0 to attempts
        invariant (log == old(log) || log == old(log) + [e]) && (quiet ==> i == 0)
      {
        var refused: bool, reported: bool := *, *;
        if quiet { refused, reported := false, true; }
        if !refused && |log| == expected { log := log + [e]; }
        if !refused && reported { return true; }
      }
      return false;
    }
  }

  /** A coherent log reads back, so its checkpoint is what the publisher works from. */
  lemma ReadBack(log: Log)
    requires Coherent(log) || Poisoned(log)
    ensures log != [] && Decode(Encode(log[|log| - 1].cursor)).Some? ==>
      !Poisoned(log) && Decode(Encode(log[|log| - 1].cursor)) == Some(log[|log| - 1].cursor)
    ensures Coherent(log) ==> !Poisoned(log) && Before(log, |log|).sequence == |log|
  {
    if Coherent(log) {
      SequencesCount(log, |log|);
      if log != [] { CheckpointRoundTrip(log[|log| - 1].cursor); }
    }
  }

  /** The entry a scan leads to, and what appending it makes of the log. */
  lemma EntryFacts(log: Log, scan: Scan, id: string)
    requires Coherent(log) || Poisoned(log)
    requires !Poisoned(log) && Plausible(scan) && 0 < |id| <= 256 && Before(log, |log|).sequence != U64_MAX
    requires TransitionOf(Before(log, |log|), scan).Some?
    ensures var e := NextEntry(Before(log, |log|), scan, TransitionOf(Before(log, |log|), scan).value, id);
      && TransitionOf(e.cursor, scan) == None
      && (scan.Failed() || StrictlyOrdered(scan.volumes) ==> Coherent(log + [e]))
      && (!scan.Failed() && !StrictlyOrdered(scan.volumes) ==> Poisoned(log + [e]))
  {
    hide StrictlyOrdered, VolumeName;
    SequencesCount(log, |log|);
    if scan.Failed() || StrictlyOrdered(scan.volumes) {
      PublishedAccounts(Before(log, |log|), scan, id);
      CoherentExtends(log, NextEntry(Before(log, |log|), scan, TransitionOf(Before(log, |log|), scan).value, id));
    } else {
      RepeatPoisons(log, scan, id);
    }
  }
}
