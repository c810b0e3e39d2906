/** The change-journal cursor text and the binary decoder of native change-journal buffers. */
module UsnDecoder {
  import opened Common
  import D = Decimal

  // ----- Cursor -----

  /** A position in one instance of a volume's change journal. */
  datatype Cursor = Cursor(journalId: nat, nextUsn: int)

  /** The three members of the cursor document; other documents have another shape. */
  datatype CursorText = CursorText(journalId: string, nextUsn: string) | OtherShape

  function EncodeCursor(c: Cursor): Option<CursorText> {
    if c.nextUsn < 0 then None
    else Some(CursorText(D.ToDecimal(c.journalId), D.ToDecimal(c.nextUsn)))
  }

  function DecodeCursor(t: CursorText): Option<Cursor> {
    match t
    case OtherShape => None
    case CursorText(id, usn) =>
      match (D.ParseCanonical(id, U64_MAX), D.ParseCanonical(usn, I64_MAX))
      case (Some(i), Some(u)) => Some(Cursor(i, u))
      case _ => None
  }

  /** The range of the native types. */
  ghost predicate Native(c: Cursor) {
    c.journalId <= U64_MAX && c.nextUsn <= I64_MAX
  }

  /** Decoding inverts encoding on every cursor that can be encoded, and accepts nothing else. */
  lemma CursorRoundTrip(c: Cursor, t: CursorText)
    requires Native(c)
    ensures EncodeCursor(c) == Some(t) <==> DecodeCursor(t) == Some(c)
  {
    if t.CursorText? {
      D.CanonicalText(t.journalId, U64_MAX, c.journalId);
      if c.nextUsn >= 0 { D.CanonicalText(t.nextUsn, I64_MAX, c.nextUsn); }
    }
  }

  // ----- Native buffers -----

  type byte = x: int | 0 <= x < 256

  function U16(b: seq<byte>, o: nat): nat
    requires o + 2 <= |b|
  {
    (b[o] as int) + 0x100 * (b[o + 1] as int)
  }

  function U32(b: seq<byte>, o: nat): nat
    requires o + 4 <= |b|
  {
    U16(b, o) + 0x1_0000 * U16(b, o + 2)
  }

  function I64(b: seq<byte>, o: nat): int
    requires o + 8 <= |b|
  {
    var u := U32(b, o) + 0x1_0000_0000 * U32(b, o + 4);
    if u < 0x8000_0000_0000_0000 then u else u - 0x1_0000_0000_0000_0000
  }

  /** The number some bytes stand for, least significant byte first. */
  ghost function Unsigned(b: seq<byte>): nat {
    if b == [] then 0 else (b[0] as int) + 0x100 * Unsigned(b[1..])
  }

  /** The same in two's complement of eight bytes. */
  ghost function Signed(b: seq<byte>): int {
    if Unsigned(b) < 0x8000_0000_0000_0000 then Unsigned(b) else Unsigned(b) - 0x1_0000_0000_0000_0000
  }

  lemma UnsignedTwo(b: seq<byte>)
    requires |b| >= 2
    ensures Unsigned(b) == (b[0] as int) + 0x100 * (b[1] as int) + 0x1_0000 * Unsigned(b[2..])
  {
    assert b[1..][1..] == b[2..];
  }

  /** The readers read little-endian numbers. */
  lemma U16Reads(b: seq<byte>, o: nat)
    requires o + 2 <= |b|
    ensures U16(b, o) == Unsigned(b[o..o + 2])
  {
    UnsignedTwo(b[o..o + 2]);
  }

  lemma U32Reads(b: seq<byte>, o: nat)
    requires o + 4 <= |b|
    ensures U32(b, o) == Unsigned(b[o..o + 4])
  {
    UnsignedTwo(b[o..o + 4]);
    assert b[o..o + 4][2..] == b[o + 2..o + 4];
    U16Reads(b, o + 2);
  }

  lemma I64Reads(b: seq<byte>, o: nat)
    requires o + 8 <= |b|
    ensures I64(b, o) == Signed(b[o..o + 8]) <= I64_MAX
  {
    var s := b[o..o + 8];
    UnsignedTwo(s);
    UnsignedTwo(s[2..]);
    assert s[2..][2..] == b[o + 4..o + 8];
    U32Reads(b, o + 4);
  }

  datatype Entry =
    | Unsupported(major: nat, minor: nat, length: nat, raw: seq<byte>)
    | Interpreted(major: nat, minor: nat, length: nat, usn: int, fileId: seq<byte>, parentId: seq<byte>, timestamp: int,
                  reasonMask: nat, sourceInfo: nat, securityId: nat, attributes: nat, name: seq<byte>,
                  nameDecodes: bool)

  datatype Refusal =
    | BufferBound | CursorRegressed | ShortField | BadLength | ShortRecord | UsnOutOfInterval | BadNameSpan

  /** Version 3 records carry 128-bit file identities, sixteen bytes more in all. */
  function Extra(major: nat): nat { if major == 3 then 16 else 0 }

  function LastUsn(e: Entry, last: int): int {
    if e.Interpreted? then e.usn else last
  }

  function IdWidth(major: nat): nat { if major == 3 then 16 else 8 }

  /** One record, exactly as the decoder reads it: every check comes before the read it guards. */
  function ReadRecord(b: seq<byte>, offset: nat, last: int, next: int, utf8: seq<byte> -> bool): Result<Entry, Refusal>
    requires offset < |b|
  {
    var remaining := |b| - offset;
    if remaining < 4 then Failure(ShortField)
    else
      var length := U32(b, offset);
      if length < 8 || length % 8 != 0 || length > remaining then Failure(BadLength)
      else ReadBody(b[offset..offset + length], last, next, utf8)
  }

  function ReadBody(r: seq<byte>, last: int, next: int, utf8: seq<byte> -> bool): Result<Entry, Refusal>
    requires |r| >= 8
  {
    var length, major, minor := |r|, U16(r, 4), U16(r, 6);
    if major != 2 && major != 3 then Success(Unsupported(major, minor, length, r))
    else
      var x, width := Extra(major), IdWidth(major);
      if length < 60 + x then Failure(ShortRecord)
      else
        var usn := I64(r, 24 + x);
        if usn < last || usn >= next then Failure(UsnOutOfInterval)
        else
          var nameLength, nameOffset := U16(r, 56 + x), U16(r, 58 + x);
          if nameOffset < 60 + x || nameOffset % 2 != 0 || nameLength % 2 != 0 || nameOffset > length
             || nameLength > length - nameOffset
          then Failure(BadNameSpan)
          else
            var name := r[nameOffset..nameOffset + nameLength];
            Success(Interpreted(major, minor, length, usn, r[8..8 + width], r[8 + width..8 + 2 * width],
              I64(r, 32 + x), U32(r, 40 + x), U32(r, 44 + x), U32(r, 48 + x), U32(r, 52 + x),
              name, nameLength == 0 || utf8(name)))
  }

  // ----- What an accepted buffer is -----

  /** The record bytes carry this name, inside the record and after its fixed part. */
  ghost predicate Named(r: seq<byte>, x: nat, name: seq<byte>)
    requires |r| >= 60 + x
  {
    var start := Unsigned(r[58 + x..60 + x]);
    && 60 + x <= start && start % 2 == 0 && |name| % 2 == 0 && |name| == Unsigned(r[56 + x..58 + x])
    && start + |name| <= |r| && name == r[start..start + |name|]
  }

  /** The record bytes say this entry: its framing, version, identities, masks and name. */
  ghost predicate Says(r: seq<byte>, e: Entry, last: int, next: int, utf8: seq<byte> -> bool)
    requires |r| >= 8
  {
    && e.length == |r| && e.major == Unsigned(r[4..6]) && e.minor == Unsigned(r[6..8])
    && (e.Unsupported? ==> e.major != 2 && e.major != 3 && e.raw == r)
    && (e.Interpreted? ==>
          || (e.major == 2 && |r| >= 60 && Fields(r, 0, 8, e))
          || (e.major == 3 && |r| >= 76 && Fields(r, 16, 16, e)))
    && (e.Interpreted? ==> last <= e.usn < next && (e.nameDecodes <==> e.name == [] || utf8(e.name)))
  }

  ghost predicate Fields(r: seq<byte>, x: nat, width: nat, e: Entry)
    requires |r| >= 60 + x && e.Interpreted? && 8 + 2 * width <= 60 + x
  {
    && e.usn == Signed(r[24 + x..32 + x]) && e.timestamp == Signed(r[32 + x..40 + x])
    && e.reasonMask == Unsigned(r[40 + x..44 + x]) && e.sourceInfo == Unsigned(r[44 + x..48 + x])
    && e.securityId == Unsigned(r[48 + x..52 + x]) && e.attributes == Unsigned(r[52 + x..56 + x])
    && e.fileId == r[8..8 + width] && e.parentId == r[8 + width..8 + 2 * width] && Named(r, x, e.name)
  }

  ghost predicate Describes(b: seq<byte>, offset: nat, e: Entry, last: int, next: int, utf8: seq<byte> -> bool) {
    && 8 <= e.length && e.length % 8 == 0 && offset + e.length <= |b| && Unsigned(b[offset..offset + 4]) == e.length
    && Says(b[offset..offset + e.length], e, last, next, utf8)
  }

  lemma FieldsRead(r: seq<byte>, x: nat)
    requires |r| >= 60 + x
    ensures I64(r, 24 + x) == Signed(r[24 + x..32 + x]) && I64(r, 32 + x) == Signed(r[32 + x..40 + x])
    ensures U32(r, 40 + x) == Unsigned(r[40 + x..44 + x]) && U32(r, 44 + x) == Unsigned(r[44 + x..48 + x])
    ensures U32(r, 48 + x) == Unsigned(r[48 + x..52 + x]) && U32(r, 52 + x) == Unsigned(r[52 + x..56 + x])
    ensures U16(r, 56 + x) == Unsigned(r[56 + x..58 + x]) && U16(r, 58 + x) == Unsigned(r[58 + x..60 + x])
  {
    hide U16, U32, I64, Unsigned, Signed;
    I64Reads(r, 24 + x);
    I64Reads(r, 32 + x);
    U32Reads(r, 40 + x);
    U32Reads(r, 44 + x);
    U32Reads(r, 48 + x);
    U32Reads(r, 52 + x);
    U16Reads(r, 56 + x);
    U16Reads(r, 58 + x);
  }

  lemma BodyIsSaid(r: seq<byte>, last: int, next: int, utf8: seq<byte> -> bool, e: Entry)
    requires |r| >= 8
    ensures ReadBody(r, last, next, utf8) == Success(e) <==> Says(r, e, last, next, utf8)
  {
    hide U16, U32, I64, Unsigned, Signed;
    U16Reads(r, 4);
    U16Reads(r, 6);
    if |r| >= 60 { FieldsRead(r, 0); }
    if |r| >= 76 { FieldsRead(r, 16); }
  }

  /** Reading a record succeeds exactly when the bytes there describe an entry, with that entry. */
  lemma ReadIsDescription(b: seq<byte>, offset: nat, last: int, next: int, utf8: seq<byte> -> bool, e: Entry)
    requires offset < |b|
    ensures ReadRecord(b, offset, last, next, utf8) == Success(e) <==> Describes(b, offset, e, last, next, utf8)
  {
    hide U16, U32, I64, ReadBody, Says, Unsigned;
    if offset + 4 <= |b| {
      U32Reads(b, offset);
      var length := U32(b, offset);
      if 8 <= length <= |b| - offset {
        BodyIsSaid(b[offset..offset + length], last, next, utf8, e);
        SaysLength(b[offset..offset + length], last, next, utf8, e);
      }
    }
  }

  lemma SaysLength(r: seq<byte>, last: int, next: int, utf8: seq<byte> -> bool, e: Entry)
    requires |r| >= 8
    ensures Says(r, e, last, next, utf8) ==> e.length == |r|
  {
  }

  /** The entries tile the bytes from `offset` to the end, in order, with USNs that never fall
      below `last` and stay below `next`. */
  ghost predicate Tiles(b: seq<byte>, offset: nat, last: int, next: int, utf8: seq<byte> -> bool, entries: seq<Entry>)
    decreases |entries|
  {
    if entries == [] then offset == |b|
    else offset < |b| && Describes(b, offset, entries[0], last, next, utf8)
         && Tiles(b, offset + entries[0].length, LastUsn(entries[0], last), next, utf8, entries[1..])
  }

  lemma TilesStep(b: seq<byte>, offset: nat, last: int, next: int, utf8: seq<byte> -> bool, e: Entry, rest: seq<Entry>)
    ensures Tiles(b, offset, last, next, utf8, [e] + rest) <==>
      && offset < |b| && Describes(b, offset, e, last, next, utf8)
      && Tiles(b, offset + e.length, LastUsn(e, last), next, utf8, rest)
  {
    assert ([e] + rest)[1..] == rest;
  }

  /** Only one sequence of entries tiles a buffer from an offset. */
  lemma {:induction false} TilesUnique(b: seq<byte>, offset: nat, last: int, next: int, utf8: seq<byte> -> bool,
                                       p: seq<Entry>, q: seq<Entry>)
    requires Tiles(b, offset, last, next, utf8, p) && Tiles(b, offset, last, next, utf8, q)
    ensures p == q
    decreases |p|
  {
    hide Describes;
    if p != [] && q != [] {
      ReadIsDescription(b, offset, last, next, utf8, p[0]);
      ReadIsDescription(b, offset, last, next, utf8, q[0]);
      TilesUnique(b, offset + p[0].length, LastUsn(p[0], last), next, utf8, p[1..], q[1..]);
      assert p == [p[0]] + p[1..] && q == [q[0]] + q[1..];
    } else {
      TilesEnd(b, offset, last, next, utf8, p);
      TilesEnd(b, offset, last, next, utf8, q);
    }
  }

  lemma TilesEnd(b: seq<byte>, offset: nat, last: int, next: int, utf8: seq<byte> -> bool, p: seq<Entry>)
    requires Tiles(b, offset, last, next, utf8, p)
    ensures p == [] <==> offset == |b|
  {
  }

  ghost function Lengths(entries: seq<Entry>): nat {
    if entries == [] then 0 else entries[0].length + Lengths(entries[1..])
  }

  /** A tiling accounts for every byte. */
  lemma {:induction false} TilesCover(b: seq<byte>, offset: nat, last: int, next: int, utf8: seq<byte> -> bool,
                                      entries: seq<Entry>)
    requires Tiles(b, offset, last, next, utf8, entries)
    ensures offset + Lengths(entries) == |b|
    decreases |entries|
  {
    if entries != [] {
      TilesCover(b, offset + entries[0].length, LastUsn(entries[0], last), next, utf8, entries[1..]);
    }
  }

  /** Entry `k` sits where the lengths before it end, and says what the bytes there say. */
  lemma {:induction false} TilesAt(b: seq<byte>, offset: nat, last: int, next: int, utf8: seq<byte> -> bool,
                                   entries: seq<Entry>, k: nat)
    requires Tiles(b, offset, last, next, utf8, entries) && k < |entries|
    ensures var at := offset + Lengths(entries[..k]);
      && at + entries[k].length <= |b| && entries[k].length >= 8
      && (entries[k].Unsupported? ==> entries[k].raw == b[at..at + entries[k].length])
      && (entries[k].Interpreted? ==> last <= entries[k].usn < next)
    decreases |entries|
  {
    hide Describes;
    DescribedFits(b, offset, entries[0], last, next, utf8);
    assert entries[..0] == [];
    if k > 0 {
      TilesAt(b, offset + entries[0].length, LastUsn(entries[0], last), next, utf8, entries[1..], k - 1);
      assert entries[..k][1..] == entries[1..][..k - 1];
    }
  }

  /** Interpreted USNs never decrease. */
  lemma {:induction false} TilesOrdered(b: seq<byte>, offset: nat, last: int, next: int, utf8: seq<byte> -> bool,
                                        entries: seq<Entry>, i: nat, j: nat)
    requires Tiles(b, offset, last, next, utf8, entries) && i < j < |entries| && entries[i].Interpreted?
    requires entries[j].Interpreted?
    ensures entries[i].usn <= entries[j].usn
    decreases |entries|
  {
    hide Describes;
    if i > 0 {
      TilesOrdered(b, offset + entries[0].length, LastUsn(entries[0], last), next, utf8, entries[1..], i - 1, j - 1);
    } else {
      TilesAt(b, offset + entries[0].length, LastUsn(entries[0], last), next, utf8, entries[1..], j - 1);
    }
  }

  datatype Batch = Batch(start: int, next: int, entries: seq<Entry>, uninterpreted: nat)

  ghost function CountUnsupported(entries: seq<Entry>): nat {
    if entries == [] then 0 else (if entries[0].Unsupported? then 1 else 0) + CountUnsupported(entries[1..])
  }

  ghost predicate Decodes(b: seq<byte>, start: int, utf8: seq<byte> -> bool, entries: seq<Entry>) {
    && 0 <= start && 8 <= |b| <= 16384 && Signed(b[..8]) >= start
    && Tiles(b, 8, start, Signed(b[..8]), utf8, entries)
  }

  /** The batch is the decoding of the buffer. */
  ghost predicate IsDecoding(b: seq<byte>, start: int, utf8: seq<byte> -> bool, batch: Batch) {
    && Decodes(b, start, utf8, batch.entries) && batch.start == start && batch.next == Signed(b[..8])
    && batch.uninterpreted == CountUnsupported(batch.entries)
  }

  lemma DecodingUnique(b: seq<byte>, start: int, utf8: seq<byte> -> bool, p: Batch, q: Batch)
    requires IsDecoding(b, start, utf8, p) && IsDecoding(b, start, utf8, q)
    ensures p == q
  {
    TilesUnique(b, 8, start, Signed(b[..8]), utf8, p.entries, q.entries);
  }

  /** The decoder: it terminates on every buffer, accepts exactly the buffers some sequence of
      entries tiles, and returns that sequence. */
  method DecodeUsnBuffer(b: seq<byte>, start: int, utf8: seq<byte> -> bool) returns (r: Result<Batch, Refusal>)
    ensures r.Success? ==> IsDecoding(b, start, utf8, r.value)
    ensures r.Failure? ==> forall entries :: !Decodes(b, start, utf8, entries)
  {
    hide Describes, ReadRecord, I64, Tiles, Signed;
    if start < 0 || |b| < 8 || |b| > 16384 { return Failure(BufferBound); }
    var next := I64(b, 0);
    I64Reads(b, 0);
    assert b[0..8] == b[..8];
    if next < start { return Failure(CursorRegressed); }
    var entries: seq<Entry>, last, unknown, offset := [], start, 0, 8;
    assert forall rest: seq<Entry> :: entries + rest == rest;
    while offset < |b|
      invariant 8 <= offset <= |b| && unknown == CountUnsupported(entries)
      invariant forall rest ::
        Tiles(b, 8, start, next, utf8, entries + rest) <==> Tiles(b, offset, last, next, utf8, rest)
      invariant forall all :: Tiles(b, 8, start, next, utf8, all) ==> entries <= all
    {
      var e := ReadRecord(b, offset, last, next, utf8);
      NextRecord(b, start, next, utf8, entries, offset, last, e);
      if e.Failure? { return Failure(e.error); }
      offset := offset + e.value.length;
      last := LastUsn(e.value, last);
      if e.value.Unsupported? { unknown := unknown + 1; }
      CountAppend(entries, e.value);
      entries := entries + [e.value];
    }
    NothingLeft(b, offset, last, next, utf8);
    assert entries + [] == entries;
    return Success(Batch(start, next, entries, unknown));
  }

  lemma {:induction false} CountAppend(entries: seq<Entry>, e: Entry)
    ensures CountUnsupported(entries + [e]) == CountUnsupported(entries) + if e.Unsupported? then 1 else 0
  {
    if entries != [] {
      CountAppend(entries[1..], e);
      assert (entries + [e])[1..] == entries[1..] + [e];
    }
  }

  lemma NothingLeft(b: seq<byte>, offset: nat, last: int, next: int, utf8: seq<byte> -> bool)
    requires offset == |b|
    ensures Tiles(b, offset, last, next, utf8, [])
  {
  }

  /** One decoded record extends what every tiling of the buffer must start with; a refused one
      means there is no tiling. */
  lemma NextRecord(b: seq<byte>, start: int, next: int, utf8: seq<byte> -> bool, entries: seq<Entry>, offset: nat,
                   last: int, e: Result<Entry, Refusal>)
    requires 8 <= offset < |b| && e == ReadRecord(b, offset, last, next, utf8)
    requires forall rest :: Tiles(b, 8, start, next, utf8, entries + rest) <==> Tiles(b, offset, last, next, utf8, rest)
    requires forall all :: Tiles(b, 8, start, next, utf8, all) ==> entries <= all
    ensures e.Failure? ==> forall all :: !Tiles(b, 8, start, next, utf8, all)
    ensures e.Success? ==> offset + e.value.length <= |b| && e.value.length > 0
    ensures e.Success? ==> forall rest ::
      Tiles(b, 8, start, next, utf8, entries + [e.value] + rest) <==>
        Tiles(b, offset + e.value.length, LastUsn(e.value, last), next, utf8, rest)
    ensures e.Success? ==> forall all :: Tiles(b, 8, start, next, utf8, all) ==> entries + [e.value] <= all
  {
    hide Describes, ReadRecord, Tiles;
    if e.Success? {
      ReadIsDescription(b, offset, last, next, utf8, e.value);
      DescribedFits(b, offset, e.value, last, next, utf8);
      forall rest ensures Tiles(b, 8, start, next, utf8, entries + [e.value] + rest) <==>
        Tiles(b, offset + e.value.length, LastUsn(e.value, last), next, utf8, rest)
      {
        assert entries + [e.value] + rest == entries + ([e.value] + rest);
        TilesStep(b, offset, last, next, utf8, e.value, rest);
      }
    }
    forall all | Tiles(b, 8, start, next, utf8, all) ensures e.Success? && entries + [e.value] <= all {
      var rest := all[|entries|..];
      assert all == entries + rest;
      TilesEnd(b, offset, last, next, utf8, rest);
      assert rest == [rest[0]] + rest[1..];
      TilesStep(b, offset, last, next, utf8, rest[0], rest[1..]);
      ReadIsDescription(b, offset, last, next, utf8, rest[0]);
    }
  }

  lemma DescribedFits(b: seq<byte>, offset: nat, e: Entry, last: int, next: int, utf8: seq<byte> -> bool)
    requires Describes(b, offset, e, last, next, utf8)
    ensures offset + e.length <= |b| && e.length >= 8
    ensures e.Unsupported? ==> e.raw == b[offset..offset + e.length]
    ensures e.Interpreted? ==> last <= e.usn < next
  {
  }
}
