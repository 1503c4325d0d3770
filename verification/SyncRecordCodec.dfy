/** The durable sync record as bytes. Trusted state, cursors and protected objects are
    opaque byte strings at this layer. */
module SyncRecordCodec {
  import opened Bytes
  import opened CausalGraph
  import opened CodecIo
  import opened CodecPrimitives
  import opened CoreTypes

  datatype ByteEntry = ByteEntry(publicationId: Id, expected: Option<seq<Byte>>, objects: seq<seq<Byte>>)

  datatype ByteRecord = ByteRecord(trusted: seq<Byte>, cursor: Option<seq<Byte>>, outbox: map<Id, ByteEntry>)

  function RecordMagic(): seq<Byte> { Ascii("APCSREC1") }

  // ---------------------------------------------------------------- records that exist

  predicate CursorOk(c: Option<seq<Byte>>) {
    c.Some? ==> c.value != []
  }

  predicate ObjectsOk(objects: seq<seq<Byte>>) {
    objects != [] && forall i :: 0 <= i < |objects| ==> objects[i] != []
  }

  predicate EntryOk(id: Id, e: ByteEntry) {
    e.publicationId == id && CursorOk(e.expected) && ObjectsOk(e.objects)
  }

  /** What the record's constructors and transitions guarantee. */
  ghost predicate RecordOk(r: ByteRecord) {
    CursorOk(r.cursor) && forall id :: id in r.outbox ==> EntryOk(id, r.outbox[id])
  }

  datatype Transition =
    | PrepareOutbox(exposed: seq<Byte>, id: Id, expected: Option<seq<Byte>>, objects: seq<seq<Byte>>)
    | ApplyReceived(merged: seq<Byte>, newCursor: seq<Byte>)
    | RetireOutbox(retired: Id, reconciled: seq<Byte>, headCursor: seq<Byte>)

  /** A transition of the record; None when it is refused. Cursors are made non-empty. */
  function After(r: ByteRecord, t: Transition): Option<ByteRecord> {
    match t
    case PrepareOutbox(exposed, id, expected, objects) =>
      var entry := ByteEntry(id, expected, objects);
      if !ObjectsOk(objects) || !CursorOk(expected) || (id in r.outbox && r.outbox[id] != entry) then None
      else Some(ByteRecord(exposed, r.cursor, r.outbox[id := entry]))
    case ApplyReceived(merged, cursor) => if cursor == [] then None else Some(ByteRecord(merged, Some(cursor), r.outbox))
    case RetireOutbox(id, reconciled, cursor) =>
      if cursor == [] || id !in r.outbox then None else Some(ByteRecord(reconciled, Some(cursor), r.outbox - {id}))
  }

  function AfterAll(r: ByteRecord, ts: seq<Transition>): ByteRecord
    decreases |ts|
  {
    if ts == [] then r
    else match After(r, ts[0])
         case None => AfterAll(r, ts[1..])
         case Some(next) => AfterAll(next, ts[1..])
  }

  // ---------------------------------------------------------------- encoding

  function CursorBytes(c: Option<seq<Byte>>): seq<Byte> {
    match c
    case None => ToBE(0, 1)
    case Some(b) => ToBE(1, 1) + BlobBytes(b)
  }

  function ObjectListBytes(objects: seq<seq<Byte>>): seq<Byte> {
    if objects == [] then [] else BlobBytes(objects[0]) + ObjectListBytes(objects[1..])
  }

  function EntryBytes(e: ByteEntry): seq<Byte> {
    IdBytes(e.publicationId) + (CursorBytes(e.expected) + (LengthBytes(|e.objects|) + ObjectListBytes(e.objects)))
  }

  ghost function EntryListBytes(m: map<Id, ByteEntry>, order: seq<Id>): seq<Byte>
    requires forall k :: k in order ==> k in m
  {
    if order == [] then [] else EntryBytes(m[order[0]]) + EntryListBytes(m, order[1..])
  }

  ghost function OutboxBytes(m: map<Id, ByteEntry>): seq<Byte> {
    LengthBytes(|m|) + EntryListBytes(m, Ascending(m.Keys))
  }

  ghost function RecordBytes(r: ByteRecord): seq<Byte> {
    HeaderBytes(RecordMagic()) + (BlobBytes(r.trusted) + (CursorBytes(r.cursor) + OutboxBytes(r.outbox)))
  }

  // ---------------------------------------------------------------- decoding

  function ReadCursor(s: seq<Byte>): Reading<Option<seq<Byte>>> {
    var flag :- ReadNat(s, 1);
    if flag.value == 0 then Ok(Parsed(None, flag.rest))
    else if flag.value != 1 then Err(InvalidBoolean)
    else
      var b :- ReadBlob(flag.rest);
      if b.value == [] then Err(EmptyTransportCursor) else Ok(Parsed(Some(b.value), b.rest))
  }

  function ReadObjects(s: seq<Byte>, count: nat, sofar: seq<seq<Byte>>): Reading<seq<seq<Byte>>>
    decreases count
  {
    if count == 0 then Ok(Parsed(sofar, s)) else
    var b :- ReadBlob(s);
    if b.value == [] then Err(EmptyOutboxObject) else ReadObjects(b.rest, count - 1, sofar + [b.value])
  }

  function ReadEntry(s: seq<Byte>): Reading<ByteEntry> {
    var id :- ReadId(s);
    var expected :- ReadCursor(id.rest);
    var n :- ReadLength(expected.rest);
    if n.value == 0 then Err(EmptyOutbox) else
    var objects :- ReadObjects(n.rest, n.value, []);
    Ok(Parsed(ByteEntry(id.value, expected.value, objects.value), objects.rest))
  }

  function ReadEntries(s: seq<Byte>, count: nat, sofar: map<Id, ByteEntry>): Reading<map<Id, ByteEntry>>
    decreases count
  {
    if count == 0 then Ok(Parsed(sofar, s)) else
    var e :- ReadEntry(s);
    if e.value.publicationId in sofar then Err(DuplicatePublication)
    else ReadEntries(e.rest, count - 1, sofar[e.value.publicationId := e.value])
  }

  function ReadOutbox(s: seq<Byte>): Reading<map<Id, ByteEntry>> {
    var n :- ReadLength(s);
    ReadEntries(n.rest, n.value, map[])
  }

  function DecodedRecord(s: seq<Byte>): Result<ByteRecord, CodecError> {
    if |s| < |RecordMagic()| + 2 then Err(UnexpectedEof) else
    var h :- ReadHeader(s, RecordMagic());
    var trusted :- ReadBlob(h.rest);
    var cursor :- ReadCursor(trusted.rest);
    var outbox :- ReadOutbox(cursor.rest);
    if outbox.rest == [] then Ok(ByteRecord(trusted.value, cursor.value, outbox.value)) else Err(TrailingBytes)
  }

  // ---------------------------------------------------------------- round trip

  predicate CursorFits(c: Option<seq<Byte>>) {
    c.Some? ==> LengthFits(|c.value|)
  }

  ghost predicate EntryFits(e: ByteEntry) {
    && IdFits(e.publicationId) && CursorFits(e.expected) && LengthFits(|e.objects|)
    && forall i :: 0 <= i < |e.objects| ==> LengthFits(|e.objects[i]|)
  }

  ghost predicate RecordFits(r: ByteRecord) {
    && LengthFits(|r.trusted|) && CursorFits(r.cursor) && LengthFits(|r.outbox|)
    && forall id :: id in r.outbox ==> EntryFits(r.outbox[id])
  }

  lemma CursorRoundTrip(c: Option<seq<Byte>>, tail: seq<Byte>)
    requires CursorOk(c) && CursorFits(c)
    ensures ReadCursor(CursorBytes(c) + tail) == Ok(Parsed(c, tail))
  {
    hide ReadNat, ReadBlob, BlobBytes;
    assert Pow256(1) == 256;
    match c {
      case None => NatRoundTrip(0, 1, tail);
      case Some(b) =>
        Regroup(ToBE(1, 1), BlobBytes(b), tail);
        NatRoundTrip(1, 1, BlobBytes(b) + tail);
        BlobRoundTrip(b, tail);
    }
  }

  lemma {:induction false} ObjectsRoundTrip(objects: seq<seq<Byte>>, sofar: seq<seq<Byte>>, tail: seq<Byte>)
    requires forall i :: 0 <= i < |objects| ==> objects[i] != [] && LengthFits(|objects[i]|)
    ensures ReadObjects(ObjectListBytes(objects) + tail, |objects|, sofar) == Ok(Parsed(sofar + objects, tail))
    decreases |objects|
  {
    hide ReadBlob, BlobBytes;
    if objects == [] {
      assert ObjectListBytes(objects) + tail == tail && sofar + objects == sofar;
    } else {
      Regroup(BlobBytes(objects[0]), ObjectListBytes(objects[1..]), tail);
      BlobRoundTrip(objects[0], ObjectListBytes(objects[1..]) + tail);
      ObjectsRoundTrip(objects[1..], sofar + [objects[0]], tail);
      assert sofar + [objects[0]] + objects[1..] == sofar + objects;
    }
  }

  lemma EntryRoundTrip(e: ByteEntry, tail: seq<Byte>)
    requires EntryOk(e.publicationId, e) && EntryFits(e)
    ensures ReadEntry(EntryBytes(e) + tail) == Ok(Parsed(e, tail))
  {
    hide ReadId, IdBytes, ReadCursor, CursorBytes, ReadLength, LengthBytes, ReadObjects, ObjectListBytes;
    var b, c, d := CursorBytes(e.expected), LengthBytes(|e.objects|), ObjectListBytes(e.objects);
    Regroup(IdBytes(e.publicationId), b + (c + d), tail);
    Regroup(b, c + d, tail);
    Regroup(c, d, tail);
    IdRoundTrip(e.publicationId, b + (c + (d + tail)));
    CursorRoundTrip(e.expected, c + (d + tail));
    LengthRoundTrip(|e.objects|, d + tail);
    ObjectsRoundTrip(e.objects, [], tail);
    assert [] + e.objects == e.objects;
  }

  lemma {:induction false} EntriesRoundTrip(m: map<Id, ByteEntry>, order: seq<Id>, sofar: map<Id, ByteEntry>, tail: seq<Byte>)
    requires forall k :: k in m ==> EntryOk(k, m[k]) && EntryFits(m[k])
    requires Distinct(order) && forall k :: k in order ==> k in m && k !in sofar
    ensures ReadEntries(EntryListBytes(m, order) + tail, |order|, sofar) == Ok(Parsed(sofar + Chosen(m, order), tail))
    decreases |order|
  {
    hide ReadEntry, EntryBytes, EntryFits, Chosen, ObjectsOk, CursorOk;
    if order == [] {
      assert EntryListBytes(m, order) + tail == tail;
      assert sofar + Chosen(m, order) == sofar;
    } else {
      var e := m[order[0]];
      Regroup(EntryBytes(e), EntryListBytes(m, order[1..]), tail);
      EntryRoundTrip(e, EntryListBytes(m, order[1..]) + tail);
      EntriesRoundTrip(m, order[1..], sofar[order[0] := e], tail);
      ChosenStep(m, order, sofar);
    }
  }

  lemma OutboxRoundTrip(m: map<Id, ByteEntry>)
    requires LengthFits(|m|) && forall k :: k in m ==> EntryOk(k, m[k]) && EntryFits(m[k])
    ensures ReadOutbox(OutboxBytes(m)) == Ok(Parsed(m, []))
  {
    hide ReadLength, LengthBytes, EntryListBytes, ReadEntries, Chosen, EntryFits, EntryOk;
    var order := Ascending(m.Keys);
    assert |m| == |m.Keys|;
    AscendingDistinct(m.Keys);
    LengthRoundTrip(|m|, EntryListBytes(m, order));
    assert EntryListBytes(m, order) + [] == EntryListBytes(m, order);
    EntriesRoundTrip(m, order, map[], []);
    ChosenAll(m, order);
  }

  /** Every record within the widths comes back from its bytes. */
  lemma RecordRoundTrip(r: ByteRecord)
    requires RecordOk(r) && RecordFits(r)
    ensures DecodedRecord(RecordBytes(r)) == Ok(r)
  {
    hide HeaderBytes, ReadHeader, ReadBlob, BlobBytes, ReadCursor;
    hide CursorBytes, ReadOutbox, OutboxBytes, EntryFits, EntryOk;
    var a, b, c := BlobBytes(r.trusted), CursorBytes(r.cursor), OutboxBytes(r.outbox);
    assert |HeaderBytes(RecordMagic())| == 10 by { HeaderLength(); }
    HeaderRoundTrip(RecordMagic(), a + (b + c));
    BlobRoundTrip(r.trusted, b + c);
    CursorRoundTrip(r.cursor, c);
    OutboxRoundTrip(r.outbox);
  }

  lemma HeaderLength()
    ensures |HeaderBytes(RecordMagic())| == 10
  {
  }

  lemma {:induction false} TransitionsKeepRecords(r: ByteRecord, ts: seq<Transition>)
    requires RecordOk(r)
    ensures RecordOk(AfterAll(r, ts))
    decreases |ts|
  {
    if ts != [] {
      match After(r, ts[0]) {
        case None => TransitionsKeepRecords(r, ts[1..]);
        case Some(next) => TransitionsKeepRecords(next, ts[1..]);
      }
    }
  }

  /** A publication stays pending, unchanged, until it is retired. */
  lemma {:induction false} PendingUntilRetired(r: ByteRecord, ts: seq<Transition>, id: Id)
    requires id in r.outbox && forall t :: t in ts && t.RetireOutbox? ==> t.retired != id
    ensures id in AfterAll(r, ts).outbox && AfterAll(r, ts).outbox[id] == r.outbox[id]
    decreases |ts|
  {
    if ts != [] {
      assert ts[0] in ts && forall t :: t in ts[1..] ==> t in ts;
      match After(r, ts[0]) {
        case None => PendingUntilRetired(r, ts[1..], id);
        case Some(next) => PendingUntilRetired(next, ts[1..], id);
      }
    }
  }

  /** What is pending was staged by a transition of the run, or was pending before. */
  lemma {:induction false} PendingWasStaged(r: ByteRecord, ts: seq<Transition>, id: Id)
    requires id in AfterAll(r, ts).outbox
    ensures (id in r.outbox && AfterAll(r, ts).outbox[id] == r.outbox[id]) ||
            exists t :: t in ts && t.PrepareOutbox? && t.id == id && AfterAll(r, ts).outbox[id] == ByteEntry(id, t.expected, t.objects)
    decreases |ts|
  {
    if ts != [] {
      assert ts[0] in ts && forall t :: t in ts[1..] ==> t in ts;
      match After(r, ts[0]) {
        case None => PendingWasStaged(r, ts[1..], id);
        case Some(next) => PendingWasStaged(next, ts[1..], id);
      }
    }
  }

  /** Retiring undoes staging; only applying and retiring move the cursor, never without the
      trusted state that belongs to it. */
  lemma TransitionRefusedExactly(r: ByteRecord, t: Transition)
    ensures After(r, t).None? <==>
              match t
              case PrepareOutbox(_, id, expected, objects) =>
                objects == [] || [] in objects || expected == Some([]) || (id in r.outbox && r.outbox[id] != ByteEntry(id, expected, objects))
              case ApplyReceived(_, cursor) => cursor == []
              case RetireOutbox(id, _, cursor) => cursor == [] || id !in r.outbox
  {
  }

  lemma TransitionsMeet(r: ByteRecord, t: Transition, u: ByteRecord)
    requires After(r, t) == Some(u)
    ensures t.PrepareOutbox? ==> u.cursor == r.cursor && u.trusted == t.exposed && t.id in u.outbox
    ensures t.PrepareOutbox? && t.id !in r.outbox ==> u.outbox - {t.id} == r.outbox
    ensures t.ApplyReceived? ==> u.outbox == r.outbox && u.cursor == Some(t.newCursor) && u.trusted == t.merged
    ensures t.RetireOutbox? ==> t.retired in r.outbox && t.retired !in u.outbox && u.cursor == Some(t.headCursor) && u.trusted == t.reconciled
    ensures t.RetireOutbox? ==> forall k :: k in r.outbox && k != t.retired ==> k in u.outbox && u.outbox[k] == r.outbox[k]
  {
  }

  /** A record reached by any transitions from a fresh one survives a restart unchanged. */
  lemma ReachableRecordRoundTrip(trusted: seq<Byte>, cursor: Option<seq<Byte>>, ts: seq<Transition>)
    requires CursorOk(cursor) && RecordFits(AfterAll(ByteRecord(trusted, cursor, map[]), ts))
    ensures var r := AfterAll(ByteRecord(trusted, cursor, map[]), ts);
            DecodedRecord(RecordBytes(r)) == Ok(r)
  {
    hide RecordFits, RecordBytes, DecodedRecord;
    TransitionsKeepRecords(ByteRecord(trusted, cursor, map[]), ts);
    RecordRoundTrip(AfterAll(ByteRecord(trusted, cursor, map[]), ts));
  }

  // ---------------------------------------------------------------- the code

  method WriteCursor(out: seq<Byte>, c: Option<seq<Byte>>) returns (next: seq<Byte>)
    requires CursorFits(c)
    ensures next == out + CursorBytes(c)
  {
    match c {
      case None => next := out + ToBE(0, 1);
      case Some(b) =>
        next := out + ToBE(1, 1);
        next := WriteBlob(next, b);
    }
  }

  method WriteEntry(out: seq<Byte>, e: ByteEntry) returns (next: seq<Byte>)
    requires EntryFits(e)
    ensures next == out + EntryBytes(e)
  {
    hide IdBytes, CursorBytes, LengthBytes, BlobBytes;
    next := out + IdBytes(e.publicationId);
    next := WriteCursor(next, e.expected);
    next := next + LengthBytes(|e.objects|);
    ghost var front := next;
    for i := 0 to |e.objects|
      invariant next + ObjectListBytes(e.objects[i..]) == front + ObjectListBytes(e.objects)
    {
      Regroup(next, BlobBytes(e.objects[i]), ObjectListBytes(e.objects[i + 1..]));
      assert e.objects[i..][1..] == e.objects[i + 1..];
      next := WriteBlob(next, e.objects[i]);
    }
    assert next + [] == next;
  }

  method EncodeDurableSyncRecord(r: ByteRecord) returns (out: seq<Byte>)
    requires RecordFits(r)
    ensures out == RecordBytes(r)
  {
    hide HeaderBytes, BlobBytes, CursorBytes, LengthBytes, EntryBytes, EntryFits;
    out := HeaderBytes(RecordMagic());
    out := WriteBlob(out, r.trusted);
    out := WriteCursor(out, r.cursor);
    ghost var front := out;
    out := out + LengthBytes(|r.outbox|);
    var todo := r.outbox.Keys;
    while todo != {}
      invariant todo <= r.outbox.Keys
      invariant out + EntryListBytes(r.outbox, Ascending(todo)) == front + OutboxBytes(r.outbox)
    {
      var id := Least(todo);
      AscendingStep(todo, id);
      todo := todo - {id};
      Regroup(out, EntryBytes(r.outbox[id]), EntryListBytes(r.outbox, Ascending(todo)));
      out := WriteEntry(out, r.outbox[id]);
    }
    assert out + [] == out;
  }

  method ReadOptionalCursor(reader: Reader) returns (r: Result<Option<seq<Byte>>, CodecError>)
    requires reader.Valid()
    modifies reader
    ensures reader.Valid() && Did(ReadCursor(old(reader.Rest())), r, reader.Rest())
  {
    hide ReadNat, ReadBlob;
    var flag := reader.ReadNumber(1);
    if flag.Err? { return Err(flag.error); }
    if flag.value == 0 { return Ok(None); }
    if flag.value != 1 { return Err(InvalidBoolean); }
    var b := reader.ReadBytes();
    if b.Err? { return Err(b.error); }
    if b.value == [] { return Err(EmptyTransportCursor); }
    r := Ok(Some(b.value));
  }

  method ReadOutboxEntry(reader: Reader) returns (r: Result<ByteEntry, CodecError>)
    requires reader.Valid()
    modifies reader
    ensures reader.Valid() && Did(ReadEntry(old(reader.Rest())), r, reader.Rest())
  {
    hide ReadNat, ReadCursor, ReadBlob;
    var id := reader.ReadNumber(ID_BYTES);
    if id.Err? { return Err(id.error); }
    var expected := ReadOptionalCursor(reader);
    if expected.Err? { return Err(expected.error); }
    var length := reader.ReadNumber(8);
    if length.Err? { return Err(length.error); }
    if length.value == 0 { return Err(EmptyOutbox); }
    var count, i := length.value, 0;
    var objects: seq<seq<Byte>> := [];
    ghost var start := reader.Rest();
    while i < count
      invariant reader.Valid() && 0 <= i <= count
      invariant ReadObjects(reader.Rest(), count - i, objects) == ReadObjects(start, count, [])
    {
      var sealed := reader.ReadBytes();
      if sealed.Err? { return Err(sealed.error); }
      if sealed.value == [] { return Err(EmptyOutboxObject); }
      objects := objects + [sealed.value];
      i := i + 1;
    }
    r := Ok(ByteEntry(id.value, expected.value, objects));
  }

  method ReadOutboxEntries(reader: Reader) returns (r: Result<map<Id, ByteEntry>, CodecError>)
    requires reader.Valid()
    modifies reader
    ensures reader.Valid() && Did(ReadOutbox(old(reader.Rest())), r, reader.Rest())
  {
    hide ReadNat, ReadEntry;
    var length := reader.ReadNumber(8);
    if length.Err? { return Err(length.error); }
    var count, i := length.value, 0;
    var outbox: map<Id, ByteEntry> := map[];
    ghost var start := reader.Rest();
    while i < count
      invariant reader.Valid() && 0 <= i <= count
      invariant ReadEntries(reader.Rest(), count - i, outbox) == ReadEntries(start, count, map[])
    {
      var e := ReadOutboxEntry(reader);
      if e.Err? { return Err(e.error); }
      if e.value.publicationId in outbox { return Err(DuplicatePublication); }
      outbox := outbox[e.value.publicationId := e.value];
      i := i + 1;
    }
    r := Ok(outbox);
  }

  method DecodeDurableSyncRecord(encoded: seq<Byte>) returns (r: Result<ByteRecord, CodecError>)
    ensures r == DecodedRecord(encoded)
    ensures |encoded| < 10 ==> r == Err(UnexpectedEof)
  {
    hide ReadHeader, ReadBlob, ReadCursor, ReadOutbox;
    if |encoded| < |RecordMagic()| + 2 { return Err(UnexpectedEof); }
    var reader := new Reader(encoded);
    var header := reader.ReadHeaderOf(RecordMagic());
    if header.Err? { return Err(header.error); }
    var trusted := reader.ReadBytes();
    if trusted.Err? { return Err(trusted.error); }
    var cursor := ReadOptionalCursor(reader);
    if cursor.Err? { return Err(cursor.error); }
    var outbox := ReadOutboxEntries(reader);
    if outbox.Err? { return Err(outbox.error); }
    var done := reader.IsFinished();
    r := if done then Ok(ByteRecord(trusted.value, cursor.value, outbox.value)) else Err(TrailingBytes);
  }
}
