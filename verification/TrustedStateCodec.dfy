/** The trusted-state encodings: one scalar domain's snapshot, and the container that nests
    several of them. */
module TrustedStateCodec {
  import opened Bytes
  import opened CausalGraph
  import opened CodecIo
  import opened CodecPrimitives
  import opened CoreTypes
  import opened DomainKeyOrder
  import opened DomainMachine
  import LocalDomain
  import opened ProjectionCodec
  import opened RangeAssembly

  type Snapshot = LocalScalarSnapshot<Content>

  type Container = map<DomainKey, Snapshot>

  function SnapshotMagic(): seq<Byte> { Ascii("APCLREC1") }

  function ContainerMagic(): seq<Byte> { Ascii("APCLSET1") }

  // ---------------------------------------------------------------- the pending epoch

  ghost function PendingBytes(p: Option<WorkingEpoch<Content>>): seq<Byte> {
    match p
    case None => ToBE(0, 1)
    case Some(e) => ToBE(1, 1) + StatementBytes(e.id, e.value, e.observedFrontier)
  }

  function ReadPending(s: seq<Byte>): Reading<Option<WorkingEpoch<Content>>> {
    var flag :- ReadNat(s, 1);
    if flag.value == 0 then Ok(Parsed(None, flag.rest))
    else if flag.value != 1 then Err(InvalidBoolean)
    else
      var v :- ReadStatement(flag.rest);
      Ok(Parsed(Some(WorkingEpoch(v.value.id, v.value.value, v.value.parents)), v.rest))
  }

  ghost predicate PendingFits(p: Option<WorkingEpoch<Content>>) {
    p.Some? ==> StatementFits(Revision(p.value.id, p.value.value, p.value.observedFrontier))
  }

  lemma PendingRoundTrip(p: Option<WorkingEpoch<Content>>, tail: seq<Byte>)
    requires PendingFits(p)
    ensures ReadPending(PendingBytes(p) + tail) == Ok(Parsed(p, tail))
  {
    hide ReadNat, ReadStatement, StatementBytes;
    assert Pow256(1) == 256;
    match p {
      case None => NatRoundTrip(0, 1, tail);
      case Some(e) =>
        var b := StatementBytes(e.id, e.value, e.observedFrontier);
        Regroup(ToBE(1, 1), b, tail);
        NatRoundTrip(1, 1, b + tail);
        StatementRoundTrip(Revision(e.id, e.value, e.observedFrontier), tail);
    }
  }

  // ---------------------------------------------------------------- finalized statements

  function ReadFinalized(s: seq<Byte>, count: nat, sofar: map<Id, Revision<Content>>): Reading<map<Id, Revision<Content>>>
    decreases count
  {
    if count == 0 then Ok(Parsed(sofar, s)) else
    var v :- ReadStatement(s);
    if v.value.id in sofar then Err(DuplicateFinalizedStatement)
    else ReadFinalized(v.rest, count - 1, sofar[v.value.id := v.value])
  }

  function ReadFinalizedMap(s: seq<Byte>): Reading<map<Id, Revision<Content>>> {
    var n :- ReadLength(s);
    ReadFinalized(n.rest, n.value, map[])
  }

  lemma {:induction false} FinalizedRoundTrip(m: map<Id, Revision<Content>>, order: seq<Id>, sofar: map<Id, Revision<Content>>, tail: seq<Byte>)
    requires StatementsFit(m) && Distinct(order) && forall k :: k in order ==> k in m && k !in sofar
    ensures ReadFinalized(StatementListBytes(m, order) + tail, |order|, sofar) == Ok(Parsed(sofar + Chosen(m, order), tail))
    decreases |order|
  {
    hide ReadStatement, StatementBytes, StatementFits;
    if order == [] {
      assert StatementListBytes(m, order) + tail == tail;
      assert sofar + Chosen(m, order) == sofar;
    } else {
      var v := m[order[0]];
      Regroup(StatementBytes(order[0], v.value, v.parents), StatementListBytes(m, order[1..]), tail);
      StatementRoundTrip(v, StatementListBytes(m, order[1..]) + tail);
      FinalizedRoundTrip(m, order[1..], sofar[order[0] := v], tail);
      ChosenStep(m, order, sofar);
    }
  }

  lemma FinalizedMapRoundTrip(m: map<Id, Revision<Content>>, tail: seq<Byte>)
    requires StatementsFit(m)
    ensures ReadFinalizedMap(StatementMapBytes(m) + tail) == Ok(Parsed(m, tail))
  {
    hide ReadLength, LengthBytes, StatementListBytes, ReadFinalized, Chosen, StatementFits;
    var order := Ascending(m.Keys);
    assert |m| == |m.Keys|;
    AscendingDistinct(m.Keys);
    Regroup(LengthBytes(|m|), StatementListBytes(m, order), tail);
    LengthRoundTrip(|m|, StatementListBytes(m, order) + tail);
    FinalizedRoundTrip(m, order, map[], tail);
    ChosenAll(m, order);
  }

  // ---------------------------------------------------------------- one snapshot

  ghost function LedgerBytes(l: FinalizationSnapshot<Content>): seq<Byte> {
    IdSetBytes(l.local) + (StatementMapBytes(l.finalized) + (IdSetBytes(l.exposed) + IdSetBytes(l.handedOff)))
  }

  ghost function SnapshotBytes(s: Snapshot): seq<Byte> {
    HeaderBytes(SnapshotMagic()) +
    (StatementMapBytes(s.working.causal) + (PendingBytes(s.working.pending) + LedgerBytes(s.ledger)))
  }

  function ReadLedger(s: seq<Byte>): Reading<FinalizationSnapshot<Content>> {
    var local :- ReadIdSet(s);
    var finalized :- ReadFinalizedMap(local.rest);
    var exposed :- ReadIdSet(finalized.rest);
    var handedOff :- ReadIdSet(exposed.rest);
    Ok(Parsed(FinalizationSnapshot(local.value, finalized.value, exposed.value, handedOff.value), handedOff.rest))
  }

  /** The snapshot is checked as a restart would check it. */
  ghost function DecodedSnapshot(s: seq<Byte>): Result<Snapshot, CodecError> {
    var h :- ReadHeader(s, SnapshotMagic());
    var causal :- ReadRegister(h.rest);
    var pending :- ReadPending(causal.rest);
    var ledger :- ReadLedger(pending.rest);
    if ledger.rest != [] then Err(TrailingBytes) else
    var image := LocalScalarSnapshot(WorkingSnapshot(causal.value, pending.value), ledger.value);
    if Restorable(image) then Ok(image) else Err(CodecError.Core)
  }

  ghost predicate LedgerFits(l: FinalizationSnapshot<Content>) {
    IdsFit(l.local) && StatementsFit(l.finalized) && IdsFit(l.exposed) && IdsFit(l.handedOff)
  }

  ghost predicate SnapshotFits(s: Snapshot) {
    StatementsFit(s.working.causal) && PendingFits(s.working.pending) && LedgerFits(s.ledger)
  }

  lemma LedgerRoundTrip(l: FinalizationSnapshot<Content>)
    requires LedgerFits(l)
    ensures ReadLedger(LedgerBytes(l)) == Ok(Parsed(l, []))
  {
    hide ReadIdSet, IdSetBytes, ReadFinalizedMap, StatementMapBytes, StatementsFit, IdsFit;
    var a, b, c, d := IdSetBytes(l.local), StatementMapBytes(l.finalized), IdSetBytes(l.exposed), IdSetBytes(l.handedOff);
    IdSetRoundTrip(l.local, b + (c + d));
    FinalizedMapRoundTrip(l.finalized, c + d);
    IdSetRoundTrip(l.exposed, d);
    assert d + [] == d;
    IdSetRoundTrip(l.handedOff, []);
  }

  /** Every restorable snapshot comes back, byte for byte consumed. */
  lemma SnapshotRoundTrip(s: Snapshot)
    requires SnapshotFits(s) && Restorable(s)
    ensures DecodedSnapshot(SnapshotBytes(s)) == Ok(s)
  {
    hide HeaderBytes, ReadHeader, ReadRegister, StatementMapBytes, ReadPending, PendingBytes;
    hide ReadLedger, LedgerBytes, SnapshotMagic, Restorable, PendingFits, LedgerFits;
    var a, b, c := StatementMapBytes(s.working.causal), PendingBytes(s.working.pending), LedgerBytes(s.ledger);
    assert Valid(s.working.causal) by { RestorableIsValid(s); }
    HeaderRoundTrip(SnapshotMagic(), a + (b + c));
    RegisterRoundTrip(s.working.causal, b + c);
    PendingRoundTrip(s.working.pending, c);
    LedgerRoundTrip(s.ledger);
  }

  lemma RestorableIsValid(s: Snapshot)
    requires Restorable(s) && Keyed(s.working.causal)
    ensures Valid(s.working.causal)
  {
  }

  // ---------------------------------------------------------------- the container

  ghost function EntryBytes(d: DomainKey, s: Snapshot): seq<Byte> {
    IdBytes(d.atomId) + (BlobBytes(d.domain) + BlobBytes(SnapshotBytes(s)))
  }

  ghost function EntryListBytes(c: Container, order: seq<DomainKey>): seq<Byte>
    requires forall d :: d in order ==> d in c
  {
    if order == [] then [] else EntryBytes(order[0], c[order[0]]) + EntryListBytes(c, order[1..])
  }

  ghost function ContainerBytes(c: Container): seq<Byte> {
    HeaderBytes(ContainerMagic()) + (LengthBytes(|c|) + EntryListBytes(c, KeyOrder(c.Keys)))
  }

  ghost function ReadEntries(s: seq<Byte>, count: nat, sofar: Container): Reading<Container>
    decreases count
  {
    if count == 0 then Ok(Parsed(sofar, s)) else
    var key :- ReadDomainKey(s);
    var nested :- ReadBlob(key.rest);
    var image :- DecodedSnapshot(nested.value);
    if key.value in sofar then Err(DuplicateDomain) else ReadEntries(nested.rest, count - 1, sofar[key.value := image])
  }

  ghost function DecodedContainer(s: seq<Byte>): Result<Container, CodecError> {
    var h :- ReadHeader(s, ContainerMagic());
    var n :- ReadLength(h.rest);
    var c :- ReadEntries(n.rest, n.value, map[]);
    if c.rest == [] then Ok(c.value) else Err(TrailingBytes)
  }

  ghost predicate EntryFits(d: DomainKey, s: Snapshot) {
    KeyFits(d) && SnapshotFits(s) && Restorable(s) && LengthFits(|SnapshotBytes(s)|)
  }

  ghost predicate ContainerFits(c: Container) {
    |c| < U64_LIMIT && forall d :: d in c ==> EntryFits(d, c[d])
  }

  lemma EntrySplits(d: DomainKey, s: Snapshot, tail: seq<Byte>)
    ensures EntryBytes(d, s) + tail == IdBytes(d.atomId) + (BlobBytes(d.domain) + (BlobBytes(SnapshotBytes(s)) + tail))
  {
    hide IdBytes, BlobBytes, SnapshotBytes;
    Regroup(IdBytes(d.atomId), BlobBytes(d.domain) + BlobBytes(SnapshotBytes(s)), tail);
    Regroup(BlobBytes(d.domain), BlobBytes(SnapshotBytes(s)), tail);
  }

  lemma {:induction false} EntriesRoundTrip(c: Container, order: seq<DomainKey>, sofar: Container, tail: seq<Byte>)
    requires ContainerFits(c) && Distinct(order) && forall d :: d in order ==> d in c && d !in sofar
    ensures ReadEntries(EntryListBytes(c, order) + tail, |order|, sofar) == Ok(Parsed(sofar + Chosen(c, order), tail))
    decreases |order|
  {
    hide ReadDomainKey, ReadBlob, DecodedSnapshot, EntryBytes, SnapshotBytes;
    hide IdBytes, BlobBytes, KeyFits, SnapshotFits, Restorable;
    if order == [] {
      assert EntryListBytes(c, order) + tail == tail;
      assert sofar + Chosen(c, order) == sofar;
    } else {
      var d, s, rest := order[0], c[order[0]], EntryListBytes(c, order[1..]) + tail;
      assert EntryFits(d, s);
      Regroup(EntryBytes(d, s), EntryListBytes(c, order[1..]), tail);
      EntrySplits(d, s, rest);
      DomainKeyRoundTrip(d, BlobBytes(SnapshotBytes(s)) + rest);
      BlobRoundTrip(SnapshotBytes(s), rest);
      SnapshotRoundTrip(s);
      EntriesRoundTrip(c, order[1..], sofar[d := s], tail);
      ChosenStep(c, order, sofar);
    }
  }

  /** The nested container comes back with every snapshot in it. */
  lemma ContainerRoundTrip(c: Container)
    requires ContainerFits(c)
    ensures DecodedContainer(ContainerBytes(c)) == Ok(c)
  {
    hide HeaderBytes, ReadHeader, LengthBytes, ReadLength, EntryListBytes;
    hide ReadEntries, KeyOrder, Chosen, ContainerMagic, EntryFits;
    var order := KeyOrder(c.Keys);
    assert |c| == |c.Keys|;
    KeyOrderDistinct(c.Keys);
    HeaderRoundTrip(ContainerMagic(), LengthBytes(|c|) + EntryListBytes(c, order));
    LengthRoundTrip(|c|, EntryListBytes(c, order));
    assert EntryListBytes(c, order) + [] == EntryListBytes(c, order);
    EntriesRoundTrip(c, order, map[], []);
    ChosenAll(c, order);
  }

  // ---------------------------------------------------------------- the code

  method IsRestorable(image: Snapshot) returns (ok: bool)
    ensures ok <==> Restorable(image)
  {
    var restored := LocalDomain.LocalScalarDomain.Restore(image);
    ok := restored.Ok?;
  }

  /** A malformed snapshot is refused before any byte is written. */
  method EncodeLocalScalarSnapshot(s: Snapshot) returns (r: Result<seq<Byte>, CodecError>)
    requires SnapshotFits(s)
    ensures r == if Restorable(s) then Ok(SnapshotBytes(s)) else Err(CodecError.Core)
  {
    hide HeaderBytes, StatementMapBytes, IdSetBytes, StatementBytes, Restorable, StatementsFit, StatementFits;
    var ok := IsRestorable(s);
    if !ok { return Err(CodecError.Core); }
    FitsLengths(s);
    var out := HeaderBytes(SnapshotMagic());
    out := WriteStatementMap(out, s.working.causal);
    ghost var front := out;
    match s.working.pending {
      case None => out := out + ToBE(0, 1);
      case Some(e) =>
        out := out + ToBE(1, 1);
        out := WriteStatement(out, e.id, e.value, e.observedFrontier);
    }
    assert out == front + PendingBytes(s.working.pending);
    out := WriteIdSet(out, s.ledger.local);
    out := WriteStatementMap(out, s.ledger.finalized);
    out := WriteIdSet(out, s.ledger.exposed);
    out := WriteIdSet(out, s.ledger.handedOff);
    InOneRow(HeaderBytes(SnapshotMagic()), StatementMapBytes(s.working.causal), PendingBytes(s.working.pending), IdSetBytes(s.ledger.local),
             StatementMapBytes(s.ledger.finalized), IdSetBytes(s.ledger.exposed), IdSetBytes(s.ledger.handedOff));
    r := Ok(out);
  }

  lemma InOneRow(h: seq<Byte>, a: seq<Byte>, b: seq<Byte>, c: seq<Byte>, d: seq<Byte>, e: seq<Byte>, f: seq<Byte>)
    ensures h + a + b + c + d + e + f == h + (a + (b + (c + (d + (e + f)))))
  {
  }

  lemma FitsLengths(s: Snapshot)
    requires SnapshotFits(s)
    ensures s.working.pending.Some? ==>
              LengthFits(|s.working.pending.value.value|) && LengthFits(|s.working.pending.value.observedFrontier|)
    ensures LengthFits(|s.ledger.local|) && LengthFits(|s.ledger.exposed|) && LengthFits(|s.ledger.handedOff|)
    ensures StatementsFit(s.working.causal) && StatementsFit(s.ledger.finalized)
  {
  }

  method ReadPendingEpoch(reader: Reader) returns (r: Result<Option<WorkingEpoch<Content>>, CodecError>)
    requires reader.Valid()
    modifies reader
    ensures reader.Valid() && Did(ReadPending(old(reader.Rest())), r, reader.Rest())
  {
    hide ReadNat, ReadStatement;
    var flag := reader.ReadNumber(1);
    if flag.Err? { return Err(flag.error); }
    if flag.value == 0 { return Ok(None); }
    if flag.value != 1 { return Err(InvalidBoolean); }
    var v := reader.ReadRevision();
    if v.Err? { return Err(v.error); }
    r := Ok(Some(WorkingEpoch(v.value.id, v.value.value, v.value.parents)));
  }

  method ReadFinalizedStatements(reader: Reader) returns (r: Result<map<Id, Revision<Content>>, CodecError>)
    requires reader.Valid()
    modifies reader
    ensures reader.Valid() && Did(ReadFinalizedMap(old(reader.Rest())), r, reader.Rest())
  {
    hide ReadNat, ReadStatement;
    var length := reader.ReadNumber(8);
    if length.Err? { return Err(length.error); }
    var count, i := length.value, 0;
    var finalized: map<Id, Revision<Content>> := map[];
    ghost var start := reader.Rest();
    while i < count
      invariant reader.Valid() && 0 <= i <= count
      invariant ReadFinalized(reader.Rest(), count - i, finalized) == ReadFinalized(start, count, map[])
    {
      var v := reader.ReadRevision();
      if v.Err? { return Err(v.error); }
      if v.value.id in finalized { return Err(DuplicateFinalizedStatement); }
      finalized := finalized[v.value.id := v.value];
      i := i + 1;
    }
    r := Ok(finalized);
  }

  method ReadLedgerState(reader: Reader) returns (r: Result<FinalizationSnapshot<Content>, CodecError>)
    requires reader.Valid()
    modifies reader
    ensures reader.Valid() && Did(ReadLedger(old(reader.Rest())), r, reader.Rest())
  {
    hide ReadIdSet, ReadFinalizedMap;
    var local := reader.ReadIdentities();
    if local.Err? { return Err(local.error); }
    var finalized := ReadFinalizedStatements(reader);
    if finalized.Err? { return Err(finalized.error); }
    var exposed := reader.ReadIdentities();
    if exposed.Err? { return Err(exposed.error); }
    var handedOff := reader.ReadIdentities();
    if handedOff.Err? { return Err(handedOff.error); }
    r := Ok(FinalizationSnapshot(local.value, finalized.value, exposed.value, handedOff.value));
  }

  method DecodeLocalScalarSnapshot(encoded: seq<Byte>) returns (r: Result<Snapshot, CodecError>)
    ensures r == DecodedSnapshot(encoded)
  {
    hide ReadHeader, ReadRegister, ReadPending, ReadLedger, Restorable;
    var reader := new Reader(encoded);
    var header := reader.ReadHeaderOf(SnapshotMagic());
    if header.Err? { return Err(header.error); }
    var causal := reader.ReadScalarRegister();
    if causal.Err? { return Err(causal.error); }
    var pending := ReadPendingEpoch(reader);
    if pending.Err? { return Err(pending.error); }
    var ledger := ReadLedgerState(reader);
    if ledger.Err? { return Err(ledger.error); }
    var done := reader.IsFinished();
    if !done { return Err(TrailingBytes); }
    var image := LocalScalarSnapshot(WorkingSnapshot(causal.value, pending.value), ledger.value);
    var ok := IsRestorable(image);
    r := if ok then Ok(image) else Err(CodecError.Core);
  }

  method WriteEntry(out: seq<Byte>, d: DomainKey, s: Snapshot) returns (next: seq<Byte>)
    requires EntryFits(d, s)
    ensures next == out + EntryBytes(d, s)
  {
    hide IdBytes, BlobBytes, SnapshotBytes, Restorable, SnapshotFits;
    next := out + IdBytes(d.atomId);
    next := WriteBlob(next, d.domain);
    var nested := EncodeLocalScalarSnapshot(s);
    next := WriteBlob(next, nested.value);
  }

  method EncodeMultiScalarRecoveryState(c: Container) returns (out: seq<Byte>)
    requires ContainerFits(c)
    ensures out == ContainerBytes(c)
  {
    hide HeaderBytes, LengthBytes, EntryBytes, EntryFits;
    out := HeaderBytes(ContainerMagic());
    out := out + LengthBytes(|c|);
    var todo := c.Keys;
    while todo != {}
      invariant todo <= c.Keys
      invariant out + EntryListBytes(c, KeyOrder(todo)) == ContainerBytes(c)
    {
      var d := LeastKey(todo);
      KeyOrderStep(todo, d);
      todo := todo - {d};
      Regroup(out, EntryBytes(d, c[d]), EntryListBytes(c, KeyOrder(todo)));
      out := WriteEntry(out, d, c[d]);
    }
    assert KeyOrder(todo) == [] && out + [] == out;
  }

  method DecodeMultiScalarRecoveryState(encoded: seq<Byte>) returns (r: Result<Container, CodecError>)
    ensures r == DecodedContainer(encoded)
  {
    hide ReadHeader, ReadNat, ReadDomainKey, ReadBlob, DecodedSnapshot;
    var reader := new Reader(encoded);
    var header := reader.ReadHeaderOf(ContainerMagic());
    if header.Err? { return Err(header.error); }
    var length := reader.ReadNumber(8);
    if length.Err? { return Err(length.error); }
    var count, i := length.value, 0;
    var domains: Container := map[];
    ghost var start := reader.Rest();
    while i < count
      invariant reader.Valid() && 0 <= i <= count
      invariant ReadEntries(reader.Rest(), count - i, domains) == ReadEntries(start, count, map[])
    {
      var key := ReadKey(reader);
      if key.Err? { return Err(key.error); }
      var nested := reader.ReadBytes();
      if nested.Err? { return Err(nested.error); }
      var image := DecodeLocalScalarSnapshot(nested.value);
      if image.Err? { return Err(image.error); }
      if key.value in domains { return Err(DuplicateDomain); }
      domains := domains[key.value := image.value];
      i := i + 1;
    }
    var done := reader.IsFinished();
    r := if done then Ok(domains) else Err(TrailingBytes);
  }
}
