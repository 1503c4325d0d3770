/** Exactly which bytes the projection decoder accepts, and as what. */
module ProjectionAcceptance {
  import opened Bytes
  import opened CausalGraph
  import opened CodecForms
  import opened CodecPrimitives
  import opened CoreTypes
  import opened ProjectionCodec
  import opened RangeAssembly

  ghost predicate IsDomainKey(form: seq<Byte>, d: DomainKey) {
    KeyFits(d) && form == IdBytes(d.atomId) + BlobBytes(d.domain)
  }

  lemma DomainKeyAccepts(x: seq<Byte>) returns (form: seq<Byte>)
    requires ReadDomainKey(x).Ok?
    ensures IsDomainKey(form, ReadDomainKey(x).value.value) && x == form + ReadDomainKey(x).value.rest
  {
    hide ReadId, IdBytes, ReadBlob, BlobBytes, IdFits;
    var atom := ReadId(x).value;
    IdIsItsBytes(x);
    var domain := ReadBlob(atom.rest).value;
    BlobIsItsBytes(atom.rest);
    form := IdBytes(atom.value) + BlobBytes(domain.value);
    Regroup(IdBytes(atom.value), BlobBytes(domain.value), domain.rest);
  }

  lemma DomainKeyIsRead(form: seq<Byte>, d: DomainKey, tail: seq<Byte>)
    requires IsDomainKey(form, d)
    ensures ReadDomainKey(form + tail) == Ok(Parsed(d, tail))
  {
    hide IdBytes, BlobBytes, ReadDomainKey, KeyFits;
    Regroup(IdBytes(d.atomId), BlobBytes(d.domain), tail);
    DomainKeyRoundTrip(d, tail);
  }

  /** The domains `order` of `p`, one after the other, each with any listing of its register. */
  ghost predicate AreDomains(form: seq<Byte>, order: seq<DomainKey>, p: Projection)
    decreases |order|
  {
    if order == [] then form == []
    else exists a, b, c :: form == a + (b + c) && order[0] in p && IsDomainKey(a, order[0]) &&
           IsRegister(b, p[order[0]]) && AreDomains(c, order[1..], p)
  }

  /** Each domain once, in any order, behind the header and their number; and nothing after. */
  ghost predicate IsProjection(s: seq<Byte>, p: Projection) {
    exists order, c :: AreDomains(c, order, p) && LengthFits(|order|) && Distinct(order) && (forall d :: d in order <==> d in p) &&
      s == HeaderBytes(ProjectionMagic()) + (LengthBytes(|order|) + c)
  }

  lemma {:induction false} DomainsGrow(form: seq<Byte>, order: seq<DomainKey>, p: Projection, q: Projection)
    requires AreDomains(form, order, p) && forall d :: d in order ==> d in p && d in q && p[d] == q[d]
    ensures AreDomains(form, order, q)
    decreases |order|
  {
    hide IsDomainKey, IsRegister;
    if order != [] {
      var a, b, c :| form == a + (b + c) && order[0] in p && IsDomainKey(a, order[0]) &&
                     IsRegister(b, p[order[0]]) && AreDomains(c, order[1..], p);
      DomainsGrow(c, order[1..], p, q);
    }
  }

  lemma {:induction false} DomainsAccept(x: seq<Byte>, count: nat, sofar: Projection) returns (form: seq<Byte>, order: seq<DomainKey>)
    requires ReadDomains(x, count, sofar).Ok?
    ensures var p := ReadDomains(x, count, sofar).value.value;
            && AreDomains(form, order, p) && |order| == count && Distinct(order)
            && (forall d :: d in order ==> d !in sofar) && (forall d :: d in p <==> d in sofar || d in order)
            && (forall d :: d in sofar ==> p[d] == sofar[d])
    ensures x == form + ReadDomains(x, count, sofar).value.rest
    decreases count
  {
    hide ReadDomainKey, ReadRegister, IsDomainKey, IsRegister;
    if count == 0 {
      form, order := [], [];
      assert form + x == x;
    } else {
      var key := ReadDomainKey(x).value;
      var a := DomainKeyAccepts(x);
      var g := ReadRegister(key.rest).value;
      var b := RegisterAccepts(key.rest);
      var next := sofar[key.value := g.value];
      var c, rest := DomainsAccept(g.rest, count - 1, next);
      var tail := ReadDomains(x, count, sofar).value.rest;
      form, order := a + (b + c), [key.value] + rest;
      assert order[1..] == rest && key.value in next;
      Regroup(b, c, tail);
      Regroup(a, b + c, tail);
    }
  }

  lemma {:induction false} DomainsAreRead(form: seq<Byte>, order: seq<DomainKey>, p: Projection, sofar: Projection, tail: seq<Byte>)
    requires AreDomains(form, order, p) && Distinct(order) && forall d :: d in order ==> d in p && d !in sofar
    ensures ReadDomains(form + tail, |order|, sofar) == Ok(Parsed(sofar + Chosen(p, order), tail))
    decreases |order|
  {
    hide ReadDomainKey, ReadRegister, IsDomainKey, IsRegister, Chosen;
    if order == [] {
      assert form + tail == tail && sofar + Chosen(p, order) == sofar;
    } else {
      var a, b, c :| form == a + (b + c) && order[0] in p && IsDomainKey(a, order[0]) &&
                     IsRegister(b, p[order[0]]) && AreDomains(c, order[1..], p);
      Regroup(a, b + c, tail);
      Regroup(b, c, tail);
      DomainKeyIsRead(a, order[0], b + (c + tail));
      RegisterIsRead(b, p[order[0]], c + tail);
      DomainsAreRead(c, order[1..], p, sofar[order[0] := p[order[0]]], tail);
      ChosenStep(p, order, sofar);
    }
  }

  lemma EmptyIdentifierRefused(atom: Id, tail: seq<Byte>)
    requires IdFits(atom)
    ensures ReadDomainKey(IdBytes(atom) + (BlobBytes([]) + tail)) == Err(EmptyDomainIdentifier)
  {
    hide ReadId, IdBytes, ReadBlob, BlobBytes;
    IdRoundTrip(atom, BlobBytes([]) + tail);
    BlobRoundTrip([], tail);
  }

  lemma RepeatedDomainRefused(a: seq<Byte>, d: DomainKey, b: seq<Byte>, g: Graph<Content>, count: nat, sofar: Projection, tail: seq<Byte>)
    requires IsDomainKey(a, d) && IsRegister(b, g) && d in sofar && count > 0
    ensures ReadDomains(a + (b + tail), count, sofar) == Err(DuplicateDomain)
  {
    hide ReadDomainKey, ReadRegister, IsDomainKey, IsRegister;
    DomainKeyIsRead(a, d, b + tail);
    RegisterIsRead(b, g, tail);
  }

  /** The decoder accepts exactly the listings of a projection, as that projection. */
  lemma ProjectionAcceptedExactly(s: seq<Byte>, p: Projection)
    ensures DecodedProjection(s) == Ok(p) <==> IsProjection(s, p)
  {
    hide ReadHeader, HeaderBytes, ProjectionMagic, ReadLength, LengthBytes, ReadDomains, AreDomains, Chosen;
    var magic := ProjectionMagic();
    if DecodedProjection(s) == Ok(p) {
      HeaderIsRead(s, magic);
      var h := ReadHeader(s, magic).value;
      LengthIsItsBytes(h.rest);
      var n := ReadLength(h.rest).value;
      var c, order := DomainsAccept(n.rest, n.value, map[]);
      assert c + [] == c;
    }
    if IsProjection(s, p) {
      var order, c :| AreDomains(c, order, p) && LengthFits(|order|) && Distinct(order) && (forall d :: d in order <==> d in p) &&
                      s == HeaderBytes(magic) + (LengthBytes(|order|) + c);
      HeaderRoundTrip(magic, LengthBytes(|order|) + c);
      LengthRoundTrip(|order|, c);
      DomainsAreRead(c, order, p, map[], []);
      assert c + [] == c;
      ChosenAll(p, order);
    }
  }

  /** Anything appended to accepted bytes is refused; so no strict prefix of them is accepted. */
  lemma ProjectionTailRefused(s: seq<Byte>, p: Projection, extra: seq<Byte>)
    requires DecodedProjection(s) == Ok(p) && extra != []
    ensures DecodedProjection(s + extra) == Err(TrailingBytes)
  {
    hide ReadHeader, HeaderBytes, ProjectionMagic, ReadLength, LengthBytes, ReadDomains, AreDomains;
    ProjectionAcceptedExactly(s, p);
    var magic := ProjectionMagic();
    var order, c :| AreDomains(c, order, p) && LengthFits(|order|) && Distinct(order) && (forall d :: d in order <==> d in p) &&
                    s == HeaderBytes(magic) + (LengthBytes(|order|) + c);
    Regroup(HeaderBytes(magic), LengthBytes(|order|) + c, extra);
    Regroup(LengthBytes(|order|), c, extra);
    HeaderRoundTrip(magic, LengthBytes(|order|) + (c + extra));
    LengthRoundTrip(|order|, c + extra);
    DomainsAreRead(c, order, p, map[], extra);
  }
}

/** Exactly which bytes the trusted-state decoders accept, and as what. */
module TrustedStateAcceptance {
  import opened Bytes
  import opened CausalGraph
  import opened CodecForms
  import opened CodecPrimitives
  import opened CoreTypes
  import opened DomainMachine
  import opened ProjectionAcceptance
  import opened ProjectionCodec
  import opened RangeAssembly
  import opened ScalarRegisters
  import opened TrustedStateCodec

  ghost predicate IsPending(form: seq<Byte>, p: Option<WorkingEpoch<Content>>) {
    match p
    case None => form == ToBE(0, 1)
    case Some(e) => exists c :: IsStatement(c, Revision(e.id, e.value, e.observedFrontier)) && form == ToBE(1, 1) + c
  }

  lemma PendingAccepts(x: seq<Byte>) returns (form: seq<Byte>)
    requires ReadPending(x).Ok?
    ensures IsPending(form, ReadPending(x).value.value) && x == form + ReadPending(x).value.rest
  {
    hide ReadNat, ReadStatement, IsStatement;
    NatIsItsBytes(x, 1);
    var flag := ReadNat(x, 1).value;
    if flag.value == 0 {
      form := ToBE(0, 1);
    } else {
      var c := StatementAccepts(flag.rest);
      form := ToBE(1, 1) + c;
      Regroup(ToBE(1, 1), c, ReadPending(x).value.rest);
    }
  }

  lemma PendingIsRead(form: seq<Byte>, p: Option<WorkingEpoch<Content>>, tail: seq<Byte>)
    requires IsPending(form, p)
    ensures ReadPending(form + tail) == Ok(Parsed(p, tail))
  {
    hide ReadNat, ReadStatement, IsStatement;
    assert Pow256(1) == 256;
    match p {
      case None => NatRoundTrip(0, 1, tail);
      case Some(e) =>
        var v := Revision(e.id, e.value, e.observedFrontier);
        var c :| IsStatement(c, v) && form == ToBE(1, 1) + c;
        Regroup(ToBE(1, 1), c, tail);
        NatRoundTrip(1, 1, c + tail);
        StatementIsRead(c, v, tail);
    }
  }

  // ---------------------------------------------------------------- finalized statements

  ghost predicate DistinctStatements(list: seq<Revision<Content>>) {
    forall i, j :: 0 <= i < j < |list| ==> list[i].id != list[j].id
  }

  /** One statement for each identity of `m`, in any order. */
  ghost predicate IsFinalized(form: seq<Byte>, m: map<Id, Revision<Content>>) {
    exists c, list :: AreStatements(c, list) && LengthFits(|list|) && DistinctStatements(list) && Keyed(m) && Lists(m, list) &&
      form == LengthBytes(|list|) + c
  }

  lemma {:induction false} FinalizedAccepts(x: seq<Byte>, count: nat, sofar: map<Id, Revision<Content>>)
    returns (form: seq<Byte>, list: seq<Revision<Content>>)
    requires ReadFinalized(x, count, sofar).Ok? && Keyed(sofar)
    ensures var m := ReadFinalized(x, count, sofar).value.value;
            && AreStatements(form, list) && |list| == count && DistinctStatements(list) && Keyed(m)
            && (forall v :: v in list ==> v.id !in sofar && v.id in m && m[v.id] == v)
            && (forall k :: k in m ==> (k in sofar && m[k] == sofar[k]) || m[k] in list)
            && (forall k :: k in sofar ==> k in m && m[k] == sofar[k])
    ensures x == form + ReadFinalized(x, count, sofar).value.rest
    decreases count
  {
    hide ReadStatement, IsStatement;
    if count == 0 {
      form, list := [], [];
      assert form + x == x;
    } else {
      var v := ReadStatement(x).value;
      var a := StatementAccepts(x);
      var b, rest := FinalizedAccepts(v.rest, count - 1, sofar[v.value.id := v.value]);
      form, list := a + b, [v.value] + rest;
      assert list[1..] == rest;
      forall j | 0 < j < |list| ensures list[j].id != v.value.id { assert list[j] == rest[j - 1] && rest[j - 1] in rest; }
      forall i, j | 0 <= i < j < |list| ensures list[i].id != list[j].id {
        if i > 0 { assert list[i] == rest[i - 1] && list[j] == rest[j - 1]; }
      }
      Regroup(a, b, ReadFinalized(x, count, sofar).value.rest);
    }
  }

  lemma {:induction false} FinalizedIsRead(form: seq<Byte>, list: seq<Revision<Content>>, sofar: map<Id, Revision<Content>>,
                                          m: map<Id, Revision<Content>>, tail: seq<Byte>)
    requires AreStatements(form, list) && DistinctStatements(list)
    requires forall v :: v in list ==> v.id !in sofar && v.id in m && m[v.id] == v
    requires forall k :: k in sofar ==> k in m && m[k] == sofar[k]
    requires forall k :: k in m ==> k in sofar || m[k] in list
    requires Keyed(m)
    ensures ReadFinalized(form + tail, |list|, sofar) == Ok(Parsed(m, tail))
    decreases |list|
  {
    hide ReadStatement, IsStatement;
    if list == [] {
      assert form + tail == tail && sofar == m;
    } else {
      var a, b :| form == a + b && IsStatement(a, list[0]) && AreStatements(b, list[1..]);
      Regroup(a, b, tail);
      StatementIsRead(a, list[0], b + tail);
      var rest := list[1..];
      forall v | v in rest ensures v.id != list[0].id { var j :| 0 <= j < |rest| && rest[j] == v; assert list[j + 1] == v; }
      forall k | k in m ensures k in sofar[list[0].id := list[0]] || m[k] in rest {
        if k !in sofar && m[k] !in rest { assert m[k] == list[0]; }
      }
      FinalizedIsRead(b, rest, sofar[list[0].id := list[0]], m, tail);
    }
  }

  lemma RepeatedStatementRefused(a: seq<Byte>, v: Revision<Content>, count: nat, sofar: map<Id, Revision<Content>>, tail: seq<Byte>)
    requires IsStatement(a, v) && v.id in sofar && count > 0
    ensures ReadFinalized(a + tail, count, sofar) == Err(DuplicateFinalizedStatement)
  {
    hide ReadStatement, IsStatement;
    StatementIsRead(a, v, tail);
  }

  lemma FinalizedMapAccepts(x: seq<Byte>) returns (form: seq<Byte>)
    requires ReadFinalizedMap(x).Ok?
    ensures IsFinalized(form, ReadFinalizedMap(x).value.value) && x == form + ReadFinalizedMap(x).value.rest
  {
    hide ReadLength, LengthBytes, ReadFinalized, AreStatements;
    LengthIsItsBytes(x);
    var n := ReadLength(x).value;
    var c, list := FinalizedAccepts(n.rest, n.value, map[]);
    form := LengthBytes(n.value) + c;
    Regroup(LengthBytes(n.value), c, ReadFinalizedMap(x).value.rest);
  }

  lemma FinalizedMapIsRead(form: seq<Byte>, m: map<Id, Revision<Content>>, tail: seq<Byte>)
    requires IsFinalized(form, m)
    ensures ReadFinalizedMap(form + tail) == Ok(Parsed(m, tail))
  {
    hide ReadLength, LengthBytes, ReadFinalized, AreStatements;
    var c, list :| AreStatements(c, list) && LengthFits(|list|) && DistinctStatements(list) && Keyed(m) && Lists(m, list) &&
                   form == LengthBytes(|list|) + c;
    Regroup(LengthBytes(|list|), c, tail);
    LengthRoundTrip(|list|, c + tail);
    FinalizedIsRead(c, list, map[], m, tail);
  }

  // ---------------------------------------------------------------- one snapshot

  ghost predicate IsLedger(form: seq<Byte>, l: FinalizationSnapshot<Content>) {
    exists a, b, c, d :: IsIdSet(a, l.local) && IsFinalized(b, l.finalized) && IsIdSet(c, l.exposed) && IsIdSet(d, l.handedOff) &&
      form == a + (b + (c + d))
  }

  lemma LedgerAccepts(x: seq<Byte>) returns (form: seq<Byte>)
    requires ReadLedger(x).Ok?
    ensures IsLedger(form, ReadLedger(x).value.value) && x == form + ReadLedger(x).value.rest
  {
    hide ReadIdSet, ReadFinalizedMap, IsIdSet, IsFinalized;
    var local := ReadIdSet(x).value;
    var a := IdSetAccepts(x);
    var finalized := ReadFinalizedMap(local.rest).value;
    var b := FinalizedMapAccepts(local.rest);
    var exposed := ReadIdSet(finalized.rest).value;
    var c := IdSetAccepts(finalized.rest);
    var d := IdSetAccepts(exposed.rest);
    var tail := ReadLedger(x).value.rest;
    form := a + (b + (c + d));
    Regroup(c, d, tail);
    Regroup(b, c + d, tail);
    Regroup(a, b + (c + d), tail);
  }

  lemma LedgerIsRead(form: seq<Byte>, l: FinalizationSnapshot<Content>, tail: seq<Byte>)
    requires IsLedger(form, l)
    ensures ReadLedger(form + tail) == Ok(Parsed(l, tail))
  {
    hide ReadIdSet, ReadFinalizedMap, IsIdSet, IsFinalized;
    var a, b, c, d :| IsIdSet(a, l.local) && IsFinalized(b, l.finalized) && IsIdSet(c, l.exposed) && IsIdSet(d, l.handedOff) &&
                      form == a + (b + (c + d));
    Regroup(a, b + (c + d), tail);
    Regroup(b, c + d, tail);
    Regroup(c, d, tail);
    IdSetIsRead(a, l.local, b + (c + (d + tail)));
    FinalizedMapIsRead(b, l.finalized, c + (d + tail));
    IdSetIsRead(c, l.exposed, d + tail);
    IdSetIsRead(d, l.handedOff, tail);
  }

  ghost predicate IsSnapshotBody(a: seq<Byte>, b: seq<Byte>, c: seq<Byte>, image: Snapshot) {
    IsRegister(a, image.working.causal) && IsPending(b, image.working.pending) && IsLedger(c, image.ledger)
  }

  /** A listing of a snapshot that a restart accepts, and nothing after it. */
  ghost predicate IsSnapshot(s: seq<Byte>, image: Snapshot) {
    && Restorable(image)
    && exists a, b, c :: IsSnapshotBody(a, b, c, image) && s == HeaderBytes(SnapshotMagic()) + (a + (b + c))
  }

  lemma SnapshotAcceptedExactly(s: seq<Byte>, image: Snapshot)
    ensures DecodedSnapshot(s) == Ok(image) <==> IsSnapshot(s, image)
  {
    hide ReadHeader, HeaderBytes, SnapshotMagic, ReadRegister, IsRegister, ReadPending, IsPending, ReadLedger, IsLedger, Restorable;
    var magic := SnapshotMagic();
    if DecodedSnapshot(s) == Ok(image) {
      HeaderIsRead(s, magic);
      var h := ReadHeader(s, magic).value;
      var a := RegisterAccepts(h.rest);
      var causal := ReadRegister(h.rest).value;
      var b := PendingAccepts(causal.rest);
      var pending := ReadPending(causal.rest).value;
      var c := LedgerAccepts(pending.rest);
      assert c + [] == c;
      assert IsSnapshotBody(a, b, c, image);
    }
    if IsSnapshot(s, image) {
      var a, b, c :| IsSnapshotBody(a, b, c, image) && s == HeaderBytes(magic) + (a + (b + c));
      HeaderRoundTrip(magic, a + (b + c));
      RegisterIsRead(a, image.working.causal, b + c);
      PendingIsRead(b, image.working.pending, c);
      LedgerIsRead(c, image.ledger, []);
      assert c + [] == c;
    }
  }

  lemma SnapshotTailRefused(s: seq<Byte>, image: Snapshot, extra: seq<Byte>)
    requires DecodedSnapshot(s) == Ok(image) && extra != []
    ensures DecodedSnapshot(s + extra) == Err(TrailingBytes)
  {
    hide ReadHeader, HeaderBytes, SnapshotMagic, ReadRegister, IsRegister, ReadPending, IsPending, ReadLedger, IsLedger, Restorable;
    SnapshotAcceptedExactly(s, image);
    var magic := SnapshotMagic();
    var a, b, c :| IsSnapshotBody(a, b, c, image) && s == HeaderBytes(magic) + (a + (b + c));
    Regroup(HeaderBytes(magic), a + (b + c), extra);
    Regroup(a, b + c, extra);
    Regroup(b, c, extra);
    HeaderRoundTrip(magic, a + (b + (c + extra)));
    RegisterIsRead(a, image.working.causal, b + (c + extra));
    PendingIsRead(b, image.working.pending, c + extra);
    LedgerIsRead(c, image.ledger, extra);
  }

  /** Otherwise readable bytes of an image a restart would refuse are refused. */
  lemma UnrestorableRefused(a: seq<Byte>, b: seq<Byte>, c: seq<Byte>, image: Snapshot)
    requires IsSnapshotBody(a, b, c, image) && !Restorable(image)
    ensures DecodedSnapshot(HeaderBytes(SnapshotMagic()) + (a + (b + c))) == Err(CodecError.Core)
  {
    hide ReadHeader, HeaderBytes, SnapshotMagic, ReadRegister, IsRegister, ReadPending, IsPending, ReadLedger, IsLedger, Restorable;
    HeaderRoundTrip(SnapshotMagic(), a + (b + c));
    RegisterIsRead(a, image.working.causal, b + c);
    PendingIsRead(b, image.working.pending, c);
    LedgerIsRead(c, image.ledger, []);
    assert c + [] == c;
  }

  // ---------------------------------------------------------------- the container

  ghost predicate AreEntries(form: seq<Byte>, order: seq<DomainKey>, m: Container)
    decreases |order|
  {
    if order == [] then form == []
    else exists a, b, c :: form == a + (BlobBytes(b) + c) && order[0] in m && IsDomainKey(a, order[0]) && LengthFits(|b|) &&
           IsSnapshot(b, m[order[0]]) && AreEntries(c, order[1..], m)
  }

  ghost predicate IsContainer(s: seq<Byte>, m: Container) {
    exists order, c :: AreEntries(c, order, m) && LengthFits(|order|) && Distinct(order) && (forall d :: d in order <==> d in m) &&
      s == HeaderBytes(ContainerMagic()) + (LengthBytes(|order|) + c)
  }

  lemma {:induction false} EntriesAccept(x: seq<Byte>, count: nat, sofar: Container) returns (form: seq<Byte>, order: seq<DomainKey>)
    requires ReadEntries(x, count, sofar).Ok?
    ensures var m := ReadEntries(x, count, sofar).value.value;
            && AreEntries(form, order, m) && |order| == count && Distinct(order)
            && (forall d :: d in order ==> d !in sofar) && (forall d :: d in m <==> d in sofar || d in order)
            && (forall d :: d in sofar ==> m[d] == sofar[d])
    ensures x == form + ReadEntries(x, count, sofar).value.rest
    decreases count
  {
    hide ReadDomainKey, ReadBlob, BlobBytes, DecodedSnapshot, IsSnapshot, IsDomainKey;
    if count == 0 {
      form, order := [], [];
      assert form + x == x;
    } else {
      var a := DomainKeyAccepts(x);
      var key := ReadDomainKey(x).value;
      BlobIsItsBytes(key.rest);
      var nested := ReadBlob(key.rest).value;
      var image := DecodedSnapshot(nested.value).value;
      SnapshotAcceptedExactly(nested.value, image);
      var c, rest := EntriesAccept(nested.rest, count - 1, sofar[key.value := image]);
      form, order := EntriesGrow(a, key.value, nested.value, image, c, rest, sofar, ReadEntries(x, count, sofar).value.value);
      Regroup(BlobBytes(nested.value), c, ReadEntries(x, count, sofar).value.rest);
      Regroup(a, BlobBytes(nested.value) + c, ReadEntries(x, count, sofar).value.rest);
    }
  }

  lemma EntriesGrow(a: seq<Byte>, d: DomainKey, b: seq<Byte>, image: Snapshot, c: seq<Byte>, rest: seq<DomainKey>,
                    sofar: Container, m: Container) returns (form: seq<Byte>, order: seq<DomainKey>)
    requires IsDomainKey(a, d) && LengthFits(|b|) && IsSnapshot(b, image) && d !in sofar
    requires AreEntries(c, rest, m) && Distinct(rest)
    requires forall k :: k in rest ==> k !in sofar && k != d
    requires forall k :: k in m <==> k in sofar || k == d || k in rest
    requires (forall k :: k in sofar ==> m[k] == sofar[k]) && m[d] == image
    ensures form == a + (BlobBytes(b) + c) && order == [d] + rest
    ensures AreEntries(form, order, m) && Distinct(order)
    ensures (forall k :: k in order ==> k !in sofar) && (forall k :: k in m <==> k in sofar || k in order)
  {
    hide BlobBytes, IsSnapshot, IsDomainKey;
    form, order := a + (BlobBytes(b) + c), [d] + rest;
    assert order[0] == d && order[1..] == rest;
    assert form == a + (BlobBytes(b) + c) && order[0] in m && IsDomainKey(a, order[0]) && LengthFits(|b|) &&
           IsSnapshot(b, m[order[0]]) && AreEntries(c, order[1..], m);
  }

  lemma {:induction false} EntriesAreRead(form: seq<Byte>, order: seq<DomainKey>, m: Container, sofar: Container, tail: seq<Byte>)
    requires AreEntries(form, order, m) && Distinct(order) && forall d :: d in order ==> d in m && d !in sofar
    ensures ReadEntries(form + tail, |order|, sofar) == Ok(Parsed(sofar + Chosen(m, order), tail))
    decreases |order|
  {
    hide ReadDomainKey, ReadBlob, BlobBytes, DecodedSnapshot, IsSnapshot, IsDomainKey, Chosen;
    if order == [] {
      assert form + tail == tail && sofar + Chosen(m, order) == sofar;
    } else {
      var a, b, c :| form == a + (BlobBytes(b) + c) && order[0] in m && IsDomainKey(a, order[0]) && LengthFits(|b|) &&
                     IsSnapshot(b, m[order[0]]) && AreEntries(c, order[1..], m);
      Regroup(a, BlobBytes(b) + c, tail);
      Regroup(BlobBytes(b), c, tail);
      DomainKeyIsRead(a, order[0], BlobBytes(b) + (c + tail));
      BlobRoundTrip(b, c + tail);
      SnapshotAcceptedExactly(b, m[order[0]]);
      EntriesAreRead(c, order[1..], m, sofar[order[0] := m[order[0]]], tail);
      ChosenStep(m, order, sofar);
    }
  }

  lemma RepeatedEntryRefused(a: seq<Byte>, d: DomainKey, b: seq<Byte>, image: Snapshot, count: nat, sofar: Container, tail: seq<Byte>)
    requires IsDomainKey(a, d) && LengthFits(|b|) && IsSnapshot(b, image) && d in sofar && count > 0
    ensures ReadEntries(a + (BlobBytes(b) + tail), count, sofar) == Err(DuplicateDomain)
  {
    hide ReadDomainKey, ReadBlob, BlobBytes, DecodedSnapshot, IsSnapshot, IsDomainKey;
    DomainKeyIsRead(a, d, BlobBytes(b) + tail);
    BlobRoundTrip(b, tail);
    SnapshotAcceptedExactly(b, image);
  }

  lemma ContainerAcceptedExactly(s: seq<Byte>, m: Container)
    ensures DecodedContainer(s) == Ok(m) <==> IsContainer(s, m)
  {
    hide ReadHeader, HeaderBytes, ContainerMagic, ReadLength, LengthBytes, ReadEntries, AreEntries, Chosen;
    var magic := ContainerMagic();
    if DecodedContainer(s) == Ok(m) {
      HeaderIsRead(s, magic);
      var h := ReadHeader(s, magic).value;
      LengthIsItsBytes(h.rest);
      var n := ReadLength(h.rest).value;
      var c, order := EntriesAccept(n.rest, n.value, map[]);
      assert c + [] == c;
    }
    if IsContainer(s, m) {
      var order, c :| AreEntries(c, order, m) && LengthFits(|order|) && Distinct(order) && (forall d :: d in order <==> d in m) &&
                      s == HeaderBytes(magic) + (LengthBytes(|order|) + c);
      HeaderRoundTrip(magic, LengthBytes(|order|) + c);
      LengthRoundTrip(|order|, c);
      EntriesAreRead(c, order, m, map[], []);
      assert c + [] == c;
      ChosenAll(m, order);
    }
  }

  lemma ContainerTailRefused(s: seq<Byte>, m: Container, extra: seq<Byte>)
    requires DecodedContainer(s) == Ok(m) && extra != []
    ensures DecodedContainer(s + extra) == Err(TrailingBytes)
  {
    hide ReadHeader, HeaderBytes, ContainerMagic, ReadLength, LengthBytes, ReadEntries, AreEntries;
    ContainerAcceptedExactly(s, m);
    var magic := ContainerMagic();
    var order, c :| AreEntries(c, order, m) && LengthFits(|order|) && Distinct(order) && (forall d :: d in order <==> d in m) &&
                    s == HeaderBytes(magic) + (LengthBytes(|order|) + c);
    Regroup(HeaderBytes(magic), LengthBytes(|order|) + c, extra);
    Regroup(LengthBytes(|order|), c, extra);
    HeaderRoundTrip(magic, LengthBytes(|order|) + (c + extra));
    LengthRoundTrip(|order|, c + extra);
    EntriesAreRead(c, order, m, map[], extra);
  }
}

/** Exactly which bytes the record decoder accepts, and as what. */
module RecordAcceptance {
  import opened Bytes
  import opened CausalGraph
  import opened CodecForms
  import opened CodecPrimitives
  import opened CoreTypes
  import opened SyncRecordCodec

  lemma CursorIsItsBytes(x: seq<Byte>)
    requires ReadCursor(x).Ok?
    ensures CursorOk(ReadCursor(x).value.value) && CursorFits(ReadCursor(x).value.value)
    ensures x == CursorBytes(ReadCursor(x).value.value) + ReadCursor(x).value.rest
  {
    hide ReadNat, ReadBlob, BlobBytes;
    NatIsItsBytes(x, 1);
    var flag := ReadNat(x, 1).value;
    if flag.value != 0 {
      BlobIsItsBytes(flag.rest);
      Regroup(ToBE(1, 1), BlobBytes(ReadBlob(flag.rest).value.value), ReadCursor(x).value.rest);
    }
  }

  lemma {:induction false} ObjectsAreTheirBytes(x: seq<Byte>, count: nat, sofar: seq<seq<Byte>>) returns (objects: seq<seq<Byte>>)
    requires ReadObjects(x, count, sofar).Ok?
    ensures |objects| == count && ReadObjects(x, count, sofar).value.value == sofar + objects
    ensures forall i :: 0 <= i < |objects| ==> objects[i] != [] && LengthFits(|objects[i]|)
    ensures x == ObjectListBytes(objects) + ReadObjects(x, count, sofar).value.rest
    decreases count
  {
    hide ReadBlob, BlobBytes;
    if count == 0 {
      objects := [];
      assert ObjectListBytes(objects) + x == x && sofar + objects == sofar;
    } else {
      var b := ReadBlob(x).value;
      BlobIsItsBytes(x);
      var rest := ObjectsAreTheirBytes(b.rest, count - 1, sofar + [b.value]);
      objects := [b.value] + rest;
      assert objects[1..] == rest && sofar + [b.value] + rest == sofar + objects;
      Regroup(BlobBytes(b.value), ObjectListBytes(rest), ReadObjects(x, count, sofar).value.rest);
    }
  }

  lemma EntryIsItsBytes(x: seq<Byte>)
    requires ReadEntry(x).Ok?
    ensures var e := ReadEntry(x).value.value; EntryOk(e.publicationId, e) && EntryFits(e)
    ensures x == EntryBytes(ReadEntry(x).value.value) + ReadEntry(x).value.rest
  {
    hide ReadId, IdBytes, ReadCursor, CursorBytes, ReadLength, LengthBytes, ReadObjects, ObjectListBytes, IdFits;
    var id := ReadId(x).value;
    IdIsItsBytes(x);
    var expected := ReadCursor(id.rest).value;
    CursorIsItsBytes(id.rest);
    var n := ReadLength(expected.rest).value;
    LengthIsItsBytes(expected.rest);
    var objects := ObjectsAreTheirBytes(n.rest, n.value, []);
    assert [] + objects == objects;
    var tail := ReadEntry(x).value.rest;
    var b, c, d := CursorBytes(expected.value), LengthBytes(n.value), ObjectListBytes(objects);
    Regroup(c, d, tail);
    Regroup(b, c + d, tail);
    Regroup(IdBytes(id.value), b + (c + d), tail);
  }

  lemma RepeatedPublicationRefused(e: ByteEntry, count: nat, sofar: map<Id, ByteEntry>, tail: seq<Byte>)
    requires EntryOk(e.publicationId, e) && EntryFits(e) && e.publicationId in sofar && count > 0
    ensures ReadEntries(EntryBytes(e) + tail, count, sofar) == Err(DuplicatePublication)
  {
    hide ReadEntry, EntryBytes, EntryOk, EntryFits;
    EntryRoundTrip(e, tail);
  }

  lemma EmptyCursorRefused(tail: seq<Byte>)
    ensures ReadCursor(ToBE(1, 1) + (BlobBytes([]) + tail)) == Err(EmptyTransportCursor)
  {
    hide ReadNat, ReadBlob, BlobBytes;
    assert Pow256(1) == 256;
    NatRoundTrip(1, 1, BlobBytes([]) + tail);
    BlobRoundTrip([], tail);
  }

  lemma EmptyObjectRefused(count: nat, sofar: seq<seq<Byte>>, tail: seq<Byte>)
    requires count > 0
    ensures ReadObjects(BlobBytes([]) + tail, count, sofar) == Err(EmptyOutboxObject)
  {
    hide ReadBlob, BlobBytes;
    BlobRoundTrip([], tail);
  }

  lemma EmptyEntryRefused(id: Id, expected: Option<seq<Byte>>, tail: seq<Byte>)
    requires IdFits(id) && CursorOk(expected) && CursorFits(expected)
    ensures ReadEntry(IdBytes(id) + (CursorBytes(expected) + (LengthBytes(0) + tail))) == Err(EmptyOutbox)
  {
    hide ReadId, IdBytes, ReadCursor, CursorBytes, ReadLength, LengthBytes;
    IdRoundTrip(id, CursorBytes(expected) + (LengthBytes(0) + tail));
    CursorRoundTrip(expected, LengthBytes(0) + tail);
    LengthRoundTrip(0, tail);
  }

  lemma {:induction false} EntriesAreTheirBytes(x: seq<Byte>, count: nat, sofar: map<Id, ByteEntry>) returns (order: seq<Id>)
    requires ReadEntries(x, count, sofar).Ok?
    ensures var m := ReadEntries(x, count, sofar).value.value;
            && |order| == count && Distinct(order)
            && (forall k :: k in order ==> k !in sofar && k in m && EntryOk(k, m[k]) && EntryFits(m[k]))
            && (forall k :: k in m <==> k in sofar || k in order)
            && (forall k :: k in sofar ==> m[k] == sofar[k])
            && x == EntryListBytes(m, order) + ReadEntries(x, count, sofar).value.rest
    decreases count
  {
    hide ReadEntry, EntryBytes, EntryFits, CursorOk, ObjectsOk;
    if count == 0 {
      order := [];
      assert EntryListBytes(sofar, order) + x == x;
    } else {
      var e := ReadEntry(x).value;
      var id := e.value.publicationId;
      EntryIsItsBytes(x);
      var next := sofar[id := e.value];
      var rest := EntriesAreTheirBytes(e.rest, count - 1, next);
      var m := ReadEntries(x, count, sofar).value.value;
      order := [id] + rest;
      assert order[1..] == rest && id in next && m[id] == e.value;
      Regroup(EntryBytes(e.value), EntryListBytes(m, rest), ReadEntries(x, count, sofar).value.rest);
    }
  }

  ghost predicate IsRecordListing(s: seq<Byte>, r: ByteRecord, order: seq<Id>) {
    && Distinct(order) && (forall k :: k in order <==> k in r.outbox) && LengthFits(|order|)
    && s == HeaderBytes(RecordMagic()) + (BlobBytes(r.trusted) + (CursorBytes(r.cursor) + (LengthBytes(|order|) + EntryListBytes(r.outbox, order))))
  }

  ghost predicate FieldsFit(r: ByteRecord) {
    LengthFits(|r.trusted|) && CursorFits(r.cursor) && forall k :: k in r.outbox ==> EntryFits(r.outbox[k])
  }

  /** The encoding of a record with its outbox listed in any order. */
  ghost predicate IsRecord(s: seq<Byte>, r: ByteRecord) {
    RecordOk(r) && FieldsFit(r) && exists order :: IsRecordListing(s, r, order)
  }

  lemma RecordIsRead(r: ByteRecord, order: seq<Id>, tail: seq<Byte>)
    requires RecordOk(r) && FieldsFit(r)
    requires Distinct(order) && (forall k :: k in order <==> k in r.outbox) && LengthFits(|order|)
    ensures DecodedRecord(HeaderBytes(RecordMagic()) + (BlobBytes(r.trusted) + (CursorBytes(r.cursor) +
              (LengthBytes(|order|) + (EntryListBytes(r.outbox, order) + tail))))) ==
            if tail == [] then Ok(r) else Err(TrailingBytes)
  {
    hide HeaderBytes, ReadHeader, ReadBlob, BlobBytes, ReadCursor, CursorBytes, ReadEntries, EntryListBytes, EntryFits, EntryOk, Chosen;
    hide ReadLength, LengthBytes, CursorOk;
    var d := EntryListBytes(r.outbox, order) + tail;
    var c := LengthBytes(|order|) + d;
    var b := CursorBytes(r.cursor) + c;
    var a := BlobBytes(r.trusted) + b;
    assert |HeaderBytes(RecordMagic())| == 10 by { HeaderLength(); }
    HeaderRoundTrip(RecordMagic(), a);
    BlobRoundTrip(r.trusted, b);
    CursorRoundTrip(r.cursor, c);
    LengthRoundTrip(|order|, d);
    EntriesRoundTrip(r.outbox, order, map[], tail);
    ChosenAll(r.outbox, order);
  }

  lemma RecordAcceptedExactly(s: seq<Byte>, r: ByteRecord)
    ensures DecodedRecord(s) == Ok(r) <==> IsRecord(s, r)
  {
    hide HeaderBytes, ReadHeader, ReadBlob, BlobBytes, ReadCursor, CursorBytes, ReadEntries, EntryListBytes, EntryFits, EntryOk;
    hide ReadLength, LengthBytes, CursorOk, RecordMagic;
    if DecodedRecord(s) == Ok(r) {
      HeaderIsRead(s, RecordMagic());
      var h := ReadHeader(s, RecordMagic()).value;
      var trusted := ReadBlob(h.rest).value;
      BlobIsItsBytes(h.rest);
      var cursor := ReadCursor(trusted.rest).value;
      CursorIsItsBytes(trusted.rest);
      var n := ReadLength(cursor.rest).value;
      LengthIsItsBytes(cursor.rest);
      var order := EntriesAreTheirBytes(n.rest, n.value, map[]);
      assert EntryListBytes(r.outbox, order) + [] == EntryListBytes(r.outbox, order);
      assert IsRecordListing(s, r, order);
    }
    if IsRecord(s, r) {
      var order :| IsRecordListing(s, r, order);
      assert EntryListBytes(r.outbox, order) + [] == EntryListBytes(r.outbox, order);
      RecordIsRead(r, order, []);
    }
  }

  lemma RecordTailRefused(s: seq<Byte>, r: ByteRecord, extra: seq<Byte>)
    requires DecodedRecord(s) == Ok(r) && extra != []
    ensures DecodedRecord(s + extra) == Err(TrailingBytes)
  {
    hide HeaderBytes, BlobBytes, CursorBytes, EntryListBytes, LengthBytes, FieldsFit, RecordOk, DecodedRecord, RecordMagic;
    RecordAcceptedExactly(s, r);
    var order :| IsRecordListing(s, r, order);
    var a, b, c, d := BlobBytes(r.trusted), CursorBytes(r.cursor), LengthBytes(|order|), EntryListBytes(r.outbox, order);
    Regroup(HeaderBytes(RecordMagic()), a + (b + (c + d)), extra);
    Regroup(a, b + (c + d), extra);
    Regroup(b, c + d, extra);
    Regroup(c, d, extra);
    RecordIsRead(r, order, extra);
  }
}
