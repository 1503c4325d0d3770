/** The transport-facing encoding of one protected part: clear bookkeeping and an opaque
    payload. Nothing but an encoding is ever decoded. */
module WireCodec {
  import opened Bytes
  import opened CausalGraph
  import opened CodecIo
  import opened CodecPrimitives
  import opened CoreTypes

  datatype ProtectedSyncPart = ProtectedSyncPart(publicationId: Id, index: nat, total: nat, payload: seq<Byte>)

  const HEADER_BYTES: nat := 58

  function PartMagic(): (m: seq<Byte>)
    ensures |m| == 8
  {
    Ascii("APCSPRT1")
  }

  predicate MetadataOk(index: nat, total: nat) {
    total != 0 && index < total
  }

  function PartBytes(p: ProtectedSyncPart): seq<Byte> {
    HeaderBytes(PartMagic()) +
    (IdBytes(p.publicationId) + (ToBE(p.index, 4) + (ToBE(p.total, 4) + (ToBE(|p.payload|, 8) + p.payload))))
  }

  /** The payload is everything that remains, and its length field must say so. */
  function ReadPayload(s: seq<Byte>, publicationId: Id, index: nat, total: nat): Result<ProtectedSyncPart, CodecError> {
    var n :- ReadNat(s, 8);
    if |n.rest| != n.value then Err(LengthMismatch) else Ok(ProtectedSyncPart(publicationId, index, total, n.rest))
  }

  function DecodedPart(s: seq<Byte>): Result<ProtectedSyncPart, CodecError> {
    if |s| < HEADER_BYTES then Err(UnexpectedEof) else
    var h :- ReadHeader(s, PartMagic());
    var id :- ReadId(h.rest);
    var index :- ReadNat(id.rest, 4);
    var total :- ReadNat(index.rest, 4);
    if !MetadataOk(index.value, total.value) then Err(InvalidMultipartMetadata)
    else ReadPayload(total.rest, id.value, index.value, total.value)
  }

  ghost predicate PartFits(p: ProtectedSyncPart) {
    IdFits(p.publicationId) && p.index < 0x1_0000_0000 && p.total < 0x1_0000_0000 && LengthFits(|p.payload|)
  }

  lemma U32IsFourBytes()
    ensures Pow256(4) == 0x1_0000_0000
  {
    assert Pow256(1) == 256 && Pow256(2) == 0x1_0000 && Pow256(3) == 0x100_0000;
  }

  /** Decoding undoes encoding. */
  lemma PartRoundTrip(p: ProtectedSyncPart)
    requires PartFits(p) && MetadataOk(p.index, p.total)
    ensures DecodedPart(PartBytes(p)) == Ok(p)
  {
    hide HeaderBytes, ReadHeader, ReadNat, IdBytes, ReadId;
    var d := ToBE(|p.payload|, 8) + p.payload;
    var c := ToBE(p.total, 4) + d;
    var b := ToBE(p.index, 4) + c;
    U32IsFourBytes();
    U64IsEightBytes();
    PartLength(p);
    HeaderRoundTrip(PartMagic(), IdBytes(p.publicationId) + b);
    IdRoundTrip(p.publicationId, b);
    NatRoundTrip(p.index, 4, c);
    NatRoundTrip(p.total, 4, d);
    NatRoundTrip(|p.payload|, 8, p.payload);
  }

  lemma PartLength(p: ProtectedSyncPart)
    ensures |PartBytes(p)| == HEADER_BYTES + |p.payload|
  {
  }

  /** And encoding undoes decoding, whenever decoding succeeds. */
  lemma PartEncodesBack(s: seq<Byte>)
    requires DecodedPart(s).Ok?
    ensures PartBytes(DecodedPart(s).value) == s && PartFits(DecodedPart(s).value)
    ensures MetadataOk(DecodedPart(s).value.index, DecodedPart(s).value.total)
  {
    hide HeaderBytes, ReadHeader, ReadNat;
    U32IsFourBytes();
    U64IsEightBytes();
    HeaderIsItsBytes(s, PartMagic());
    var h := ReadHeader(s, PartMagic()).value.rest;
    NatIsItsBytes(h, ID_BYTES);
    var id := ReadId(h).value;
    NatIsItsBytes(id.rest, 4);
    var index := ReadNat(id.rest, 4).value;
    NatIsItsBytes(index.rest, 4);
    var total := ReadNat(index.rest, 4).value;
    NatIsItsBytes(total.rest, 8);
  }

  // ---------------------------------------------------------------- the code

  method EncodeProtectedSyncPart(p: ProtectedSyncPart) returns (r: Result<seq<Byte>, CodecError>)
    requires PartFits(p)
    ensures r == if MetadataOk(p.index, p.total) then Ok(PartBytes(p)) else Err(InvalidMultipartMetadata)
    ensures r.Err? <==> p.total == 0 || p.index >= p.total
  {
    hide HeaderBytes, IdBytes;
    if p.total == 0 || p.index >= p.total { return Err(InvalidMultipartMetadata); }
    var out := HeaderBytes(PartMagic());
    out := out + IdBytes(p.publicationId);
    out := out + ToBE(p.index, 4);
    out := out + ToBE(p.total, 4);
    out := out + ToBE(|p.payload|, 8);
    out := out + p.payload;
    InARow(HeaderBytes(PartMagic()), IdBytes(p.publicationId), ToBE(p.index, 4), ToBE(p.total, 4), ToBE(|p.payload|, 8), p.payload);
    r := Ok(out);
  }

  lemma InARow(h: seq<Byte>, a: seq<Byte>, b: seq<Byte>, c: seq<Byte>, d: seq<Byte>, e: seq<Byte>)
    ensures h + a + b + c + d + e == h + (a + (b + (c + (d + e))))
  {
  }

  method DecodeProtectedSyncPart(encoded: seq<Byte>) returns (r: Result<ProtectedSyncPart, CodecError>)
    ensures r == DecodedPart(encoded)
    ensures |encoded| < 58 ==> r == Err(UnexpectedEof)
    ensures r.Ok? ==> r.value.index < r.value.total
  {
    hide ReadHeader, ReadNat;
    if |encoded| < HEADER_BYTES { return Err(UnexpectedEof); }
    var reader := new Reader(encoded);
    var header := reader.ReadHeaderOf(PartMagic());
    if header.Err? { return Err(header.error); }
    var id := reader.ReadNumber(ID_BYTES);
    if id.Err? { return Err(id.error); }
    var index := reader.ReadNumber(4);
    if index.Err? { return Err(index.error); }
    var total := reader.ReadNumber(4);
    if total.Err? { return Err(total.error); }
    if total.value == 0 || index.value >= total.value { return Err(InvalidMultipartMetadata); }
    var length := reader.ReadNumber(8);
    if length.Err? { return Err(length.error); }
    if |reader.bytes| - reader.position != length.value { return Err(LengthMismatch); }
    ghost var rest := reader.Rest();
    var payload := reader.ReadExact(length.value);
    assert rest[..|rest|] == rest;
    match payload {
      case Err(e) => r := Err(e);
      case Ok(b) => r := Ok(ProtectedSyncPart(id.value, index.value, total.value, b));
    }
  }
}
