/** What the nested readers accept: exactly the listings of a value, in any order, and nothing
    before or after them matters. */
module CodecForms {
  import opened Bytes
  import opened CausalGraph
  import opened CodecPrimitives
  import opened CoreTypes
  import opened ScalarRegisters

  lemma IdIsItsBytes(x: seq<Byte>)
    requires ReadId(x).Ok?
    ensures IdFits(ReadId(x).value.value) && x == IdBytes(ReadId(x).value.value) + ReadId(x).value.rest
  {
    hide ReadNat;
    NatIsItsBytes(x, ID_BYTES);
  }

  lemma LengthIsItsBytes(x: seq<Byte>)
    requires ReadLength(x).Ok?
    ensures LengthFits(ReadLength(x).value.value) && x == LengthBytes(ReadLength(x).value.value) + ReadLength(x).value.rest
  {
    hide ReadNat;
    U64IsEightBytes();
    NatIsItsBytes(x, 8);
  }

  lemma BlobIsItsBytes(x: seq<Byte>)
    requires ReadBlob(x).Ok?
    ensures LengthFits(|ReadBlob(x).value.value|) && x == BlobBytes(ReadBlob(x).value.value) + ReadBlob(x).value.rest
  {
    hide ReadLength, LengthBytes;
    LengthIsItsBytes(x);
    var n := ReadLength(x).value;
    assert n.rest == n.rest[..n.value] + n.rest[n.value..];
    Regroup(LengthBytes(n.value), n.rest[..n.value], n.rest[n.value..]);
  }

  // ---------------------------------------------------------------- identity sets

  /** Any listing of the set without repetition, behind its length. */
  ghost predicate IsIdSet(form: seq<Byte>, s: set<Id>) {
    exists list :: IsIdListing(form, list, s)
  }

  ghost predicate IsIdListing(form: seq<Byte>, list: seq<Id>, s: set<Id>) {
    && Distinct(list) && LengthFits(|list|) && (forall id :: id in list ==> IdFits(id)) && Members(list) == s
    && form == LengthBytes(|list|) + IdListBytes(list)
  }

  lemma {:induction false} IdsAreTheirBytes(x: seq<Byte>, count: nat, sofar: set<Id>) returns (list: seq<Id>)
    requires ReadIds(x, count, sofar).Ok?
    ensures |list| == count && Distinct(list) && forall id :: id in list ==> IdFits(id) && id !in sofar
    ensures ReadIds(x, count, sofar).value.value == sofar + Members(list)
    ensures x == IdListBytes(list) + ReadIds(x, count, sofar).value.rest
    decreases count
  {
    hide ReadId, IdBytes, IdFits;
    if count == 0 {
      list := [];
      assert IdListBytes(list) + x == x && sofar + Members(list) == sofar;
    } else {
      var id := ReadId(x).value;
      IdIsItsBytes(x);
      var rest := IdsAreTheirBytes(id.rest, count - 1, sofar + {id.value});
      list := [id.value] + rest;
      assert list[1..] == rest;
      MembersStep(list, sofar);
      Regroup(IdBytes(id.value), IdListBytes(rest), ReadIds(x, count, sofar).value.rest);
    }
  }

  /** The reader accepts exactly these, and takes nothing more. */
  lemma IdSetAccepts(x: seq<Byte>) returns (form: seq<Byte>)
    requires ReadIdSet(x).Ok?
    ensures IsIdSet(form, ReadIdSet(x).value.value) && x == form + ReadIdSet(x).value.rest
  {
    hide ReadLength, LengthBytes, ReadIds, IdListBytes, IdFits;
    LengthIsItsBytes(x);
    var n := ReadLength(x).value;
    var list := IdsAreTheirBytes(n.rest, n.value, {});
    form := LengthBytes(n.value) + IdListBytes(list);
    assert {} + Members(list) == Members(list);
    assert IsIdListing(form, list, Members(list));
    Regroup(LengthBytes(n.value), IdListBytes(list), ReadIdSet(x).value.rest);
  }

  lemma IdSetIsRead(form: seq<Byte>, s: set<Id>, tail: seq<Byte>)
    requires IsIdSet(form, s)
    ensures ReadIdSet(form + tail) == Ok(Parsed(s, tail))
  {
    hide ReadLength, LengthBytes, ReadIds, IdListBytes;
    var list :| IsIdListing(form, list, s);
    Regroup(LengthBytes(|list|), IdListBytes(list), tail);
    LengthRoundTrip(|list|, IdListBytes(list) + tail);
    IdsRoundTrip(list, {}, tail);
    assert {} + Members(list) == Members(list);
  }

  // ---------------------------------------------------------------- statements

  ghost predicate IsStatement(form: seq<Byte>, v: Revision<Content>) {
    exists c :: IsIdSet(c, v.parents) && IdFits(v.id) && LengthFits(|v.value|) && form == IdBytes(v.id) + (BlobBytes(v.value) + c)
  }

  lemma StatementAccepts(x: seq<Byte>) returns (form: seq<Byte>)
    requires ReadStatement(x).Ok?
    ensures IsStatement(form, ReadStatement(x).value.value) && x == form + ReadStatement(x).value.rest
  {
    hide ReadId, IdBytes, ReadBlob, BlobBytes, ReadIdSet, IsIdSet, IdFits;
    var id := ReadId(x).value;
    IdIsItsBytes(x);
    var value := ReadBlob(id.rest).value;
    BlobIsItsBytes(id.rest);
    var c := IdSetAccepts(value.rest);
    form := IdBytes(id.value) + (BlobBytes(value.value) + c);
    Regroup(BlobBytes(value.value), c, ReadStatement(x).value.rest);
    Regroup(IdBytes(id.value), BlobBytes(value.value) + c, ReadStatement(x).value.rest);
  }

  lemma StatementIsRead(form: seq<Byte>, v: Revision<Content>, tail: seq<Byte>)
    requires IsStatement(form, v)
    ensures ReadStatement(form + tail) == Ok(Parsed(v, tail))
  {
    hide ReadId, IdBytes, ReadBlob, BlobBytes, ReadIdSet, IsIdSet, IdFits;
    var c :| IsIdSet(c, v.parents) && IdFits(v.id) && LengthFits(|v.value|) && form == IdBytes(v.id) + (BlobBytes(v.value) + c);
    Regroup(IdBytes(v.id), BlobBytes(v.value) + c, tail);
    Regroup(BlobBytes(v.value), c, tail);
    IdRoundTrip(v.id, BlobBytes(v.value) + (c + tail));
    BlobRoundTrip(v.value, c + tail);
    IdSetIsRead(c, v.parents, tail);
  }

  ghost predicate AreStatements(form: seq<Byte>, list: seq<Revision<Content>>)
    decreases |list|
  {
    if list == [] then form == []
    else exists a, b :: form == a + b && IsStatement(a, list[0]) && AreStatements(b, list[1..])
  }

  lemma {:induction false} StatementsAccept(x: seq<Byte>, count: nat, sofar: seq<Revision<Content>>)
    returns (form: seq<Byte>, list: seq<Revision<Content>>)
    requires ReadStatements(x, count, sofar).Ok?
    ensures |list| == count && AreStatements(form, list) && ReadStatements(x, count, sofar).value.value == sofar + list
    ensures x == form + ReadStatements(x, count, sofar).value.rest
    decreases count
  {
    hide ReadStatement, IsStatement;
    if count == 0 {
      form, list := [], [];
      assert form + x == x && sofar + list == sofar;
    } else {
      var v := ReadStatement(x).value;
      var a := StatementAccepts(x);
      var b, rest := StatementsAccept(v.rest, count - 1, sofar + [v.value]);
      form, list := a + b, [v.value] + rest;
      assert list[1..] == rest && sofar + [v.value] + rest == sofar + list;
      Regroup(a, b, ReadStatements(x, count, sofar).value.rest);
    }
  }

  lemma {:induction false} StatementsAreRead(form: seq<Byte>, list: seq<Revision<Content>>, sofar: seq<Revision<Content>>, tail: seq<Byte>)
    requires AreStatements(form, list)
    ensures ReadStatements(form + tail, |list|, sofar) == Ok(Parsed(sofar + list, tail))
    decreases |list|
  {
    hide ReadStatement, IsStatement;
    if list == [] {
      assert form + tail == tail && sofar + list == sofar;
    } else {
      var a, b :| form == a + b && IsStatement(a, list[0]) && AreStatements(b, list[1..]);
      Regroup(a, b, tail);
      StatementIsRead(a, list[0], b + tail);
      StatementsAreRead(b, list[1..], sofar + [list[0]], tail);
      assert sofar + [list[0]] + list[1..] == sofar + list;
    }
  }

  // ---------------------------------------------------------------- registers

  /** Statements that list exactly a valid register, equal repetitions allowed. */
  ghost predicate IsRegister(form: seq<Byte>, g: Graph<Content>) {
    exists c, list :: AreStatements(c, list) && LengthFits(|list|) && Valid(g) && Lists(g, list) && form == LengthBytes(|list|) + c
  }

  lemma RegisterOfIs(g: Graph<Content>, list: seq<Revision<Content>>)
    ensures RegisterOf(list) == Some(g) <==> Valid(g) && Lists(g, list)
  {
    if Valid(g) && Lists(g, list) { ListsDetermine(g, RegisterOf(list).value, list); }
  }

  lemma RegisterAccepts(x: seq<Byte>) returns (form: seq<Byte>)
    requires ReadRegister(x).Ok?
    ensures IsRegister(form, ReadRegister(x).value.value) && x == form + ReadRegister(x).value.rest
  {
    hide ReadLength, LengthBytes, ReadStatements, AreStatements, Valid, Lists;
    LengthIsItsBytes(x);
    var n := ReadLength(x).value;
    var c, list := StatementsAccept(n.rest, n.value, []);
    assert [] + list == list;
    RegisterOfIs(ReadRegister(x).value.value, list);
    form := LengthBytes(n.value) + c;
    Regroup(LengthBytes(n.value), c, ReadRegister(x).value.rest);
  }

  lemma RegisterIsRead(form: seq<Byte>, g: Graph<Content>, tail: seq<Byte>)
    requires IsRegister(form, g)
    ensures ReadRegister(form + tail) == Ok(Parsed(g, tail))
  {
    hide ReadLength, LengthBytes, ReadStatements, AreStatements, Valid, Lists;
    var c, list :| AreStatements(c, list) && LengthFits(|list|) && Valid(g) && Lists(g, list) && form == LengthBytes(|list|) + c;
    Regroup(LengthBytes(|list|), c, tail);
    LengthRoundTrip(|list|, c + tail);
    StatementsAreRead(c, list, [], tail);
    assert [] + list == list;
    RegisterOfIs(g, list);
  }

  // ---------------------------------------------------------------- headers

  lemma HeaderIsRead(x: seq<Byte>, magic: seq<Byte>)
    ensures ReadHeader(x, magic).Ok? <==> |HeaderBytes(magic)| <= |x| && x[..|HeaderBytes(magic)|] == HeaderBytes(magic)
    ensures ReadHeader(x, magic).Ok? ==> x == HeaderBytes(magic) + ReadHeader(x, magic).value.rest
  {
    hide ReadNat;
    if ReadHeader(x, magic).Ok? {
      HeaderIsItsBytes(x, magic);
    } else if |HeaderBytes(magic)| <= |x| && x[..|HeaderBytes(magic)|] == HeaderBytes(magic) {
      assert x == HeaderBytes(magic) + x[|HeaderBytes(magic)|..];
      HeaderRoundTrip(magic, x[|HeaderBytes(magic)|..]);
    }
  }

  // ---------------------------------------------------------------- refusals

  /** Which refusal a header meets: too short, another magic, another version. */
  lemma HeaderRefusals(x: seq<Byte>, magic: seq<Byte>)
    ensures ReadHeader(x, magic).Err? ==>
              match ReadHeader(x, magic).error
              case UnexpectedEof => |x| < |magic| + 2
              case InvalidMagic => |x| >= |magic| && x[..|magic|] != magic
              case UnsupportedVersion(v) => |x| >= |magic| + 2 && x[..|magic|] == magic && v == FromBE(x[|magic|..][..2]) != VERSION
              case _ => false
  {
  }

  lemma RepeatedIdRefused(id: Id, count: nat, sofar: set<Id>, tail: seq<Byte>)
    requires IdFits(id) && id in sofar && count > 0
    ensures ReadIds(IdBytes(id) + tail, count, sofar) == Err(DuplicateRevisionInSet)
  {
    hide ReadId, IdBytes;
    IdRoundTrip(id, tail);
  }
}
