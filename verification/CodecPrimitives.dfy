/** What the nested codecs are made of: length-prefixed bytes, fixed-width identities, sets
    and registers, each with its reading function, its reading method and the lemma that
    reading undoes writing. */
module CodecPrimitives {
  import opened Bytes
  import opened CausalGraph
  import opened CoreTypes
  import opened ScalarRegisters

  type Content = seq<Byte>

  datatype CodecError =
    | InvalidMagic
    | UnsupportedVersion(version: nat)
    | UnexpectedEof
    | TrailingBytes
    | InvalidBoolean
    | EmptyDomainIdentifier
    | DuplicateDomain
    | DuplicateRevisionInSet
    | DuplicateFinalizedStatement
    | EmptyTransportCursor
    | EmptyOutbox
    | EmptyOutboxObject
    | DuplicatePublication
    | InvalidMultipartMetadata
    | LengthMismatch
    | Core

  /** A value read from the front of some bytes, and the bytes after it. */
  datatype Parsed<+T> = Parsed(value: T, rest: seq<Byte>)

  type Reading<+T> = Result<Parsed<T>, CodecError>

  const VERSION: nat := 1
  const ID_BYTES: nat := 32

  ghost predicate IdFits(id: Id) {
    id < Pow256(ID_BYTES)
  }

  ghost predicate IdsFit(s: set<Id>) {
    |s| < U64_LIMIT && forall id :: id in s ==> IdFits(id)
  }

  predicate LengthFits(n: nat) {
    n < U64_LIMIT
  }

  // ---------------------------------------------------------------- fixed widths and blobs

  function Take(s: seq<Byte>, n: nat): Reading<seq<Byte>> {
    if n <= |s| then Ok(Parsed(s[..n], s[n..])) else Err(UnexpectedEof)
  }

  function ReadNat(s: seq<Byte>, width: nat): Reading<nat> {
    var p :- Take(s, width);
    Ok(Parsed(FromBE(p.value), p.rest))
  }

  function LengthBytes(n: nat): seq<Byte> { ToBE(n, 8) }

  function ReadLength(s: seq<Byte>): Reading<nat> { ReadNat(s, 8) }

  function IdBytes(id: Id): seq<Byte> { ToBE(id, ID_BYTES) }

  function ReadId(s: seq<Byte>): Reading<Id> { ReadNat(s, ID_BYTES) }

  function BlobBytes(b: seq<Byte>): seq<Byte> { LengthBytes(|b|) + b }

  function ReadBlob(s: seq<Byte>): Reading<seq<Byte>> {
    var n :- ReadLength(s);
    Take(n.rest, n.value)
  }

  lemma TakeFront(a: seq<Byte>, tail: seq<Byte>)
    ensures Take(a + tail, |a|) == Ok(Parsed(a, tail))
  {
    assert (a + tail)[..|a|] == a && (a + tail)[|a|..] == tail;
  }

  lemma NatRoundTrip(n: nat, width: nat, tail: seq<Byte>)
    requires n < Pow256(width)
    ensures ReadNat(ToBE(n, width) + tail, width) == Ok(Parsed(n, tail))
  {
    TakeFront(ToBE(n, width), tail);
    FromToBE(n, width);
  }

  lemma LengthRoundTrip(n: nat, tail: seq<Byte>)
    requires LengthFits(n)
    ensures ReadLength(LengthBytes(n) + tail) == Ok(Parsed(n, tail))
  {
    hide ReadNat;
    U64IsEightBytes();
    NatRoundTrip(n, 8, tail);
  }

  lemma IdRoundTrip(id: Id, tail: seq<Byte>)
    requires IdFits(id)
    ensures ReadId(IdBytes(id) + tail) == Ok(Parsed(id, tail))
  {
    hide ReadNat;
    NatRoundTrip(id, ID_BYTES, tail);
  }

  lemma Regroup(a: seq<Byte>, b: seq<Byte>, tail: seq<Byte>)
    ensures (a + b) + tail == a + (b + tail)
  {
  }

  lemma BlobRoundTrip(b: seq<Byte>, tail: seq<Byte>)
    requires LengthFits(|b|)
    ensures ReadBlob(BlobBytes(b) + tail) == Ok(Parsed(b, tail))
  {
    hide ReadLength, LengthBytes, Take;
    Regroup(LengthBytes(|b|), b, tail);
    LengthRoundTrip(|b|, b + tail);
    TakeFront(b, tail);
  }

  // ---------------------------------------------------------------- headers

  function HeaderBytes(magic: seq<Byte>): seq<Byte> {
    magic + ToBE(VERSION, 2)
  }

  function ReadHeader(s: seq<Byte>, magic: seq<Byte>): Reading<Unit> {
    var m :- Take(s, |magic|);
    if m.value != magic then Err(InvalidMagic) else
    var v :- ReadNat(m.rest, 2);
    if v.value != VERSION then Err(UnsupportedVersion(v.value)) else Ok(Parsed(Unit, v.rest))
  }

  lemma HeaderRoundTrip(magic: seq<Byte>, tail: seq<Byte>)
    ensures ReadHeader(HeaderBytes(magic) + tail, magic) == Ok(Parsed(Unit, tail))
  {
    hide ReadNat, Take;
    assert Pow256(1) == 256 && Pow256(2) == 0x1_0000;
    Regroup(magic, ToBE(VERSION, 2), tail);
    TakeFront(magic, ToBE(VERSION, 2) + tail);
    NatRoundTrip(VERSION, 2, tail);
  }

  lemma NatIsItsBytes(s: seq<Byte>, width: nat)
    requires ReadNat(s, width).Ok?
    ensures s == ToBE(ReadNat(s, width).value.value, width) + ReadNat(s, width).value.rest
    ensures ReadNat(s, width).value.value < Pow256(width)
  {
    ToFromBE(s[..width]);
    assert s == s[..width] + s[width..];
  }

  lemma HeaderIsItsBytes(s: seq<Byte>, magic: seq<Byte>)
    requires ReadHeader(s, magic).Ok?
    ensures s == HeaderBytes(magic) + ReadHeader(s, magic).value.rest
  {
    hide ReadNat;
    var m := Take(s, |magic|).value;
    NatIsItsBytes(m.rest, 2);
    assert s == m.value + m.rest;
    Regroup(magic, ToBE(VERSION, 2), ReadNat(m.rest, 2).value.rest);
  }

  // ---------------------------------------------------------------- identity sets

  ghost function IdListBytes(list: seq<Id>): seq<Byte> {
    if list == [] then [] else IdBytes(list[0]) + IdListBytes(list[1..])
  }

  ghost function IdSetBytes(s: set<Id>): seq<Byte> {
    LengthBytes(|s|) + IdListBytes(Ascending(s))
  }

  function ReadIds(s: seq<Byte>, count: nat, sofar: set<Id>): Reading<set<Id>>
    decreases count
  {
    if count == 0 then Ok(Parsed(sofar, s)) else
    var id :- ReadId(s);
    if id.value in sofar then Err(DuplicateRevisionInSet) else ReadIds(id.rest, count - 1, sofar + {id.value})
  }

  function ReadIdSet(s: seq<Byte>): Reading<set<Id>> {
    var n :- ReadLength(s);
    ReadIds(n.rest, n.value, {})
  }

  ghost function Members(list: seq<Id>): set<Id> {
    set id | id in list
  }

  lemma MembersStep(list: seq<Id>, sofar: set<Id>)
    requires list != []
    ensures sofar + {list[0]} + Members(list[1..]) == sofar + Members(list)
  {
    assert list == [list[0]] + list[1..];
  }

  lemma {:induction false} IdsRoundTrip(list: seq<Id>, sofar: set<Id>, tail: seq<Byte>)
    requires Distinct(list) && forall id :: id in list ==> IdFits(id) && id !in sofar
    ensures ReadIds(IdListBytes(list) + tail, |list|, sofar) == Ok(Parsed(sofar + Members(list), tail))
    decreases |list|
  {
    hide ReadId, IdBytes;
    if list == [] {
      assert IdListBytes(list) + tail == tail;
      assert sofar + Members(list) == sofar;
    } else {
      Regroup(IdBytes(list[0]), IdListBytes(list[1..]), tail);
      IdRoundTrip(list[0], IdListBytes(list[1..]) + tail);
      IdsRoundTrip(list[1..], sofar + {list[0]}, tail);
      MembersStep(list, sofar);
    }
  }

  lemma IdSetRoundTrip(s: set<Id>, tail: seq<Byte>)
    requires IdsFit(s)
    ensures ReadIdSet(IdSetBytes(s) + tail) == Ok(Parsed(s, tail))
  {
    hide ReadLength, LengthBytes, ReadIds, IdListBytes;
    var list := Ascending(s);
    AscendingDistinct(s);
    Regroup(LengthBytes(|s|), IdListBytes(list), tail);
    LengthRoundTrip(|s|, IdListBytes(list) + tail);
    IdsRoundTrip(list, {}, tail);
    MembersOfAscending(s);
  }

  lemma MembersOfAscending(s: set<Id>)
    ensures {} + Members(Ascending(s)) == s
  {
  }

  // ---------------------------------------------------------------- maps read entry by entry

  ghost function Chosen<K(!new), V>(m: map<K, V>, order: seq<K>): (q: map<K, V>)
    requires forall k :: k in order ==> k in m
    ensures forall k :: k in q <==> k in order
    ensures forall k :: k in q ==> q[k] == m[k]
  {
    map k | k in order :: m[k]
  }

  lemma ChosenStep<K(!new), V>(m: map<K, V>, order: seq<K>, sofar: map<K, V>)
    requires order != [] && forall k :: k in order ==> k in m
    ensures sofar[order[0] := m[order[0]]] + Chosen(m, order[1..]) == sofar + Chosen(m, order)
  {
    hide Chosen;
    var k, rest := order[0], order[1..];
    assert forall x :: x in order <==> x == k || x in rest by { assert order == [k] + rest; }
    AddFront(sofar, k, m[k], Chosen(m, rest), Chosen(m, order));
  }

  lemma AddFront<K(!new), V>(m: map<K, V>, d: K, v: V, a: map<K, V>, b: map<K, V>)
    requires forall k :: k in b <==> k == d || k in a
    requires d in a ==> a[d] == v
    requires forall k :: k in b ==> b[k] == if k in a then a[k] else v
    ensures m[d := v] + a == m + b
  {
  }

  lemma ChosenAll<K(!new), V>(m: map<K, V>, order: seq<K>)
    requires forall k :: k in order <==> k in m
    ensures map[] + Chosen(m, order) == m
  {
  }

  // ---------------------------------------------------------------- statements and registers

  ghost function StatementBytes(id: Id, value: Content, parents: set<Id>): seq<Byte> {
    IdBytes(id) + (BlobBytes(value) + IdSetBytes(parents))
  }

  function ReadStatement(s: seq<Byte>): Reading<Revision<Content>> {
    var id :- ReadId(s);
    var value :- ReadBlob(id.rest);
    var parents :- ReadIdSet(value.rest);
    Ok(Parsed(Revision(id.value, value.value, parents.value), parents.rest))
  }

  ghost predicate StatementFits(v: Revision<Content>) {
    IdFits(v.id) && LengthFits(|v.value|) && IdsFit(v.parents)
  }

  lemma StatementRoundTrip(v: Revision<Content>, tail: seq<Byte>)
    requires StatementFits(v)
    ensures ReadStatement(StatementBytes(v.id, v.value, v.parents) + tail) == Ok(Parsed(v, tail))
  {
    hide ReadId, IdBytes, ReadBlob, BlobBytes, ReadIdSet, IdSetBytes;
    var b, c := BlobBytes(v.value), IdSetBytes(v.parents);
    Regroup(IdBytes(v.id), b + c, tail);
    Regroup(b, c, tail);
    IdRoundTrip(v.id, b + (c + tail));
    BlobRoundTrip(v.value, c + tail);
    IdSetRoundTrip(v.parents, tail);
  }

  ghost function StatementListBytes(m: map<Id, Revision<Content>>, order: seq<Id>): seq<Byte>
    requires forall k :: k in order ==> k in m
  {
    if order == [] then []
    else StatementBytes(order[0], m[order[0]].value, m[order[0]].parents) + StatementListBytes(m, order[1..])
  }

  /** Statements keyed by identity, written under their keys in ascending order. */
  ghost function StatementMapBytes(m: map<Id, Revision<Content>>): seq<Byte> {
    LengthBytes(|m|) + StatementListBytes(m, Ascending(m.Keys))
  }

  function ReadStatements(s: seq<Byte>, count: nat, sofar: seq<Revision<Content>>): Reading<seq<Revision<Content>>>
    decreases count
  {
    if count == 0 then Ok(Parsed(sofar, s)) else
    var v :- ReadStatement(s);
    ReadStatements(v.rest, count - 1, sofar + [v.value])
  }

  /** What importing a list of statements yields. */
  ghost function RegisterOf(list: seq<Revision<Content>>): Option<Graph<Content>> {
    if exists g :: Valid(g) && Lists(g, list) then (var g :| Valid(g) && Lists(g, list); Some(g)) else None
  }

  ghost function ReadRegister(s: seq<Byte>): Reading<Graph<Content>> {
    var n :- ReadLength(s);
    var list :- ReadStatements(n.rest, n.value, []);
    match RegisterOf(list.value)
    case None => Err(Core)
    case Some(g) => Ok(Parsed(g, list.rest))
  }

  ghost predicate StatementsFit(m: map<Id, Revision<Content>>) {
    |m| < U64_LIMIT && Keyed(m) && forall k :: k in m ==> StatementFits(m[k])
  }

  ghost function Listed(m: map<Id, Revision<Content>>, order: seq<Id>): (list: seq<Revision<Content>>)
    requires forall k :: k in order ==> k in m
    ensures |list| == |order| && forall i :: 0 <= i < |order| ==> list[i] == m[order[i]]
  {
    if order == [] then [] else [m[order[0]]] + Listed(m, order[1..])
  }

  lemma {:induction false} StatementsRoundTrip(m: map<Id, Revision<Content>>, order: seq<Id>, sofar: seq<Revision<Content>>, tail: seq<Byte>)
    requires StatementsFit(m) && forall k :: k in order ==> k in m
    ensures ReadStatements(StatementListBytes(m, order) + tail, |order|, sofar) == Ok(Parsed(sofar + Listed(m, order), tail))
    decreases |order|
  {
    hide ReadStatement, StatementBytes, StatementFits;
    if order == [] {
      assert StatementListBytes(m, order) + tail == tail;
      assert sofar + Listed(m, order) == sofar;
    } else {
      var v := m[order[0]];
      Regroup(StatementBytes(order[0], v.value, v.parents), StatementListBytes(m, order[1..]), tail);
      StatementRoundTrip(v, StatementListBytes(m, order[1..]) + tail);
      StatementsRoundTrip(m, order[1..], sofar + [v], tail);
      assert sofar + [v] + Listed(m, order[1..]) == sofar + Listed(m, order);
    }
  }

  lemma RegisterOfListed(g: Graph<Content>)
    requires Valid(g)
    ensures RegisterOf(Listed(g, Ascending(g.Keys))) == Some(g)
  {
    var order := Ascending(g.Keys);
    var list := Listed(g, order);
    assert Lists(g, list) by {
      forall k | k in g ensures g[k] in list { var i :| 0 <= i < |order| && order[i] == k; assert list[i] == g[k]; }
      forall v | v in list ensures v.id in g && g[v.id] == v { var i :| 0 <= i < |list| && list[i] == v; assert order[i] in g; }
    }
    ListsDetermine(g, RegisterOf(list).value, list);
  }

  lemma RegisterRoundTrip(g: Graph<Content>, tail: seq<Byte>)
    requires Valid(g) && StatementsFit(g)
    ensures ReadRegister(StatementMapBytes(g) + tail) == Ok(Parsed(g, tail))
  {
    hide ReadLength, LengthBytes, ReadStatements, StatementListBytes, RegisterOf, Listed;
    var order := Ascending(g.Keys);
    assert |g| == |g.Keys|;
    Regroup(LengthBytes(|g|), StatementListBytes(g, order), tail);
    LengthRoundTrip(|g|, StatementListBytes(g, order) + tail);
    StatementsRoundTrip(g, order, [], tail);
    assert [] + Listed(g, order) == Listed(g, order);
    RegisterOfListed(g);
  }
}
