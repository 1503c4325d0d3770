/** The order domain keys are written in: by atom, then by the domain bytes. */
module DomainKeyOrder {
  import opened Bytes
  import opened CausalGraph
  import opened RangeAssembly

  predicate BytesBelow(a: seq<Byte>, b: seq<Byte>)
    decreases |a|
  {
    if b == [] then false
    else if a == [] then true
    else a[0] < b[0] || (a[0] == b[0] && BytesBelow(a[1..], b[1..]))
  }

  predicate KeyBelow(a: DomainKey, b: DomainKey) {
    a.atomId < b.atomId || (a.atomId == b.atomId && BytesBelow(a.domain, b.domain))
  }

  /** The first difference decides; a string sorts before its extensions. */
  lemma {:induction false} BytesOrderIsLexicographic(a: seq<Byte>, b: seq<Byte>, k: nat)
    requires k <= |a| && k <= |b| && a[..k] == b[..k]
    requires k == |a| || k == |b| || a[k] != b[k]
    ensures BytesBelow(a, b) <==> if k < |a| && k < |b| then a[k] < b[k] else |a| < |b|
    decreases k
  {
    if k > 0 {
      assert a[0] == a[..k][0] && b[0] == b[..k][0];
      assert a[1..][..k - 1] == a[..k][1..] && b[1..][..k - 1] == b[..k][1..];
      BytesOrderIsLexicographic(a[1..], b[1..], k - 1);
    }
  }

  /** Keys are compared by atom first. */
  lemma KeyOrderIsByAtom(a: DomainKey, b: DomainKey)
    ensures a.atomId != b.atomId ==> (KeyBelow(a, b) <==> a.atomId < b.atomId)
    ensures a.atomId == b.atomId ==> (KeyBelow(a, b) <==> BytesBelow(a.domain, b.domain))
  {
  }

  lemma {:induction false} BytesOrderIsStrictAndTotal(a: seq<Byte>, b: seq<Byte>, c: seq<Byte>)
    ensures !(BytesBelow(a, b) && BytesBelow(b, a)) && !BytesBelow(a, a)
    ensures BytesBelow(a, b) || BytesBelow(b, a) || a == b
    ensures BytesBelow(a, b) && BytesBelow(b, c) ==> BytesBelow(a, c)
    decreases |a|
  {
    if a != [] {
      var b', c' := if b == [] then [] else b[1..], if c == [] then [] else c[1..];
      BytesOrderIsStrictAndTotal(a[1..], b', c');
      if b != [] && a[0] == b[0] && a[1..] == b[1..] { assert a == [a[0]] + a[1..] && b == [b[0]] + b[1..]; }
    }
  }

  lemma KeyOrderIsStrictAndTotal(a: DomainKey, b: DomainKey, c: DomainKey)
    ensures !(KeyBelow(a, b) && KeyBelow(b, a)) && !KeyBelow(a, a)
    ensures KeyBelow(a, b) || KeyBelow(b, a) || a == b
    ensures KeyBelow(a, b) && KeyBelow(b, c) ==> KeyBelow(a, c)
  {
    BytesOrderIsStrictAndTotal(a.domain, b.domain, c.domain);
    BytesOrderIsStrictAndTotal(a.domain, a.domain, a.domain);
  }

  ghost predicate IsLeastKey(m: DomainKey, s: set<DomainKey>) {
    m in s && forall x :: x in s && x != m ==> KeyBelow(m, x)
  }

  method LeastKey(s: set<DomainKey>) returns (m: DomainKey)
    requires s != {}
    ensures IsLeastKey(m, s)
  {
    hide KeyBelow;
    m :| m in s;
    var rest := s - {m};
    while rest != {}
      invariant m in s && rest <= s
      invariant forall x :: x in s && x !in rest && x != m ==> KeyBelow(m, x)
    {
      var y :| y in rest;
      rest := rest - {y};
      forall x | x in s ensures KeyBelow(y, m) && KeyBelow(m, x) ==> KeyBelow(y, x) { KeyOrderIsStrictAndTotal(y, m, x); }
      KeyOrderIsStrictAndTotal(y, m, m);
      if KeyBelow(y, m) { m := y; }
    }
  }

  lemma {:induction false} LeastKeyExists(s: set<DomainKey>)
    requires s != {}
    ensures exists m :: IsLeastKey(m, s)
    decreases |s|
  {
    hide KeyBelow;
    var x :| x in s;
    var rest := s - {x};
    if rest == {} {
      assert s == {x};
      assert IsLeastKey(x, s);
    } else {
      LeastKeyExists(rest);
      var m :| IsLeastKey(m, rest);
      KeyOrderIsStrictAndTotal(x, m, m);
      if KeyBelow(x, m) {
        forall y | y in s && y != x ensures KeyBelow(x, y) { KeyOrderIsStrictAndTotal(x, m, y); }
        assert IsLeastKey(x, s);
      } else {
        assert IsLeastKey(m, s);
      }
    }
  }

  lemma LeastKeyIsUnique(m: DomainKey, n: DomainKey, s: set<DomainKey>)
    requires IsLeastKey(m, s) && IsLeastKey(n, s)
    ensures m == n
  {
    KeyOrderIsStrictAndTotal(m, n, n);
  }

  /** The keys in ascending order. */
  ghost function KeyOrder(s: set<DomainKey>): (list: seq<DomainKey>)
    ensures |list| == |s| && forall x :: x in list <==> x in s
    decreases |s|
  {
    if s == {} then [] else
    LeastKeyExists(s);
    var m :| IsLeastKey(m, s);
    [m] + KeyOrder(s - {m})
  }

  lemma KeyOrderStep(s: set<DomainKey>, m: DomainKey)
    requires IsLeastKey(m, s)
    ensures KeyOrder(s) == [m] + KeyOrder(s - {m})
  {
    LeastKeyExists(s);
    var k :| IsLeastKey(k, s) && KeyOrder(s) == [k] + KeyOrder(s - {k});
    LeastKeyIsUnique(m, k, s);
  }

  lemma {:induction false} KeyOrderDistinct(s: set<DomainKey>)
    ensures forall i, j :: 0 <= i < j < |KeyOrder(s)| ==> KeyBelow(KeyOrder(s)[i], KeyOrder(s)[j]) && KeyOrder(s)[i] != KeyOrder(s)[j]
    decreases |s|
  {
    if s != {} {
      LeastKeyExists(s);
      var m :| IsLeastKey(m, s);
      KeyOrderStep(s, m);
      KeyOrderDistinct(s - {m});
      var list := KeyOrder(s);
      forall i, j | 0 <= i < j < |list| ensures KeyBelow(list[i], list[j]) && list[i] != list[j] {
        if i == 0 { assert list[j] in KeyOrder(s - {m}) && list[j] in s && list[j] != m; }
      }
    }
  }
}

/** The clear projection encoding, before protection. */
module ProjectionCodec {
  import opened Bytes
  import opened CausalGraph
  import opened CodecIo
  import opened CodecPrimitives
  import opened CoreTypes
  import opened DomainKeyOrder
  import opened RangeAssembly
  import opened ScalarRegisters

  function ProjectionMagic(): seq<Byte> { Ascii("APCSYNC1") }

  ghost function DomainBytes(d: DomainKey, g: Graph<Content>): seq<Byte> {
    IdBytes(d.atomId) + (BlobBytes(d.domain) + StatementMapBytes(g))
  }

  ghost function DomainListBytes(p: Projection, order: seq<DomainKey>): seq<Byte>
    requires forall d :: d in order ==> d in p
  {
    if order == [] then [] else DomainBytes(order[0], p[order[0]]) + DomainListBytes(p, order[1..])
  }

  ghost function ProjectionBytes(p: Projection): seq<Byte> {
    HeaderBytes(ProjectionMagic()) + (LengthBytes(|p|) + DomainListBytes(p, KeyOrder(p.Keys)))
  }

  /** A domain key must name a domain. */
  function ReadDomainKey(s: seq<Byte>): Reading<DomainKey> {
    var atom :- ReadId(s);
    var domain :- ReadBlob(atom.rest);
    if domain.value == [] then Err(EmptyDomainIdentifier)
    else Ok(Parsed(DomainKey(atom.value, domain.value), domain.rest))
  }

  ghost function ReadDomains(s: seq<Byte>, count: nat, sofar: Projection): Reading<Projection>
    decreases count
  {
    if count == 0 then Ok(Parsed(sofar, s)) else
    var key :- ReadDomainKey(s);
    var g :- ReadRegister(key.rest);
    if key.value in sofar then Err(DuplicateDomain) else ReadDomains(g.rest, count - 1, sofar[key.value := g.value])
  }

  ghost function DecodedProjection(s: seq<Byte>): Result<Projection, CodecError> {
    var h :- ReadHeader(s, ProjectionMagic());
    var n :- ReadLength(h.rest);
    var p :- ReadDomains(n.rest, n.value, map[]);
    if p.rest == [] then Ok(p.value) else Err(TrailingBytes)
  }

  ghost predicate KeyFits(d: DomainKey) {
    IdFits(d.atomId) && LengthFits(|d.domain|) && d.domain != []
  }

  /** Within the widths of the encoding, with domain keys as their constructor makes them. */
  ghost predicate ProjectionFits(p: Projection) {
    |p| < U64_LIMIT && forall d :: d in p ==> KeyFits(d) && StatementsFit(p[d])
  }

  lemma DomainKeyRoundTrip(d: DomainKey, tail: seq<Byte>)
    requires KeyFits(d)
    ensures ReadDomainKey(IdBytes(d.atomId) + (BlobBytes(d.domain) + tail)) == Ok(Parsed(d, tail))
  {
    hide ReadId, IdBytes, ReadBlob, BlobBytes;
    IdRoundTrip(d.atomId, BlobBytes(d.domain) + tail);
    BlobRoundTrip(d.domain, tail);
  }

  lemma DomainSplits(d: DomainKey, g: Graph<Content>, tail: seq<Byte>)
    ensures DomainBytes(d, g) + tail == IdBytes(d.atomId) + (BlobBytes(d.domain) + (StatementMapBytes(g) + tail))
  {
    hide IdBytes, BlobBytes, StatementMapBytes;
    Regroup(IdBytes(d.atomId), BlobBytes(d.domain) + StatementMapBytes(g), tail);
    Regroup(BlobBytes(d.domain), StatementMapBytes(g), tail);
  }

  lemma {:induction false} DomainsRoundTrip(p: Projection, order: seq<DomainKey>, sofar: Projection, tail: seq<Byte>)
    requires ProjectionFits(p) && ValidRegisters(p) && Distinct(order)
    requires forall d :: d in order ==> d in p && d !in sofar
    ensures ReadDomains(DomainListBytes(p, order) + tail, |order|, sofar) == Ok(Parsed(sofar + Chosen(p, order), tail))
    decreases |order|
  {
    hide ReadDomainKey, ReadRegister, DomainBytes, StatementMapBytes, StatementsFit, KeyFits, Valid, IdBytes, BlobBytes;
    if order == [] {
      assert DomainListBytes(p, order) + tail == tail;
      assert sofar + Chosen(p, order) == sofar;
    } else {
      var d, g, rest := order[0], p[order[0]], DomainListBytes(p, order[1..]) + tail;
      Regroup(DomainBytes(d, g), DomainListBytes(p, order[1..]), tail);
      DomainSplits(d, g, rest);
      DomainKeyRoundTrip(d, StatementMapBytes(g) + rest);
      RegisterRoundTrip(g, rest);
      DomainsRoundTrip(p, order[1..], sofar[d := g], tail);
      ChosenStep(p, order, sofar);
    }
  }

  /** Every projection of valid registers comes back, and every byte is consumed. */
  lemma ProjectionRoundTrip(p: Projection)
    requires ProjectionFits(p) && ValidRegisters(p)
    ensures DecodedProjection(ProjectionBytes(p)) == Ok(p)
  {
    hide HeaderBytes, ReadHeader, LengthBytes, ReadLength;
    hide DomainListBytes, ReadDomains, KeyOrder, Chosen, ProjectionMagic;
    var order := KeyOrder(p.Keys);
    assert |p| == |p.Keys|;
    KeyOrderDistinct(p.Keys);
    HeaderRoundTrip(ProjectionMagic(), LengthBytes(|p|) + DomainListBytes(p, order));
    LengthRoundTrip(|p|, DomainListBytes(p, order));
    assert DomainListBytes(p, order) + [] == DomainListBytes(p, order);
    DomainsRoundTrip(p, order, map[], []);
    ChosenAll(p, order);
  }

  // ---------------------------------------------------------------- the code

  method WriteDomain(out: seq<Byte>, d: DomainKey, g: Graph<Content>) returns (next: seq<Byte>)
    requires KeyFits(d) && StatementsFit(g)
    ensures next == out + DomainBytes(d, g)
  {
    hide IdBytes, BlobBytes, StatementMapBytes;
    next := out + IdBytes(d.atomId);
    next := WriteBlob(next, d.domain);
    next := WriteStatementMap(next, g);
  }

  method IsValidRegister(g: Graph<Content>) returns (ok: bool)
    requires Keyed(g)
    ensures ok <==> Valid(g)
  {
    var register := new ScalarRegister.FromGraph(g);
    var checked := register.Validate();
    ok := checked.Ok?;
  }

  /** Validates every register before writing it. */
  method EncodeScalarProjection(p: Projection) returns (r: Result<seq<Byte>, CodecError>)
    requires ProjectionFits(p)
    ensures r == if ValidRegisters(p) then Ok(ProjectionBytes(p)) else Err(CodecError.Core)
  {
    hide HeaderBytes, LengthBytes, DomainBytes, KeyFits, StatementsFit, Valid;
    var out := HeaderBytes(ProjectionMagic());
    out := out + LengthBytes(|p|);
    var todo := p.Keys;
    while todo != {}
      invariant todo <= p.Keys
      invariant forall d :: d in p && d !in todo ==> Valid(p[d])
      invariant out + DomainListBytes(p, KeyOrder(todo)) == ProjectionBytes(p)
    {
      var d := LeastKey(todo);
      assert Keyed(p[d]) by { FitsIsKeyed(p[d]); }
      var ok := IsValidRegister(p[d]);
      if !ok { return Err(CodecError.Core); }
      KeyOrderStep(todo, d);
      todo := todo - {d};
      Regroup(out, DomainBytes(d, p[d]), DomainListBytes(p, KeyOrder(todo)));
      out := WriteDomain(out, d, p[d]);
    }
    assert KeyOrder(todo) == [] && out + [] == out;
    r := Ok(out);
  }

  lemma FitsIsKeyed(g: Graph<Content>)
    requires StatementsFit(g)
    ensures Keyed(g)
  {
  }

  method ReadKey(reader: Reader) returns (r: Result<DomainKey, CodecError>)
    requires reader.Valid()
    modifies reader
    ensures reader.Valid() && Did(ReadDomainKey(old(reader.Rest())), r, reader.Rest())
  {
    hide ReadNat, ReadBlob;
    var atom := reader.ReadNumber(ID_BYTES);
    match atom {
      case Err(e) => return Err(e);
      case Ok(id) =>
        var domain := reader.ReadBytes();
        match domain {
          case Err(e) => r := Err(e);
          case Ok(b) => r := if b == [] then Err(EmptyDomainIdentifier) else Ok(DomainKey(id, b));
        }
    }
  }

  method DecodeScalarProjection(encoded: seq<Byte>) returns (r: Result<Projection, CodecError>)
    ensures r == DecodedProjection(encoded)
  {
    hide ReadHeader, ReadNat, ReadDomainKey, ReadRegister;
    var reader := new Reader(encoded);
    var header := reader.ReadHeaderOf(ProjectionMagic());
    if header.Err? { return Err(header.error); }
    var length := reader.ReadNumber(8);
    if length.Err? { return Err(length.error); }
    var count, i := length.value, 0;
    var domains: Projection := map[];
    ghost var start := reader.Rest();
    while i < count
      invariant reader.Valid() && 0 <= i <= count
      invariant ReadDomains(reader.Rest(), count - i, domains) == ReadDomains(start, count, map[])
    {
      var key := ReadKey(reader);
      if key.Err? { return Err(key.error); }
      var register := reader.ReadScalarRegister();
      if register.Err? { return Err(register.error); }
      if key.value in domains { return Err(DuplicateDomain); }
      domains := domains[key.value := register.value];
      i := i + 1;
    }
    var done := reader.IsFinished();
    r := if done then Ok(domains) else Err(TrailingBytes);
  }
}
