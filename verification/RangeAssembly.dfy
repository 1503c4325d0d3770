/** Fetched transport ranges: authenticating parts, assembling multipart publications and
    merging everything into one projection. Protection is an injective wrapper, so a wire
    object is either unreadable or stands for its clear part. */
module RangeAssembly {
  import opened CausalGraph
  import opened CoreTypes
  import opened ScalarRegisters

  type Value = seq<bv8>

  datatype DomainKey = DomainKey(atomId: Id, domain: seq<bv8>)

  /** One register per merge domain. */
  type Projection = map<DomainKey, Graph<Value>>

  datatype WireObject =
    | Part(publicationId: Id, index: nat, total: nat, clear: Projection, nonce: nat)
    | Unreadable(bytes: seq<bv8>)

  datatype AssemblyError =
    | Wire
    | MultipartTotalMismatch
    | MultipartPartCollision
    | Core(error: CoreError)
    | IncompleteMultipartPublications(count: nat)

  // ---------------------------------------------------------------- projections

  /** What a projection can say: that a domain is present, or that it carries a statement. */
  datatype Fact = Domain(key: DomainKey) | Statement(key: DomainKey, revision: Revision<Value>)

  ghost predicate Holds(p: Projection, f: Fact) {
    match f
    case Domain(d) => d in p
    case Statement(d, v) => d in p && v.id in p[d] && p[d][v.id] == v
  }

  ghost predicate ValidRegisters(p: Projection) {
    forall d :: d in p ==> Valid(p[d])
  }

  /** Every domain key is one its constructor makes. */
  predicate NamedDomains(p: Projection) {
    forall d :: d in p ==> d.domain != []
  }

  ghost predicate Compatible(p: Projection, q: Projection) {
    forall d :: d in p && d in q ==> Agree(p[d], q[d])
  }

  ghost predicate SomeHolds(s: set<Projection>, f: Fact) {
    exists p :: p in s && Holds(p, f)
  }

  /** `c` carries exactly the domains and statements of the members of `s`. */
  ghost predicate IsUnion(c: Projection, s: set<Projection>) {
    ValidRegisters(c) && forall f :: Holds(c, f) <==> SomeHolds(s, f)
  }

  ghost function UnionOf(s: set<Projection>): Option<Projection> {
    if exists c :: IsUnion(c, s) then (var c :| IsUnion(c, s); Some(c)) else None
  }

  lemma KeyedGraphsEqual(g: Graph<Value>, h: Graph<Value>)
    requires Keyed(g) && Keyed(h)
    requires forall v: Revision<Value> :: (v.id in g && g[v.id] == v) <==> (v.id in h && h[v.id] == v)
    ensures g == h
  {
    forall k ensures k in g <==> k in h {
      if k in g { assert g[k].id in h; }
      if k in h { assert h[k].id in g; }
    }
    forall k | k in g ensures g[k] == h[k] { assert g[k].id == k; }
  }

  lemma FactsDetermine(c: Projection, e: Projection)
    requires ValidRegisters(c) && ValidRegisters(e) && forall f :: Holds(c, f) <==> Holds(e, f)
    ensures c == e
  {
    forall d ensures d in c <==> d in e { assert Holds(c, Domain(d)) <==> Holds(e, Domain(d)); }
    forall d | d in c ensures c[d] == e[d] {
      forall v: Revision<Value> ensures (v.id in c[d] && c[d][v.id] == v) <==> (v.id in e[d] && e[d][v.id] == v) {
        assert Holds(c, Statement(d, v)) <==> Holds(e, Statement(d, v));
      }
      KeyedGraphsEqual(c[d], e[d]);
    }
  }

  lemma UnionOfIs(c: Projection, s: set<Projection>)
    requires IsUnion(c, s)
    ensures UnionOf(s) == Some(c)
  {
    FactsDetermine(c, UnionOf(s).value);
  }

  /** `s` and `t` carry the same domains and the same statements. */
  ghost predicate SameFacts(s: set<Projection>, t: set<Projection>) {
    forall f :: SomeHolds(s, f) <==> SomeHolds(t, f)
  }

  lemma SameFactsSameUnion(s: set<Projection>, t: set<Projection>)
    requires SameFacts(s, t)
    ensures UnionOf(s) == UnionOf(t)
  {
    if UnionOf(s).Some? {
      assert IsUnion(UnionOf(s).value, t);
      UnionOfIs(UnionOf(s).value, t);
    } else if UnionOf(t).Some? {
      assert IsUnion(UnionOf(t).value, s);
    }
  }

  lemma SomeHoldsGrows(s: set<Projection>, p: Projection, f: Fact)
    ensures SomeHolds(s + {p}, f) <==> SomeHolds(s, f) || Holds(p, f)
  {
    if Holds(p, f) { assert p in s + {p}; }
    if SomeHolds(s, f) { var q :| q in s && Holds(q, f); assert q in s + {p}; }
  }

  // ---------------------------------------------------------------- pairwise merge

  function At(p: Projection, d: DomainKey): Graph<Value> {
    if d in p then p[d] else map[]
  }

  /** Every domain of either side, merged. */
  ghost predicate MergedTo(c: Projection, p: Projection, q: Projection) {
    c.Keys == p.Keys + q.Keys && forall d :: d in c ==> c[d] == At(p, d) + At(q, d)
  }

  lemma EmptyGraphIsValid()
    ensures Valid<Value>(map[])
  {
    var g: Graph<Value> := map[];
    RankedIsAcyclic(g, map[]);
  }

  lemma MergedHolds(c: Projection, p: Projection, q: Projection, f: Fact)
    requires MergedTo(c, p, q) && Compatible(p, q)
    ensures Holds(c, f) <==> Holds(p, f) || Holds(q, f)
  {
    if f.key in p && f.key in q { assert Agree(p[f.key], q[f.key]); }
  }

  lemma MergedIsUnion(c: Projection, p: Projection, q: Projection)
    requires MergedTo(c, p, q) && Compatible(p, q) && ValidRegisters(p) && ValidRegisters(q)
    ensures IsUnion(c, {p, q})
  {
    forall d | d in c ensures Valid(c[d]) {
      EmptyGraphIsValid();
      UnionIsValid(At(p, d), At(q, d));
    }
    forall f ensures Holds(c, f) <==> SomeHolds({p, q}, f) {
      MergedHolds(c, p, q, f);
      SomeHoldsGrows({p}, q, f);
      SomeHoldsGrows({}, p, f);
      assert {} + {p} == {p} && {p} + {q} == {p, q};
    }
  }

  /** Adding one member to a union. */
  lemma UnionGrows(c: Projection, s: set<Projection>, q: Projection, c': Projection)
    requires IsUnion(c, s) && IsUnion(c', {c, q})
    ensures IsUnion(c', s + {q})
  {
    forall f ensures SomeHolds({c, q}, f) <==> SomeHolds(s + {q}, f) {
      SomeHoldsGrows(s, q, f);
      SomeHoldsGrows({c}, q, f);
      SomeHoldsGrows({}, c, f);
      assert {} + {c} == {c} && {c} + {q} == {c, q};
      assert Holds(c, f) <==> SomeHolds(s, f);
    }
  }

  /** A conflict with what is merged so far is a conflict with one of the members. */
  lemma ConflictIsFinal(c: Projection, s: set<Projection>, q: Projection, all: set<Projection>)
    requires IsUnion(c, s) && s <= all && q in all && ValidRegisters(q) && !Compatible(c, q)
    ensures UnionOf(all) == None
  {
    var d :| d in c && d in q && !Agree(c[d], q[d]);
    var k :| k in c[d] && k in q[d] && c[d][k] != q[d][k];
    var v, w := c[d][k], q[d][k];
    assert Valid(c[d]) && Valid(q[d]);
    assert Holds(c, Statement(d, v)) && Holds(q, Statement(d, w));
    assert SomeHolds(s, Statement(d, v));
    var p :| p in s && Holds(p, Statement(d, v));
    assert SomeHolds(all, Statement(d, v)) && SomeHolds(all, Statement(d, w));
    forall e ensures !IsUnion(e, all) {
      assert !(Holds(e, Statement(d, v)) && Holds(e, Statement(d, w)));
    }
  }

  lemma NoUnionOfNothing()
    ensures IsUnion(map[], {})
  {
  }

  /** The domains `done` of `q` have been merged into `p`. */
  ghost predicate PartMerged(c: Projection, p: Projection, q: Projection, done: set<DomainKey>) {
    && done <= q.Keys && c.Keys == p.Keys + done
    && (forall d :: d in c ==> c[d] == if d in done then At(p, d) + q[d] else p[d])
    && (forall d :: d in p && d in done ==> Agree(p[d], q[d]))
  }

  lemma PartMergedStep(c: Projection, p: Projection, q: Projection, done: set<DomainKey>, d: DomainKey, g: Graph<Value>)
    requires PartMerged(c, p, q, done) && d in q && d !in done
    requires g == At(p, d) + q[d] && (d in p ==> Agree(p[d], q[d]))
    ensures PartMerged(c[d := g], p, q, done + {d})
  {
  }

  lemma PartMergedAll(c: Projection, p: Projection, q: Projection)
    requires PartMerged(c, p, q, q.Keys)
    ensures MergedTo(c, p, q) && Compatible(p, q)
  {
    forall d | d in c ensures c[d] == At(p, d) + At(q, d) {
      if d !in q { assert p[d] == p[d] + At(q, d); }
    }
  }

  method MergeRegisters(g: Graph<Value>, h: Graph<Value>) returns (r: Result<Graph<Value>, CoreError>)
    requires Valid(g) && Valid(h)
    ensures r.Ok? <==> Agree(g, h)
    ensures r.Ok? ==> r.value == g + h
    ensures r.Err? ==> r.error.DuplicateRevisionConflict?
  {
    var current := new ScalarRegister.FromGraph(g);
    var incoming := new ScalarRegister.FromGraph(h);
    var joined := current.Merge(incoming);
    match joined {
      case Err(e) => r := Err(e);
      case Ok(register) => r := Ok(register.revisions);
    }
  }

  /** The projection merge, domain by domain. */
  method MergeProjections(p: Projection, q: Projection) returns (r: Result<Projection, CoreError>)
    requires ValidRegisters(p) && ValidRegisters(q)
    ensures r.Ok? <==> Compatible(p, q)
    ensures r.Ok? ==> MergedTo(r.value, p, q) && IsUnion(r.value, {p, q})
    ensures r.Err? ==> r.error.DuplicateRevisionConflict?
  {
    hide Valid, Agree, IsUnion;
    var merged := p;
    var todo := q.Keys;
    while todo != {}
      invariant todo <= q.Keys
      invariant PartMerged(merged, p, q, q.Keys - todo)
    {
      var d :| d in todo;
      ghost var done := q.Keys - todo;
      var g := q[d];
      if d in merged {
        var joined := MergeRegisters(merged[d], q[d]);
        match joined {
          case Err(e) => return Err(e);
          case Ok(register) => g := register;
        }
      } else {
        assert q[d] == At(p, d) + q[d];
      }
      PartMergedStep(merged, p, q, done, d, g);
      merged := merged[d := g];
      todo := todo - {d};
      assert q.Keys - todo == done + {d};
    }
    assert q.Keys - todo == q.Keys;
    PartMergedAll(merged, p, q);
    MergedIsUnion(merged, p, q);
    r := Ok(merged);
  }

  // ---------------------------------------------------------------- the inbox

  datatype Pending = Pending(total: nat, parts: map<nat, Projection>)

  /** Authentication, decoding and metadata checks all pass. */
  ghost predicate Opens(o: WireObject) {
    o.Part? && o.index < o.total && o.clear != map[] && NamedDomains(o.clear) && ValidRegisters(o.clear)
  }

  ghost predicate InboxOk(inbox: map<Id, Pending>) {
    forall q, i :: q in inbox && i in inbox[q].parts ==> ValidRegisters(inbox[q].parts[i])
  }

  ghost predicate Rejects(inbox: map<Id, Pending>, o: WireObject)
    requires o.Part?
  {
    o.publicationId in inbox &&
    (inbox[o.publicationId].total != o.total ||
     (o.index in inbox[o.publicationId].parts && inbox[o.publicationId].parts[o.index] != o.clear))
  }

  ghost function PartsWith(inbox: map<Id, Pending>, o: WireObject): map<nat, Projection>
    requires o.Part?
  {
    (if o.publicationId in inbox then inbox[o.publicationId].parts else map[])[o.index := o.clear]
  }

  /** The inbox and the set of assembled publications, after the distinct objects `seen`. */
  datatype Assembly = Assembly(inbox: map<Id, Pending>, completed: set<Projection>, seen: set<WireObject>)

  ghost function Absorb(a: Assembly, o: WireObject): Option<Assembly> {
    if o in a.seen then Some(a)
    else if !Opens(o) || Rejects(a.inbox, o) then None
    else
      var parts := PartsWith(a.inbox, o);
      if |parts| != o.total
      then Some(Assembly(a.inbox[o.publicationId := Pending(o.total, parts)], a.completed, a.seen + {o}))
      else match UnionOf(parts.Values)
           case None => None
           case Some(c) => Some(Assembly(a.inbox - {o.publicationId}, a.completed + {c}, a.seen + {o}))
  }

  ghost function AbsorbAll(a: Assembly, objects: seq<WireObject>): Option<Assembly>
    decreases |objects|
  {
    if objects == [] then Some(a)
    else match Absorb(a, objects[0])
         case None => None
         case Some(b) => AbsorbAll(b, objects[1..])
  }

  ghost function EmptyAssembly(): Assembly {
    Assembly(map[], {}, {})
  }

  /** The projection a fetched range amounts to; None when any step refuses. */
  ghost function RangeOutcome(objects: seq<WireObject>): Option<Projection> {
    match AbsorbAll(EmptyAssembly(), objects)
    case None => None
    case Some(a) => if a.inbox == map[] then UnionOf(a.completed) else None
  }

  ghost predicate AllOpen(s: set<WireObject>) {
    forall o :: o in s ==> Opens(o)
  }

  ghost function Clears(s: set<WireObject>): set<Projection> {
    set o | o in s && o.Part? :: o.clear
  }

  // ---------------------------------------------------------------- nothing is lost or invented

  ghost predicate PartHolds(parts: map<nat, Projection>, f: Fact) {
    exists i :: i in parts && Holds(parts[i], f)
  }

  ghost predicate PublicationHolds(inbox: map<Id, Pending>, q: Id, f: Fact) {
    q in inbox && PartHolds(inbox[q].parts, f)
  }

  /** What the inbox carries for publications other than `q0`. */
  ghost predicate ElsewhereHolds(inbox: map<Id, Pending>, q0: Id, f: Fact) {
    exists q :: q != q0 && PublicationHolds(inbox, q, f)
  }

  ghost predicate Carries(a: Assembly, f: Fact) {
    SomeHolds(a.completed, f) || exists q :: PublicationHolds(a.inbox, q, f)
  }

  ghost predicate AssemblyInv(a: Assembly) {
    && InboxOk(a.inbox) && AllOpen(a.seen)
    && (forall c :: c in a.completed ==> ValidRegisters(c))
    && (forall f :: Carries(a, f) <==> SomeHolds(Clears(a.seen), f))
  }

  lemma ClearsGrow(s: set<WireObject>, o: WireObject)
    requires o.Part?
    ensures Clears(s + {o}) == Clears(s) + {o.clear}
  {
  }

  lemma ValuesHold(parts: map<nat, Projection>, f: Fact)
    ensures SomeHolds(parts.Values, f) <==> PartHolds(parts, f)
  {
    if PartHolds(parts, f) {
      var i :| i in parts && Holds(parts[i], f);
      assert parts[i] in parts.Values;
    }
  }

  lemma PartsWithHolds(inbox: map<Id, Pending>, o: WireObject, f: Fact)
    requires o.Part? && !Rejects(inbox, o)
    ensures PartHolds(PartsWith(inbox, o), f) <==> Holds(o.clear, f) || PublicationHolds(inbox, o.publicationId, f)
  {
    var parts := PartsWith(inbox, o);
    if Holds(o.clear, f) { assert o.index in parts; }
    if PublicationHolds(inbox, o.publicationId, f) {
      var i :| i in inbox[o.publicationId].parts && Holds(inbox[o.publicationId].parts[i], f);
      assert i in parts;
    }
  }

  lemma ElsewhereIsLocal(inbox: map<Id, Pending>, other: map<Id, Pending>, q0: Id, f: Fact)
    requires forall q :: q != q0 && q in inbox ==> q in other && other[q] == inbox[q]
    ensures ElsewhereHolds(inbox, q0, f) ==> ElsewhereHolds(other, q0, f)
  {
    if ElsewhereHolds(inbox, q0, f) {
      var q :| q != q0 && PublicationHolds(inbox, q, f);
      assert PublicationHolds(other, q, f);
    }
  }

  lemma CarriesSplit(a: Assembly, q0: Id, f: Fact)
    ensures Carries(a, f) <==> SomeHolds(a.completed, f) || ElsewhereHolds(a.inbox, q0, f) || PublicationHolds(a.inbox, q0, f)
  {
  }

  lemma AbsorbCarries(a: Assembly, o: WireObject, b: Assembly, f: Fact)
    requires Absorb(a, o) == Some(b) && o !in a.seen
    ensures Carries(b, f) <==> Carries(a, f) || Holds(o.clear, f)
  {
    hide Carries, SomeHolds, PartHolds, ElsewhereHolds, Holds, PartsWith, Rejects;
    var q0 := o.publicationId;
    var parts := PartsWith(a.inbox, o);
    CarriesSplit(a, q0, f);
    CarriesSplit(b, q0, f);
    PartsWithHolds(a.inbox, o, f);
    ElsewhereIsLocal(a.inbox, b.inbox, q0, f);
    ElsewhereIsLocal(b.inbox, a.inbox, q0, f);
    ValuesHold(parts, f);
    if |parts| == o.total {
      var c := UnionOf(parts.Values).value;
      assert b.completed == a.completed + {c};
      SomeHoldsGrows(a.completed, c, f);
    }
  }

  lemma AbsorbKeepsShape(a: Assembly, o: WireObject, b: Assembly)
    requires InboxOk(a.inbox) && AllOpen(a.seen) && (forall c :: c in a.completed ==> ValidRegisters(c))
    requires Absorb(a, o) == Some(b)
    ensures InboxOk(b.inbox) && AllOpen(b.seen) && (forall c :: c in b.completed ==> ValidRegisters(c))
    ensures b.seen == a.seen + {o}
  {
    hide SomeHolds, Holds, Rejects;
    if o !in a.seen { InboxGrows(a.inbox, o); } else { assert a.seen + {o} == a.seen; }
  }

  lemma AbsorbKeepsInv(a: Assembly, o: WireObject, b: Assembly)
    requires AssemblyInv(a) && Absorb(a, o) == Some(b)
    ensures AssemblyInv(b) && b.seen == a.seen + {o}
  {
    hide Carries, SomeHolds, InboxOk, AllOpen, ValidRegisters, UnionOf, PartsWith, Rejects, Holds;
    AbsorbKeepsShape(a, o, b);
    if o !in a.seen {
      ClearsGrow(a.seen, o);
      forall f ensures Carries(b, f) <==> SomeHolds(Clears(b.seen), f) {
        AbsorbCarries(a, o, b, f);
        SomeHoldsGrows(Clears(a.seen), o.clear, f);
      }
    }
  }

  lemma {:induction false} AbsorbAllKeepsInv(a: Assembly, objects: seq<WireObject>, b: Assembly)
    requires AssemblyInv(a) && AbsorbAll(a, objects) == Some(b)
    ensures AssemblyInv(b) && b.seen == a.seen + set o | o in objects
    decreases |objects|
  {
    hide AssemblyInv, Absorb;
    if objects != [] {
      var c := Absorb(a, objects[0]).value;
      AbsorbKeepsInv(a, objects[0], c);
      AbsorbAllKeepsInv(c, objects[1..], b);
      assert objects == [objects[0]] + objects[1..];
    }
  }

  lemma EmptyInboxFacts(a: Assembly)
    requires AssemblyInv(a) && a.inbox == map[]
    ensures SameFacts(a.completed, Clears(a.seen))
  {
    forall f ensures SomeHolds(a.completed, f) <==> SomeHolds(Clears(a.seen), f) {
      assert Carries(a, f) <==> SomeHolds(Clears(a.seen), f);
    }
  }

  lemma FactsTransfer(c: Projection, s: set<Projection>, t: set<Projection>)
    requires IsUnion(c, s) && SameFacts(s, t)
    ensures IsUnion(c, t)
  {
  }

  /** A range that is accepted amounts to exactly the statements of its objects, each with
      the content it was sent with, in whatever order and however often they came. */
  lemma AcceptedRangeIsExact(objects: seq<WireObject>, c: Projection)
    requires RangeOutcome(objects) == Some(c)
    ensures AllOpen(set o | o in objects) && IsUnion(c, Clears(set o | o in objects))
  {
    var a := AbsorbAll(EmptyAssembly(), objects).value;
    assert AssemblyInv(EmptyAssembly());
    AbsorbAllKeepsInv(EmptyAssembly(), objects, a);
    assert a.seen == set o | o in objects;
    EmptyInboxFacts(a);
    FactsTransfer(c, a.completed, Clears(a.seen));
  }

  lemma AcceptedRangeIsNamed(objects: seq<WireObject>, c: Projection)
    requires RangeOutcome(objects) == Some(c)
    ensures NamedDomains(c)
  {
    AcceptedRangeIsExact(objects, c);
    forall d | d in c ensures d.domain != [] {
      assert Holds(c, Domain(d));
      assert SomeHolds(Clears(set o | o in objects), Domain(d));
    }
  }

  // ---------------------------------------------------------------- order independence

  /** Every publication uses one total, and one wire object per index unless it has only one
      part. */
  ghost predicate OrderFree(s: set<WireObject>) {
    forall o, u :: o in s && u in s && o.Part? && u.Part? && o.publicationId == u.publicationId ==>
      o.total == u.total && (o.total != 1 && o.index == u.index ==> o == u)
  }

  ghost predicate HasIndex(s: set<WireObject>, q: Id, i: nat) {
    exists o :: o in s && o.Part? && o.publicationId == q && o.index == i
  }

  /** Every publication that appears has all its parts. */
  ghost predicate AllComplete(s: set<WireObject>) {
    forall o, i: nat :: o in s && o.Part? && i < o.total ==> HasIndex(s, o.publicationId, i)
  }

  /** What a range amounts to, judged by nothing but which objects it contains. */
  ghost function SetOutcome(s: set<WireObject>): Option<Projection> {
    if AllOpen(s) && AllComplete(s) then UnionOf(Clears(s)) else None
  }

  /** A publication is either in the inbox with exactly the parts seen, or complete, or new. */
  ghost predicate Exact(a: Assembly, q: Id) {
    if q in a.inbox then
      && (forall o :: o in a.seen && o.Part? && o.publicationId == q ==> o.total == a.inbox[q].total)
      && (forall i :: i in a.inbox[q].parts <==> HasIndex(a.seen, q, i))
      && (forall o :: o in a.seen && o.Part? && o.publicationId == q ==> o.index in a.inbox[q].parts && a.inbox[q].parts[o.index] == o.clear)
      && (exists i: nat :: i < a.inbox[q].total && i !in a.inbox[q].parts)
      && a.inbox[q].parts != map[]
    else
      forall o, i: nat :: o in a.seen && o.Part? && o.publicationId == q && i < o.total ==> HasIndex(a.seen, q, i)
  }

  ghost predicate ExactInv(a: Assembly) {
    AssemblyInv(a) && forall q :: Exact(a, q)
  }

  /** As many parts as the total means every index below the total. */
  lemma {:induction false} FullRange(keys: set<nat>, n: nat)
    requires forall i :: i in keys ==> i < n
    ensures |keys| <= n && (|keys| == n <==> forall i: nat :: i < n ==> i in keys)
    decreases n
  {
    if n > 0 {
      var m: nat := n - 1;
      var rest := keys - {m};
      FullRange(rest, m);
      if m in keys {
        assert keys == rest + {m};
        assert |keys| == |rest| + 1;
      } else {
        assert keys == rest;
      }
    } else {
      assert keys == {};
    }
  }

  lemma NotSeenIndex(seen: set<WireObject>, o: WireObject, s: set<WireObject>)
    requires seen <= s && o in s && o !in seen && o.Part? && o.total != 1 && OrderFree(s)
    ensures !HasIndex(seen, o.publicationId, o.index)
  {
  }

  /** A publication not in the inbox has all its indexes seen, or none; a new index rules out "all". */
  lemma NewPublication(a: Assembly, o: WireObject, s: set<WireObject>)
    requires Opens(o) && o.total != 1 && Exact(a, o.publicationId) && o.publicationId !in a.inbox
    requires a.seen <= s && o in s && o !in a.seen && OrderFree(s)
    ensures forall i: nat :: !HasIndex(a.seen, o.publicationId, i)
  {
    NotSeenIndex(a.seen, o, s);
    forall u | u in a.seen ensures !(u.Part? && u.publicationId == o.publicationId) {
      assert u in s;
    }
  }

  lemma PendingHasSeveral(a: Assembly, q: Id, s: set<WireObject>)
    requires ExactInv(a) && a.seen <= s
    ensures q in a.inbox ==> exists u :: u in s && u.Part? && u.publicationId == q && u.total >= 2
  {
    assert Exact(a, q);
    if q in a.inbox {
      var w :| w in a.inbox[q].parts;
      assert HasIndex(a.seen, q, w);
      var u :| u in a.seen && u.Part? && u.publicationId == q && u.index == w;
      assert Opens(u) && u in s;
    }
  }

  /** A publication of one part is never pending: each of its objects completes it at once. */
  lemma OnePartCompletes(a: Assembly, o: WireObject, s: set<WireObject>)
    requires ExactInv(a) && a.seen <= s && o in s && o !in a.seen && OrderFree(s) && Opens(o) && o.total == 1
    ensures o.publicationId !in a.inbox && |PartsWith(a.inbox, o)| == 1 && PartsWith(a.inbox, o).Values == {o.clear}
    ensures UnionOf({o.clear}) == Some(o.clear) && o.index == 0
  {
    PendingHasSeveral(a, o.publicationId, s);
    assert PartsWith(a.inbox, o) == map[0 := o.clear];
    assert PartsWith(a.inbox, o).Keys == {0} && |PartsWith(a.inbox, o)| == |PartsWith(a.inbox, o).Keys|;
    assert PartsWith(a.inbox, o)[0] == o.clear;
    assert IsUnion(o.clear, {o.clear});
    UnionOfIs(o.clear, {o.clear});
  }

  lemma SinglePartStays(a: Assembly, o: WireObject, b: Assembly, s: set<WireObject>)
    requires ExactInv(a) && a.seen <= s && o in s && o !in a.seen && OrderFree(s) && Opens(o) && o.total == 1
    requires Absorb(a, o) == Some(b)
    ensures Exact(b, o.publicationId)
  {
    var q := o.publicationId;
    OnePartCompletes(a, o, s);
    assert o in b.seen;
    forall u, i: nat | u in b.seen && u.Part? && u.publicationId == q && i < u.total ensures HasIndex(b.seen, q, i) {
      assert u in s && u.total == 1;
      assert i == o.index;
    }
  }

  lemma FreshIndex(a: Assembly, o: WireObject, s: set<WireObject>)
    requires ExactInv(a) && a.seen <= s && o in s && o !in a.seen && OrderFree(s) && Opens(o) && o.total != 1
    ensures !Rejects(a.inbox, o) && !HasIndex(a.seen, o.publicationId, o.index)
    ensures forall i :: i in PartsWith(a.inbox, o) ==> i < o.total
    ensures forall i: nat :: HasIndex(a.seen + {o}, o.publicationId, i) <==> i == o.index || HasIndex(a.seen, o.publicationId, i)
    ensures forall i :: i in PartsWith(a.inbox, o) <==> HasIndex(a.seen + {o}, o.publicationId, i)
  {
    var q := o.publicationId;
    assert Exact(a, q);
    NotSeenIndex(a.seen, o, s);
    forall i: nat | HasIndex(a.seen, q, i) ensures i < o.total && HasIndex(a.seen + {o}, q, i) {
      var u :| u in a.seen && u.Part? && u.publicationId == q && u.index == i;
      assert Opens(u) && u in s;
      assert u in a.seen + {o};
    }
    assert o in a.seen + {o};
    assert HasIndex(a.seen + {o}, q, o.index);
    if q in a.inbox {
      var w :| w in a.inbox[q].parts;
      assert HasIndex(a.seen, q, w);
      var u :| u in a.seen && u.Part? && u.publicationId == q && u.index == w;
    } else {
      NewPublication(a, o, s);
    }
  }

  lemma OtherPublicationsStay(a: Assembly, o: WireObject, b: Assembly, q: Id)
    requires Exact(a, q) && o.Part? && q != o.publicationId && b.seen == a.seen + {o} && AllOpen(a.seen)
    requires q in b.inbox <==> q in a.inbox
    requires q in a.inbox ==> b.inbox[q] == a.inbox[q]
    ensures Exact(b, q)
  {
    forall i: nat ensures HasIndex(b.seen, q, i) <==> HasIndex(a.seen, q, i) {
      if HasIndex(a.seen, q, i) {
        var u :| u in a.seen && u.Part? && u.publicationId == q && u.index == i;
        assert u in b.seen;
      }
    }
  }

  lemma SeenPartsAgree(a: Assembly, o: WireObject, s: set<WireObject>, u: WireObject)
    requires ExactInv(a) && a.seen <= s && o in s && o !in a.seen && OrderFree(s) && Opens(o) && o.total != 1
    requires u in a.seen + {o} && u.Part? && u.publicationId == o.publicationId
    requires o.publicationId in a.inbox || forall i: nat :: !HasIndex(a.seen, o.publicationId, i)
    ensures u.total == o.total && u.index in PartsWith(a.inbox, o) && PartsWith(a.inbox, o)[u.index] == u.clear
  {
    if u != o {
      assert u in a.seen && u in s && HasIndex(a.seen, o.publicationId, u.index);
      assert Exact(a, o.publicationId);
    }
  }

  lemma ThisPublicationStays(a: Assembly, o: WireObject, b: Assembly, s: set<WireObject>)
    requires ExactInv(a) && a.seen <= s && o in s && o !in a.seen && OrderFree(s) && Opens(o) && o.total != 1
    requires Absorb(a, o) == Some(b)
    ensures Exact(b, o.publicationId)
  {
    hide ExactInv, OrderFree, HasIndex, PartsWith, UnionOf, Rejects;
    var q := o.publicationId;
    var parts := PartsWith(a.inbox, o);
    FreshIndex(a, o, s);
    FullRange(parts.Keys, o.total);
    assert |parts| == |parts.Keys|;
    assert o.index in parts by { PartsHaveIndex(a.inbox, o); }
    if q !in a.inbox { assert Exact(a, q) by { ExactOf(a, q); } NewPublication(a, o, s); }
    forall u | u in b.seen && u.Part? && u.publicationId == q
      ensures u.total == o.total && u.index in parts && parts[u.index] == u.clear
    {
      SeenPartsAgree(a, o, s, u);
    }
  }

  lemma ExactOf(a: Assembly, q: Id)
    requires ExactInv(a)
    ensures Exact(a, q)
  {
  }

  lemma PartsHaveIndex(inbox: map<Id, Pending>, o: WireObject)
    requires o.Part?
    ensures o.index in PartsWith(inbox, o)
  {
  }

  lemma AbsorbKeepsExact(a: Assembly, o: WireObject, b: Assembly, s: set<WireObject>)
    requires ExactInv(a) && a.seen <= s && o in s && OrderFree(s) && Absorb(a, o) == Some(b)
    ensures ExactInv(b) && b.seen == a.seen + {o}
  {
    AbsorbKeepsInv(a, o, b);
    if o !in a.seen {
      forall q ensures Exact(b, q) {
        assert Exact(a, q);
        if q != o.publicationId {
          OtherPublicationsStay(a, o, b, q);
        } else if o.total == 1 {
          SinglePartStays(a, o, b, s);
        } else {
          ThisPublicationStays(a, o, b, s);
        }
      }
    }
  }

  /** The parts a publication has after one more object are parts of the range. */
  lemma PartsAreClears(a: Assembly, o: WireObject, s: set<WireObject>, p: Projection)
    requires ExactInv(a) && a.seen <= s && o in s && o.Part? && AllOpen(s) && p in PartsWith(a.inbox, o).Values
    ensures p in Clears(s) && ValidRegisters(p)
  {
    hide ValidRegisters;
    var q := o.publicationId;
    assert Exact(a, q);
    assert Opens(o);
    var i :| i in PartsWith(a.inbox, o) && PartsWith(a.inbox, o)[i] == p;
    if p != o.clear {
      assert HasIndex(a.seen, q, i);
      var u :| u in a.seen && u.Part? && u.publicationId == q && u.index == i;
      assert u in s && Opens(u);
    }
  }

  lemma NothingRejected(a: Assembly, o: WireObject, s: set<WireObject>)
    requires ExactInv(a) && a.seen <= s && o in s && o !in a.seen && OrderFree(s) && Opens(o)
    ensures !Rejects(a.inbox, o)
  {
    if o.total == 1 { OnePartCompletes(a, o, s); } else { FreshIndex(a, o, s); }
  }

  /** In a well-formed range a readable object is refused only for contradicting others. */
  lemma RefusalIsConflict(a: Assembly, o: WireObject, s: set<WireObject>)
    requires ExactInv(a) && a.seen <= s && o in s && OrderFree(s) && AllOpen(s)
    requires Absorb(a, o) == None
    ensures UnionOf(Clears(s)) == None
  {
    hide ExactInv, OrderFree, UnionOf, Rejects, ValidRegisters, Clears, PartsWith;
    assert Opens(o);
    NothingRejected(a, o, s);
    var parts := PartsWith(a.inbox, o);
    forall p | p in parts.Values ensures p in Clears(s) && ValidRegisters(p) { PartsAreClears(a, o, s, p); }
    if UnionOf(Clears(s)).Some? {
      UnionOfIsUnion(Clears(s));
      SubUnion(parts.Values, Clears(s), UnionOf(Clears(s)).value);
    }
  }

  lemma UnionOfIsUnion(s: set<Projection>)
    requires UnionOf(s).Some?
    ensures IsUnion(UnionOf(s).value, s)
  {
  }

  /** Part of a family that has a union has a union too. */
  lemma {:induction false} SubUnion(t: set<Projection>, s: set<Projection>, e: Projection)
    requires IsUnion(e, s) && t <= s && forall p :: p in t ==> ValidRegisters(p)
    ensures UnionOf(t).Some?
    decreases |t|
  {
    if t == {} {
      NoUnionOfNothing();
      UnionOfIs(map[], t);
    } else {
      var q :| q in t;
      var rest := t - {q};
      SubUnion(rest, s, e);
      var c := UnionOf(rest).value;
      if !Compatible(c, q) { ConflictIsFinal(c, rest, q, s); }
      var m := MergeOf(c, q);
      MergedIsUnion(m, c, q);
      UnionGrows(c, rest, q, m);
      assert rest + {q} == t;
      UnionOfIs(m, t);
    }
  }

  ghost function MergeOf(p: Projection, q: Projection): (c: Projection)
    ensures MergedTo(c, p, q)
  {
    map d | d in p.Keys + q.Keys :: At(p, d) + At(q, d)
  }

  lemma {:induction false} OrderedOutcome(a: Assembly, objects: seq<WireObject>, s: set<WireObject>)
    requires ExactInv(a) && OrderFree(s) && s == a.seen + set o | o in objects
    ensures AbsorbAll(a, objects).None? ==> SetOutcome(s) == None
    ensures AbsorbAll(a, objects).Some? ==> ExactInv(AbsorbAll(a, objects).value) && AbsorbAll(a, objects).value.seen == s
    decreases |objects|
  {
    if objects == [] {
      assert s == a.seen;
    } else {
      var o := objects[0];
      assert o in s;
      assert objects == [o] + objects[1..];
      match Absorb(a, o) {
        case None => if AllOpen(s) { RefusalIsConflict(a, o, s); }
        case Some(b) =>
          AbsorbKeepsExact(a, o, b, s);
          assert s == b.seen + set u | u in objects[1..];
          OrderedOutcome(b, objects[1..], s);
      }
    }
  }

  /** At the end of a range the inbox is empty exactly when nothing is missing. */
  lemma EmptyInboxIsComplete(a: Assembly)
    requires ExactInv(a)
    ensures a.inbox == map[] <==> AllComplete(a.seen)
  {
    if a.inbox == map[] {
      forall o, i: nat | o in a.seen && o.Part? && i < o.total ensures HasIndex(a.seen, o.publicationId, i) {
        assert Exact(a, o.publicationId);
      }
    } else {
      var q :| q in a.inbox;
      assert Exact(a, q);
      var w :| w in a.inbox[q].parts;
      assert HasIndex(a.seen, q, w);
      var i: nat :| i < a.inbox[q].total && i !in a.inbox[q].parts;
      assert !HasIndex(a.seen, q, i);
    }
  }

  /** Such a range is judged by its set of objects alone. */
  lemma RangeOutcomeIsSetOutcome(objects: seq<WireObject>)
    requires OrderFree(set o | o in objects)
    ensures RangeOutcome(objects) == SetOutcome(set o | o in objects)
  {
    hide ExactInv, OrderFree, AllComplete, UnionOf, AbsorbAll;
    var s := set o | o in objects;
    StartIsExact();
    assert EmptyAssembly().seen + s == s;
    OrderedOutcome(EmptyAssembly(), objects, s);
    if AbsorbAll(EmptyAssembly(), objects).Some? {
      var a := AbsorbAll(EmptyAssembly(), objects).value;
      EmptyInboxIsComplete(a);
      ExactIsInv(a);
      if a.inbox == map[] {
        EmptyInboxFacts(a);
        SameFactsSameUnion(a.completed, Clears(s));
      }
    }
  }

  lemma StartIsExact()
    ensures ExactInv(EmptyAssembly())
  {
  }

  lemma ExactIsInv(a: Assembly)
    requires ExactInv(a)
    ensures AssemblyInv(a) && AllOpen(a.seen)
  {
  }

  /** Reordering a range, or repeating some of its objects, changes neither whether it is
      accepted nor what it amounts to. */
  lemma OrderNeverMatters(first: seq<WireObject>, second: seq<WireObject>)
    requires OrderFree(set o | o in first) && SameObjects(first, second)
    ensures RangeOutcome(first) == RangeOutcome(second)
  {
    assert (set o | o in first) == (set o | o in second);
    RangeOutcomeIsSetOutcome(first);
    RangeOutcomeIsSetOutcome(second);
  }

  // ---------------------------------------------------------------- when order matters

  lemma {:induction false} Listing(s: set<WireObject>) returns (list: seq<WireObject>)
    ensures forall o :: o in list <==> o in s
    decreases |s|
  {
    if s == {} { return []; }
    var o :| o in s;
    var rest := Listing(s - {o});
    list := [o] + rest;
  }

  lemma {:induction false} AbsorbAllSplit(a: Assembly, front: seq<WireObject>, back: seq<WireObject>)
    ensures AbsorbAll(a, front + back) ==
            match AbsorbAll(a, front) case None => None case Some(b) => AbsorbAll(b, back)
    decreases |front|
  {
    if front == [] {
      assert front + back == back;
    } else {
      assert (front + back)[0] == front[0] && (front + back)[1..] == front[1..] + back;
      match Absorb(a, front[0]) {
        case None =>
        case Some(b) => AbsorbAllSplit(b, front[1..], back);
      }
    }
  }

  /** Two totals for one publication: the larger one first leaves it pending, and the other
      is refused. */
  lemma TwoTotalsRefused(o: WireObject, u: WireObject)
    requires o.Part? && u.Part? && o.publicationId == u.publicationId && o.total >= 2 && u.total != o.total
    ensures AbsorbAll(EmptyAssembly(), [o, u]) == None
  {
    var a := EmptyAssembly();
    assert [o, u][1..] == [u];
    if Absorb(a, o).Some? {
      assert PartsWith(a.inbox, o) == map[o.index := o.clear];
      assert PartsWith(a.inbox, o).Keys == {o.index} && |PartsWith(a.inbox, o)| == |PartsWith(a.inbox, o).Keys|;
      assert o != u;
    }
  }

  /** A part of a pending publication that holds its index already completes nothing. */
  lemma PendingStaysPending(a: Assembly, u: WireObject, b: Assembly)
    requires Absorb(a, u) == Some(b) && u !in a.seen && u.publicationId in a.inbox
    requires u.index in a.inbox[u.publicationId].parts
    requires |a.inbox[u.publicationId].parts| != a.inbox[u.publicationId].total
    ensures u.publicationId in b.inbox
  {
    var q := u.publicationId;
    assert PartsWith(a.inbox, u) == a.inbox[q].parts;
  }

  /** Two sealings of one part of several, last: whatever came before, the publication is
      open at the end. */
  lemma TwoSealingsStayOpen(a: Assembly, o: WireObject, u: WireObject, c: Assembly)
    requires o.Part? && u.Part? && o.publicationId == u.publicationId && o.index == u.index
    requires o.total == u.total >= 2 && o != u && o !in a.seen && u !in a.seen
    requires AbsorbAll(a, [o, u]) == Some(c)
    ensures c.inbox != map[]
  {
    var q := o.publicationId;
    var b := Absorb(a, o).value;
    assert [o, u][1..] == [u] && [u][1..] == [];
    AbsorbAllOne(b, u);
    if q in b.inbox {
      PendingStaysPending(b, u, c);
    } else {
      assert PartsWith(b.inbox, u) == map[u.index := u.clear];
      assert PartsWith(b.inbox, u).Keys == {u.index} && |PartsWith(b.inbox, u)| == |PartsWith(b.inbox, u).Keys|;
    }
    assert q in c.inbox;
  }

  ghost predicate SameObjects(first: seq<WireObject>, second: seq<WireObject>) {
    (set o | o in first) == (set o | o in second)
  }

  /** Objects that are not order free can be sent in an order that fails. */
  lemma SomeOrderFails(s: set<WireObject>) returns (bad: seq<WireObject>)
    requires AllOpen(s) && !OrderFree(s)
    ensures (set o | o in bad) == s && RangeOutcome(bad) == None
  {
    hide Absorb, AbsorbAll;
    var o, u :| o in s && u in s && o.Part? && u.Part? && o.publicationId == u.publicationId &&
      !(o.total == u.total && (o.total != 1 && o.index == u.index ==> o == u));
    var rest := Listing(s - {o, u});
    if o.total != u.total {
      var first, second := o, u;
      if o.total < u.total { first, second := u, o; }
      TwoTotalsRefused(first, second);
      AbsorbAllSplit(EmptyAssembly(), [first, second], rest);
      bad := [first, second] + rest;
    } else {
      bad := rest + [o, u];
      AbsorbAllSplit(EmptyAssembly(), rest, [o, u]);
      if AbsorbAll(EmptyAssembly(), bad).Some? {
        var a := AbsorbAll(EmptyAssembly(), rest).value;
        assert AssemblyInv(EmptyAssembly());
        AbsorbAllKeepsInv(EmptyAssembly(), rest, a);
        TwoSealingsStayOpen(a, o, u, AbsorbAll(EmptyAssembly(), bad).value);
      }
    }
    forall x ensures x in bad <==> x in s {
      assert x in bad <==> x in rest || x in [o, u];
    }
  }

  /** Exactly when order is no matter: of the ranges accepted in some order, those whose
      objects are order free have the same outcome in every order and with every repetition,
      and every other one fails in some order. */
  lemma OrderNeverMattersIff(first: seq<WireObject>)
    requires RangeOutcome(first).Some?
    ensures (forall second :: SameObjects(first, second) ==> RangeOutcome(second) == RangeOutcome(first))
            <==> OrderFree(set o | o in first)
  {
    hide RangeOutcome, AllOpen, OrderFree;
    var s := set o | o in first;
    if OrderFree(s) {
      forall second | SameObjects(first, second) ensures RangeOutcome(second) == RangeOutcome(first) {
        OrderNeverMatters(first, second);
      }
    } else {
      AcceptedRangeIsExact(first, RangeOutcome(first).value);
      var bad := SomeOrderFails(s);
      assert SameObjects(first, bad);
    }
  }

  ghost function SomePart(index: nat, nonce: nat): WireObject {
    Part(7, index, 2, map[DomainKey(0, [1]) := map[]], nonce)
  }

  /** A smallest range for which order matters: a second sealing of part 0 is harmless
      before the publication completes, and leaves it incomplete again afterwards. */
  lemma OrderMattersForResealedParts()
    ensures RangeOutcome([SomePart(0, 1), SomePart(0, 2), SomePart(1, 1)]).Some?
    ensures RangeOutcome([SomePart(0, 1), SomePart(1, 1), SomePart(0, 2)]).None?
  {
    var p: Projection := map[DomainKey(0, [1]) := map[]];
    EmptyGraphIsValid();
    var x, y, z := SomePart(0, 1), SomePart(0, 2), SomePart(1, 1);
    assert ValidRegisters(p);
    var one := Assembly(map[7 := Pending(2, map[0 := p])], {}, {x});
    OnePart(EmptyAssembly(), 1, x, p);
    assert {} + {x} == {x};
    assert IsUnion(p, {p});
    UnionOfIs(p, {p});
    EarlyReseal(x, y, z, one, p);
    LateReseal(x, y, z, one, p);
  }

  lemma AbsorbThree(a: Assembly, x: WireObject, y: WireObject, z: WireObject, b: Assembly, c: Assembly, d: Assembly)
    requires Absorb(a, x) == Some(b) && Absorb(b, y) == Some(c) && Absorb(c, z) == Some(d)
    ensures AbsorbAll(a, [x, y, z]) == Some(d)
  {
    hide Absorb;
    assert [x, y, z][1..] == [y, z] && [y, z][1..] == [z] && [z][1..] == [];
    assert AbsorbAll(c, [z]) == Some(d);
    assert AbsorbAll(b, [y, z]) == Some(d);
  }

  /** A re-sealed part 0 while part 1 is missing changes nothing. */
  lemma EarlyReseal(x: WireObject, y: WireObject, z: WireObject, one: Assembly, p: Projection)
    requires x == SomePart(0, 1) && y == SomePart(0, 2) && z == SomePart(1, 1) && p == x.clear
    requires one == Assembly(map[7 := Pending(2, map[0 := p])], {}, {x}) && Absorb(EmptyAssembly(), x) == Some(one)
    requires UnionOf({p}) == Some(p) && ValidRegisters(p)
    ensures RangeOutcome([x, y, z]).Some?
  {
    hide Absorb, AbsorbAll, UnionOf, ValidRegisters;
    var two := Assembly(one.inbox, one.completed, one.seen + {y});
    var last := Assembly(map[], two.completed + {p}, two.seen + {z});
    OnePart(one, 2, y, p);
    Completes(two, z, p, last);
    assert last.completed == {p};
    AbsorbThree(EmptyAssembly(), x, y, z, one, two, last);
  }

  /** The same object after completion opens the publication again. */
  lemma LateReseal(x: WireObject, y: WireObject, z: WireObject, one: Assembly, p: Projection)
    requires x == SomePart(0, 1) && y == SomePart(0, 2) && z == SomePart(1, 1) && p == x.clear
    requires one == Assembly(map[7 := Pending(2, map[0 := p])], {}, {x}) && Absorb(EmptyAssembly(), x) == Some(one)
    requires UnionOf({p}) == Some(p) && ValidRegisters(p)
    ensures RangeOutcome([x, z, y]).None?
  {
    hide Absorb, AbsorbAll, UnionOf, ValidRegisters;
    var done := Assembly(map[], one.completed + {p}, one.seen + {z});
    var reopened := Assembly(map[7 := Pending(2, map[0 := p])], done.completed, done.seen + {y});
    Completes(one, z, p, done);
    OnePart(done, 2, y, p);
    AbsorbThree(EmptyAssembly(), x, z, y, one, done, reopened);
    assert 7 in reopened.inbox;
  }

  lemma OnePart(a: Assembly, nonce: nat, y: WireObject, p: Projection)
    requires y == SomePart(0, nonce) && y.clear == p && ValidRegisters(p) && y !in a.seen
    requires a.inbox == map[7 := Pending(2, map[0 := p])] || a.inbox == map[]
    ensures Absorb(a, y) == Some(Assembly(map[7 := Pending(2, map[0 := p])], a.completed, a.seen + {y}))
  {
    hide UnionOf, ValidRegisters;
    assert DomainKey(0, [1]) in y.clear;
    var parts := PartsWith(a.inbox, y);
    assert parts == map[0 := p];
    assert parts.Keys == {0} && |parts| == |parts.Keys|;
    assert a.inbox[7 := Pending(2, map[0 := p])] == map[7 := Pending(2, map[0 := p])];
  }

  lemma Completes(a: Assembly, z: WireObject, p: Projection, b: Assembly)
    requires z == SomePart(1, 1) && z.clear == p && ValidRegisters(p) && z !in a.seen
    requires a.inbox == map[7 := Pending(2, map[0 := p])] && UnionOf({p}) == Some(p)
    requires b == Assembly(map[], a.completed + {p}, a.seen + {z})
    ensures Absorb(a, z) == Some(b)
  {
    hide UnionOf, ValidRegisters;
    assert DomainKey(0, [1]) in z.clear;
    BothParts(a, z, p);
    assert a.inbox - {7} == map[];
  }

  lemma BothParts(a: Assembly, z: WireObject, p: Projection)
    requires z == SomePart(1, 1) && z.clear == p && a.inbox == map[7 := Pending(2, map[0 := p])]
    ensures |PartsWith(a.inbox, z)| == 2 && PartsWith(a.inbox, z).Values == {p}
  {
    var parts := PartsWith(a.inbox, z);
    assert parts == map[0 := p, 1 := p];
    assert parts.Keys == {0, 1};
    assert |parts| == |parts.Keys|;
    assert parts[0] in parts.Values;
  }

  // ---------------------------------------------------------------- the objects that do it

  /** The parts of one complete publication, merged in index order. */
  method MergeParts(parts: map<nat, Projection>) returns (r: Result<Projection, CoreError>)
    requires parts != map[] && forall i :: i in parts ==> ValidRegisters(parts[i])
    ensures r.Ok? ==> UnionOf(parts.Values) == Some(r.value) && ValidRegisters(r.value)
    ensures r.Err? ==> UnionOf(parts.Values) == None
  {
    hide UnionOf, Compatible;
    var i := Least(parts.Keys);
    var projection := parts[i];
    var todo := parts.Keys - {i};
    ghost var done := {parts[i]};
    assert IsUnion(projection, done);
    while todo != {}
      invariant todo <= parts.Keys && ValidRegisters(projection) && IsUnion(projection, done)
      invariant done <= parts.Values && forall j :: j in parts ==> j in todo || parts[j] in done
    {
      i := Least(todo);
      assert parts[i] in parts.Values;
      var merged := MergeProjections(projection, parts[i]);
      match merged {
        case Err(e) =>
          ConflictIsFinal(projection, done, parts[i], parts.Values);
          return Err(e);
        case Ok(m) =>
          UnionGrows(projection, done, parts[i], m);
          projection := m;
      }
      done := done + {parts[i]};
      todo := todo - {i};
    }
    assert done == parts.Values;
    UnionOfIs(projection, parts.Values);
    r := Ok(projection);
  }

  lemma InboxGrows(inbox: map<Id, Pending>, o: WireObject)
    requires InboxOk(inbox) && Opens(o)
    ensures InboxOk(inbox[o.publicationId := Pending(o.total, PartsWith(inbox, o))])
    ensures InboxOk(inbox - {o.publicationId})
    ensures forall i :: i in PartsWith(inbox, o) ==> ValidRegisters(PartsWith(inbox, o)[i])
    ensures o.index in PartsWith(inbox, o)
  {
  }

  /** One step of a fresh history. */
  lemma AbsorbAlone(inbox: map<Id, Pending>, o: WireObject)
    ensures Absorb(Assembly(inbox, {}, {}), o) ==
            if !Opens(o) || Rejects(inbox, o) then None
            else if |PartsWith(inbox, o)| != o.total
            then Some(Assembly(inbox[o.publicationId := Pending(o.total, PartsWith(inbox, o))], {}, {o}))
            else match UnionOf(PartsWith(inbox, o).Values)
                 case None => None
                 case Some(c) => Some(Assembly(inbox - {o.publicationId}, {c}, {o}))
  {
    assert {} + {o} == {o};
    assert forall c: Projection :: {} + {c} == {c};
  }

  class MultipartInbox {
    var pending: map<Id, Pending>

    constructor ()
      ensures pending == map[]
    {
      pending := map[];
    }

    /** Semantic state appears only when a publication is complete. */
    method Ingest(part: WireObject) returns (r: Result<Option<Projection>, AssemblyError>)
      requires InboxOk(pending)
      modifies this
      ensures r.Err? <==> Absorb(Assembly(old(pending), {}, {}), part).None?
      ensures r.Ok? ==> Absorb(Assembly(old(pending), {}, {}), part) ==
                        Some(Assembly(pending, if r.value.Some? then {r.value.value} else {}, {part}))
      ensures r.Ok? && r.value.Some? ==> ValidRegisters(r.value.value)
      ensures InboxOk(pending)
      ensures r.Err? ==> match r.error
                         case Wire => !Opens(part)
                         case MultipartTotalMismatch =>
                           Opens(part) && part.publicationId in old(pending) && old(pending)[part.publicationId].total != part.total
                         case MultipartPartCollision =>
                           Opens(part) && part.publicationId in old(pending) && old(pending)[part.publicationId].total == part.total &&
                           part.index in old(pending)[part.publicationId].parts && old(pending)[part.publicationId].parts[part.index] != part.clear
                         case Core(_) => Opens(part) && !Rejects(old(pending), part)
                         case IncompleteMultipartPublications(_) => false
      ensures r.Err? && !r.error.Core? ==> pending == old(pending)
      ensures r.Err? && r.error.Core? ==> Opens(part) && pending == old(pending) - {part.publicationId}
    {
      hide UnionOf, ValidRegisters, Absorb, InboxOk, IsUnion;
      AbsorbAlone(pending, part);
      var readable := Open(part);
      if !readable { return Err(Wire); }
      var id := part.publicationId;
      var total, parts := part.total, map[];
      if id in pending { total, parts := pending[id].total, pending[id].parts; }
      if total != part.total { return Err(MultipartTotalMismatch); }
      if part.index in parts {
        if parts[part.index] != part.clear { return Err(MultipartPartCollision); }
      }
      parts := parts[part.index := part.clear];
      assert parts == PartsWith(pending, part);
      InboxGrows(pending, part);
      if |parts| != total {
        pending := pending[id := Pending(total, parts)];
        return Ok(None);
      }
      pending := pending - {id};
      var merged := MergeParts(parts);
      match merged {
        case Err(e) => r := Err(Core(e));
        case Ok(p) => r := Ok(Some(p));
      }
    }

    static method Open(part: WireObject) returns (ok: bool)
      ensures ok == Opens(part)
      ensures ok <==> part.Part? && part.index < part.total && part.clear != map[] &&
                      forall d :: d in part.clear ==> d.domain != [] && Valid(part.clear[d])
    {
      if part.Unreadable? || part.total == 0 || part.index >= part.total || part.clear == map[] { return false; }
      if !NamedDomains(part.clear) { return false; }
      var clear := part.clear;
      var todo := clear.Keys;
      while todo != {}
        invariant todo <= clear.Keys
        invariant forall d :: d in clear && d !in todo ==> Valid(clear[d])
      {
        var d :| d in todo;
        if !KeyedEverywhere(clear[d]) { return false; }
        var register := new ScalarRegister.FromGraph(clear[d]);
        var checked := register.Validate();
        if checked.Err? { return false; }
        todo := todo - {d};
      }
      ok := true;
    }
  }

  predicate KeyedEverywhere(g: Graph<Value>)
    ensures KeyedEverywhere(g) == Keyed(g)
  {
    forall k :: k in g ==> g[k].id == k
  }

  /** Independent of the inbox's history, one step depends on it only through its contents. */
  lemma AbsorbShape(a: Assembly, o: WireObject)
    requires o !in a.seen
    ensures var alone := Absorb(Assembly(a.inbox, {}, {}), o);
            Absorb(a, o) == if alone.None? then None
                            else Some(Assembly(alone.value.inbox, a.completed + alone.value.completed, a.seen + {o}))
  {
    if Opens(o) && !Rejects(a.inbox, o) {
      assert a.completed + {} == a.completed;
      assert {} + {o} == {o};
    }
  }

  /** Decodes and assembles a whole fetched range. Exact copies are skipped; an incomplete
      publication fails the range. */
  method DecodeCompleteProjections(objects: seq<WireObject>) returns (r: Result<seq<Projection>, AssemblyError>)
    ensures r.Ok? <==> AbsorbAll(EmptyAssembly(), objects).Some? && AbsorbAll(EmptyAssembly(), objects).value.inbox == map[]
    ensures r.Ok? ==> AbsorbAll(EmptyAssembly(), objects).value.completed == set p | p in r.value
    ensures r.Ok? ==> forall p :: p in r.value ==> ValidRegisters(p)
    ensures r.Err? && r.error.IncompleteMultipartPublications? ==>
              AbsorbAll(EmptyAssembly(), objects).Some? && r.error.count == |AbsorbAll(EmptyAssembly(), objects).value.inbox| > 0
    ensures r.Err? && !r.error.IncompleteMultipartPublications? ==> AbsorbAll(EmptyAssembly(), objects).None?
  {
    hide Absorb, AbsorbAll, InboxOk, ValidRegisters;
    var inbox := new MultipartInbox();
    var completed: seq<Projection> := [];
    var seen: set<WireObject> := {};
    var i := 0;
    StartsEmpty();
    while i < |objects|
      invariant 0 <= i <= |objects|
      invariant AbsorbAll(EmptyAssembly(), objects[..i]) == Some(Assembly(inbox.pending, (set p | p in completed), seen))
      invariant InboxOk(inbox.pending) && forall p :: p in completed ==> ValidRegisters(p)
    {
      var o := objects[i];
      ghost var before := Assembly(inbox.pending, (set p | p in completed), seen);
      assert objects[..i + 1] == objects[..i] + [o];
      AbsorbAllSplit(EmptyAssembly(), objects[..i], [o]);
      AbsorbAllOne(before, o);
      if o in seen {
        SeenIsSkipped(before, o);
      } else {
        AbsorbShape(before, o);
        seen := seen + {o};
        var result := inbox.Ingest(o);
        match result {
          case Err(e) =>
            AbsorbAllSplit(EmptyAssembly(), objects[..i + 1], objects[i + 1..]);
            assert objects[..i + 1] + objects[i + 1..] == objects;
            return Err(e);
          case Ok(None) =>
            assert before.completed + {} == before.completed;
          case Ok(Some(p)) =>
            assert (set q | q in completed + [p]) == (set q | q in completed) + {p};
            completed := completed + [p];
        }
      }
      i := i + 1;
    }
    assert objects[..i] == objects;
    if inbox.pending != map[] { return Err(IncompleteMultipartPublications(|inbox.pending|)); }
    r := Ok(completed);
  }

  lemma AbsorbAllOne(a: Assembly, o: WireObject)
    ensures AbsorbAll(a, [o]) == Absorb(a, o)
  {
    assert [o][1..] == [];
  }

  lemma StartsEmpty()
    ensures AbsorbAll(EmptyAssembly(), []) == Some(EmptyAssembly()) && InboxOk(map[])
    ensures EmptyAssembly() == Assembly(map[], (set p: Projection | p in []), {})
  {
  }

  lemma SeenIsSkipped(a: Assembly, o: WireObject)
    requires o in a.seen
    ensures Absorb(a, o) == Some(a)
  {
  }

  /** One fetched range as one projection. */
  method CombineRange(objects: seq<WireObject>) returns (r: Result<Projection, AssemblyError>)
    ensures r.Ok? ==> RangeOutcome(objects) == Some(r.value) && ValidRegisters(r.value)
    ensures r.Err? ==> RangeOutcome(objects) == None
    ensures r.Err? && r.error.IncompleteMultipartPublications? ==>
              AbsorbAll(EmptyAssembly(), objects).Some? && r.error.count == |AbsorbAll(EmptyAssembly(), objects).value.inbox| > 0
    ensures r.Err? && !r.error.Core? && !r.error.IncompleteMultipartPublications? ==> AbsorbAll(EmptyAssembly(), objects).None?
  {
    hide UnionOf, AbsorbAll, Compatible;
    var decoded := DecodeCompleteProjections(objects);
    match decoded {
      case Err(e) => return Err(e);
      case Ok(projections) =>
        ghost var all := set p | p in projections;
        var combined: Projection := map[];
        ghost var done: set<Projection> := {};
        NoUnionOfNothing();
        var i := 0;
        while i < |projections|
          invariant 0 <= i <= |projections| && done <= all
          invariant forall j :: 0 <= j < i ==> projections[j] in done
          invariant ValidRegisters(combined) && IsUnion(combined, done)
        {
          var merged := MergeProjections(combined, projections[i]);
          match merged {
            case Err(e) =>
              ConflictIsFinal(combined, done, projections[i], all);
              return Err(Core(e));
            case Ok(m) =>
              UnionGrows(combined, done, projections[i], m);
              done := done + {projections[i]};
              combined := m;
          }
          i := i + 1;
        }
        assert done == all;
        UnionOfIs(combined, all);
        r := Ok(combined);
    }
  }
}
