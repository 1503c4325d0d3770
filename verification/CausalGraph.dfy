/** Finite causal graphs of immutable revisions, and the ancestry relation that every
    causal structure of the system is judged by.

    A graph maps a revision identity to its statement: the identity again, a value and
    the set of identities it names as direct parents. */
module CausalGraph {

  /** Opaque identities; their order is only ever a tie-break. */
  type Id = nat

  datatype Revision<T> = Revision(id: Id, value: T, parents: set<Id>)

  type Graph<T> = map<Id, Revision<T>>

  datatype Option<+V> = None | Some(value: V)

  // ---------------------------------------------------------------- definitions

  ghost predicate Keyed<T>(g: Graph<T>) {
    forall k :: k in g ==> g[k].id == k
  }

  ghost predicate Closed<T>(g: Graph<T>) {
    forall k, p :: k in g && p in g[k].parents ==> p in g
  }

  /** `a` is reached from `d` by exactly `n` steps to a direct parent. */
  ghost predicate Path<T>(g: Graph<T>, n: nat, d: Id, a: Id) {
    if n == 0 then d == a
    else d in g && exists q :: q in g[d].parents && Path(g, n - 1, q, a)
  }

  /** Strict ancestry. */
  ghost predicate Ancestor<T>(g: Graph<T>, a: Id, d: Id) {
    exists n: nat :: n > 0 && Path(g, n, d, a)
  }

  ghost predicate Acyclic<T>(g: Graph<T>) {
    forall x :: !Ancestor(g, x, x)
  }

  ghost predicate Valid<T>(g: Graph<T>) {
    Keyed(g) && Closed(g) && Acyclic(g)
  }

  ghost function AncestorSet<T>(g: Graph<T>, d: Id): set<Id> {
    set x | x in g && Ancestor(g, x, d)
  }

  ghost function DescendantSet<T>(g: Graph<T>, a: Id): set<Id> {
    set x | x in g && Ancestor(g, a, x)
  }

  predicate Referenced<T>(g: Graph<T>, x: Id) {
    exists k :: k in g && x in g[k].parents
  }

  /** The revisions no other revision names as a parent. */
  function Frontier<T>(g: Graph<T>): set<Id> {
    set x | x in g && !Referenced(g, x)
  }

  /** No member of `s` is an ancestor of another. */
  ghost predicate Antichain<T>(g: Graph<T>, s: set<Id>) {
    forall a, d :: a in s && d in s ==> !Ancestor(g, a, d)
  }

  /** `h` contains every statement of `g` unchanged. */
  ghost predicate SubGraph<S>(g: map<Id, S>, h: map<Id, S>) {
    forall k :: k in g ==> k in h && h[k] == g[k]
  }

  ghost predicate Agree<T>(g: Graph<T>, h: Graph<T>) {
    forall k :: k in g && k in h ==> g[k] == h[k]
  }

  predicate IsMax(m: Id, s: set<Id>) {
    m in s && forall x :: x in s ==> x <= m
  }

  /** The revision shown to the user: the greatest identity of the frontier. */
  ghost predicate Winner<T>(g: Graph<T>, w: Option<Id>) {
    match w
    case None => Frontier(g) == {}
    case Some(m) => IsMax(m, Frontier(g))
  }

  /** The roots and everything they descend from. */
  ghost function ClosureOf<T>(g: Graph<T>, roots: set<Id>): set<Id> {
    roots + set x | x in g && exists r :: r in roots && Ancestor(g, x, r)
  }

  // ---------------------------------------------------------------- paths

  lemma {:induction false} PathTrans<T>(g: Graph<T>, m: nat, n: nat, x: Id, y: Id, z: Id)
    requires Path(g, m, x, y) && Path(g, n, y, z)
    ensures Path(g, m + n, x, z)
    decreases m
  {
    if m > 0 {
      var q :| q in g[x].parents && Path(g, m - 1, q, y);
      PathTrans(g, m - 1, n, q, y, z);
      assert Path(g, m + n - 1, q, z);
    }
  }

  lemma AncestorTrans<T>(g: Graph<T>, a: Id, b: Id, c: Id)
    requires Ancestor(g, a, b) && Ancestor(g, b, c)
    ensures Ancestor(g, a, c)
  {
    var m: nat :| m > 0 && Path(g, m, b, a);
    var n: nat :| n > 0 && Path(g, n, c, b);
    PathTrans(g, n, m, c, b, a);
  }

  lemma ParentIsAncestor<T>(g: Graph<T>, d: Id, q: Id)
    requires d in g && q in g[d].parents
    ensures Ancestor(g, q, d)
  {
    assert Path(g, 0, q, q);
    assert Path(g, 1, d, q);
  }

  /** An ancestor is a parent, or an ancestor of a parent. */
  lemma AncestorStep<T>(g: Graph<T>, a: Id, d: Id) returns (q: Id)
    requires Ancestor(g, a, d)
    ensures d in g && q in g[d].parents && (q == a || Ancestor(g, a, q))
  {
    var n: nat :| n > 0 && Path(g, n, d, a);
    q :| q in g[d].parents && Path(g, n - 1, q, a);
  }

  lemma AncestorVia<T>(g: Graph<T>, a: Id, q: Id, d: Id)
    requires d in g && q in g[d].parents && (q == a || Ancestor(g, a, q))
    ensures Ancestor(g, a, d)
  {
    ParentIsAncestor(g, d, q);
    if q != a { AncestorTrans(g, a, q, d); }
  }

  /** An ancestor is named directly by something it is below. */
  lemma {:induction false} PathIsReferenced<T>(g: Graph<T>, n: nat, d: Id, a: Id)
    requires n > 0 && Path(g, n, d, a)
    ensures Referenced(g, a)
    decreases n
  {
    var q :| q in g[d].parents && Path(g, n - 1, q, a);
    if n > 1 { PathIsReferenced(g, n - 1, q, a); }
  }

  /** A set closed under parents that holds `d` holds everything reached from `d`. */
  lemma {:induction false} PathStaysIn<T>(g: Graph<T>, n: nat, d: Id, a: Id, s: set<Id>)
    requires Path(g, n, d, a) && d in s
    requires forall k, p :: k in s && k in g && p in g[k].parents ==> p in s
    ensures a in s
    decreases n
  {
    if n > 0 {
      var q :| q in g[d].parents && Path(g, n - 1, q, a);
      PathStaysIn(g, n - 1, q, a, s);
    }
  }

  lemma AncestorStaysIn<T>(g: Graph<T>, a: Id, d: Id, s: set<Id>)
    requires Ancestor(g, a, d) && d in s
    requires forall k, p :: k in s && k in g && p in g[k].parents ==> p in s
    ensures a in s
  {
    var n: nat :| n > 0 && Path(g, n, d, a);
    PathStaysIn(g, n, d, a, s);
  }

  lemma AncestorIsKnown<T>(g: Graph<T>, a: Id, d: Id)
    requires Closed(g) && Ancestor(g, a, d)
    ensures a in g && d in g
  {
    var q := AncestorStep(g, a, d);
    AncestorStaysIn(g, a, d, g.Keys);
  }

  // ---------------------------------------------------------------- ranks

  /** In an acyclic graph the number of ancestors strictly grows along ancestry, so it
      is a measure for every induction downwards. */
  lemma AncestorsShrink<T>(g: Graph<T>, a: Id, d: Id)
    requires Closed(g) && Acyclic(g) && Ancestor(g, a, d)
    ensures |AncestorSet(g, a)| < |AncestorSet(g, d)|
  {
    AncestorIsKnown(g, a, d);
    forall x | x in AncestorSet(g, a) ensures x in AncestorSet(g, d) {
      AncestorTrans(g, x, a, d);
    }
    assert a in AncestorSet(g, d) && a !in AncestorSet(g, a);
    StrictSubset(AncestorSet(g, a), AncestorSet(g, d), a);
  }

  lemma DescendantsShrink<T>(g: Graph<T>, a: Id, d: Id)
    requires Closed(g) && Acyclic(g) && Ancestor(g, a, d)
    ensures |DescendantSet(g, d)| < |DescendantSet(g, a)|
  {
    AncestorIsKnown(g, a, d);
    forall x | x in DescendantSet(g, d) ensures x in DescendantSet(g, a) {
      AncestorTrans(g, a, d, x);
    }
    assert d in DescendantSet(g, a) && d !in DescendantSet(g, d);
    StrictSubset(DescendantSet(g, d), DescendantSet(g, a), d);
  }

  lemma StrictSubset<V>(a: set<V>, b: set<V>, w: V)
    requires a <= b && w in b && w !in a
    ensures |a| < |b|
  {
    assert b == a + (b - a);
    assert |b| == |a| + |b - a|;
  }

  lemma AddOne<V>(s: set<V>, x: V)
    requires x !in s
    ensures |s + {x}| == |s| + 1
  {
  }

  lemma UnionSize<V>(a: set<V>, b: set<V>)
    ensures |a + b| <= |a| + |b|
  {
    assert a + b == a + (b - a);
    SubsetSize(b - a, b);
  }

  lemma SubsetSize<V>(a: set<V>, b: set<V>)
    requires a <= b
    ensures |a| <= |b|
  {
    assert b == a + (b - a);
    assert |b| == |a| + |b - a|;
  }

  ghost predicate Ranks<T>(g: Graph<T>, rank: map<Id, nat>) {
    forall k, p :: k in g && p in g[k].parents ==> k in rank && p in rank && rank[p] < rank[k]
  }

  /** A ranking that decreases along parents rules out cycles. */
  lemma {:induction false} RankedPath<T>(g: Graph<T>, rank: map<Id, nat>, n: nat, d: Id, a: Id)
    requires Ranks(g, rank)
    requires n > 0 && Path(g, n, d, a)
    ensures d in rank && a in rank && rank[a] < rank[d]
    decreases n
  {
    var q :| q in g[d].parents && Path(g, n - 1, q, a);
    if n > 1 { RankedPath(g, rank, n - 1, q, a); }
  }

  lemma RankedIsAcyclic<T>(g: Graph<T>, rank: map<Id, nat>)
    requires Ranks(g, rank)
    ensures Acyclic(g)
  {
    forall x ensures !Ancestor(g, x, x) {
      if Ancestor(g, x, x) {
        var n: nat :| n > 0 && Path(g, n, x, x);
        RankedPath(g, rank, n, x, x);
      }
    }
  }

  // ---------------------------------------------------------------- the frontier

  /** In a closed graph "named by nobody" and "ancestor of nobody" are the same thing. */
  lemma FrontierIsMaximal<T>(g: Graph<T>, x: Id)
    requires Closed(g) && x in g
    ensures x in Frontier(g) <==> forall d :: !Ancestor(g, x, d)
  {
    if Referenced(g, x) {
      var k :| k in g && x in g[k].parents;
      ParentIsAncestor(g, k, x);
    }
    forall d | Ancestor(g, x, d) ensures Referenced(g, x) {
      var n: nat :| n > 0 && Path(g, n, d, x);
      PathIsReferenced(g, n, d, x);
    }
  }

  /** Every revision is on the frontier or below some member of it. */
  lemma {:induction false} BelowFrontier<T>(g: Graph<T>, x: Id) returns (f: Id)
    requires Closed(g) && Acyclic(g) && x in g
    ensures f in Frontier(g) && (f == x || Ancestor(g, x, f))
    decreases |DescendantSet(g, x)|
  {
    if !Referenced(g, x) {
      f := x;
    } else {
      var k :| k in g && x in g[k].parents;
      ParentIsAncestor(g, k, x);
      DescendantsShrink(g, x, k);
      f := BelowFrontier(g, k);
      if f != k { AncestorTrans(g, x, k, f); }
    }
  }

  lemma FrontierNonEmpty<T>(g: Graph<T>)
    requires Closed(g) && Acyclic(g) && g.Keys != {}
    ensures Frontier(g) != {}
  {
    var x :| x in g;
    var f := BelowFrontier(g, x);
  }

  lemma FrontierIsAntichain<T>(g: Graph<T>)
    requires Closed(g)
    ensures Antichain(g, Frontier(g))
  {
    forall a, d | a in Frontier(g) && d in Frontier(g) ensures !Ancestor(g, a, d) {
      FrontierIsMaximal(g, a);
    }
  }

  // ---------------------------------------------------------------- growing graphs

  lemma {:induction false} PathUp<T>(g: Graph<T>, h: Graph<T>, n: nat, d: Id, a: Id)
    requires SubGraph(g, h) && Path(g, n, d, a)
    ensures Path(h, n, d, a)
    decreases n
  {
    if n > 0 {
      var q :| q in g[d].parents && Path(g, n - 1, q, a);
      PathUp(g, h, n - 1, q, a);
    }
  }

  lemma {:induction false} PathDown<T>(g: Graph<T>, h: Graph<T>, n: nat, d: Id, a: Id)
    requires SubGraph(g, h) && Closed(g) && d in g && Path(h, n, d, a)
    ensures Path(g, n, d, a)
    decreases n
  {
    if n > 0 {
      var q :| q in h[d].parents && Path(h, n - 1, q, a);
      PathDown(g, h, n - 1, q, a);
    }
  }

  /** Adding statements never changes the ancestry of what a closed part already held. */
  lemma AncestryIsLocal<T>(g: Graph<T>, h: Graph<T>, a: Id, d: Id)
    requires SubGraph(g, h) && Closed(g) && d in g
    ensures Ancestor(g, a, d) <==> Ancestor(h, a, d)
  {
    if Ancestor(g, a, d) {
      var n: nat :| n > 0 && Path(g, n, d, a);
      PathUp(g, h, n, d, a);
    }
    if Ancestor(h, a, d) {
      var n: nat :| n > 0 && Path(h, n, d, a);
      PathDown(g, h, n, d, a);
    }
  }

  lemma AncestorSetIsLocal<T>(g: Graph<T>, h: Graph<T>, d: Id)
    requires SubGraph(g, h) && Closed(g) && d in g
    ensures AncestorSet(g, d) == AncestorSet(h, d)
  {
    forall a ensures a in AncestorSet(g, d) <==> a in AncestorSet(h, d) {
      AncestryIsLocal(g, h, a, d);
      if Ancestor(g, a, d) { AncestorIsKnown(g, a, d); }
    }
  }

  lemma AntichainIsLocal<T>(g: Graph<T>, h: Graph<T>, ps: set<Id>)
    requires SubGraph(g, h) && Closed(g) && ps <= g.Keys
    ensures Antichain(g, ps) <==> Antichain(h, ps)
  {
    forall a, d | a in ps && d in ps ensures Ancestor(g, a, d) <==> Ancestor(h, a, d) { AncestryIsLocal(g, h, a, d); }
  }

  ghost function Restrict<T>(g: Graph<T>, keys: set<Id>): Graph<T> {
    map k | k in g && k in keys :: g[k]
  }

  /** A part of a valid graph that is closed under parents is valid by itself. */
  lemma RestrictIsValid<T>(g: Graph<T>, keys: set<Id>)
    requires Valid(g) && keys <= g.Keys && forall k, p :: k in keys && p in g[k].parents ==> p in keys
    ensures Valid(Restrict(g, keys)) && SubGraph(Restrict(g, keys), g) && Restrict(g, keys).Keys == keys
  {
    var h := Restrict(g, keys);
    forall x ensures !Ancestor(h, x, x) {
      if Ancestor(h, x, x) {
        AncestorIsKnown(h, x, x);
        AncestryIsLocal(h, g, x, x);
      }
    }
  }

  /** Two valid graphs that agree where they overlap have a valid union: merging can
      neither lose a parent nor close a cycle. */
  lemma UnionIsValid<T>(g: Graph<T>, h: Graph<T>)
    requires Valid(g) && Valid(h) && Agree(g, h)
    ensures Valid(g + h) && SubGraph(g, g + h) && SubGraph(h, g + h)
  {
    forall x ensures !Ancestor(g + h, x, x) {
      if x in g {
        AncestryIsLocal(g, g + h, x, x);
      } else if x in h {
        AncestryIsLocal(h, g + h, x, x);
      } else if Ancestor(g + h, x, x) {
        var q := AncestorStep(g + h, x, x);
      }
    }
  }

  /** A fresh revision over known parents keeps the graph valid; its ancestors are its
      parents and theirs, and nobody else's ancestry moves. */
  lemma InsertIsValid<T>(g: Graph<T>, r: Revision<T>)
    requires Valid(g) && r.id !in g && r.parents <= g.Keys
    ensures Valid(g[r.id := r]) && SubGraph(g, g[r.id := r])
    ensures forall a :: Ancestor(g[r.id := r], a, r.id) <==>
              a in r.parents || exists q :: q in r.parents && Ancestor(g, a, q)
  {
    var h := g[r.id := r];
    forall a
      ensures Ancestor(h, a, r.id) <==> a in r.parents || exists q :: q in r.parents && Ancestor(g, a, q)
    {
      if Ancestor(h, a, r.id) {
        var q := AncestorStep(h, a, r.id);
        AncestryIsLocal(g, h, a, q);
      }
      if a in r.parents { ParentIsAncestor(h, r.id, a); }
      if exists q :: q in r.parents && Ancestor(g, a, q) {
        var q :| q in r.parents && Ancestor(g, a, q);
        AncestryIsLocal(g, h, a, q);
        AncestorVia(h, a, q, r.id);
      }
    }
    forall x ensures !Ancestor(h, x, x) {
      if x in g {
        AncestryIsLocal(g, h, x, x);
      } else if Ancestor(h, x, x) {
        var q := AncestorStep(h, x, x);
        assert x == r.id;
        AncestryIsLocal(g, h, x, q);
        if q != x { AncestorIsKnown(g, x, q); }
      }
    }
  }

  lemma InsertFrontier<T>(g: Graph<T>, r: Revision<T>)
    requires Closed(g) && r.id !in g && r.id !in r.parents
    ensures Frontier(g[r.id := r]) == Frontier(g) - r.parents + {r.id}
  {
    var h := g[r.id := r];
    forall x | x in h ensures Referenced(h, x) <==> Referenced(g, x) || x in r.parents {
      if Referenced(g, x) {
        var k :| k in g && x in g[k].parents;
        assert k in h && x in h[k].parents;
      }
      if x in r.parents { assert x in h[r.id].parents; }
    }
  }

  /** A fresh revision over the whole frontier becomes the only frontier member, and its
      ancestors are exactly everything known before. */
  lemma AssignObservesAll<T>(g: Graph<T>, id: Id, v: T)
    requires Valid(g) && id !in g
    ensures var h := g[id := Revision(id, v, Frontier(g))];
            Valid(h) && Frontier(h) == {id} && AncestorSet(h, id) == g.Keys
  {
    var r := Revision(id, v, Frontier(g));
    var h := g[id := r];
    InsertIsValid(g, r);
    forall x | x in g ensures Ancestor(h, x, id) && Referenced(h, x) {
      var f := BelowFrontier(g, x);
      assert x in r.parents || (f in r.parents && Ancestor(g, x, f));
      assert Ancestor(h, x, r.id);
      if Referenced(g, x) {
        var k :| k in g && x in g[k].parents;
        assert k in h && x in h[k].parents;
      } else {
        assert x in h[id].parents;
      }
    }
    assert !Referenced(h, id);
    assert forall x :: x in AncestorSet(h, id) ==> x in g;
  }

  // ---------------------------------------------------------------- worklists

  /** Every identity reached from `roots`, or the unknown identity the walk ran into. */
  method AncestorClosure<T>(g: Graph<T>, roots: set<Id>) returns (closure: set<Id>, unknown: Option<Id>)
    ensures unknown.None? <==> roots <= g.Keys && forall x, r :: r in roots && Ancestor(g, x, r) ==> x in g
    ensures unknown.None? ==> closure == ClosureOf(g, roots) && closure <= g.Keys
    ensures unknown.None? ==> forall x :: x in closure <==> x in roots || exists r :: r in roots && Ancestor(g, x, r)
    ensures unknown.Some? ==> unknown.value !in g
    ensures unknown.Some? ==> unknown.value in roots || exists r :: r in roots && Ancestor(g, unknown.value, r)
  {
    closure, unknown := {}, None;
    var pending := roots;
    while pending != {}
      invariant closure <= g.Keys && roots <= closure + pending
      invariant forall x :: x in closure + pending ==> x in roots || exists r :: r in roots && Ancestor(g, x, r)
      invariant forall k, p :: k in closure && p in g[k].parents ==> (p in closure || p in pending)
      decreases g.Keys - closure, pending
    {
      var x :| x in pending;
      pending := pending - {x};
      if x !in closure {
        if x !in g {
          unknown := Some(x);
          return;
        }
        forall p | p in g[x].parents
          ensures p in roots || exists r :: r in roots && Ancestor(g, p, r)
        {
          ParentIsAncestor(g, x, p);
          if x !in roots {
            var r :| r in roots && Ancestor(g, x, r);
            AncestorTrans(g, p, x, r);
          }
        }
        closure := closure + {x};
        pending := pending + g[x].parents;
      }
    }
    forall x, r | r in roots && Ancestor(g, x, r) ensures x in closure {
      AncestorStaysIn(g, x, r, closure);
    }
    assert closure == ClosureOf(g, roots);
  }
}
