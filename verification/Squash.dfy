/** Private squashing: local revisions that never left the replica and are already
    superseded are deleted, and the survivors' parent sets are rewritten around them.
    The rewritten graph has the same ancestry between survivors, the same frontier and
    the same shown value. */
module Squash {
  import opened CausalGraph
  import opened CoreTypes
  import opened ScalarRegisters

  // ---------------------------------------------------------------- definition

  /** `b` is the first kept revision on a path of `n` steps starting at `p`. */
  ghost predicate Bypass<T>(g: Graph<T>, removed: set<Id>, n: nat, p: Id, b: Id) {
    if n == 0 then p == b && b !in removed
    else p in removed && p in g && exists q :: q in g[p].parents && Bypass(g, removed, n - 1, q, b)
  }

  ghost predicate Bypasses<T>(g: Graph<T>, removed: set<Id>, p: Id, b: Id) {
    exists n: nat :: Bypass(g, removed, n, p, b)
  }

  ghost predicate OnBoundary<T>(g: Graph<T>, removed: set<Id>, parents: set<Id>, b: Id) {
    exists p :: p in parents && Bypasses(g, removed, p, b)
  }

  /** The kept revisions first met when walking up from `parents`. */
  ghost function Boundary<T>(g: Graph<T>, removed: set<Id>, parents: set<Id>): set<Id> {
    set b | b in g && OnBoundary(g, removed, parents, b)
  }

  /** The members that are not ancestors of other members. */
  ghost function Maximal<T>(g: Graph<T>, s: set<Id>): set<Id> {
    set c | c in s && forall o :: o in s ==> !Ancestor(g, c, o)
  }

  ghost function Rewritten<T>(g: Graph<T>, removed: set<Id>, r: Revision<T>): Revision<T> {
    Revision(r.id, r.value, Maximal(g, Boundary(g, removed, r.parents)))
  }

  ghost function Squashed<T>(g: Graph<T>, removed: set<Id>): Graph<T> {
    map x | x in g && x !in removed :: Rewritten(g, removed, g[x])
  }

  function Removable<T>(g: Graph<T>, privateIds: set<Id>, exposed: set<Id>): set<Id> {
    privateIds - exposed - Frontier(g)
  }

  /** Nothing removable means nothing is touched, not even the parent sets. */
  ghost function SquashOutcome<T>(g: Graph<T>, removed: set<Id>): Graph<T> {
    if removed == {} then g else Squashed(g, removed)
  }

  ghost predicate Squashable<T>(g: Graph<T>, removed: set<Id>) {
    Valid(g) && removed <= g.Keys && removed !! Frontier(g)
  }

  // ---------------------------------------------------------------- boundary lemmas

  lemma {:induction false} BypassIsUpward<T>(g: Graph<T>, removed: set<Id>, n: nat, p: Id, b: Id)
    requires Bypass(g, removed, n, p, b)
    ensures b !in removed && (b == p || Ancestor(g, b, p))
    decreases n
  {
    if n > 0 {
      var q :| q in g[p].parents && Bypass(g, removed, n - 1, q, b);
      BypassIsUpward(g, removed, n - 1, q, b);
      AncestorVia(g, b, q, p);
    }
  }

  /** Every boundary member is a kept strict ancestor of the revision it serves. */
  lemma BoundaryIsAbove<T>(g: Graph<T>, removed: set<Id>, d: Id, b: Id)
    requires d in g && b in Boundary(g, removed, g[d].parents)
    ensures b !in removed && Ancestor(g, b, d)
  {
    var p :| p in g[d].parents && Bypasses(g, removed, p, b);
    var n: nat :| Bypass(g, removed, n, p, b);
    BypassIsUpward(g, removed, n, p, b);
    AncestorVia(g, b, p, d);
  }

  /** A path to a kept revision meets a first kept revision. */
  lemma {:induction false} FirstKept<T>(g: Graph<T>, removed: set<Id>, n: nat, p: Id, a: Id) returns (b: Id)
    requires Closed(g) && p in g && Path(g, n, p, a) && a !in removed
    ensures b in g && Bypasses(g, removed, p, b) && (b == a || Ancestor(g, a, b))
    decreases n
  {
    if p !in removed {
      b := p;
      assert Bypass(g, removed, 0, p, b);
    } else {
      assert n > 0;
      var q :| q in g[p].parents && Path(g, n - 1, q, a);
      b := FirstKept(g, removed, n - 1, q, a);
      var m: nat :| Bypass(g, removed, m, q, b);
      assert Bypass(g, removed, m + 1, p, b);
    }
  }

  lemma {:induction false} MaximalAbove<T>(g: Graph<T>, s: set<Id>, c: Id) returns (m: Id)
    requires Closed(g) && Acyclic(g) && c in s
    ensures m in Maximal(g, s) && (m == c || Ancestor(g, c, m))
    decreases |DescendantSet(g, c)|
  {
    if exists o :: o in s && Ancestor(g, c, o) {
      var o :| o in s && Ancestor(g, c, o);
      DescendantsShrink(g, c, o);
      m := MaximalAbove(g, s, o);
      if m != o { AncestorTrans(g, c, o, m); }
    } else {
      m := c;
    }
  }

  // ---------------------------------------------------------------- meaning is preserved

  lemma {:induction false} SquashedPathIsAncestry<T>(g: Graph<T>, removed: set<Id>, n: nat, d: Id, a: Id)
    requires n > 0 && Path(Squashed(g, removed), n, d, a)
    ensures Ancestor(g, a, d)
    decreases n
  {
    var h := Squashed(g, removed);
    var q :| q in h[d].parents && Path(h, n - 1, q, a);
    BoundaryIsAbove(g, removed, d, q);
    if n > 1 {
      SquashedPathIsAncestry(g, removed, n - 1, q, a);
      AncestorTrans(g, a, q, d);
    }
  }

  lemma SquashAddsNothing<T>(g: Graph<T>, removed: set<Id>, a: Id, d: Id)
    requires Ancestor(Squashed(g, removed), a, d)
    ensures Ancestor(g, a, d)
  {
    var n: nat :| n > 0 && Path(Squashed(g, removed), n, d, a);
    SquashedPathIsAncestry(g, removed, n, d, a);
  }

  lemma {:induction false} SquashLosesNothing<T>(g: Graph<T>, removed: set<Id>, a: Id, d: Id)
    requires Valid(g) && Ancestor(g, a, d) && a !in removed && d !in removed
    ensures Ancestor(Squashed(g, removed), a, d)
    decreases |AncestorSet(g, d)|
  {
    var h := Squashed(g, removed);
    var q := AncestorStep(g, a, d);
    var n: nat :| Path(g, n, q, a) by {
      if q == a { assert Path(g, 0, q, a); }
    }
    var b := FirstKept(g, removed, n, q, a);
    var m := MaximalAbove(g, Boundary(g, removed, g[d].parents), b);
    assert m in h[d].parents;
    BoundaryIsAbove(g, removed, d, m);
    if m != a {
      if m != b && b != a { AncestorTrans(g, a, b, m); }
      AncestorsShrink(g, m, d);
      SquashLosesNothing(g, removed, a, m);
    }
    AncestorVia(h, a, m, d);
  }

  /** The main result: survivors keep exactly their mutual ancestry, the graph stays valid,
      and the frontier (hence the winner and its value) is untouched. */
  lemma SquashPreservesMeaning<T>(g: Graph<T>, removed: set<Id>)
    requires Squashable(g, removed)
    ensures var h := Squashed(g, removed);
            && Valid(h)
            && h.Keys == g.Keys - removed
            && (forall x :: x in h ==> h[x].value == g[x].value)
            && (forall a, d :: a in h && d in h ==> (Ancestor(h, a, d) <==> Ancestor(g, a, d)))
            && Frontier(h) == Frontier(g)
  {
    var h := Squashed(g, removed);
    forall k, p | k in h && p in h[k].parents ensures p in h {
      BoundaryIsAbove(g, removed, k, p);
    }
    forall a, d | a in h && d in h ensures Ancestor(h, a, d) <==> Ancestor(g, a, d) {
      if Ancestor(h, a, d) { SquashAddsNothing(g, removed, a, d); }
      if Ancestor(g, a, d) { SquashLosesNothing(g, removed, a, d); }
    }
    forall x ensures !Ancestor(h, x, x) {
      if Ancestor(h, x, x) { SquashAddsNothing(g, removed, x, x); }
    }
    forall x | x in h ensures x in Frontier(h) <==> x in Frontier(g) {
      FrontierIsMaximal(g, x);
      FrontierIsMaximal(h, x);
      if d :| Ancestor(g, x, d) {
        AncestorIsKnown(g, x, d);
        var f := BelowFrontier(g, d);
        if f != d { AncestorTrans(g, x, d, f); }
        assert f in h && Ancestor(h, x, f);
      }
      if d :| Ancestor(h, x, d) { SquashAddsNothing(g, removed, x, d); }
    }
    assert forall x :: x in Frontier(g) ==> x in h;
  }

  // ---------------------------------------------------------------- which statements move

  /** Where no parent is removed the boundary is the parent set itself. */
  lemma UntouchedBoundary<T>(g: Graph<T>, removed: set<Id>, ps: set<Id>)
    requires ps <= g.Keys && ps !! removed
    ensures Boundary(g, removed, ps) == ps
  {
    forall b ensures b in Boundary(g, removed, ps) <==> b in ps {
      if b in ps { assert Bypass(g, removed, 0, b, b); }
      if b in Boundary(g, removed, ps) {
        var p :| p in ps && Bypasses(g, removed, p, b);
        var n: nat :| Bypass(g, removed, n, p, b);
        assert n == 0;
      }
    }
  }

  /** A survivor none of whose parents is removed keeps its statement if and only if its
      parents form an antichain: the maximality reduction drops redundant parents even
      where nothing was bypassed. */
  lemma StatementKeptIffAntichain<T>(g: Graph<T>, removed: set<Id>, x: Id)
    requires Valid(g) && x in g && x !in removed && g[x].parents !! removed
    ensures Squashed(g, removed)[x] == g[x] <==> Antichain(g, g[x].parents)
  {
    var ps := g[x].parents;
    UntouchedBoundary(g, removed, ps);
    assert Squashed(g, removed)[x].parents == Maximal(g, ps);
    if Maximal(g, ps) == ps {
      forall a, d | a in ps && d in ps ensures !Ancestor(g, a, d) { assert a in Maximal(g, ps); }
    }
  }

  /** A survivor that named a removed parent is always rewritten. */
  lemma StatementMovesIfParentRemoved<T>(g: Graph<T>, removed: set<Id>, x: Id, p: Id)
    requires x in g && x !in removed && p in g[x].parents && p in removed
    ensures Squashed(g, removed)[x] != g[x]
  {
    if p in Squashed(g, removed)[x].parents { BoundaryIsAbove(g, removed, x, p); }
  }

  /** The two cases at once: which survivors of a squash keep their statement. */
  lemma StatementKept<T>(g: Graph<T>, removed: set<Id>, x: Id)
    requires Valid(g) && x in g && x !in removed
    ensures Squashed(g, removed)[x] == g[x] <==> g[x].parents !! removed && Antichain(g, g[x].parents)
  {
    if g[x].parents !! removed {
      StatementKeptIffAntichain(g, removed, x);
    } else {
      var p :| p in g[x].parents && p in removed;
      StatementMovesIfParentRemoved(g, removed, x, p);
    }
  }

  // ---------------------------------------------------------------- the stateful class

  class ExposureAwareCausalState<T(==)> {
    var causal: Graph<T>
    var privateLocalIds: set<Id>
    var exposedIds: set<Id>

    ghost predicate Sound()
      reads this
    {
      Valid(causal) && privateLocalIds <= causal.Keys && exposedIds <= causal.Keys
    }

    constructor (causal: Graph<T>, privateLocalIds: set<Id>, exposedIds: set<Id>)
      ensures this.causal == causal && this.privateLocalIds == privateLocalIds && this.exposedIds == exposedIds
    {
      this.causal := causal;
      this.privateLocalIds := privateLocalIds;
      this.exposedIds := exposedIds;
    }

    /** Marks the named revisions and all their ancestors as outside the replica; an unknown
        identity refuses the whole call. */
    method MarkExposed(ids: set<Id>) returns (ok: bool)
      requires Sound()
      modifies this`privateLocalIds, this`exposedIds
      ensures Sound() && (ok <==> ids <= causal.Keys)
      ensures !ok ==> exposedIds == old(exposedIds) && privateLocalIds == old(privateLocalIds)
      ensures ok ==> exposedIds == old(exposedIds) + ClosureOf(causal, ids)
      ensures ok ==> privateLocalIds == old(privateLocalIds) - ClosureOf(causal, ids)
    {
      var closure, unknown := AncestorClosure(causal, ids);
      forall x, r | r in ids && Ancestor(causal, x, r) ensures x in causal { AncestorIsKnown(causal, x, r); }
      if unknown.Some? { return false; }
      exposedIds := exposedIds + closure;
      privateLocalIds := privateLocalIds - closure;
      ok := true;
    }

    method SquashUnexposedDominated() returns (result: ExposureAwareCausalState<T>, removed: set<Id>)
      requires Sound()
      ensures fresh(result) && result.Sound()
      ensures removed == Removable(causal, privateLocalIds, exposedIds)
      ensures forall x :: x in removed <==>
                x in privateLocalIds && x !in exposedIds && exists k :: k in causal && x in causal[k].parents
      ensures result.causal == SquashOutcome(causal, removed)
      ensures result.privateLocalIds == privateLocalIds - removed && result.exposedIds == exposedIds
    {
      removed := Removable(causal, privateLocalIds, exposedIds);
      assert forall x :: x in causal && Referenced(causal, x) ==> exists k :: k in causal && x in causal[k].parents;
      if removed == {} {
        result := new ExposureAwareCausalState(causal, privateLocalIds, exposedIds);
        assert privateLocalIds - removed == privateLocalIds;
        return;
      }
      SquashPreservesMeaning(causal, removed);
      var rewritten: Graph<T> := map[];
      var todo := causal.Keys - removed;
      while todo != {}
        invariant todo <= causal.Keys - removed
        invariant rewritten.Keys == causal.Keys - removed - todo
        invariant forall k :: k in rewritten ==> rewritten[k] == Rewritten(causal, removed, causal[k])
      {
        var id :| id in todo;
        todo := todo - {id};
        var parents := BoundaryParents(causal, removed, causal[id].parents);
        rewritten := rewritten[id := Revision(causal[id].id, causal[id].value, parents)];
      }
      assert rewritten == Squashed(causal, removed);
      result := new ExposureAwareCausalState(rewritten, privateLocalIds - removed, exposedIds);
    }

    /** The kept revisions first met above `parents`, reduced to the maximal ones. */
    static method BoundaryParents(g: Graph<T>, removed: set<Id>, parents: set<Id>) returns (reduced: set<Id>)
      requires Closed(g) && Acyclic(g) && parents <= g.Keys
      ensures reduced == Maximal(g, Boundary(g, removed, parents))
    {
      var boundary: set<Id> := {};
      var seen: set<Id> := {};
      var pending := parents;
      while pending != {}
        invariant pending <= g.Keys && seen <= g.Keys && boundary <= seen
        invariant forall b :: b in boundary <==> b in seen && b !in removed
        invariant forall b :: b in boundary ==> OnBoundary(g, removed, parents, b)
        invariant forall p, b :: p in pending && Bypasses(g, removed, p, b) ==> OnBoundary(g, removed, parents, b)
        invariant forall p :: p in parents ==> p in seen || p in pending
        invariant forall k, p :: k in seen && k in removed && p in g[k].parents ==> p in seen || p in pending
        decreases g.Keys - seen, pending
      {
        var parent :| parent in pending;
        ghost var before := pending;
        pending := pending - {parent};
        if parent !in seen {
          seen := seen + {parent};
          if parent in removed {
            forall p, b | p in g[parent].parents && Bypasses(g, removed, p, b)
              ensures OnBoundary(g, removed, parents, b)
            {
              var n: nat :| Bypass(g, removed, n, p, b);
              assert Bypass(g, removed, n + 1, parent, b);
              assert parent in before && Bypasses(g, removed, parent, b);
            }
            pending := pending + g[parent].parents;
          } else {
            assert Bypass(g, removed, 0, parent, parent);
            assert parent in before && Bypasses(g, removed, parent, parent);
            boundary := boundary + {parent};
          }
        }
      }
      forall b | b in Boundary(g, removed, parents) ensures b in boundary {
        var p :| p in parents && Bypasses(g, removed, p, b);
        var n: nat :| Bypass(g, removed, n, p, b);
        BypassStaysIn(g, removed, n, p, b, seen);
        BypassIsUpward(g, removed, n, p, b);
      }
      assert boundary == Boundary(g, removed, parents);

      var register := new ScalarRegister.FromGraph(g);
      reduced := boundary;
      assert boundary <= g.Keys;
      var candidates := boundary;
      while candidates != {}
        invariant candidates <= boundary && reduced <= boundary
        invariant forall c :: c in boundary ==>
                    (c in reduced <==> c in candidates || forall o :: o in boundary ==> !Ancestor(g, c, o))
        invariant register.revisions == g
      {
        var candidate :| candidate in candidates;
        candidates := candidates - {candidate};
        var others := boundary;
        var dominated := false;
        while others != {} && !dominated
          invariant others <= boundary && register.revisions == g
          invariant dominated ==> exists o :: o in boundary && Ancestor(g, candidate, o)
          invariant !dominated ==> forall o :: o in boundary && o !in others ==> o == candidate || !Ancestor(g, candidate, o)
          decreases others, !dominated
        {
          var other :| other in others;
          others := others - {other};
          if candidate != other { dominated := register.IsAncestor(candidate, other); }
        }
        reduced := if dominated then reduced - {candidate} else reduced;
      }
    }
  }

  lemma {:induction false} BypassStaysIn<T>(g: Graph<T>, removed: set<Id>, n: nat, p: Id, b: Id, seen: set<Id>)
    requires Bypass(g, removed, n, p, b) && p in seen
    requires forall k, q :: k in seen && k in removed && k in g && q in g[k].parents ==> q in seen
    ensures b in seen
    decreases n
  {
    if n > 0 {
      var q :| q in g[p].parents && Bypass(g, removed, n - 1, q, b);
      BypassStaysIn(g, removed, n - 1, q, b, seen);
    }
  }
}
