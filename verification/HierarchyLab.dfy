/** Placing, deleting and merging atoms, the source of every state the resolvers see, and
    the default witnesses read off the placement history. */
module HierarchyLab {
  import opened CausalGraph
  import opened CoreTypes
  import opened OracleRefinement
  import opened CycleBreaking
  import opened CycleSearch
  import opened HierarchyResolvers
  import opened HierarchyBounded

  datatype Lab = Lab(parents: Hierarchy, deleted: set<Atom>)

  function RegisterOf(h: Hierarchy, a: Atom): Register {
    if a in h then h[a] else map[]
  }

  /** Refused for self-parents, unknown or deleted parents, deleted atoms and reused revisions. */
  function Place(lab: Lab, atom: Atom, revision: Id, parent: Option<Atom>): Option<Lab> {
    if parent.Some? && (parent.value == atom || parent.value !in lab.parents || parent.value in lab.deleted) then None
    else if atom in lab.deleted then None
    else match OracleAssign(RegisterOf(lab.parents, atom), revision, parent)
         case None => None
         case Some(register) => Some(lab.(parents := lab.parents[atom := register]))
  }

  function Delete(lab: Lab, atom: Atom): Option<Lab> {
    if atom !in lab.parents then None else Some(lab.(deleted := lab.deleted + {atom}))
  }

  ghost function MergeLabs(l: Lab, r: Lab): Option<Lab> {
    if forall a :: a in l.parents && a in r.parents ==> OracleMerge(l.parents[a], r.parents[a]).Some?
    then Some(Lab(map a | a in l.parents.Keys + r.parents.Keys :: RegisterOf(l.parents, a) + RegisterOf(r.parents, a),
                  l.deleted + r.deleted))
    else None
  }

  // ---------------------------------------------------------------- what the operations store

  /** The parent a register shows: that of the greatest revision no other has observed. */
  ghost predicate ShowsParent(reg: Register, parent: Option<Atom>) {
    if OracleFrontier(reg) == {} then parent == None
    else exists m :: IsMax(m, OracleFrontier(reg)) && parent == reg[m].value
  }

  /** An accepted placement is a revision that has observed everything its atom had, so it is
      shown; nothing else changes. It is refused exactly for the stated reasons. */
  lemma PlaceStores(lab: Lab, atom: Atom, revision: Id, parent: Option<Atom>)
    ensures Place(lab, atom, revision, parent).None? <==>
              atom in lab.deleted || revision in ObservedContext(RegisterOf(lab.parents, atom)) ||
              (parent.Some? && (parent.value == atom || parent.value !in lab.parents || parent.value in lab.deleted))
    ensures Place(lab, atom, revision, parent).Some? ==>
              var t := Place(lab, atom, revision, parent).value; var reg := RegisterOf(lab.parents, atom);
              && t.deleted == lab.deleted && t.parents.Keys == lab.parents.Keys + {atom}
              && (forall a :: a in lab.parents && a != atom ==> t.parents[a] == lab.parents[a])
              && t.parents[atom].Keys == reg.Keys + {revision} && revision !in reg
              && (forall x :: x in reg ==> t.parents[atom][x] == reg[x] && x in t.parents[atom][revision].context)
              && revision !in t.parents[atom][revision].context
              && OracleFrontier(t.parents[atom]) == {revision} && ShowsParent(t.parents[atom], parent)
  {
    if Place(lab, atom, revision, parent).Some? {
      var reg := Place(lab, atom, revision, parent).value.parents[atom];
      assert revision in OracleFrontier(reg);
      assert IsMax(revision, OracleFrontier(reg));
    }
  }

  /** A deletion is refused exactly for an unknown atom, and only marks it. */
  lemma DeleteStores(lab: Lab, atom: Atom)
    ensures Delete(lab, atom).None? <==> atom !in lab.parents
    ensures Delete(lab, atom).Some? ==>
              var t := Delete(lab, atom).value;
              t.parents == lab.parents && forall a :: a in t.deleted <==> a in lab.deleted || a == atom
  {
  }

  ghost predicate Stores(lab: Lab, a: Atom, r: OracleRevision<Option<Atom>>, x: Id) {
    a in lab.parents && x in lab.parents[a] && lab.parents[a][x] == r
  }

  /** A merge holds exactly the atoms, revisions and deletions of either side, and is refused
      exactly when one revision has two statements. */
  lemma MergeStores(l: Lab, r: Lab)
    ensures MergeLabs(l, r).None? <==>
              exists a, x :: a in l.parents && a in r.parents && x in l.parents[a] && x in r.parents[a] && l.parents[a][x] != r.parents[a][x]
    ensures MergeLabs(l, r).Some? ==>
              var m := MergeLabs(l, r).value;
              && m.deleted == l.deleted + r.deleted && m.parents.Keys == l.parents.Keys + r.parents.Keys
              && forall a, v, x :: Stores(m, a, v, x) <==> Stores(l, a, v, x) || Stores(r, a, v, x)
  {
    if MergeLabs(l, r).None? {
      var a :| a in l.parents && a in r.parents && OracleMerge(l.parents[a], r.parents[a]).None?;
      var x :| x in l.parents[a] && x in r.parents[a] && l.parents[a][x] != r.parents[a][x];
    } else {
      forall a, v, x ensures Stores(MergeLabs(l, r).value, a, v, x) <==> Stores(l, a, v, x) || Stores(r, a, v, x) {
        if a in l.parents && a in r.parents { assert OracleMerge(l.parents[a], r.parents[a]).Some?; }
      }
    }
  }

  // ---------------------------------------------------------------- reachable labs

  datatype LabOp = PlaceAt(atom: Atom, revision: Id, parent: Option<Atom>) | DeleteAt(atom: Atom) | MergeWith(other: Lab)

  ghost function LabStep(lab: Lab, op: LabOp): Lab {
    match op
    case PlaceAt(a, r, p) => OrElse(Place(lab, a, r, p), lab)
    case DeleteAt(a) => OrElse(Delete(lab, a), lab)
    case MergeWith(other) => OrElse(MergeLabs(lab, other), lab)
  }

  ghost function LabRun(lab: Lab, ops: seq<LabOp>): Lab
    decreases |ops|
  {
    if ops == [] then lab else LabRun(LabStep(lab, ops[0]), ops[1..])
  }

  lemma PlaceKeepsWellFormed(lab: Lab, atom: Atom, revision: Id, parent: Option<Atom>)
    requires WellFormed(lab.parents)
    ensures Place(lab, atom, revision, parent).Some? ==> WellFormed(Place(lab, atom, revision, parent).value.parents)
  {
    var placed := Place(lab, atom, revision, parent);
    if placed.Some? {
      var h: Hierarchy := placed.value.parents;
      forall a: Atom, r: Id | a in h && r in h[a] && h[a][r].value.Some? ensures h[a][r].value.value in h && h[a][r].value.value != a {
        if a == atom && r != revision { assert r in RegisterOf(lab.parents, a); }
      }
    }
  }

  lemma MergeKeepsWellFormed(l: Lab, r: Lab)
    requires WellFormed(l.parents) && WellFormed(r.parents)
    ensures MergeLabs(l, r).Some? ==> WellFormed(MergeLabs(l, r).value.parents)
  {
    if MergeLabs(l, r).Some? {
      var h: Hierarchy := MergeLabs(l, r).value.parents;
      forall a: Atom, x: Id | a in h && x in h[a] && h[a][x].value.Some? ensures h[a][x].value.value in h && h[a][x].value.value != a {
        if x in RegisterOf(r.parents, a) { assert h[a][x] == r.parents[a][x]; }
        else { assert h[a][x] == l.parents[a][x]; }
      }
    }
  }

  /** Whatever is placed, deleted and merged, every stored parent stays known and not self, so
      of the resolvers' checks only exhaustion can ever fail. */
  lemma {:induction false} LabRunWellFormed(lab: Lab, ops: seq<LabOp>)
    requires WellFormed(lab.parents)
    requires forall op :: op in ops && op.MergeWith? ==> WellFormed(op.other.parents)
    ensures WellFormed(LabRun(lab, ops).parents)
    decreases |ops|
  {
    if ops != [] {
      match ops[0] {
        case PlaceAt(a, r, p) => PlaceKeepsWellFormed(lab, a, r, p);
        case DeleteAt(a) =>
        case MergeWith(other) =>
          assert ops[0] in ops;
          MergeKeepsWellFormed(lab, other);
      }
      LabRunWellFormed(LabStep(lab, ops[0]), ops[1..]);
    }
  }

  // ---------------------------------------------------------------- default witnesses

  /** The part of an atom's history that a placement had observed. */
  function Observed(reg: Register, r: Id): Register
    requires r in reg
  {
    map x | x in reg && x in reg[r].context :: reg[x]
  }

  ghost function PreviousParent(reg: Register, r: Id): Option<Atom>
    requires r in reg
  {
    var prior := Observed(reg, r);
    if OracleFrontier(prior) == {} then None else prior[GreatestOf(OracleFrontier(prior))].value
  }

  /** Every observed revision is known. */
  ghost predicate ContextsKnown(h: Hierarchy) {
    forall a, r, x :: a in h && r in h[a] && x in h[a][r].context ==> x in h[a]
  }

  lemma ObservedIs(reg: Register, r: Id, before: Register)
    requires r in reg && reg.Keys == before.Keys + {r} && r !in before && r !in reg[r].context
    requires forall x :: x in before ==> reg[x] == before[x] && x in reg[r].context
    ensures Observed(reg, r) == before
  {
  }

  /** The default witness of a placement is the parent its atom showed just before. */
  lemma PlacementRemembersParent(lab: Lab, atom: Atom, revision: Id, parent: Option<Atom>)
    requires Place(lab, atom, revision, parent).Some?
    ensures var reg := Place(lab, atom, revision, parent).value.parents[atom];
            revision in reg && ShowsParent(RegisterOf(lab.parents, atom), PreviousParent(reg, revision))
  {
    var before := RegisterOf(lab.parents, atom);
    var reg := Place(lab, atom, revision, parent).value.parents[atom];
    PlaceStores(lab, atom, revision, parent);
    ObservedIs(reg, revision, before);
    hide Place, OracleFrontier, Observed;
    if OracleFrontier(before) != {} {
      assert IsMax(GreatestOf(OracleFrontier(before)), OracleFrontier(before));
    }
  }

  lemma SameHistorySameWitness(reg: Register, grown: Register, r: Id)
    requires r in reg && (forall x :: x in reg ==> x in grown && grown[x] == reg[x])
    requires forall x :: x in reg[r].context ==> x in reg
    ensures PreviousParent(grown, r) == PreviousParent(reg, r)
  {
    assert Observed(grown, r) == Observed(reg, r);
  }

  lemma StepKeepsContextsKnown(lab: Lab, op: LabOp)
    requires ContextsKnown(lab.parents) && (op.MergeWith? ==> ContextsKnown(op.other.parents))
    ensures ContextsKnown(LabStep(lab, op).parents)
  {
    var t := LabStep(lab, op);
    forall a, r, x | a in t.parents && r in t.parents[a] && x in t.parents[a][r].context ensures x in t.parents[a] {
      if op.PlaceAt? && a == op.atom {
        if r in RegisterOf(lab.parents, a) { assert t.parents[a][r] == lab.parents[a][r]; }
      } else if op.MergeWith? && MergeLabs(lab, op.other).Some? {
        MergeStores(lab, op.other);
        assert Stores(t, a, t.parents[a][r], r);
      }
    }
  }

  lemma StepKeepsHistory(lab: Lab, op: LabOp, a: Atom)
    requires a in lab.parents
    ensures var t := LabStep(lab, op);
            a in t.parents && forall x :: x in lab.parents[a] ==> x in t.parents[a] && t.parents[a][x] == lab.parents[a][x]
  {
    match op
    case PlaceAt(b, r, p) => PlaceStores(lab, b, r, p);
    case DeleteAt(_) =>
    case MergeWith(other) =>
      if MergeLabs(lab, other).Some? {
        MergeStores(lab, other);
        var t := MergeLabs(lab, other).value;
        forall x | x in lab.parents[a] ensures x in t.parents[a] && t.parents[a][x] == lab.parents[a][x] {
          assert Stores(lab, a, lab.parents[a][x], x);
        }
      }
  }

  /** No later placement, deletion or merge changes what a placement remembers. */
  lemma {:induction false} WitnessNeverChanges(lab: Lab, ops: seq<LabOp>, a: Atom, r: Id)
    requires ContextsKnown(lab.parents) && a in lab.parents && r in lab.parents[a]
    requires forall op :: op in ops && op.MergeWith? ==> ContextsKnown(op.other.parents)
    ensures var t := LabRun(lab, ops);
            a in t.parents && r in t.parents[a] && PreviousParent(t.parents[a], r) == PreviousParent(lab.parents[a], r)
    decreases |ops|
  {
    if ops != [] {
      assert ops[0] in ops;
      var t := LabStep(lab, ops[0]);
      StepKeepsContextsKnown(lab, ops[0]);
      StepKeepsHistory(lab, ops[0], a);
      SameHistorySameWitness(lab.parents[a], t.parents[a], r);
      WitnessNeverChanges(t, ops[1..], a, r);
    }
  }

  method PreviousParentWitnesses(h: Hierarchy) returns (w: Witnesses)
    ensures forall r :: r in w ==> exists a :: a in h && r in h[a] && w[r] == PreviousParent(h[a], r)
    ensures forall a, r :: a in h && r in h[a] ==> r in w
    ensures DistinctIds(h) ==> forall a, r :: a in h && r in h[a] ==> w[r] == PreviousParent(h[a], r)
  {
    w := map[];
    var todo := h.Keys;
    while todo != {}
      invariant todo <= h.Keys
      invariant forall r :: r in w ==> exists a :: a in h && a !in todo && r in h[a] && w[r] == PreviousParent(h[a], r)
      invariant forall a, r :: a in h && a !in todo && r in h[a] ==> r in w
    {
      var a :| a in todo;
      var left := h[a].Keys;
      while left != {}
        invariant left <= h[a].Keys && a in todo && todo <= h.Keys
        invariant forall r :: r in w ==> exists b :: b in h && (b !in todo || b == a) && r in h[b] && w[r] == PreviousParent(h[b], r)
        invariant forall b, r :: b in h && b !in todo && r in h[b] ==> r in w
        invariant forall r :: r in h[a] && r !in left ==> r in w
      {
        var r :| r in left;
        left := left - {r};
        var prior := Observed(h[a], r);
        var frontier := OracleFrontier(prior);
        var previous: Option<Atom> := None;
        if frontier != {} {
          var shown := Greatest(frontier);
          previous := prior[shown].value;
        }
        assert previous == PreviousParent(h[a], r);
        w := w[r := previous];
      }
      todo := todo - {a};
    }
    if DistinctIds(h) {
      forall a, r | a in h && r in h[a] ensures w[r] == PreviousParent(h[a], r) {
        var b :| b in h && r in h[b] && w[r] == PreviousParent(h[b], r);
      }
    }
  }

  /** Default witnesses are always usable: they are stored parents of the same atom. */
  lemma DefaultWitnessesUsable(h: Hierarchy, m: Active, w: Witnesses)
    requires WellFormed(h) && Shows(h, {}, m)
    requires forall a, r :: a in h && r in h[a] ==> r in w && w[r] == PreviousParent(h[a], r)
    ensures UsableWitnesses(m, w)
  {
    forall a | a in m.ids && WitnessOf(w, m.ids[a]).Some?
      ensures WitnessOf(w, m.ids[a]).value in m.parents && WitnessOf(w, m.ids[a]).value != a
    {
      var r := m.ids[a];
      assert r in Without(h[a], {});
      var prior := Observed(h[a], r);
      assert OracleFrontier(prior) != {};
      assert GreatestOf(OracleFrontier(prior)) in h[a];
    }
  }

  // ---------------------------------------------------------------- the two bounded policies

  method ResolveWithRootFallback(h: Hierarchy) returns (r: Result<Bounded, ResolveError>, ghost m: Active)
    ensures WellFormed(h) && r.Err? ==> r.error == NoPlacement && exists a :: a in h && OracleFrontier(h[a]) == {}
    ensures r.Ok? ==> Shows(h, {}, m) && CycleFree(r.value.parents) && r.value.parents == WithRoots(m.parents, InitialLosers(m))
    ensures r.Ok? ==> r.value.modes == ModesWith(m.parents, InitialLosers(m)) && r.value.rejected == IdsOf(m.ids, InitialLosers(m))
    ensures r.Ok? ==> r.value.steps == StepsWith(InitialLosers(m))
    ensures r.Ok? ==> r.value.iterations == r.value.initialCycles == |CycleSets(m.parents)|
  {
    var current := MaterializeAll(h, {});
    m := if current.Ok? then current.value else Active(map[], map[]);
    if current.Err? {
      forall a | a in h ensures Without(h[a], {}) == h[a] {}
      return Err(current.error), m;
    }
    r := FallBackToRoot(current.value);
  }

  /** Without supplied witnesses (or with none in them) the history's own are used. */
  method ResolveWithOneWitness(h: Hierarchy, given: Option<Witnesses>)
    returns (r: Result<Bounded, ResolveError>, ghost m: Active, ghost w: Witnesses, ghost level: map<Atom, nat>)
    ensures r.Ok? ==> Shows(h, {}, m) && WitnessResult(m, w, level, r.value)
    ensures given.Some? && given.value != map[] ==> w == given.value
    ensures (given.None? || given.value == map[]) && WellFormed(h) && DistinctIds(h) && r.Err? ==> r.error == NoPlacement
    ensures WellFormed(h) && UsableWitnesses(m, w) && r.Err? ==>
              r.error == NoPlacement && exists a :: a in h && OracleFrontier(h[a]) == {}
    ensures r.Err? && (r.error == UnknownWitness || r.error == SelfWitness) ==> Shows(h, {}, m) && !UsableWitnesses(m, w)
  {
    hide WellFormed, DistinctIds, Shows, UsableWitnesses, WitnessResult;
    var current := MaterializeAll(h, {});
    m := if current.Ok? then current.value else Active(map[], map[]);
    w, level := if given.Some? then given.value else map[], map[];
    if current.Err? {
      forall a | a in h ensures Without(h[a], {}) == h[a] {}
      return Err(current.error), m, w, level;
    }
    var witnesses;
    if given.Some? && given.value != map[] {
      witnesses := given.value;
    } else {
      witnesses := PreviousParentWitnesses(h);
      if WellFormed(h) && DistinctIds(h) { DefaultWitnessesUsable(h, m, witnesses); }
    }
    w := witnesses;
    r, level := FallBackToWitness(current.value, witnesses);
  }
}
