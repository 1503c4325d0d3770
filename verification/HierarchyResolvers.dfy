/** The three hierarchy policies over explicit placement histories: full-history fallback
    (two implementations), one-witness fallback and root fallback. */
module HierarchyResolvers {
  import opened CausalGraph
  import opened CoreTypes
  import opened OracleRefinement
  import opened CycleBreaking
  import opened CycleSearch

  /** One atom's placement history: causal revisions whose value is the parent, if any. */
  type Register = Oracle<Option<Atom>>

  type Hierarchy = map<Atom, Register>

  datatype ResolveError =
    | NoPlacement | UnknownParent | SelfParent | NoProgress
    | UnknownWitness | SelfWitness | RootFailed | BoundExceeded

  /** Every stored parent is a known atom other than the placed one. */
  ghost predicate WellFormed(h: Hierarchy) {
    forall a, r :: a in h && r in h[a] && h[a][r].value.Some? ==> h[a][r].value.value in h && h[a][r].value.value != a
  }

  ghost predicate DistinctIds(h: Hierarchy) {
    forall a, b, r :: a in h && b in h && a != b && r in h[a] ==> r !in h[b]
  }

  // ---------------------------------------------------------------- placement order

  function Without(reg: Register, rejected: set<Id>): Register {
    map r | r in reg && r !in rejected :: reg[r]
  }

  lemma {:induction false} GreatestExists(s: set<Id>)
    requires s != {}
    ensures exists m :: IsMax(m, s)
    decreases s
  {
    var x :| x in s;
    if s == {x} {
      assert IsMax(x, s);
    } else {
      GreatestExists(s - {x});
      var m :| IsMax(m, s - {x});
      var w := if x > m then x else m;
      forall y | y in s ensures y <= w { assert y == x || y in s - {x}; }
      assert IsMax(w, s);
    }
  }

  ghost function GreatestOf(s: set<Id>): (m: Id)
    requires s != {}
    ensures IsMax(m, s)
  {
    GreatestExists(s);
    var m :| IsMax(m, s);
    m
  }

  /** The placements of an atom in the order in which rejecting the shown one reveals them. */
  ghost function Placements(reg: Register): seq<Slot>
    decreases |reg|
  {
    var f := OracleFrontier(reg);
    if f == {} then []
    else
      var m := GreatestOf(f);
      assert Without(reg, {m}).Keys == reg.Keys - {m};
      [Slot(reg[m].value, m)] + Placements(Without(reg, {m}))
  }

  ghost function KeysBefore(ps: seq<Slot>, k: nat): set<Id>
    requires k <= |ps|
  {
    set i | 0 <= i < k :: ps[i].key
  }

  lemma {:induction false} PlacementsAreStored(reg: Register, i: nat)
    requires i < |Placements(reg)|
    ensures Placements(reg)[i].key in reg && Placements(reg)[i].parent == reg[Placements(reg)[i].key].value
    decreases |reg|
  {
    if i > 0 {
      var m := GreatestOf(OracleFrontier(reg));
      assert Without(reg, {m}).Keys == reg.Keys - {m};
      PlacementsAreStored(Without(reg, {m}), i - 1);
    }
  }

  lemma {:induction false} PlacementsDistinct(reg: Register, i: nat, j: nat)
    requires i < j < |Placements(reg)|
    ensures Placements(reg)[i].key != Placements(reg)[j].key
    decreases |reg|
  {
    var m := GreatestOf(OracleFrontier(reg));
    assert Without(reg, {m}).Keys == reg.Keys - {m};
    if i == 0 { PlacementsAreStored(Without(reg, {m}), j - 1); }
    else { PlacementsDistinct(Without(reg, {m}), i - 1, j - 1); }
  }

  lemma KeyIsBefore(ps: seq<Slot>, k: nat, i: nat)
    requires i < k <= |ps|
    ensures ps[i].key in KeysBefore(ps, k)
  {
  }

  lemma KeysBeforeNext(ps: seq<Slot>, k: nat)
    requires k < |ps|
    ensures KeysBefore(ps, k + 1) == KeysBefore(ps, k) + {ps[k].key}
  {
    forall x ensures x in KeysBefore(ps, k + 1) <==> x in KeysBefore(ps, k) || x == ps[k].key {
      if x in KeysBefore(ps, k) {
        var i :| 0 <= i < k && ps[i].key == x;
        KeyIsBefore(ps, k + 1, i);
      }
      KeyIsBefore(ps, k + 1, k);
    }
  }

  lemma KeysBeforeTail(reg: Register, m: Id, k: nat)
    requires 0 < k <= |Placements(reg)| && m == GreatestOf(OracleFrontier(reg))
    ensures KeysBefore(Placements(Without(reg, {m})), k - 1) == KeysBefore(Placements(reg), k) - {m}
    ensures m in KeysBefore(Placements(reg), k)
  {
    var ps, qs := Placements(reg), Placements(Without(reg, {m}));
    assert ps == [Slot(reg[m].value, m)] + qs;
    assert ps[0].key == m;
    KeyIsBefore(ps, k, 0);
    forall x ensures x in KeysBefore(qs, k - 1) <==> x in KeysBefore(ps, k) && x != m {
      if x in KeysBefore(qs, k - 1) {
        var i :| 0 <= i < k - 1 && qs[i].key == x;
        assert ps[i + 1].key == x;
        KeyIsBefore(ps, k, i + 1);
        PlacementsDistinct(reg, 0, i + 1);
      }
      if x in KeysBefore(ps, k) && x != m {
        var i :| 0 <= i < k && ps[i].key == x;
        assert qs[i - 1].key == x;
        KeyIsBefore(qs, k - 1, i - 1);
      }
    }
  }

  /** Having rejected the first `k` placements leaves exactly the rest of the order. */
  lemma {:induction false} PlacementsAfter(reg: Register, rejected: set<Id>, k: nat)
    requires k <= |Placements(reg)| && rejected * reg.Keys == KeysBefore(Placements(reg), k)
    ensures Placements(Without(reg, rejected)) == Placements(reg)[k..]
    decreases |reg|
  {
    if k == 0 {
      assert rejected * reg.Keys == {};
      WithoutNothing(reg, rejected);
    } else {
      var m := GreatestOf(OracleFrontier(reg));
      var rest := Without(reg, {m});
      KeysBeforeTail(reg, m, k);
      PlacementsAfterFirst(reg, rejected, m);
      PlacementsAfter(rest, rejected, k - 1);
    }
  }

  lemma WithoutNothing(reg: Register, rejected: set<Id>)
    requires rejected * reg.Keys == {}
    ensures Without(reg, rejected) == reg
  {
    assert forall x :: x in reg && x in rejected ==> x in rejected * reg.Keys;
  }

  lemma PlacementsAfterFirst(reg: Register, rejected: set<Id>, m: Id)
    requires m in reg && m in rejected
    ensures |Without(reg, {m})| < |reg|
    ensures rejected * Without(reg, {m}).Keys == rejected * reg.Keys - {m}
    ensures Without(Without(reg, {m}), rejected) == Without(reg, rejected)
  {
    assert Without(reg, {m}).Keys == reg.Keys - {m};
  }

  // ---------------------------------------------------------------- materialization

  datatype Active = Active(parents: Parents, ids: map<Atom, Id>)

  /** Each atom's shown placement once `rejected` is ignored. */
  ghost predicate Shows(h: Hierarchy, rejected: set<Id>, m: Active) {
    && m.parents.Keys == h.Keys && m.ids.Keys == h.Keys
    && (forall a :: a in h ==> IsMax(m.ids[a], OracleFrontier(Without(h[a], rejected))))
    && (forall a :: a in h ==> m.parents[a] == h[a][m.ids[a]].value)
  }

  method MaterializeAll(h: Hierarchy, rejected: set<Id>) returns (r: Result<Active, ResolveError>)
    ensures r.Ok? ==> Shows(h, rejected, r.value)
    ensures r.Err? ==> match r.error
                       case NoPlacement => exists a :: a in h && OracleFrontier(Without(h[a], rejected)) == {}
                       case UnknownParent => !WellFormed(h)
                       case SelfParent => !WellFormed(h)
                       case _ => false
  {
    var parents: Parents := map[];
    var ids: map<Atom, Id> := map[];
    var todo := h.Keys;
    while todo != {}
      invariant todo <= h.Keys && parents.Keys == h.Keys - todo && ids.Keys == h.Keys - todo
      invariant forall a :: a in ids ==> IsMax(ids[a], OracleFrontier(Without(h[a], rejected)))
      invariant forall a :: a in ids ==> parents[a] == h[a][ids[a]].value
    {
      var a :| a in todo;
      todo := todo - {a};
      var frontier := OracleFrontier(Without(h[a], rejected));
      if frontier == {} { return Err(NoPlacement); }
      var shown := Greatest(frontier);
      var parent := h[a][shown].value;
      if parent.Some? && parent.value !in h { return Err(UnknownParent); }
      if parent == Some(a) { return Err(SelfParent); }
      parents := parents[a := parent];
      ids := ids[a := shown];
    }
    r := Ok(Active(parents, ids));
  }

  /** `loser` has the least key of the cycle, ties broken by atom. */
  ghost predicate LosesAmong(ids: map<Atom, Id>, cycle: seq<Atom>, loser: Atom) {
    && loser in cycle && (forall x :: x in cycle ==> x in ids)
    && forall x :: x in cycle ==> ids[loser] < ids[x] || (ids[loser] == ids[x] && loser <= x)
  }

  method ChooseLoser(cycle: seq<Atom>, ids: map<Atom, Id>) returns (loser: Atom)
    requires |cycle| > 0 && forall x :: x in cycle ==> x in ids
    ensures LosesAmong(ids, cycle, loser)
    ensures loser in cycle && forall x :: x in cycle ==> ids[loser] < ids[x] || (ids[loser] == ids[x] && loser <= x)
  {
    loser := cycle[0];
    for i := 1 to |cycle|
      invariant loser in cycle
      invariant forall j :: 0 <= j < i ==> ids[loser] < ids[cycle[j]] || (ids[loser] == ids[cycle[j]] && loser <= cycle[j])
    {
      if ids[cycle[i]] < ids[loser] || (ids[cycle[i]] == ids[loser] && cycle[i] < loser) { loser := cycle[i]; }
    }
  }

  method LeastMember(c: seq<Atom>) returns (m: Atom)
    requires |c| > 0
    ensures m in c && forall x :: x in c ==> m <= x
  {
    m := c[0];
    for i := 1 to |c|
      invariant m in c && forall j :: 0 <= j < i ==> m <= c[j]
    {
      if c[i] < m { m := c[i]; }
    }
  }

  /** Disjoint cycles differ in their least member, so comparing sorted member tuples is
      comparing least members. */
  method LeastCycle(cycles: seq<seq<Atom>>) returns (cycle: seq<Atom>)
    requires |cycles| > 0 && forall i :: 0 <= i < |cycles| ==> |cycles[i]| > 0
    ensures cycle in cycles
    ensures exists least :: least in cycle && forall i, x :: 0 <= i < |cycles| && x in cycles[i] ==> least <= x
  {
    var at := 0;
    var least := LeastMember(cycles[0]);
    for i := 1 to |cycles|
      invariant 0 <= at < i && least in cycles[at]
      invariant forall j, x :: 0 <= j < i && x in cycles[j] ==> least <= x
    {
      var m := LeastMember(cycles[i]);
      if m < least { at, least := i, m; }
    }
    cycle := cycles[at];
  }

  /** The atom to fall back next: the least-key member of the least-key cycle, if any. */
  method NextLoser(m: Active) returns (r: Option<Atom>, cycle: seq<Atom>, count: nat)
    requires m.ids.Keys == m.parents.Keys
    ensures r.None? <==> CycleFree(m.parents)
    ensures count == |CycleSets(m.parents)|
    ensures r.Some? ==> ListedCycle(m.parents, cycle) && LosesAmong(m.ids, cycle, r.value)
  {
    var cycles := AllCycles(m.parents);
    count := |cycles|;
    if cycles == [] { return None, [], count; }
    cycle := LeastCycle(cycles);
    var loser := ChooseLoser(cycle, m.ids);
    r := Some(loser);
  }

  // ---------------------------------------------------------------- full history

  datatype Resolved = Resolved(parents: Parents, ids: map<Atom, Id>, rejected: set<Id>)

  ghost function HistorySystem(h: Hierarchy): System {
    map a | a in h :: Placements(h[a])
  }

  ghost function Initial(sys: System): (s: State)
    ensures Fits(sys, s)
  {
    if exists a :: a in sys && sys[a] == [] then Exhausted else Running(map a | a in sys :: 0)
  }

  ghost function RejectedAt(sys: System, level: map<Atom, nat>): set<Id>
    requires InRange(sys, level)
  {
    set a, i | a in sys && 0 <= i < level[a] :: sys[a][i].key
  }

  ghost function IdsAt(sys: System, level: map<Atom, nat>): map<Atom, Id>
    requires InRange(sys, level)
  {
    map a | a in sys :: sys[a][level[a]].key
  }

  /** The one result of full-history resolution, whatever cycles are broken first. */
  ghost function FullHistory(h: Hierarchy): Result<Resolved, ResolveError> {
    var sys := HistorySystem(h);
    match Outcome(sys, Initial(sys))
    case Exhausted => Err(NoPlacement)
    case Running(level) => Ok(Resolved(ParentsAt(sys, level), IdsAt(sys, level), RejectedAt(sys, level)))
  }

  /** How the resolvers' rejected set stands for a state of the fallback system. */
  ghost predicate Stands(h: Hierarchy, sys: System, s: State, rejected: set<Id>)
    requires Fits(sys, s)
  {
    match s
    case Running(level) => rejected == RejectedAt(sys, level)
    case Exhausted => exists a :: a in h && OracleFrontier(Without(h[a], rejected)) == {}
  }

  ghost predicate IsHistory(h: Hierarchy, sys: System) {
    sys.Keys == h.Keys && forall a :: a in h ==> sys[a] == Placements(h[a])
  }

  lemma RejectedOfAtom(h: Hierarchy, sys: System, level: map<Atom, nat>, a: Atom)
    requires DistinctIds(h) && IsHistory(h, sys) && InRange(sys, level) && a in h
    ensures RejectedAt(sys, level) * h[a].Keys == KeysBefore(sys[a], level[a])
  {
    forall x ensures x in RejectedAt(sys, level) * h[a].Keys <==> x in KeysBefore(sys[a], level[a]) {
      if x in RejectedAt(sys, level) && x in h[a] {
        var b, i :| b in sys && 0 <= i < level[b] && sys[b][i].key == x;
        PlacementsAreStored(h[b], i);
        assert b == a;
      }
      if x in KeysBefore(sys[a], level[a]) {
        var i :| 0 <= i < level[a] && sys[a][i].key == x;
        PlacementsAreStored(h[a], i);
      }
    }
  }

  lemma ShownPlacement(h: Hierarchy, sys: System, level: map<Atom, nat>, a: Atom)
    requires DistinctIds(h) && IsHistory(h, sys) && InRange(sys, level) && a in h
    ensures OracleFrontier(Without(h[a], RejectedAt(sys, level))) != {}
    ensures IsMax(sys[a][level[a]].key, OracleFrontier(Without(h[a], RejectedAt(sys, level))))
    ensures sys[a][level[a]].key in h[a] && sys[a][level[a]].parent == h[a][sys[a][level[a]].key].value
  {
    RejectedOfAtom(h, sys, level, a);
    PlacementsAfter(h[a], RejectedAt(sys, level), level[a]);
    PlacementsAreStored(h[a], level[a]);
    assert Placements(Without(h[a], RejectedAt(sys, level)))[0] == sys[a][level[a]];
  }

  lemma MaterializedAtom(h: Hierarchy, sys: System, level: map<Atom, nat>, m: Active, a: Atom)
    requires DistinctIds(h) && IsHistory(h, sys) && InRange(sys, level) && a in h && Shows(h, RejectedAt(sys, level), m)
    ensures m.ids[a] == sys[a][level[a]].key && m.parents[a] == sys[a][level[a]].parent
  {
    ShownPlacement(h, sys, level, a);
  }

  lemma SameActive(sys: System, level: map<Atom, nat>, m: Active)
    requires InRange(sys, level) && m.parents.Keys == m.ids.Keys == sys.Keys
    requires forall a :: a in sys ==> m.ids[a] == sys[a][level[a]].key && m.parents[a] == sys[a][level[a]].parent
    ensures m.parents == ParentsAt(sys, level) && m.ids == IdsAt(sys, level)
  {
  }

  lemma MaterializedState(h: Hierarchy, sys: System, level: map<Atom, nat>, m: Active)
    requires DistinctIds(h) && IsHistory(h, sys) && InRange(sys, level) && Shows(h, RejectedAt(sys, level), m)
    ensures m.parents == ParentsAt(sys, level) && m.ids == IdsAt(sys, level)
  {
    forall a | a in sys ensures m.ids[a] == sys[a][level[a]].key && m.parents[a] == sys[a][level[a]].parent {
      MaterializedAtom(h, sys, level, m, a);
    }
    SameActive(sys, level, m);
  }

  lemma RejectedGrows(sys: System, level: map<Atom, nat>, a: Atom)
    requires InRange(sys, level) && a in sys && level[a] + 1 < |sys[a]|
    ensures RejectedAt(sys, level[a := level[a] + 1]) == RejectedAt(sys, level) + {sys[a][level[a]].key}
  {
    var next := level[a := level[a] + 1];
    forall x ensures x in RejectedAt(sys, next) <==> x in RejectedAt(sys, level) || x == sys[a][level[a]].key {
      if x in RejectedAt(sys, next) {
        var b, i :| b in sys && 0 <= i < next[b] && sys[b][i].key == x;
        assert (b == a && i == level[a]) || i < level[b];
      }
      if x in RejectedAt(sys, level) {
        var b, i :| b in sys && 0 <= i < level[b] && sys[b][i].key == x;
        assert i < next[b];
      }
      if x == sys[a][level[a]].key { assert level[a] < next[a]; }
    }
  }

  lemma LastRejected(reg: Register, rejected: set<Id>, ps: seq<Slot>, k: nat)
    requires ps == Placements(reg) && k + 1 == |ps| && rejected * reg.Keys == KeysBefore(ps, k)
    ensures OracleFrontier(Without(reg, rejected + {ps[k].key})) == {}
  {
    hide KeysBefore, Without, OracleFrontier;
    PlacementsAreStored(reg, k);
    KeysBeforeNext(ps, k);
    OneMoreRejected(rejected, reg.Keys, ps[k].key);
    PlacementsAfter(reg, rejected + {ps[k].key}, k + 1);
    assert Placements(Without(reg, rejected + {ps[k].key})) == [];
  }

  lemma OneMoreRejected(rejected: set<Id>, keys: set<Id>, x: Id)
    requires x in keys
    ensures (rejected + {x}) * keys == rejected * keys + {x}
  {
  }

  lemma RejectNext(h: Hierarchy, sys: System, level: map<Atom, nat>, a: Atom)
    requires DistinctIds(h) && IsHistory(h, sys) && InRange(sys, level) && a in h
    ensures Fits(sys, FallBack(sys, level, a))
    ensures Stands(h, sys, FallBack(sys, level, a), RejectedAt(sys, level) + {sys[a][level[a]].key})
  {
    if level[a] + 1 < |sys[a]| {
      RejectedGrows(sys, level, a);
    } else {
      RejectedOfAtom(h, sys, level, a);
      LastRejected(h[a], RejectedAt(sys, level), sys[a], level[a]);
    }
  }

  /** What the loops of both full-history resolvers maintain. */
  ghost predicate OnTrack(h: Hierarchy, sys: System, s: State, rejected: set<Id>) {
    IsHistory(h, sys) && Fits(sys, s) && Stands(h, sys, s, rejected) && Outcome(sys, s) == Outcome(sys, Initial(sys))
  }

  lemma StartsOnTrack(h: Hierarchy, sys: System)
    requires sys == HistorySystem(h)
    ensures OnTrack(h, sys, Initial(sys), {})
  {
    if a :| a in sys && sys[a] == [] {
      assert Without(h[a], {}) == h[a];
    } else {
      assert RejectedAt(sys, Initial(sys).level) == {};
    }
  }

  lemma CycleLoses(sys: System, level: map<Atom, nat>, m: Active, cycle: seq<Atom>, loser: Atom)
    requires InRange(sys, level) && m.parents == ParentsAt(sys, level) && m.ids == IdsAt(sys, level)
    requires ListedCycle(m.parents, cycle) && LosesAmong(m.ids, cycle, loser)
    ensures Breakable(sys, Running(level), SetOf(cycle))
    ensures Break(sys, Running(level), SetOf(cycle)) == FallBack(sys, level, loser)
  {
    ListedIsCycle(m.parents, cycle);
    CycleNonEmpty(m.parents, SetOf(cycle));
    assert Loses(sys, level, SetOf(cycle), loser);
    LoserUnique(sys, level, SetOf(cycle), loser);
  }

  /** Rejecting the loser of any listed cycle stays on track. */
  lemma StaysOnTrack(h: Hierarchy, sys: System, s: State, rejected: set<Id>, m: Active, cycle: seq<Atom>, loser: Atom)
    returns (t: State)
    requires DistinctIds(h) && OnTrack(h, sys, s, rejected) && s.Running? && Shows(h, rejected, m)
    requires ListedCycle(m.parents, cycle) && LosesAmong(m.ids, cycle, loser)
    ensures OnTrack(h, sys, t, rejected + {m.ids[loser]})
  {
    MaterializedState(h, sys, s.level, m);
    CycleLoses(sys, s.level, m, cycle, loser);
    t := Break(sys, s, SetOf(cycle));
    ChoiceDoesNotMatter(sys, s, SetOf(cycle));
    RejectNext(h, sys, s.level, loser);
  }

  lemma TrackMaterializes(h: Hierarchy, sys: System, s: State, rejected: set<Id>, r: Result<Active, ResolveError>)
    requires WellFormed(h) && DistinctIds(h) && sys == HistorySystem(h) && OnTrack(h, sys, s, rejected)
    requires r.Ok? ==> Shows(h, rejected, r.value)
    requires r.Err? ==> r.error == NoPlacement && exists a :: a in h && OracleFrontier(Without(h[a], rejected)) == {}
    ensures r.Ok? <==> s.Running?
    ensures r.Err? ==> FullHistory(h) == Err(NoPlacement)
    ensures r.Ok? && CycleFree(r.value.parents) ==> FullHistory(h) == Ok(Resolved(r.value.parents, r.value.ids, rejected))
  {
    if s.Running? {
      forall a | a in h ensures OracleFrontier(Without(h[a], rejected)) != {} { ShownPlacement(h, sys, s.level, a); }
      MaterializedState(h, sys, s.level, r.value);
    }
  }

  ghost function AllIds(h: Hierarchy): set<Id> {
    set a, r | a in h && r in h[a] :: r
  }

  /** A shown placement is a stored one that was not rejected, so every rejection makes progress. */
  lemma ShownIsFresh(h: Hierarchy, rejected: set<Id>, m: Active, a: Atom)
    requires Shows(h, rejected, m) && a in h
    ensures m.ids[a] in h[a] && m.ids[a] in AllIds(h) && m.ids[a] !in rejected
  {
    assert m.ids[a] in Without(h[a], rejected);
  }

  lemma CycleIsShown(h: Hierarchy, rejected: set<Id>, m: Active, cycle: seq<Atom>)
    requires Shows(h, rejected, m) && ListedCycle(m.parents, cycle)
    ensures forall x :: x in cycle ==> x in m.ids && x in h
  {
  }

  /** In one cycle, the atom holding the lowest revision is the loser: no other atom holds it. */
  lemma LowestRevisionLoses(h: Hierarchy, rejected: set<Id>, m: Active, cycle: seq<Atom>, loser: Atom)
    requires DistinctIds(h) && Shows(h, rejected, m) && ListedCycle(m.parents, cycle) && loser in cycle
    requires (forall x :: x in cycle ==> x in m.ids) && forall x :: x in cycle ==> m.ids[loser] <= m.ids[x]
    ensures LosesAmong(m.ids, cycle, loser)
  {
    forall x | x in cycle ensures m.ids[loser] < m.ids[x] || (m.ids[loser] == m.ids[x] && loser <= x) {
      ShownIsFresh(h, rejected, m, x);
      ShownIsFresh(h, rejected, m, loser);
    }
  }

  method LowestRevision(cycle: seq<Atom>, ids: map<Atom, Id>) returns (lowest: Id, ghost holder: Atom)
    requires |cycle| > 0 && forall x :: x in cycle ==> x in ids
    ensures holder in cycle && ids[holder] == lowest
    ensures forall x :: x in cycle ==> lowest <= ids[x]
  {
    lowest, holder := ids[cycle[0]], cycle[0];
    for i := 1 to |cycle|
      invariant holder in cycle && ids[holder] == lowest
      invariant forall j :: 0 <= j < i ==> lowest <= ids[cycle[j]]
    {
      if ids[cycle[i]] < lowest { lowest, holder := ids[cycle[i]], cycle[i]; }
    }
  }

  /** First-found cycle, lowest active revision of it rejected, until no cycle is left. */
  method ResolveByRejectingLowest(h: Hierarchy) returns (r: Result<Resolved, ResolveError>)
    ensures WellFormed(h) && DistinctIds(h) ==> r == FullHistory(h)
    ensures r.Ok? ==> CycleFree(r.value.parents) && Shows(h, r.value.rejected, Active(r.value.parents, r.value.ids))
    ensures r.Err? ==> r.error != NoProgress
  {
    var rejected: set<Id> := {};
    ghost var good := WellFormed(h) && DistinctIds(h);
    ghost var sys := HistorySystem(h);
    ghost var s := Initial(sys);
    StartsOnTrack(h, sys);
    while true
      invariant good ==> OnTrack(h, sys, s, rejected)
      decreases AllIds(h) - rejected
    {
      var m := MaterializeAll(h, rejected);
      if good { TrackMaterializes(h, sys, s, rejected, m); }
      if m.Err? { return Err(m.error); }
      var found := FindCycle(m.value.parents);
      if found.None? { return Ok(Resolved(m.value.parents, m.value.ids, rejected)); }
      CycleIsShown(h, rejected, m.value, found.value);
      ghost var holder;
      var loser;
      loser, holder := LowestRevision(found.value, m.value.ids);
      ShownIsFresh(h, rejected, m.value, holder);
      if loser in rejected { return Err(NoProgress); }
      if good {
        LowestRevisionLoses(h, rejected, m.value, found.value, holder);
        s := StaysOnTrack(h, sys, s, rejected, m.value, found.value, holder);
      }
      rejected := rejected + {loser};
    }
  }

  /** Least-key cycle first, counting the iterations. */
  method ResolveWithMetrics(h: Hierarchy) returns (r: Result<Resolved, ResolveError>, iterations: nat)
    ensures WellFormed(h) && DistinctIds(h) ==> r == FullHistory(h)
    ensures r.Ok? ==> CycleFree(r.value.parents) && Shows(h, r.value.rejected, Active(r.value.parents, r.value.ids))
    ensures r.Ok? ==> iterations == |r.value.rejected|
    ensures r.Err? ==> r.error != NoProgress
  {
    var rejected: set<Id> := {};
    iterations := 0;
    ghost var good := WellFormed(h) && DistinctIds(h);
    ghost var sys := HistorySystem(h);
    ghost var s := Initial(sys);
    StartsOnTrack(h, sys);
    while true
      invariant good ==> OnTrack(h, sys, s, rejected)
      invariant iterations == |rejected|
      decreases AllIds(h) - rejected
    {
      var m := MaterializeAll(h, rejected);
      if good { TrackMaterializes(h, sys, s, rejected, m); }
      if m.Err? { return Err(m.error), iterations; }
      var next, cycle, _ := NextLoser(m.value);
      if next.None? { return Ok(Resolved(m.value.parents, m.value.ids, rejected)), iterations; }
      CycleIsShown(h, rejected, m.value, cycle);
      var loserAtom := next.value;
      var loser := m.value.ids[loserAtom];
      ShownIsFresh(h, rejected, m.value, loserAtom);
      if loser in rejected { return Err(NoProgress), iterations; }
      if good { s := StaysOnTrack(h, sys, s, rejected, m.value, cycle, loserAtom); }
      AddOne(rejected, loser);
      rejected := rejected + {loser};
      iterations := iterations + 1;
    }
  }
}
