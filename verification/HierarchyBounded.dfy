/** The two bounded hierarchy policies: falling back to the root at once, or to one
    previous parent first. */
module HierarchyBounded {
  import opened CausalGraph
  import opened CoreTypes
  import opened OracleRefinement
  import opened CycleBreaking
  import opened CycleSearch
  import opened HierarchyResolvers

  datatype Mode = Current | Witness | Root

  datatype Bounded = Bounded(
    parents: Parents,
    modes: map<Atom, Mode>,
    rejected: set<Id>,
    initialCycles: nat,
    iterations: nat,
    steps: map<Atom, nat>)

  function StepsTaken(steps: map<Atom, nat>, a: Atom): nat {
    if a in steps then steps[a] else 0
  }

  // ---------------------------------------------------------------- root fallback

  ghost predicate LosesIn(ids: map<Atom, Id>, c: set<Atom>, a: Atom) {
    a in c && a in ids && forall b :: b in c ==> b in ids && (ids[a] < ids[b] || (ids[a] == ids[b] && a <= b))
  }

  /** The least-key atoms of the initial cycles. */
  ghost function InitialLosers(m: Active): set<Atom> {
    set a | a in m.parents && exists c :: IsCycle(m.parents, c) && LosesIn(m.ids, c, a)
  }

  function WithRoots(ps: Parents, roots: set<Atom>): Parents {
    map a | a in ps :: if a in roots then None else ps[a]
  }

  /** Sending one member of a cycle to the root removes exactly that cycle. */
  lemma RootBreaksOneCycle(ps: Parents, c: set<Atom>, loser: Atom)
    requires IsCycle(ps, c) && loser in c
    ensures CycleSets(ps[loser := None]) == CycleSets(ps) - {c}
  {
    var qs := ps[loser := None];
    CycleNonEmpty(ps, c);
    forall d ensures d in CycleSets(qs) <==> d in CycleSets(ps) && d != c {
      CycleSetsAreCycles(ps, d);
      CycleSetsAreCycles(qs, d);
      if IsCycle(ps, d) && d != c {
        CyclesDisjoint(ps, c, d);
        CycleNonEmpty(ps, d);
        CycleSurvives(ps, qs, d);
      }
      if IsCycle(qs, d) {
        if loser in d { CycleMember(qs, d, loser); }
        CycleNonEmpty(qs, d);
        CycleSurvives(qs, ps, d);
      }
    }
  }

  /** How far root fallback has come: of `all` initial cycles those `left` remain, and the
      losers of the others are at the root. */
  ghost predicate RootProgress(ids: map<Atom, Id>, all: set<set<Atom>>, left: set<set<Atom>>, roots: set<Atom>) {
    && left <= all
    && (forall c :: c in all && c !in left ==> exists a :: a in roots && LosesIn(ids, c, a))
    && (forall a :: a in roots ==> exists c :: c in all && LosesIn(ids, c, a))
    && |roots| + |left| == |all|
  }

  lemma RootProgresses(ids: map<Atom, Id>, all: set<set<Atom>>, left: set<set<Atom>>, roots: set<Atom>, c: set<Atom>, loser: Atom)
    requires RootProgress(ids, all, left, roots) && c in left && LosesIn(ids, c, loser) && loser !in roots
    ensures RootProgress(ids, all, left - {c}, roots + {loser})
  {
    AddOne(roots, loser);
    AddOne(left - {c}, c);
    assert left - {c} + {c} == left;
    forall d | d in all && d !in left - {c} ensures exists a :: a in roots + {loser} && LosesIn(ids, d, a) {
      if d == c {
        assert loser in roots + {loser};
      } else {
        var a :| a in roots && LosesIn(ids, d, a);
        assert a in roots + {loser};
      }
    }
  }

  lemma RootStep(ids: map<Atom, Id>, parents: Parents, cycle: seq<Atom>, loser: Atom)
    requires ListedCycle(parents, cycle) && LosesAmong(ids, cycle, loser)
    ensures loser in parents && parents[loser].Some?
    ensures SetOf(cycle) in CycleSets(parents) && LosesIn(ids, SetOf(cycle), loser)
    ensures CycleSets(parents[loser := None]) == CycleSets(parents) - {SetOf(cycle)}
  {
    var c := SetOf(cycle);
    ListedIsCycle(parents, cycle);
    CycleMember(parents, c, loser);
    CycleSetsAreCycles(parents, c);
    RootBreaksOneCycle(parents, c, loser);
  }

  lemma RootEnd(m: Active, parents: Parents, roots: set<Atom>)
    requires RootProgress(m.ids, CycleSets(m.parents), CycleSets(parents), roots) && CycleFree(parents) && roots <= m.parents.Keys
    ensures roots == InitialLosers(m) && |roots| == |CycleSets(m.parents)|
  {
    assert CycleSets(parents) == {};
    forall a | a in roots ensures a in InitialLosers(m) {
      var c :| c in CycleSets(m.parents) && LosesIn(m.ids, c, a);
      CycleSetsAreCycles(m.parents, c);
    }
    forall a | a in InitialLosers(m) ensures a in roots {
      var c :| IsCycle(m.parents, c) && LosesIn(m.ids, c, a);
      CycleSetsAreCycles(m.parents, c);
      assert c in CycleSets(m.parents) && c !in CycleSets(parents);
      var b :| b in roots && LosesIn(m.ids, c, b);
      assert b == a;
    }
  }

  ghost function ModesWith(ps: Parents, roots: set<Atom>): map<Atom, Mode> {
    map a | a in ps :: if a in roots then Root else Current
  }

  ghost function StepsWith(roots: set<Atom>): map<Atom, nat> {
    map a | a in roots :: 1
  }

  ghost function IdsOf(ids: map<Atom, Id>, atoms: set<Atom>): set<Id> {
    set a | a in atoms && a in ids :: ids[a]
  }

  lemma OneMoreRoot(m: Active, roots: set<Atom>, loser: Atom)
    requires loser in m.parents && loser in m.ids && loser !in roots
    ensures WithRoots(m.parents, roots + {loser}) == WithRoots(m.parents, roots)[loser := None]
    ensures ModesWith(m.parents, roots + {loser}) == ModesWith(m.parents, roots)[loser := Root]
    ensures StepsWith(roots + {loser}) == StepsWith(roots)[loser := 1]
    ensures IdsOf(m.ids, roots + {loser}) == IdsOf(m.ids, roots) + {m.ids[loser]}
  {
  }

  /** What the root-fallback loop maintains; `roots` are the atoms sent to the root so far. */
  ghost predicate RootLoop(m: Active, roots: set<Atom>, b: Bounded) {
    && roots <= m.parents.Keys && m.ids.Keys == m.parents.Keys
    && b.parents == WithRoots(m.parents, roots)
    && b.modes == ModesWith(m.parents, roots)
    && b.steps == StepsWith(roots)
    && b.rejected == IdsOf(m.ids, roots)
    && b.iterations == |roots|
    && RootProgress(m.ids, CycleSets(m.parents), CycleSets(b.parents), roots)
  }

  lemma RootStart(m: Active, initial: nat)
    requires m.ids.Keys == m.parents.Keys
    ensures RootLoop(m, {}, Untouched(m, initial))
  {
    assert WithRoots(m.parents, {}) == m.parents;
    assert IdsOf(m.ids, {}) == {};
  }

  /** The result record before any cycle is broken. */
  function Untouched(m: Active, initial: nat): Bounded {
    Bounded(m.parents, map a | a in m.parents :: Current, {}, initial, 0, map[])
  }

  /** The bookkeeping of sending one atom to the root. */
  function RootUpdate(m: Active, b: Bounded, loser: Atom): Bounded
    requires loser in m.ids
  {
    b.(rejected := b.rejected + {m.ids[loser]}, parents := b.parents[loser := None], modes := b.modes[loser := Root],
       steps := b.steps[loser := StepsTaken(b.steps, loser) + 1], iterations := b.iterations + 1)
  }

  lemma RootAdvance(m: Active, roots: set<Atom>, b: Bounded, cycle: seq<Atom>, loser: Atom)
    requires RootLoop(m, roots, b) && ListedCycle(b.parents, cycle) && LosesAmong(m.ids, cycle, loser)
    ensures loser in m.parents && b.modes[loser] == Current
    ensures RootLoop(m, roots + {loser}, RootUpdate(m, b, loser))
    ensures |CycleSets(RootUpdate(m, b, loser).parents)| < |CycleSets(b.parents)|
  {
    hide OnCycle, Orbit, Walk, CycleSets, ListedCycle, LosesAmong, LosesIn;
    hide RootProgress, IsCycle, IdsOf, WithRoots, ModesWith, StepsWith, SetOf;
    RootStep(m.ids, b.parents, cycle, loser);
    NotYetRoot(m, roots, loser);
    RootProgresses(m.ids, CycleSets(m.parents), CycleSets(b.parents), roots, SetOf(cycle), loser);
    OneMoreRoot(m, roots, loser);
    AddOne(roots, loser);
    StrictSubset(CycleSets(RootUpdate(m, b, loser).parents), CycleSets(b.parents), SetOf(cycle));
  }

  lemma NotYetRoot(m: Active, roots: set<Atom>, a: Atom)
    requires a in WithRoots(m.parents, roots) && WithRoots(m.parents, roots)[a].Some?
    ensures a in m.parents && a !in roots && ModesWith(m.parents, roots)[a] == Current && a !in StepsWith(roots)
  {
  }

  /** `a` is on a cycle on which no member has a lower source revision. */
  ghost predicate LowestOnCycle(m: Active, a: Atom)
    requires m.ids.Keys == m.parents.Keys && a in m.parents
  {
    OnCycle(m.parents, a) &&
    forall b :: b in Orbit(m.parents, a) ==> m.ids[a] < m.ids[b] || (m.ids[a] == m.ids[b] && a <= b)
  }

  lemma InitialLosersAreLowest(m: Active, a: Atom)
    requires m.ids.Keys == m.parents.Keys && a in m.parents
    ensures a in InitialLosers(m) <==> LowestOnCycle(m, a)
  {
    if a in InitialLosers(m) {
      var c :| IsCycle(m.parents, c) && LosesIn(m.ids, c, a);
      CycleMember(m.parents, c, a);
    }
    if LowestOnCycle(m, a) {
      OnCycleIsKnown(m.parents, a);
      assert IsCycle(m.parents, Orbit(m.parents, a));
      assert LosesIn(m.ids, Orbit(m.parents, a), a);
    }
  }

  /** Exactly one iteration per initial cycle; exactly their least-key atoms move, each once,
      straight to the root. The policy's own failure branch cannot be taken. */
  method FallBackToRoot(m: Active) returns (r: Result<Bounded, ResolveError>)
    requires m.ids.Keys == m.parents.Keys
    ensures r.Ok?
    ensures r.value.parents == WithRoots(m.parents, InitialLosers(m))
    ensures forall a :: a in m.parents ==>
              r.value.parents[a] == if LowestOnCycle(m, a) then None else m.parents[a]
    ensures r.value.modes == ModesWith(m.parents, InitialLosers(m))
    ensures r.value.rejected == IdsOf(m.ids, InitialLosers(m))
    ensures r.value.steps == StepsWith(InitialLosers(m))
    ensures r.value.iterations == r.value.initialCycles == |CycleSets(m.parents)|
    ensures CycleFree(r.value.parents)
  {
    var _, _, initial := NextLoser(m);
    var b := Untouched(m, initial);
    ghost var roots: set<Atom> := {};
    RootStart(m, initial);
    while true
      invariant RootLoop(m, roots, b) && b.initialCycles == |CycleSets(m.parents)|
      decreases |CycleSets(b.parents)|
    {
      var next, cycle, _ := NextLoser(Active(b.parents, m.ids));
      if next.None? {
        RootEnd(m, b.parents, roots);
        forall a | a in m.parents ensures b.parents[a] == if LowestOnCycle(m, a) then None else m.parents[a] {
          InitialLosersAreLowest(m, a);
        }
        return Ok(b);
      }
      RootAdvance(m, roots, b, cycle, next.value);
      if b.modes[next.value] == Root { return Err(RootFailed); }
      b := RootUpdate(m, b, next.value);
      roots := roots + {next.value};
    }
  }

  // ---------------------------------------------------------------- one-witness fallback

  type Witnesses = map<Id, Option<Atom>>

  function WitnessOf(w: Witnesses, id: Id): Option<Atom> {
    if id in w then w[id] else None
  }

  /** Current placement, then the stored witness, then the root; the key never changes. */
  ghost function WitnessSystem(m: Active, w: Witnesses): System
    requires m.ids.Keys == m.parents.Keys
  {
    map a | a in m.parents ::
      [Slot(m.parents[a], m.ids[a]), Slot(WitnessOf(w, m.ids[a]), m.ids[a]), Slot(None, m.ids[a])]
  }

  /** Witnesses name known atoms other than the one they serve. */
  ghost predicate UsableWitnesses(m: Active, w: Witnesses) {
    forall a :: a in m.ids && WitnessOf(w, m.ids[a]).Some? ==>
      WitnessOf(w, m.ids[a]).value in m.parents && WitnessOf(w, m.ids[a]).value != a
  }

  ghost predicate IsWitnessSystem(m: Active, w: Witnesses, sys: System) {
    && sys.Keys == m.parents.Keys == m.ids.Keys
    && forall a :: a in sys ==> sys[a] == [Slot(m.parents[a], m.ids[a]), Slot(WitnessOf(w, m.ids[a]), m.ids[a]), Slot(None, m.ids[a])]
  }

  function ModeOf(level: nat): Mode {
    if level == 0 then Current else if level == 1 then Witness else Root
  }

  /** The recorded modes and step counts are those of the levels reached. */
  ghost predicate Records(level: map<Atom, nat>, modes: map<Atom, Mode>, steps: map<Atom, nat>) {
    && modes.Keys == level.Keys && steps.Keys <= level.Keys
    && (forall a :: a in level ==> modes[a] == ModeOf(level[a]) && StepsTaken(steps, a) == level[a] <= 2)
    && (forall a :: a in steps ==> steps[a] > 0)
  }

  ghost predicate WitnessTrack(sys: System, level: map<Atom, nat>, parents: Parents) {
    InRange(sys, level) && parents == ParentsAt(sys, level) && parents.Keys == sys.Keys && Outcome(sys, Running(level)) == Outcome(sys, Initial(sys))
  }

  ghost function Zeros(atoms: set<Atom>): map<Atom, nat> {
    map a | a in atoms :: 0
  }

  lemma WitnessStart(m: Active, w: Witnesses, sys: System)
    requires IsWitnessSystem(m, w, sys)
    ensures WitnessTrack(sys, Zeros(sys.Keys), m.parents) && Passed(Zeros(sys.Keys)) == {}
  {
    forall a | a in sys ensures sys[a] != [] && sys[a][0].parent == m.parents[a] {}
    assert Initial(sys) == Running(Zeros(sys.Keys));
    assert m.parents == ParentsAt(sys, Zeros(sys.Keys));
  }

  lemma SystemLoser(m: Active, w: Witnesses, sys: System, level: map<Atom, nat>, cycle: seq<Atom>, loser: Atom)
    requires IsWitnessSystem(m, w, sys) && InRange(sys, level) && SetOf(cycle) <= sys.Keys
    requires LosesAmong(m.ids, cycle, loser)
    ensures Loses(sys, level, SetOf(cycle), loser)
  {
    forall x | x in sys ensures sys[x][level[x]].key == m.ids[x] {}
  }

  /** An atom on a cycle has a parent, so it is not at the root yet. */
  lemma NotAtRoot(m: Active, w: Witnesses, sys: System, level: map<Atom, nat>, cycle: seq<Atom>, loser: Atom)
    requires IsWitnessSystem(m, w, sys) && InRange(sys, level)
    requires ListedCycle(ParentsAt(sys, level), cycle) && loser in cycle
    ensures loser in sys && level[loser] < 2 && |sys[loser]| == 3
    ensures IsCycle(ParentsAt(sys, level), SetOf(cycle)) && SetOf(cycle) <= sys.Keys && SetOf(cycle) != {}
  {
    ListedIsCycle(ParentsAt(sys, level), cycle);
    CycleMember(ParentsAt(sys, level), SetOf(cycle), loser);
    CycleNonEmpty(ParentsAt(sys, level), SetOf(cycle));
    assert ParentsAt(sys, level)[loser] == sys[loser][level[loser]].parent;
  }

  /** Breaking a listed cycle of the current graph is one step of the fallback system. */
  lemma WitnessBreak(m: Active, w: Witnesses, sys: System, level: map<Atom, nat>, cycle: seq<Atom>, loser: Atom)
    requires IsWitnessSystem(m, w, sys) && InRange(sys, level) && WitnessTrack(sys, level, ParentsAt(sys, level))
    requires ListedCycle(ParentsAt(sys, level), cycle) && LosesAmong(m.ids, cycle, loser)
    ensures loser in sys && level[loser] < 2 && |sys[loser]| == 3
    ensures WitnessTrack(sys, level[loser := level[loser] + 1],
                         ParentsAt(sys, level)[loser := sys[loser][level[loser] + 1].parent])
    ensures |Passed(level[loser := level[loser] + 1])| == |Passed(level)| + 1
  {
    NotAtRoot(m, w, sys, level, cycle, loser);
    SystemLoser(m, w, sys, level, cycle, loser);
    LoserUnique(sys, level, SetOf(cycle), loser);
    ChoiceDoesNotMatter(sys, Running(level), SetOf(cycle));
    ParentsStep(sys, level, loser);
    FallBackPasses(sys, level, loser);
  }

  lemma ParentsStep(sys: System, level: map<Atom, nat>, a: Atom)
    requires InRange(sys, level) && a in sys && level[a] + 1 < |sys[a]|
    ensures ParentsAt(sys, level[a := level[a] + 1]) == ParentsAt(sys, level)[a := sys[a][level[a] + 1].parent]
  {
  }

  ghost function Pairs(atoms: set<Atom>, k: nat): set<(Atom, nat)> {
    set a | a in atoms :: (a, k)
  }

  lemma {:induction false} PairsSize(atoms: set<Atom>, k: nat)
    ensures |Pairs(atoms, k)| == |atoms|
    decreases atoms
  {
    if atoms != {} {
      var x :| x in atoms;
      PairsSize(atoms - {x}, k);
      assert Pairs(atoms, k) == Pairs(atoms - {x}, k) + {(x, k)};
      AddOne(Pairs(atoms - {x}, k), (x, k));
      AddOne(atoms - {x}, x);
      assert atoms - {x} + {x} == atoms;
    }
  }

  lemma TwoStepsEach(level: map<Atom, nat>)
    requires forall a :: a in level ==> level[a] <= 2
    ensures |Passed(level)| <= 2 * |level.Keys|
  {
    var zero, one := Pairs(level.Keys, 0), Pairs(level.Keys, 1);
    PairsSize(level.Keys, 0);
    PairsSize(level.Keys, 1);
    assert Passed(level) <= zero + one;
    SubsetSize(Passed(level), zero + one);
    UnionSize(zero, one);
  }

  lemma RecordStep(level: map<Atom, nat>, modes: map<Atom, Mode>, steps: map<Atom, nat>, a: Atom)
    requires Records(level, modes, steps) && a in level && level[a] < 2
    ensures Records(level[a := level[a] + 1], modes[a := ModeOf(level[a] + 1)], steps[a := StepsTaken(steps, a) + 1])
  {
  }

  /** The recorded result so far, for the levels reached. */
  ghost predicate WitnessBooks(m: Active, level: map<Atom, nat>, b: Bounded) {
    && level.Keys == m.parents.Keys == m.ids.Keys
    && Records(level, b.modes, b.steps)
    && b.rejected == IdsOf(m.ids, b.steps.Keys)
    && b.iterations == |Passed(level)|
  }

  /** What the one-witness loop maintains; `level` counts each atom's fallbacks so far. */
  ghost predicate WitnessLoop(m: Active, w: Witnesses, sys: System, level: map<Atom, nat>, b: Bounded) {
    IsWitnessSystem(m, w, sys) && WitnessTrack(sys, level, b.parents) && WitnessBooks(m, level, b)
  }

  lemma WitnessBegins(m: Active, w: Witnesses, sys: System, initial: nat, b: Bounded)
    requires m.ids.Keys == m.parents.Keys && sys == WitnessSystem(m, w) && b == Untouched(m, initial)
    ensures WitnessLoop(m, w, sys, Zeros(sys.Keys), b) && b.parents.Keys == m.ids.Keys
  {
    WitnessStart(m, w, sys);
    assert IdsOf(m.ids, {}) == {};
  }

  function WitnessUpdate(m: Active, b: Bounded, loser: Atom, parent: Option<Atom>, mode: Mode): Bounded
    requires loser in m.ids
  {
    b.(rejected := b.rejected + {m.ids[loser]}, parents := b.parents[loser := parent], modes := b.modes[loser := mode],
       steps := b.steps[loser := StepsTaken(b.steps, loser) + 1], iterations := b.iterations + 1)
  }

  lemma OneMoreId(ids: map<Atom, Id>, atoms: set<Atom>, a: Atom)
    requires a in ids
    ensures IdsOf(ids, atoms + {a}) == IdsOf(ids, atoms) + {ids[a]}
  {
  }

  lemma BooksAdvance(m: Active, level: map<Atom, nat>, b: Bounded, loser: Atom, parent: Option<Atom>)
    requires WitnessBooks(m, level, b) && loser in level && level[loser] < 2
    requires |Passed(level[loser := level[loser] + 1])| == |Passed(level)| + 1
    ensures WitnessBooks(m, level[loser := level[loser] + 1], WitnessUpdate(m, b, loser, parent, ModeOf(level[loser] + 1)))
  {
    hide Passed, Records, IdsOf, StepsTaken, ModeOf;
    RecordStep(level, b.modes, b.steps, loser);
    RecordedIds(m.ids, b.steps, loser);
    KeysKept(level, loser, level[loser] + 1);
  }

  lemma WithinBudget(m: Active, level: map<Atom, nat>, b: Bounded)
    requires WitnessBooks(m, level, b)
    ensures b.iterations <= 2 * |m.parents.Keys|
  {
    TwoStepsEach(level);
  }

  lemma KeysKept(level: map<Atom, nat>, a: Atom, n: nat)
    requires a in level
    ensures level[a := n].Keys == level.Keys
  {
  }

  lemma RecordedIds(ids: map<Atom, Id>, steps: map<Atom, nat>, a: Atom)
    requires a in ids
    ensures IdsOf(ids, steps[a := StepsTaken(steps, a) + 1].Keys) == IdsOf(ids, steps.Keys) + {ids[a]}
  {
    OneMoreId(ids, steps.Keys, a);
    assert steps[a := StepsTaken(steps, a) + 1].Keys == steps.Keys + {a};
  }

  /** The loser of a cycle has fallen back at most once so far, and the records say so. */
  lemma LoserRecords(m: Active, w: Witnesses, sys: System, level: map<Atom, nat>, b: Bounded, cycle: seq<Atom>, loser: Atom)
    requires WitnessLoop(m, w, sys, level, b) && ListedCycle(b.parents, cycle) && LosesAmong(m.ids, cycle, loser)
    ensures loser in level && loser in b.modes && loser in m.ids && level[loser] < 2
    ensures b.modes[loser] == (if level[loser] == 0 then Current else Witness)
    ensures var p := WitnessOf(w, m.ids[loser]);
            UsableWitnesses(m, w) && p.Some? ==> p.value in b.parents && p.value != loser
  {
    hide Outcome;
    NotAtRoot(m, w, sys, level, cycle, loser);
  }

  lemma WitnessAdvance(m: Active, w: Witnesses, sys: System, level: map<Atom, nat>, b: Bounded,
                       cycle: seq<Atom>, loser: Atom, parent: Option<Atom>, mode: Mode)
    requires WitnessLoop(m, w, sys, level, b) && ListedCycle(b.parents, cycle) && LosesAmong(m.ids, cycle, loser)
    requires loser in level && parent == (if level[loser] == 0 then WitnessOf(w, m.ids[loser]) else None)
    requires mode == (if level[loser] == 0 then Witness else Root)
    ensures WitnessLoop(m, w, sys, level[loser := level[loser] + 1], WitnessUpdate(m, b, loser, parent, mode))
    ensures b.iterations < 2 * |m.parents.Keys| && WitnessUpdate(m, b, loser, parent, mode).parents.Keys == m.ids.Keys
    ensures var c := WitnessUpdate(m, b, loser, parent, mode); loser in c.steps && c.steps[loser] <= 2 && c.iterations == b.iterations + 1
  {
    hide Outcome, Passed, OnCycle, Orbit, Walk, ListedCycle;
    WitnessBreak(m, w, sys, level, cycle, loser);
    BooksAdvance(m, level, b, loser, parent);
    WithinBudget(m, level[loser := level[loser] + 1], WitnessUpdate(m, b, loser, parent, mode));
    assert sys[loser][level[loser] + 1].parent == parent;
  }

  /** What one-witness fallback ends with, for the levels it reached. */
  ghost predicate WitnessResult(m: Active, w: Witnesses, level: map<Atom, nat>, b: Bounded)
    requires m.ids.Keys == m.parents.Keys
  {
    var sys := WitnessSystem(m, w);
    && WitnessTrack(sys, level, b.parents) && Outcome(sys, Initial(sys)) == Running(level)
    && CycleFree(b.parents) && WitnessBooks(m, level, b) && b.iterations <= 2 * |m.parents.Keys|
  }

  lemma WitnessEnds(m: Active, w: Witnesses, sys: System, level: map<Atom, nat>, b: Bounded)
    requires m.ids.Keys == m.parents.Keys && sys == WitnessSystem(m, w)
    requires WitnessLoop(m, w, sys, level, b) && CycleFree(b.parents)
    ensures WitnessResult(m, w, level, b)
  {
    WithinBudget(m, level, b);
    assert Outcome(sys, Running(level)) == Running(level);
  }

  ghost predicate MeansAt(m: Active, w: Witnesses, b: Bounded, a: Atom)
    requires m.ids.Keys == m.parents.Keys == b.parents.Keys == b.modes.Keys && a in m.parents
  {
    match b.modes[a]
    case Current => b.parents[a] == m.parents[a] && a !in b.steps
    case Witness => b.parents[a] == WitnessOf(w, m.ids[a]) && a in b.steps && b.steps[a] == 1
    case Root => b.parents[a] == None && a in b.steps && b.steps[a] == 2
  }

  /** What the recorded modes say: an atom still shows its placement, its witness after one
      step, or the root after two; and the placements given up are exactly those. */
  ghost predicate ModesMean(m: Active, w: Witnesses, b: Bounded)
    requires m.ids.Keys == m.parents.Keys
  {
    && b.parents.Keys == b.modes.Keys == m.parents.Keys
    && (forall a :: a in m.parents ==> MeansAt(m, w, b, a))
    && (forall id :: id in b.rejected <==> exists a :: a in m.parents && b.modes[a] != Current && m.ids[a] == id)
  }

  lemma ModesAreMeant(m: Active, w: Witnesses, level: map<Atom, nat>, b: Bounded)
    requires m.ids.Keys == m.parents.Keys && WitnessResult(m, w, level, b)
    ensures ModesMean(m, w, b) && CycleFree(b.parents)
  {
    hide WitnessResult, MeansAt, CycleFree;
    KeysMean(m, w, level, b);
    forall a | a in m.parents ensures MeansAt(m, w, b, a) { LevelMeans(m, w, level, b, a); }
    forall id ensures id in b.rejected <==> exists a :: a in m.parents && b.modes[a] != Current && m.ids[a] == id {
      RejectedMeans(m, w, level, b, id);
    }
  }

  lemma KeysMean(m: Active, w: Witnesses, level: map<Atom, nat>, b: Bounded)
    requires m.ids.Keys == m.parents.Keys && WitnessResult(m, w, level, b)
    ensures b.parents.Keys == b.modes.Keys == m.parents.Keys && CycleFree(b.parents)
  {
    hide Outcome, CycleFree, Passed, InRange;
  }

  lemma LevelMeans(m: Active, w: Witnesses, level: map<Atom, nat>, b: Bounded, a: Atom)
    requires m.ids.Keys == m.parents.Keys && WitnessResult(m, w, level, b) && a in m.parents
    ensures b.parents.Keys == b.modes.Keys == m.parents.Keys && MeansAt(m, w, b, a)
    ensures b.modes[a] == Current <==> a !in b.steps
  {
    hide WitnessResult, WitnessSystem, Records;
    ResultFacts(m, w, level, b);
    WitnessSlot(m, w, a, level[a]);
    RecordAt(level, b.modes, b.steps, a);
  }

  lemma ResultFacts(m: Active, w: Witnesses, level: map<Atom, nat>, b: Bounded)
    requires m.ids.Keys == m.parents.Keys && WitnessResult(m, w, level, b)
    ensures InRange(WitnessSystem(m, w), level) && b.parents == ParentsAt(WitnessSystem(m, w), level)
    ensures WitnessSystem(m, w).Keys == level.Keys == m.parents.Keys == b.parents.Keys && Records(level, b.modes, b.steps)
  {
    hide Outcome, CycleFree, Passed, Records;
  }

  lemma WitnessSlot(m: Active, w: Witnesses, a: Atom, n: nat)
    requires m.ids.Keys == m.parents.Keys && a in m.parents
    ensures |WitnessSystem(m, w)[a]| == 3
    ensures n < 3 ==>
              WitnessSystem(m, w)[a][n].parent == (if n == 0 then m.parents[a] else if n == 1 then WitnessOf(w, m.ids[a]) else None)
  {
  }

  lemma RecordAt(level: map<Atom, nat>, modes: map<Atom, Mode>, steps: map<Atom, nat>, a: Atom)
    requires Records(level, modes, steps) && a in level
    ensures modes.Keys == level.Keys && modes[a] == ModeOf(level[a]) && level[a] <= 2
    ensures level[a] == 0 <==> a !in steps
    ensures a in steps ==> steps[a] == level[a]
  {
  }

  lemma RejectedMeans(m: Active, w: Witnesses, level: map<Atom, nat>, b: Bounded, id: Id)
    requires m.ids.Keys == m.parents.Keys && WitnessResult(m, w, level, b)
    requires b.modes.Keys == m.parents.Keys
    ensures id in b.rejected <==> exists a :: a in m.parents && b.modes[a] != Current && m.ids[a] == id
  {
    hide Outcome, CycleFree, Passed, InRange, ParentsAt;
    forall a | a in m.parents ensures b.modes[a] == Current <==> a !in b.steps { RecordAt(level, b.modes, b.steps, a); }
  }

  /** Ends without cycles in the one outcome of its fallback system, after at most two steps
      per atom; with usable witnesses no error can occur. */
  method FallBackToWitness(m: Active, w: Witnesses)
    returns (r: Result<Bounded, ResolveError>, ghost level: map<Atom, nat>)
    requires m.ids.Keys == m.parents.Keys
    ensures UsableWitnesses(m, w) ==> r.Ok?
    ensures r.Err? ==> r.error == UnknownWitness || r.error == SelfWitness
    ensures r.Ok? ==> WitnessResult(m, w, level, r.value) && ModesMean(m, w, r.value) && CycleFree(r.value.parents)
  {
    hide *;
    ghost var sys := WitnessSystem(m, w);
    level := Zeros(sys.Keys);
    var _, _, initial := NextLoser(m);
    var b := Untouched(m, initial);
    WitnessBegins(m, w, sys, initial, b);
    while true
      invariant WitnessLoop(m, w, sys, level, b) && b.parents.Keys == m.ids.Keys
      decreases 2 * |m.parents.Keys| - b.iterations
    {
      var next, cycle, _ := NextLoser(Active(b.parents, m.ids));
      if next.None? {
        WitnessEnds(m, w, sys, level, b);
        ModesAreMeant(m, w, level, b);
        return Ok(b), level;
      }
      var loser := next.value;
      LoserRecords(m, w, sys, level, b, cycle, loser);
      var parent, mode;
      if b.modes[loser] == Current {
        parent, mode := WitnessOf(w, m.ids[loser]), Witness;
        if parent.Some? && parent.value !in b.parents { return Err(UnknownWitness), level; }
        if parent == Some(loser) { return Err(SelfWitness), level; }
      } else if b.modes[loser] == Witness {
        parent, mode := None, Root;
      } else {
        return Err(RootFailed), level;
      }
      WitnessAdvance(m, w, sys, level, b, cycle, loser, parent, mode);
      b := WitnessUpdate(m, b, loser, parent, mode);
      level := level[loser := level[loser] + 1];
      if b.steps[loser] > 2 { return Err(BoundExceeded), level; }
    }
  }
}
