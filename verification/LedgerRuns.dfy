/** The finalization ledger over a squashing causal state: which local statements are
    frozen, which are outside the replica, and what a squash may do to either. */
module LedgerRuns {
  import opened CausalGraph
  import opened CoreTypes
  import opened Squash

  // ---------------------------------------------------------------- state and steps

  datatype LedgerState<T> = LedgerState(
    causal: Graph<T>,
    privateIds: set<Id>,
    exposed: set<Id>,
    local: set<Id>,
    finalized: map<Id, Revision<T>>,
    handedOff: set<Id>,
    transitions: nat)

  datatype Op<T> =
    | AppendLocal(id: Id, value: T, parents: Option<set<Id>>)
    | MergeRemote(remote: Graph<T>)
    | Finalize(id: Id)
    | Handoff(ids: set<Id>)
    | SquashPrivate

  ghost function FromCausal<T>(g: Graph<T>): LedgerState<T> {
    LedgerState(g, {}, {}, {}, map[], {}, 0)
  }

  function AppendParents<T>(g: Graph<T>, parents: Option<set<Id>>): set<Id> {
    if parents.Some? then parents.value else Frontier(g)
  }

  ghost function SquashedState<T>(s: LedgerState<T>): LedgerState<T> {
    var removed := Removable(s.causal, s.privateIds, s.exposed);
    s.(causal := SquashOutcome(s.causal, removed), privateIds := s.privateIds - removed, local := s.local - removed)
  }

  /** Whether an operation is accepted in a state. */
  ghost predicate Accepted<T>(s: LedgerState<T>, op: Op<T>) {
    match op
    case AppendLocal(id, _, parents) => id !in s.causal && AppendParents(s.causal, parents) <= s.causal.Keys
    case MergeRemote(remote) => Valid(remote) && Agree(s.causal, remote)
    case Finalize(id) => id in s.local
    case Handoff(ids) => ids <= s.causal.Keys && ClosureOf(s.causal, ids) * s.local <= s.finalized.Keys
    case SquashPrivate => SubGraph(s.finalized, SquashedState(s).causal)
  }

  /** A refused operation changes nothing. */
  ghost function Step<T>(s: LedgerState<T>, op: Op<T>): LedgerState<T> {
    if !Accepted(s, op) then s else
    match op
    case AppendLocal(id, v, parents) =>
      s.(causal := s.causal[id := Revision(id, v, AppendParents(s.causal, parents))],
         privateIds := s.privateIds + {id}, local := s.local + {id})
    case MergeRemote(remote) =>
      s.(causal := s.causal + remote, exposed := s.exposed + remote.Keys, privateIds := s.privateIds - remote.Keys)
    case Finalize(id) =>
      if id in s.finalized || id !in s.causal then s
      else s.(finalized := s.finalized[id := s.causal[id]], transitions := s.transitions + 1)
    case Handoff(ids) =>
      var closure := ClosureOf(s.causal, ids);
      s.(exposed := s.exposed + closure, privateIds := s.privateIds - closure, handedOff := s.handedOff + (ids * s.local))
    case SquashPrivate => SquashedState(s)
  }

  ghost function Run<T>(s: LedgerState<T>, ops: seq<Op<T>>): LedgerState<T>
    decreases |ops|
  {
    if ops == [] then s else Run(Step(s, ops[0]), ops[1..])
  }

  // ---------------------------------------------------------------- invariant

  /** `s` contains the known parents of its members. */
  ghost predicate ParentClosed<T>(g: Graph<T>, s: set<Id>) {
    forall k, p :: k in s && k in g && p in g[k].parents ==> p in s
  }

  ghost predicate Bookkeeping<T>(s: LedgerState<T>) {
    && s.privateIds <= s.local <= s.causal.Keys
    && s.exposed <= s.causal.Keys && s.exposed !! s.privateIds
    && s.finalized.Keys <= s.local && SubGraph(s.finalized, s.causal)
    && s.handedOff <= s.exposed * s.finalized.Keys
    && s.transitions == |s.finalized|
  }

  /** Exposed revisions, and all revisions outside the private set, keep their ancestors
      on the same side of the boundary. */
  ghost predicate OutsideClosed<T>(s: LedgerState<T>) {
    && ParentClosed(s.causal, s.exposed)
    && ParentClosed(s.causal, s.causal.Keys - s.privateIds)
  }

  ghost predicate Inv<T>(s: LedgerState<T>) {
    Valid(s.causal) && Bookkeeping(s) && OutsideClosed(s)
  }

  lemma AppendKeepsInv<T>(s: LedgerState<T>, id: Id, v: T, parents: Option<set<Id>>)
    requires Inv(s) && Accepted(s, AppendLocal(id, v, parents))
    ensures Inv(Step(s, AppendLocal(id, v, parents)))
  {
    InsertIsValid(s.causal, Revision(id, v, AppendParents(s.causal, parents)));
  }

  lemma MergedParentClosed<T>(g: Graph<T>, h: Graph<T>, s: set<Id>)
    requires Closed(h) && Agree(g, h) && ParentClosed(g, s)
    ensures ParentClosed(g + h, s + h.Keys)
  {
    forall k, p | k in s + h.Keys && k in g + h && p in (g + h)[k].parents ensures p in s + h.Keys {
      if k in h { assert p in h; } else { assert k in s && k in g; }
    }
  }

  lemma MergeKeepsOutside<T>(s: LedgerState<T>, remote: Graph<T>)
    requires Closed(remote) && Agree(s.causal, remote) && Accepted(s, MergeRemote(remote))
    requires OutsideClosed(s) && s.privateIds <= s.causal.Keys
    ensures OutsideClosed(Step(s, MergeRemote(remote)))
  {
    var t := Step(s, MergeRemote(remote));
    MergedParentClosed(s.causal, remote, s.exposed);
    MergedParentClosed(s.causal, remote, s.causal.Keys - s.privateIds);
    assert t.causal.Keys - t.privateIds == (s.causal.Keys - s.privateIds) + remote.Keys;
  }

  lemma MergeKeepsInv<T>(s: LedgerState<T>, remote: Graph<T>)
    requires Inv(s) && Accepted(s, MergeRemote(remote))
    ensures Inv(Step(s, MergeRemote(remote)))
  {
    UnionIsValid(s.causal, remote);
    MergeKeepsBooks(s, remote);
    MergeKeepsOutside(s, remote);
  }

  lemma MergeKeepsBooks<T>(s: LedgerState<T>, remote: Graph<T>)
    requires Bookkeeping(s) && Agree(s.causal, remote) && Accepted(s, MergeRemote(remote))
    ensures Bookkeeping(Step(s, MergeRemote(remote)))
  {
    hide SubGraph, Agree, Valid;
    MergedStatementsStay(s.finalized, s.causal, remote);
  }

  lemma MergedStatementsStay<T>(finalized: map<Id, Revision<T>>, g: Graph<T>, remote: Graph<T>)
    requires SubGraph(finalized, g) && Agree(g, remote)
    ensures SubGraph(finalized, g + remote)
  {
  }

  lemma ClosureIsParentClosed<T>(g: Graph<T>, roots: set<Id>)
    requires Closed(g)
    ensures ParentClosed(g, ClosureOf(g, roots))
  {
    var c := ClosureOf(g, roots);
    forall k, p | k in c && k in g && p in g[k].parents ensures p in c {
      ParentIsAncestor(g, k, p);
      if k !in roots {
        var r :| r in roots && Ancestor(g, k, r);
        AncestorTrans(g, p, k, r);
      }
    }
  }

  lemma HandoffKeepsInv<T>(s: LedgerState<T>, ids: set<Id>)
    requires Inv(s) && Accepted(s, Handoff(ids))
    ensures Inv(Step(s, Handoff(ids)))
  {
    ClosureIsParentClosed(s.causal, ids);
    var closure := ClosureOf(s.causal, ids);
    assert ids * s.local <= closure * s.local;
  }

  /** A squash bypasses no parent of a revision outside the private set: its parents are
      outside too, and the reduction can only drop some of them. */
  lemma SquashKeepsOutsideParents<T>(s: LedgerState<T>, x: Id)
    requires Inv(s) && x in s.causal && x !in s.privateIds
    ensures x in SquashedState(s).causal && SquashedState(s).causal[x].parents <= s.causal[x].parents
    ensures SquashedState(s).causal[x] == s.causal[x] <==>
              Removable(s.causal, s.privateIds, s.exposed) == {} || Antichain(s.causal, s.causal[x].parents)
  {
    var removed := Removable(s.causal, s.privateIds, s.exposed);
    var ps := s.causal[x].parents;
    if removed != {} {
      forall p | p in ps ensures p !in removed {
        assert p in s.causal.Keys - s.privateIds;
      }
      StatementKept(s.causal, removed, x);
      UntouchedBoundary(s.causal, removed, ps);
    }
  }

  /** Only the reduction to maximal parents touches a closed set with fewer parents. */
  lemma FewerParentsStayClosed<T>(g: Graph<T>, h: Graph<T>, s: set<Id>)
    requires ParentClosed(g, s) && s <= g.Keys
    requires forall x :: x in s && x in h ==> h[x].parents <= g[x].parents
    ensures ParentClosed(h, s)
  {
  }

  lemma SquashKeepsBooks<T>(s: LedgerState<T>)
    requires Bookkeeping(s) && SubGraph(s.finalized, SquashedState(s).causal)
    requires SquashedState(s).causal.Keys == s.causal.Keys - Removable(s.causal, s.privateIds, s.exposed)
    ensures Bookkeeping(SquashedState(s))
  {
  }

  lemma SameOutside(known: set<Id>, privateIds: set<Id>, removed: set<Id>)
    requires removed <= privateIds <= known
    ensures (known - removed) - (privateIds - removed) == known - privateIds
  {
  }

  lemma SquashKeepsGraph<T>(s: LedgerState<T>)
    requires Inv(s)
    ensures Valid(SquashedState(s).causal)
    ensures SquashedState(s).causal.Keys == s.causal.Keys - Removable(s.causal, s.privateIds, s.exposed)
  {
    var removed := Removable(s.causal, s.privateIds, s.exposed);
    if removed != {} { SquashPreservesMeaning(s.causal, removed); }
  }

  lemma SquashKeepsOutside<T>(s: LedgerState<T>)
    requires Inv(s)
    ensures OutsideClosed(SquashedState(s))
  {
    var t := SquashedState(s);
    var outside := s.causal.Keys - s.privateIds;
    SquashKeepsGraph(s);
    SameOutside(s.causal.Keys, s.privateIds, Removable(s.causal, s.privateIds, s.exposed));
    forall x | x in outside ensures x in t.causal && t.causal[x].parents <= s.causal[x].parents {
      SquashKeepsOutsideParents(s, x);
    }
    assert s.exposed <= outside;
    FewerParentsStayClosed(s.causal, t.causal, outside);
    FewerParentsStayClosed(s.causal, t.causal, s.exposed);
  }

  lemma SquashKeepsInv<T>(s: LedgerState<T>)
    requires Inv(s) && Accepted(s, SquashPrivate)
    ensures Inv(Step(s, SquashPrivate))
  {
    SquashKeepsGraph(s);
    SquashKeepsBooks(s);
    SquashKeepsOutside(s);
  }

  lemma StepKeepsInv<T>(s: LedgerState<T>, op: Op<T>)
    requires Inv(s)
    ensures Inv(Step(s, op))
  {
    if Accepted(s, op) {
      match op
      case AppendLocal(id, v, parents) => AppendKeepsInv(s, id, v, parents);
      case MergeRemote(remote) => MergeKeepsInv(s, remote);
      case Finalize(id) =>
      case Handoff(ids) => HandoffKeepsInv(s, ids);
      case SquashPrivate => SquashKeepsInv(s);
    }
  }

  /** Every run, whatever parents it names: the books agree with the graph and the outside
      is closed. */
  lemma {:induction false} RunKeepsInv<T>(s: LedgerState<T>, ops: seq<Op<T>>)
    requires Inv(s)
    ensures Inv(Run(s, ops))
    decreases |ops|
  {
    if ops != [] {
      StepKeepsInv(s, ops[0]);
      RunKeepsInv(Step(s, ops[0]), ops[1..]);
    }
  }

  // ---------------------------------------------------------------- what a handoff vouches for

  /** Everything local at or below a handed-off revision is frozen. */
  ghost predicate HandedOffFrozen<T>(s: LedgerState<T>) {
    forall h, a :: h in s.handedOff && a in s.local && (a == h || Ancestor(s.causal, a, h)) ==> a in s.finalized
  }

  /** The ancestry of a revision known before moves in no step. */
  lemma StepKeepsAncestry<T>(s: LedgerState<T>, op: Op<T>, a: Id, d: Id)
    requires Inv(s) && d in s.causal && d in Step(s, op).causal && a in Step(s, op).causal
    ensures Ancestor(Step(s, op).causal, a, d) <==> Ancestor(s.causal, a, d)
  {
    if Accepted(s, op) {
      match op
      case AppendLocal(id, v, parents) =>
        InsertIsValid(s.causal, Revision(id, v, AppendParents(s.causal, parents)));
        AncestryIsLocal(s.causal, Step(s, op).causal, a, d);
      case MergeRemote(remote) =>
        UnionIsValid(s.causal, remote);
        AncestryIsLocal(s.causal, s.causal + remote, a, d);
      case SquashPrivate =>
        var removed := Removable(s.causal, s.privateIds, s.exposed);
        if removed != {} { SquashPreservesMeaning(s.causal, removed); }
      case _ =>
    }
  }

  lemma StepKeepsHandedOffFrozen<T>(s: LedgerState<T>, op: Op<T>)
    requires Inv(s) && HandedOffFrozen(s)
    ensures HandedOffFrozen(Step(s, op))
  {
    var t := Step(s, op);
    StepKeepsInv(s, op);
    forall h, a | h in t.handedOff && a in t.local && (a == h || Ancestor(t.causal, a, h)) ensures a in t.finalized {
      assert h in t.causal && a in t.causal;
      if h in s.causal { StepKeepsAncestry(s, op, a, h); }
      if Ancestor(s.causal, a, h) { AncestorIsKnown(s.causal, a, h); }
      if op.Handoff? && h !in s.handedOff { assert a in ClosureOf(s.causal, op.ids); }
    }
  }

  /** In every run each local revision at or below a handed-off one is frozen. */
  lemma {:induction false} RunKeepsHandedOffFrozen<T>(s: LedgerState<T>, ops: seq<Op<T>>)
    requires Inv(s) && HandedOffFrozen(s)
    ensures HandedOffFrozen(Run(s, ops))
    decreases |ops|
  {
    if ops != [] {
      StepKeepsInv(s, ops[0]);
      StepKeepsHandedOffFrozen(s, ops[0]);
      RunKeepsHandedOffFrozen(Step(s, ops[0]), ops[1..]);
    }
  }

  /** An append without named parents observes everything known. */
  lemma DefaultAppendObservesAll<T>(s: LedgerState<T>, id: Id, v: T)
    requires Inv(s) && id !in s.causal
    ensures var t := Step(s, AppendLocal(id, v, None));
            && id in t.causal && t.causal[id].value == v && id in t.privateIds && id in t.local
            && Frontier(t.causal) == {id} && AncestorSet(t.causal, id) == s.causal.Keys
  {
    AssignObservesAll(s.causal, id, v);
  }

  /** What a squash, accepted or refused, does to an exposed or finalized revision: it stays,
      a finalized statement stays as it is, and an exposed one is reduced exactly when its
      parents are no antichain and something else is removed. */
  lemma SquashKeepsExposedAndFinalized<T>(s: LedgerState<T>, x: Id)
    requires Inv(s) && (x in s.exposed || x in s.finalized)
    ensures var t := Step(s, SquashPrivate);
            && x in t.causal
            && (x in s.finalized ==> t.causal[x] == s.causal[x])
            && (t.causal[x] == s.causal[x] <==>
                !Accepted(s, SquashPrivate) || Removable(s.causal, s.privateIds, s.exposed) == {}
                || Antichain(s.causal, s.causal[x].parents))
  {
    var removed := Removable(s.causal, s.privateIds, s.exposed);
    if Accepted(s, SquashPrivate) {
      if x in s.exposed { SquashKeepsOutsideParents(s, x); }
      else if removed != {} { StatementKept(s.causal, removed, x); }
    }
  }

  /** Exactly when the ledger refuses to squash: something would be removed, and a finalized
      revision would go, names a revision that would go, or has parents to be reduced. */
  lemma SquashRefusedIff<T>(s: LedgerState<T>)
    requires Inv(s)
    ensures var removed := Removable(s.causal, s.privateIds, s.exposed);
            !Accepted(s, SquashPrivate) <==>
            removed != {} &&
            exists k :: k in s.finalized &&
              (k in removed || !(s.causal[k].parents !! removed) || !Antichain(s.causal, s.causal[k].parents))
  {
    var removed := Removable(s.causal, s.privateIds, s.exposed);
    forall k | k in s.finalized
      ensures (k in SquashedState(s).causal && SquashedState(s).causal[k] == s.causal[k]) <==>
              removed == {} || (k !in removed && s.causal[k].parents !! removed && Antichain(s.causal, s.causal[k].parents))
    {
      if k !in removed && removed != {} { StatementKept(s.causal, removed, k); }
    }
  }

  // ---------------------------------------------------------------- captured parents

  ghost predicate AntichainParents<T>(g: Graph<T>) {
    forall k :: k in g ==> Antichain(g, g[k].parents)
  }

  /** Parents named explicitly, and those of remote statements, are antichains, as every
      captured frontier is. */
  ghost predicate Captured<T>(s: LedgerState<T>, op: Op<T>) {
    match op
    case AppendLocal(_, _, Some(parents)) => Antichain(s.causal, parents)
    case MergeRemote(remote) => AntichainParents(remote)
    case _ => true
  }

  ghost predicate CapturedRun<T>(s: LedgerState<T>, ops: seq<Op<T>>)
    decreases |ops|
  {
    ops == [] || (Captured(s, ops[0]) && CapturedRun(Step(s, ops[0]), ops[1..]))
  }

  lemma AppendedAntichainParents<T>(g: Graph<T>, r: Revision<T>)
    requires Valid(g) && AntichainParents(g) && r.id !in g && r.parents <= g.Keys && Antichain(g, r.parents)
    ensures AntichainParents(g[r.id := r])
  {
    var h := g[r.id := r];
    InsertIsValid(g, r);
    forall k | k in h ensures Antichain(h, h[k].parents) { AntichainIsLocal(g, h, h[k].parents); }
  }

  lemma MergedAntichainParents<T>(g: Graph<T>, h: Graph<T>)
    requires Valid(g) && Valid(h) && Agree(g, h) && AntichainParents(g) && AntichainParents(h)
    ensures AntichainParents(g + h)
  {
    UnionIsValid(g, h);
    forall k | k in g + h ensures Antichain(g + h, (g + h)[k].parents) {
      if k in h { AntichainIsLocal(h, g + h, h[k].parents); }
      else { AntichainIsLocal(g, g + h, g[k].parents); }
    }
  }

  lemma SquashedAntichainParents<T>(g: Graph<T>, removed: set<Id>)
    requires Squashable(g, removed)
    ensures AntichainParents(Squashed(g, removed))
  {
    SquashPreservesMeaning(g, removed);
    var h := Squashed(g, removed);
    forall k | k in h ensures Antichain(h, h[k].parents) {
      forall a, d | a in h[k].parents && d in h[k].parents ensures !Ancestor(h, a, d) {
        assert a in h && d in h;
      }
    }
  }

  lemma StepKeepsAntichainParents<T>(s: LedgerState<T>, op: Op<T>)
    requires Inv(s) && AntichainParents(s.causal) && Captured(s, op)
    ensures AntichainParents(Step(s, op).causal)
  {
    if Accepted(s, op) {
      match op
      case AppendLocal(id, v, parents) =>
        FrontierIsAntichain(s.causal);
        AppendedAntichainParents(s.causal, Revision(id, v, AppendParents(s.causal, parents)));
      case MergeRemote(remote) => MergedAntichainParents(s.causal, remote);
      case SquashPrivate =>
        var removed := Removable(s.causal, s.privateIds, s.exposed);
        if removed != {} { SquashedAntichainParents(s.causal, removed); }
      case _ =>
    }
  }

  lemma StepKeepsExposed<T>(s: LedgerState<T>, op: Op<T>, x: Id)
    requires Inv(s) && AntichainParents(s.causal) && x in s.exposed
    ensures var t := Step(s, op); x in t.exposed && x in t.causal && t.causal[x] == s.causal[x]
  {
    if op.SquashPrivate? { SquashKeepsExposedAndFinalized(s, x); }
  }

  /** What once left the replica never moves again: with captured parents, no later run
      changes the statement of an exposed revision. */
  lemma {:induction false} ExposedStatementsNeverMove<T>(s: LedgerState<T>, ops: seq<Op<T>>, x: Id)
    requires Inv(s) && AntichainParents(s.causal) && CapturedRun(s, ops) && x in s.exposed
    ensures var t := Run(s, ops); x in t.exposed && x in t.causal && t.causal[x] == s.causal[x]
    decreases |ops|
  {
    if ops != [] {
      StepKeepsInv(s, ops[0]);
      StepKeepsAntichainParents(s, ops[0]);
      StepKeepsExposed(s, ops[0], x);
      ExposedStatementsNeverMove(Step(s, ops[0]), ops[1..], x);
    }
  }

  lemma MergeKnownChangesNothing<T>(t: LedgerState<T>, copy: Graph<T>)
    requires Bookkeeping(t) && Valid(copy) && SubGraph(copy, t.causal) && copy.Keys <= t.exposed
    ensures Accepted(t, MergeRemote(copy)) && Step(t, MergeRemote(copy)) == t
  {
    hide Valid, SubGraph, Agree;
    KnownCopy(t.causal, copy);
    ExposedCopy(t.exposed, t.privateIds, copy.Keys);
  }

  lemma KnownCopy<T>(g: Graph<T>, copy: Graph<T>)
    requires SubGraph(copy, g)
    ensures Agree(g, copy) && g + copy == g
  {
  }

  lemma ExposedCopy(exposed: set<Id>, privateIds: set<Id>, copy: set<Id>)
    requires copy <= exposed && exposed !! privateIds
    ensures exposed + copy == exposed && privateIds - copy == privateIds
  {
  }

  /** So what was handed off is accepted when it comes back, however much was squashed since. */
  lemma HandedOffComesBack<T>(s: LedgerState<T>, ops: seq<Op<T>>, copy: Graph<T>)
    requires Inv(s) && AntichainParents(s.causal) && CapturedRun(s, ops)
    requires Valid(copy) && SubGraph(copy, s.causal) && copy.Keys <= s.exposed
    ensures Accepted(Run(s, ops), MergeRemote(copy)) && Step(Run(s, ops), MergeRemote(copy)) == Run(s, ops)
  {
    var t := Run(s, ops);
    RunKeepsInv(s, ops);
    forall x | x in copy ensures x in t.exposed && x in t.causal && t.causal[x] == copy[x] {
      ExposedStatementsNeverMove(s, ops, x);
    }
    MergeKnownChangesNothing(t, copy);
  }

  /** One squash, without assuming captured parents: a copy of what left the replica is still
      accepted afterwards exactly when nothing was removed or all its parents are antichains. */
  lemma CopyAcceptedAfterSquash<T>(s: LedgerState<T>, copy: Graph<T>)
    requires Inv(s) && Valid(copy) && SubGraph(copy, s.causal) && copy.Keys <= s.exposed
    ensures Accepted(Step(s, SquashPrivate), MergeRemote(copy)) <==>
              !Accepted(s, SquashPrivate) || Removable(s.causal, s.privateIds, s.exposed) == {} || AntichainParents(copy)
  {
    hide Inv, Antichain, Valid, Squashed;
    var t := Step(s, SquashPrivate);
    forall x | x in copy
      ensures x in t.causal && (t.causal[x] == copy[x] <==>
                !Accepted(s, SquashPrivate) || Removable(s.causal, s.privateIds, s.exposed) == {} || Antichain(copy, copy[x].parents))
    {
      SquashKeepsExposedAndFinalized(s, x);
      assert Closed(copy) by { ValidIsClosed(copy); }
      AntichainIsLocal(copy, s.causal, copy[x].parents);
    }
  }

  lemma ValidIsClosed<T>(g: Graph<T>)
    requires Valid(g)
    ensures Closed(g)
  {
  }

  ghost function Redundant(): Graph<bool> {
    map[0 := Revision(0, true, {}), 1 := Revision(1, true, {0}), 2 := Revision(2, true, {0, 1})]
  }

  /** After merging that remote and sealing two private revisions over it. */
  ghost function Blocked(): LedgerState<bool> {
    Step(Step(Step(FromCausal(map[]), MergeRemote(Redundant())), AppendLocal(3, true, None)), AppendLocal(4, true, None))
  }

  lemma BlockedIs()
    ensures Inv(Blocked()) && Valid(Redundant()) && Frontier(Blocked().causal) == {4}
    ensures var h := Redundant()[3 := Revision(3, true, {2})];
            Blocked() == LedgerState(h[4 := Revision(4, true, {3})], {3, 4}, {0, 1, 2}, {3, 4}, map[], {}, 0)
  {
    hide Inv, Step, Accepted, Removable, AntichainParents;
    var remote := Redundant();
    var h := remote[3 := Revision(3, true, {2})];
    var a := LedgerState(remote, {}, {0, 1, 2}, {}, map[], {}, 0);
    var b := LedgerState(h, {3}, {0, 1, 2}, {3}, map[], {}, 0);
    var s := LedgerState(h[4 := Revision(4, true, {3})], {3, 4}, {0, 1, 2}, {3, 4}, map[], {}, 0);
    EmptyIsInv<bool>();
    MergesRedundant(a);
    StepKeepsInv(FromCausal(map[]), MergeRemote(remote));
    RedundantFrontier();
    Appends(a, 3, 2, b);
    StepKeepsInv(a, AppendLocal(3, true, None));
    InsertFrontier(remote, Revision(3, true, {2}));
    Appends(b, 4, 3, s);
    StepKeepsInv(b, AppendLocal(4, true, None));
    InsertFrontier(h, Revision(4, true, {3}));
  }

  /** That case is real: revision 2 of a remote names both 0 and its descendant 1. Squashing
      the private revision 3 reduces it, and the same remote is refused from then on. */
  lemma SquashCanBlockARemote()
    ensures Inv(Blocked()) && Accepted(Blocked(), MergeRemote(Redundant()))
    ensures !Accepted(Step(Blocked(), SquashPrivate), MergeRemote(Redundant()))
  {
    hide Inv, Step, Accepted, Removable, AntichainParents;
    BlockedIs();
    RedundantIsCopy(Blocked());
    CopyAcceptedAfterSquash(Blocked(), Redundant());
  }

  lemma MergesRedundant(a: LedgerState<bool>)
    requires a == LedgerState(Redundant(), {}, {0, 1, 2}, {}, map[], {}, 0)
    ensures Step(FromCausal(map[]), MergeRemote(Redundant())) == a
    ensures Valid(Redundant())
  {
    var rank: map<Id, nat> := map[0 := 0, 1 := 1, 2 := 2];
    assert Ranks(Redundant(), rank);
    RankedIsAcyclic(Redundant(), rank);
    var empty: Graph<bool> := map[];
    assert empty + Redundant() == Redundant();
  }

  lemma Appends(a: LedgerState<bool>, id: Id, top: Id, b: LedgerState<bool>)
    requires id !in a.causal && Frontier(a.causal) == {top}
    requires b == a.(causal := a.causal[id := Revision(id, true, {top})], privateIds := a.privateIds + {id}, local := a.local + {id})
    ensures Step(a, AppendLocal(id, true, None)) == b
  {
  }

  /** Its copy was accepted, something is removable, and one parent set is no antichain. */
  lemma RedundantIsCopy(s: LedgerState<bool>)
    requires s.privateIds == {3, 4} && s.exposed == {0, 1, 2} && s.finalized == map[] && Frontier(s.causal) == {4}
    requires SubGraph(Redundant(), s.causal) && Valid(Redundant())
    ensures Accepted(s, MergeRemote(Redundant())) && Accepted(s, SquashPrivate)
    ensures Removable(s.causal, s.privateIds, s.exposed) != {} && !AntichainParents(Redundant())
  {
    assert 3 in Removable(s.causal, s.privateIds, s.exposed);
    ParentIsAncestor(Redundant(), 1, 0);
    assert 0 in Redundant()[2].parents && 1 in Redundant()[2].parents;
  }

  lemma EmptyIsInv<T>()
    ensures Inv(FromCausal<T>(map[]))
  {
    RankedIsAcyclic<T>(map[], map[]);
  }

  lemma RedundantFrontier()
    ensures Frontier(Redundant()) == {2}
  {
    var g := Redundant();
    assert 0 in g[2].parents && 1 in g[2].parents;
  }
}
