/** Whether squashing can be observed: the ledger beside one that went through the same history
    and never squashed. With captured parents it cannot; in general, exactly when it can. */
module SquashObservability {
  import opened CausalGraph
  import opened CoreTypes
  import opened LedgerRuns
  import opened Squash

  // ---------------------------------------------------------------- the two sides

  /** The statements of a remote under identities not yet held. */
  function NewOnly<T>(f: Graph<T>, remote: Graph<T>): Graph<T> {
    map x | x in remote && x !in f :: remote[x]
  }

  /** The same history on a graph that is never squashed. It takes the remotes it accepts, and
      the new identities of those the ledger accepts; what it holds it keeps as first written. */
  ghost function FullStep<T>(s: LedgerState<T>, f: Graph<T>, op: Op<T>): Graph<T> {
    match op
    case AppendLocal(_, _, _) => Step(FromCausal(f), op).causal
    case MergeRemote(remote) => if Accepted(s, op) || Accepted(FromCausal(f), op) then f + NewOnly(f, remote) else f
    case _ => f
  }

  ghost function FullRun<T>(s: LedgerState<T>, f: Graph<T>, ops: seq<Op<T>>): Graph<T>
    decreases |ops|
  {
    if ops == [] then f else FullRun(Step(s, ops[0]), FullStep(s, f, ops[0]), ops[1..])
  }

  ghost function Removed<T>(s: Graph<T>, f: Graph<T>): set<Id> {
    f.Keys - s.Keys
  }

  ghost predicate Simulates<T>(s: Graph<T>, f: Graph<T>) {
    && Valid(s) && Valid(f)
    && s.Keys <= f.Keys
    && (forall x :: x in s ==> s[x].value == f[x].value)
    && (forall a, d :: a in s && d in s ==> (Ancestor(s, a, d) <==> Ancestor(f, a, d)))
    && Frontier(s) == Frontier(f)
  }

  /** Neither an append nor a remote names a removed identity. */
  ghost predicate Oblivious<T>(s: Graph<T>, f: Graph<T>, op: Op<T>) {
    match op
    case AppendLocal(id, _, parents) => id !in Removed(s, f) && (parents.Some? ==> parents.value !! Removed(s, f))
    case MergeRemote(remote) => remote.Keys !! Removed(s, f)
    case _ => true
  }

  ghost predicate ObliviousRun<T>(s: LedgerState<T>, f: Graph<T>, ops: seq<Op<T>>)
    decreases |ops|
  {
    ops == [] || (Oblivious(s.causal, f, ops[0]) && ObliviousRun(Step(s, ops[0]), FullStep(s, f, ops[0]), ops[1..]))
  }

  lemma UnionReferenced<T>(g: Graph<T>, h: Graph<T>, x: Id)
    requires Agree(g, h)
    ensures Referenced(g + h, x) <==> Referenced(g, x) || Referenced(h, x)
  {
    if Referenced(g, x) {
      var k :| k in g && x in g[k].parents;
      assert k in g + h && x in (g + h)[k].parents;
    }
    if Referenced(h, x) {
      var k :| k in h && x in h[k].parents;
      assert k in g + h && x in (g + h)[k].parents;
    }
  }

  /** Ancestry of the appended revision itself, over parents both sides hold. */
  lemma AppendedAncestry<T>(s: Graph<T>, f: Graph<T>, ps: set<Id>, a: Id)
    requires Simulates(s, f) && a in s && ps <= s.Keys
    ensures (a in ps || exists q :: q in ps && Ancestor(s, a, q)) <==> (a in ps || exists q :: q in ps && Ancestor(f, a, q))
  {
  }

  lemma OldAncestry<T>(g: Graph<T>, r: Revision<T>, a: Id, d: Id)
    requires Valid(g) && r.id !in g && r.parents <= g.Keys && d in g
    ensures Ancestor(g[r.id := r], a, d) <==> Ancestor(g, a, d)
    ensures a == r.id ==> !Ancestor(g, a, d)
  {
    AncestryIsLocal(g, g[r.id := r], a, d);
    if Ancestor(g, a, d) { AncestorIsKnown(g, a, d); }
  }

  lemma AppendSimulates<T>(s: Graph<T>, f: Graph<T>, r: Revision<T>)
    requires Simulates(s, f) && r.id !in f && r.parents <= s.Keys
    ensures Simulates(s[r.id := r], f[r.id := r])
  {
    var s', f' := s[r.id := r], f[r.id := r];
    InsertIsValid(s, r);
    InsertIsValid(f, r);
    InsertFrontier(s, r);
    InsertFrontier(f, r);
    forall a, d | a in s' && d in s' ensures Ancestor(s', a, d) <==> Ancestor(f', a, d) {
      if d != r.id {
        OldAncestry(s, r, a, d);
        OldAncestry(f, r, a, d);
      } else if a != r.id {
        AppendedAncestry(s, f, r.parents, a);
      }
    }
  }

  /** New identities hang below what the full side holds, and are named by none of it. */
  lemma NewOnlyExtends<T>(s: Graph<T>, f: Graph<T>, remote: Graph<T>)
    requires Simulates(s, f) && Valid(remote) && Agree(s, remote) && remote.Keys !! Removed(s, f)
    ensures var h := f + NewOnly(f, remote);
            && Keyed(h) && Closed(h) && SubGraph(f, h)
            && h.Keys == f.Keys + remote.Keys
            && (forall x :: x in remote && x !in s ==> x !in f && x in h && h[x] == remote[x])
  {
  }

  /** Identities the squashed graph shares with the merged remote keep their ancestry on both
      sides, and a new one has the same parents on both. */
  lemma {:induction false} MergedAncestry<T>(s: Graph<T>, f: Graph<T>, remote: Graph<T>, a: Id, d: Id)
    requires Simulates(s, f) && Valid(remote) && Agree(s, remote) && remote.Keys !! Removed(s, f)
    requires a in s + remote && d in s + remote
    ensures Ancestor(s + remote, a, d) <==> Ancestor(f + NewOnly(f, remote), a, d)
    decreases |AncestorSet(s + remote, d)|
  {
    var m, h := s + remote, f + NewOnly(f, remote);
    UnionIsValid(s, remote);
    NewOnlyExtends(s, f, remote);
    if d in s {
      AncestryIsLocal(s, m, a, d);
      AncestryIsLocal(f, h, a, d);
      if Ancestor(s, a, d) { AncestorIsKnown(s, a, d); }
      if Ancestor(f, a, d) { AncestorIsKnown(f, a, d); }
    } else {
      if Ancestor(m, a, d) {
        var q := AncestorStep(m, a, d);
        ParentIsAncestor(m, d, q);
        AncestorsShrink(m, q, d);
        if q != a { MergedAncestry(s, f, remote, a, q); }
        AncestorVia(h, a, q, d);
      }
      if Ancestor(h, a, d) {
        var q := AncestorStep(h, a, d);
        ParentIsAncestor(m, d, q);
        AncestorsShrink(m, q, d);
        if q != a { MergedAncestry(s, f, remote, a, q); }
        AncestorVia(m, a, q, d);
      }
    }
  }

  lemma MergedIsAcyclic<T>(s: Graph<T>, f: Graph<T>, remote: Graph<T>)
    requires Simulates(s, f) && Valid(remote) && Agree(s, remote) && remote.Keys !! Removed(s, f)
    ensures Valid(f + NewOnly(f, remote))
  {
    var h := f + NewOnly(f, remote);
    UnionIsValid(s, remote);
    NewOnlyExtends(s, f, remote);
    forall x ensures !Ancestor(h, x, x) {
      if Ancestor(h, x, x) {
        AncestorIsKnown(h, x, x);
        if x in f { AncestryIsLocal(f, h, x, x); } else { MergedAncestry(s, f, remote, x, x); }
      }
    }
  }

  /** Who names `x` on the full side: somebody who did before, or a new revision. */
  lemma NewOnlyReferenced<T>(f: Graph<T>, remote: Graph<T>, x: Id)
    ensures Referenced(f + NewOnly(f, remote), x) <==>
            Referenced(f, x) || exists k :: k in remote && k !in f && x in remote[k].parents
  {
    var h := f + NewOnly(f, remote);
    if Referenced(f, x) {
      var k :| k in f && x in f[k].parents;
      assert k in h && x in h[k].parents;
    }
    if k :| k in remote && k !in f && x in remote[k].parents {
      assert k in h && x in h[k].parents;
    }
  }

  lemma MergedFrontier<T>(s: Graph<T>, f: Graph<T>, remote: Graph<T>)
    requires Simulates(s, f) && Valid(remote) && Agree(s, remote) && remote.Keys !! Removed(s, f)
    ensures Frontier(s + remote) == Frontier(f + NewOnly(f, remote))
  {
    NewOnlyExtends(s, f, remote);
    forall x | x in f + NewOnly(f, remote)
      ensures x in Frontier(s + remote) <==> x in Frontier(f + NewOnly(f, remote))
    {
      UnionReferenced(s, remote, x);
      NewOnlyReferenced(f, remote, x);
      if k :| k in remote && x in remote[k].parents { assert k in f ==> k in s; }
      if x in s {
        assert x in Frontier(s) <==> x in Frontier(f);
      } else if x in f {
        assert x !in Frontier(f);
      }
    }
  }

  lemma MergeSimulates<T>(s: Graph<T>, f: Graph<T>, remote: Graph<T>)
    requires Simulates(s, f) && Valid(remote) && Agree(s, remote) && remote.Keys !! Removed(s, f)
    ensures Simulates(s + remote, f + NewOnly(f, remote))
  {
    UnionIsValid(s, remote);
    MergedIsAcyclic(s, f, remote);
    forall a, d | a in s + remote && d in s + remote
      ensures Ancestor(s + remote, a, d) <==> Ancestor(f + NewOnly(f, remote), a, d)
    {
      MergedAncestry(s, f, remote, a, d);
    }
    MergedFrontier(s, f, remote);
  }

  /** The condition on remotes is exact: a remote that brings a removed identity back always
      breaks the simulation, because the survivors no longer descend from it. */
  lemma MergeSimulatesIff<T>(s: Graph<T>, f: Graph<T>, remote: Graph<T>)
    requires Simulates(s, f) && Valid(remote) && Agree(s, remote)
    ensures Simulates(s + remote, f + NewOnly(f, remote)) <==> remote.Keys !! Removed(s, f)
  {
    var m, h := s + remote, f + NewOnly(f, remote);
    if remote.Keys !! Removed(s, f) {
      MergeSimulates(s, f, remote);
    } else {
      var x :| x in remote && x in Removed(s, f);
      UnionIsValid(s, remote);
      RemovedDoesNotReturn(s, f, m, h, x);
    }
  }

  // ---------------------------------------------------------------- when the two sides accept alike

  /** Revisions both sides hold, under different statements. */
  ghost function RewrittenIds<T>(s: Graph<T>, f: Graph<T>): set<Id> {
    set x | x in s && x in f && s[x] != f[x]
  }

  /** A remote that is valid and contradicts no statement the two sides share. */
  ghost predicate AgreesElsewhere<T>(s: Graph<T>, f: Graph<T>, remote: Graph<T>) {
    Valid(remote) && forall x :: x in remote && x in s && x in f && s[x] == f[x] ==> remote[x] == s[x]
  }

  /** The remote carries what `g` says of the revisions that were rewritten or removed. */
  ghost predicate Carries<T>(s: Graph<T>, f: Graph<T>, remote: Graph<T>, g: Graph<T>) {
    forall x :: x in remote && x in g && (x in RewrittenIds(s, f) || x in Removed(s, f)) ==> remote[x] == g[x]
  }

  /** When one side takes a remote and the other refuses it, without any assumption on parents:
      exactly when it carries the new statements of all rewritten revisions it names but not
      the old ones, or the old ones but not the new. */
  lemma MergeAcceptedAlike<T>(s: LedgerState<T>, f: Graph<T>, remote: Graph<T>)
    requires Simulates(s.causal, f)
    ensures (Accepted(s, MergeRemote(remote)) <==> Accepted(FromCausal(f), MergeRemote(remote))) <==>
              (AgreesElsewhere(s.causal, f, remote) ==>
                (Carries(s.causal, f, remote, s.causal) <==> Carries(s.causal, f, remote, f)))
    ensures Accepted(s, MergeRemote(remote)) && remote.Keys !! Removed(s.causal, f) ==>
              (Accepted(FromCausal(f), MergeRemote(remote)) <==> remote.Keys !! RewrittenIds(s.causal, f))
    ensures Accepted(FromCausal(f), MergeRemote(remote)) ==>
              (Accepted(s, MergeRemote(remote)) <==> remote.Keys !! RewrittenIds(s.causal, f))
    ensures Accepted(FromCausal(f), MergeRemote(remote)) ==> f + NewOnly(f, remote) == f + remote
  {
    hide Valid, Simulates;
    SimulatedKeys(s.causal, f);
    AgreementSplits(s.causal, f, remote, s.causal);
    AgreementSplits(s.causal, f, remote, f);
    NewOnlyIsUnion(f, remote);
  }

  lemma SimulatedKeys<T>(s: Graph<T>, f: Graph<T>)
    requires Simulates(s, f)
    ensures s.Keys <= f.Keys
  {
  }

  lemma AgreementSplits<T>(s: Graph<T>, f: Graph<T>, remote: Graph<T>, g: Graph<T>)
    requires s.Keys <= f.Keys && (g == s || g == f)
    ensures Valid(remote) && Agree(g, remote) <==> AgreesElsewhere(s, f, remote) && Carries(s, f, remote, g)
  {
    hide Valid;
    if AgreesElsewhere(s, f, remote) && Carries(s, f, remote, g) {
      forall x | x in g && x in remote ensures g[x] == remote[x] {
        assert x in Removed(s, f) || x in RewrittenIds(s, f) || s[x] == f[x];
      }
    }
  }

  lemma NewOnlyIsUnion<T>(f: Graph<T>, remote: Graph<T>)
    ensures Agree(f, remote) ==> f + NewOnly(f, remote) == f + remote
  {
  }

  /** Every rewritten statement can be told by its old form, which names a removed parent. */
  ghost predicate Traceable<T>(s: Graph<T>, f: Graph<T>) {
    forall x :: x in RewrittenIds(s, f) ==> !(f[x].parents !! Removed(s, f))
  }

  /** A valid remote that carries an old form carries the removed parent it names. */
  lemma OldFormsNameRemoved<T>(s: Graph<T>, f: Graph<T>, remote: Graph<T>)
    requires Traceable(s, f) && Closed(remote) && Agree(f, remote)
    ensures remote.Keys !! RewrittenIds(s, f) || !(remote.Keys !! Removed(s, f))
  {
    if x :| x in remote && x in RewrittenIds(s, f) {
      var p :| p in f[x].parents && p in Removed(s, f);
      assert p in remote;
    }
  }

  /** So nobody who never saw a removed revision can bring an old form back: what the unsquashed
      side takes, the squashed one takes. */
  lemma FullAcceptedIsAccepted<T>(s: Graph<T>, f: Graph<T>, remote: Graph<T>)
    requires Simulates(s, f) && Traceable(s, f)
    requires Valid(remote) && Agree(f, remote) && remote.Keys !! Removed(s, f)
    ensures Agree(s, remote)
  {
    OldFormsNameRemoved(s, f, remote);
    forall x | x in s && x in remote ensures s[x] == remote[x] {
      assert x in f && x !in RewrittenIds(s, f);
    }
  }

  lemma SquashKeepsTraceable<T>(s: Graph<T>, removed: set<Id>, f: Graph<T>)
    requires Simulates(s, f) && Squashable(s, removed) && Traceable(s, f) && AntichainParents(s)
    ensures Traceable(Squashed(s, removed), f)
  {
    var h := Squashed(s, removed);
    forall x | x in RewrittenIds(h, f) ensures !(f[x].parents !! Removed(h, f)) {
      StatementKept(s, removed, x);
      if s[x] != f[x] {
        assert x in RewrittenIds(s, f);
        var p :| p in f[x].parents && p in Removed(s, f);
        assert p in Removed(h, f);
      } else {
        var p :| p in s[x].parents && p in removed;
        assert p in Removed(h, f);
      }
    }
  }

  lemma MergeKeepsTraceable<T>(s: Graph<T>, f: Graph<T>, remote: Graph<T>)
    requires Simulates(s, f) && Traceable(s, f) && Agree(s, remote) && remote.Keys !! Removed(s, f)
    ensures Traceable(s + remote, f + NewOnly(f, remote))
  {
    var m, h := s + remote, f + NewOnly(f, remote);
    forall x | x in RewrittenIds(m, h) ensures !(h[x].parents !! Removed(m, h)) {
      assert x in RewrittenIds(s, f);
      var p :| p in f[x].parents && p in Removed(s, f);
      assert p in Removed(m, h);
    }
  }

  lemma AppendKeepsTraceable<T>(s: Graph<T>, f: Graph<T>, r: Revision<T>)
    requires Simulates(s, f) && Traceable(s, f) && r.id !in f
    ensures Traceable(s[r.id := r], f[r.id := r])
  {
    var m, h := s[r.id := r], f[r.id := r];
    forall x | x in RewrittenIds(m, h) ensures !(h[x].parents !! Removed(m, h)) {
      assert x in RewrittenIds(s, f);
      var p :| p in f[x].parents && p in Removed(s, f);
      assert p in Removed(m, h);
    }
  }

  // ---------------------------------------------------------------- the simulation

  lemma SquashSimulates<T>(s: Graph<T>, removed: set<Id>, f: Graph<T>)
    requires Simulates(s, f) && Squashable(s, removed)
    ensures Simulates(Squashed(s, removed), f)
  {
    SquashPreservesMeaning(s, removed);
  }

  lemma SameParents<T>(s: Graph<T>, f: Graph<T>, parents: Option<set<Id>>)
    requires Simulates(s, f)
    ensures AppendParents(s, parents) == AppendParents(f, parents)
  {
  }

  /** One step of any kind: the two sides accept appends alike, the squashed side takes every
      remote the unsquashed one takes, and they stay in step. */
  lemma StepSimulates<T>(s: LedgerState<T>, f: Graph<T>, op: Op<T>)
    requires Inv(s) && AntichainParents(s.causal) && Simulates(s.causal, f) && Traceable(s.causal, f)
    requires Oblivious(s.causal, f, op)
    ensures Simulates(Step(s, op).causal, FullStep(s, f, op)) && Traceable(Step(s, op).causal, FullStep(s, f, op))
    ensures op.AppendLocal? ==> (Accepted(s, op) <==> Accepted(FromCausal(f), op))
    ensures op.MergeRemote? && Accepted(FromCausal(f), op) ==> Accepted(s, op)
  {
    match op
    case AppendLocal(id, v, parents) =>
      SameParents(s.causal, f, parents);
      if Accepted(s, op) {
        AppendSimulates(s.causal, f, Revision(id, v, AppendParents(f, parents)));
        AppendKeepsTraceable(s.causal, f, Revision(id, v, AppendParents(f, parents)));
      }
    case MergeRemote(remote) =>
      if Accepted(FromCausal(f), op) { FullAcceptedIsAccepted(s.causal, f, remote); }
      if Accepted(s, op) {
        MergeSimulates(s.causal, f, remote);
        MergeKeepsTraceable(s.causal, f, remote);
      }
    case SquashPrivate =>
      var removed := Removable(s.causal, s.privateIds, s.exposed);
      if removed != {} {
        SquashSimulates(s.causal, removed, f);
        SquashKeepsTraceable(s.causal, removed, f);
      }
    case _ =>
  }

  lemma {:induction false} RunSimulates<T>(s: LedgerState<T>, f: Graph<T>, ops: seq<Op<T>>)
    requires Inv(s) && AntichainParents(s.causal) && Simulates(s.causal, f) && Traceable(s.causal, f)
    requires CapturedRun(s, ops) && ObliviousRun(s, f, ops)
    ensures Simulates(Run(s, ops).causal, FullRun(s, f, ops)) && Traceable(Run(s, ops).causal, FullRun(s, f, ops))
    decreases |ops|
  {
    if ops != [] {
      StepKeepsInv(s, ops[0]);
      StepKeepsAntichainParents(s, ops[0]);
      StepSimulates(s, f, ops[0]);
      RunSimulates(Step(s, ops[0]), FullStep(s, f, ops[0]), ops[1..]);
    }
  }

  // ---------------------------------------------------------------- the unsquashed run is a run

  /** A remote as it would be had nothing been squashed: its new revisions, and the unsquashed
      statements of everything they descend from. */
  ghost function Unfolded<T>(f: Graph<T>, remote: Graph<T>): Graph<T> {
    var h := f + NewOnly(f, remote);
    Restrict(h, ClosureOf(h, remote.Keys))
  }

  /** What the unsquashed ledger is given: the same operation, except that a remote only the
      squashed side can take comes unfolded. */
  ghost function FullOp<T>(s: LedgerState<T>, f: Graph<T>, op: Op<T>): Op<T> {
    if op.MergeRemote? && Accepted(s, op) && !Accepted(FromCausal(f), op) then MergeRemote(Unfolded(f, op.remote)) else op
  }

  ghost function FullOps<T>(s: LedgerState<T>, f: Graph<T>, ops: seq<Op<T>>): seq<Op<T>>
    decreases |ops|
  {
    if ops == [] then []
    else (if ops[0].SquashPrivate? then [] else [FullOp(s, f, ops[0])])
         + FullOps(Step(s, ops[0]), FullStep(s, f, ops[0]), ops[1..])
  }

  lemma UnfoldedMerges<T>(s: Graph<T>, f: Graph<T>, remote: Graph<T>)
    requires Simulates(s, f) && Valid(remote) && Agree(s, remote) && remote.Keys !! Removed(s, f)
    ensures var u := Unfolded(f, remote); Valid(u) && Agree(f, u) && f + u == f + NewOnly(f, remote)
  {
    var h := f + NewOnly(f, remote);
    var keys := ClosureOf(h, remote.Keys);
    MergedIsAcyclic(s, f, remote);
    NewOnlyExtends(s, f, remote);
    ClosureIsParentClosed(h, remote.Keys);
    RestrictIsValid(h, keys);
  }

  lemma FullStepIsStep<T>(s: LedgerState<T>, f: Graph<T>, u: LedgerState<T>, op: Op<T>)
    requires Simulates(s.causal, f) && Oblivious(s.causal, f, op) && u.causal == f && !op.SquashPrivate?
    ensures Step(u, FullOp(s, f, op)).causal == FullStep(s, f, op)
  {
    if op.MergeRemote? {
      NewOnlyIsUnion(f, op.remote);
      if Accepted(s, op) { UnfoldedMerges(s.causal, f, op.remote); }
    }
  }

  /** The unsquashed side is a run of the ledger itself that never squashes: it decides about
      every operation by its own rules. */
  lemma {:induction false} FullRunIsRun<T>(s: LedgerState<T>, f: Graph<T>, u: LedgerState<T>, ops: seq<Op<T>>)
    requires Inv(s) && AntichainParents(s.causal) && Simulates(s.causal, f) && Traceable(s.causal, f) && u.causal == f
    requires CapturedRun(s, ops) && ObliviousRun(s, f, ops)
    ensures Run(u, FullOps(s, f, ops)).causal == FullRun(s, f, ops)
    ensures forall op :: op in FullOps(s, f, ops) ==> !op.SquashPrivate?
    decreases |ops|
  {
    if ops != [] {
      var rest := FullOps(Step(s, ops[0]), FullStep(s, f, ops[0]), ops[1..]);
      StepKeepsInv(s, ops[0]);
      StepKeepsAntichainParents(s, ops[0]);
      StepSimulates(s, f, ops[0]);
      if ops[0].SquashPrivate? {
        assert FullOps(s, f, ops) == rest;
        FullRunIsRun(Step(s, ops[0]), f, u, ops[1..]);
      } else {
        var op := FullOp(s, f, ops[0]);
        assert FullOps(s, f, ops)[0] == op && FullOps(s, f, ops)[1..] == rest;
        FullStepIsStep(s, f, u, ops[0]);
        FullRunIsRun(Step(s, ops[0]), FullStep(s, f, ops[0]), Step(u, op), ops[1..]);
      }
    }
  }

  /** Squashing is unobservable: with captured parents, from any reachable ledger, after any
      later run the squashed ledger shows the frontier, the winner and the values of a ledger
      that went through the same history and never squashed. */
  lemma SquashingIsUnobservable<T>(s: LedgerState<T>, ops: seq<Op<T>>, w: Option<Id>)
    requires Inv(s) && AntichainParents(s.causal) && CapturedRun(s, ops) && ObliviousRun(s, s.causal, ops)
    ensures forall op :: op in FullOps(s, s.causal, ops) ==> !op.SquashPrivate?
    ensures var t := Run(s, ops).causal; var f := Run(s, FullOps(s, s.causal, ops)).causal;
            && Frontier(t) == Frontier(f)
            && (Winner(t, w) <==> Winner(f, w))
            && (forall x :: x in Frontier(f) ==> x in t && t[x].value == f[x].value)
  {
    assert Simulates(s.causal, s.causal) && Traceable(s.causal, s.causal);
    RunSimulates(s, s.causal, ops);
    FullRunIsRun(s, s.causal, s, ops);
  }

  // ---------------------------------------------------------------- exactly when, for any parents

  function WithoutSquash<T>(ops: seq<Op<T>>): seq<Op<T>> {
    if ops == [] then []
    else (if ops[0].SquashPrivate? then [] else [ops[0]]) + WithoutSquash(ops[1..])
  }

  /** What an operation does to a graph that is never squashed and is given it unchanged. */
  ghost function OwnStep<T>(f: Graph<T>, op: Op<T>): Graph<T> {
    if op.SquashPrivate? then f else Step(FromCausal(f), op).causal
  }

  ghost function OwnRun<T>(f: Graph<T>, ops: seq<Op<T>>): Graph<T>
    decreases |ops|
  {
    if ops == [] then f else OwnRun(OwnStep(f, ops[0]), ops[1..])
  }

  lemma {:induction false} OwnRunIsRun<T>(u: LedgerState<T>, ops: seq<Op<T>>)
    ensures Run(u, WithoutSquash(ops)).causal == OwnRun(u.causal, ops)
    decreases |ops|
  {
    if ops != [] {
      if ops[0].SquashPrivate? {
        assert WithoutSquash(ops) == WithoutSquash(ops[1..]);
        OwnRunIsRun(u, ops[1..]);
      } else {
        assert WithoutSquash(ops)[0] == ops[0] && WithoutSquash(ops)[1..] == WithoutSquash(ops[1..]);
        OwnRunIsRun(Step(u, ops[0]), ops[1..]);
      }
    }
  }

  /** What keeps the two sides in step: an append reuses no removed identity over held parents
      and names no removed parent for a new one; a remote both take names nothing removed, and
      a remote only one side takes brings it nothing new. */
  ghost predicate InStep<T>(s: LedgerState<T>, f: Graph<T>, op: Op<T>) {
    match op
    case AppendLocal(id, _, parents) =>
      var ps := AppendParents(f, parents);
      && !(id in Removed(s.causal, f) && ps <= s.causal.Keys)
      && !(id !in f && ps <= f.Keys && !(ps <= s.causal.Keys))
    case MergeRemote(remote) =>
      if Accepted(s, op) then
        if Accepted(FromCausal(f), op) then remote.Keys !! Removed(s.causal, f) else remote.Keys <= s.causal.Keys
      else Accepted(FromCausal(f), op) ==> remote.Keys <= f.Keys
    case _ => true
  }

  ghost predicate InStepRun<T>(s: LedgerState<T>, f: Graph<T>, ops: seq<Op<T>>)
    decreases |ops|
  {
    ops == [] || (InStep(s, f, ops[0]) && InStepRun(Step(s, ops[0]), OwnStep(f, ops[0]), ops[1..]))
  }

  /** A removed identity the squashed side takes again no longer has the survivors below it. */
  lemma RemovedDoesNotReturn<T>(s: Graph<T>, f: Graph<T>, m: Graph<T>, h: Graph<T>, x: Id)
    requires Simulates(s, f) && SubGraph(s, m) && SubGraph(f, h) && x in Removed(s, f) && x in m
    ensures !Simulates(m, h)
  {
    var d := BelowFrontier(f, x);
    assert d in s && x !in s;
    AncestryIsLocal(s, m, x, d);
    AncestryIsLocal(f, h, x, d);
    if Ancestor(m, x, d) { AncestorIsKnown(s, x, d); }
  }

  /** Something new on one side only shows. */
  lemma NewIsSeen<T>(s: Graph<T>, f: Graph<T>, h: Graph<T>, x: Id)
    requires Simulates(s, f) && Valid(h) && SubGraph(f, h) && x in h && x !in f
    ensures !Simulates(s, h)
  {
    var top := BelowFrontier(h, x);
    if top in f {
      assert top != x;
      AncestryIsLocal(f, h, x, top);
      AncestorIsKnown(f, x, top);
    }
  }

  lemma AppendInStepIff<T>(s: LedgerState<T>, f: Graph<T>, id: Id, v: T, parents: Option<set<Id>>)
    requires Inv(s) && Simulates(s.causal, f)
    ensures var op := AppendLocal(id, v, parents);
            Simulates(Step(s, op).causal, OwnStep(f, op)) <==> InStep(s, f, op)
  {
    var op := AppendLocal(id, v, parents);
    var r := Revision(id, v, AppendParents(f, parents));
    SameParents(s.causal, f, parents);
    if Accepted(s, op) && Accepted(FromCausal(f), op) {
      AppendSimulates(s.causal, f, r);
    } else if Accepted(s, op) {
      InsertIsValid(s.causal, r);
      RemovedDoesNotReturn(s.causal, f, s.causal[id := r], f, id);
    } else if Accepted(FromCausal(f), op) {
      InsertIsValid(f, r);
      NewIsSeen(s.causal, f, f[id := r], id);
    }
  }

  lemma BothTakeIff<T>(g: Graph<T>, f: Graph<T>, remote: Graph<T>)
    requires Simulates(g, f) && Valid(remote) && Agree(g, remote) && Agree(f, remote)
    ensures Simulates(g + remote, f + remote) <==> remote.Keys !! Removed(g, f)
  {
    NewOnlyIsUnion(f, remote);
    MergeSimulatesIff(g, f, remote);
  }

  lemma SquashedTakesIff<T>(g: Graph<T>, f: Graph<T>, remote: Graph<T>)
    requires Simulates(g, f) && Valid(remote) && Agree(g, remote)
    ensures Simulates(g + remote, f) <==> remote.Keys <= g.Keys
  {
    UnionIsValid(g, remote);
    if remote.Keys <= g.Keys {
      assert g + remote == g;
    } else {
      var x :| x in remote && x !in g;
      if x in f { RemovedDoesNotReturn(g, f, g + remote, f, x); }
    }
  }

  lemma FullTakesIff<T>(g: Graph<T>, f: Graph<T>, remote: Graph<T>)
    requires Simulates(g, f) && Valid(remote) && Agree(f, remote)
    ensures Simulates(g, f + remote) <==> remote.Keys <= f.Keys
  {
    UnionIsValid(f, remote);
    if remote.Keys <= f.Keys {
      assert f + remote == f;
    } else {
      var x :| x in remote && x !in f;
      NewIsSeen(g, f, f + remote, x);
    }
  }

  lemma MergeInStepIff<T>(s: LedgerState<T>, f: Graph<T>, remote: Graph<T>)
    requires Simulates(s.causal, f)
    ensures var op := MergeRemote(remote);
            Simulates(Step(s, op).causal, OwnStep(f, op)) <==> InStep(s, f, op)
  {
    hide Simulates, Valid, Agree;
    var op := MergeRemote(remote);
    if Accepted(s, op) && Accepted(FromCausal(f), op) {
      BothTakeIff(s.causal, f, remote);
    } else if Accepted(s, op) {
      SquashedTakesIff(s.causal, f, remote);
    } else if Accepted(FromCausal(f), op) {
      FullTakesIff(s.causal, f, remote);
    }
  }

  lemma StepInStepIff<T>(s: LedgerState<T>, f: Graph<T>, op: Op<T>)
    requires Inv(s) && Simulates(s.causal, f)
    ensures Simulates(Step(s, op).causal, OwnStep(f, op)) <==> InStep(s, f, op)
  {
    match op
    case AppendLocal(id, v, parents) => AppendInStepIff(s, f, id, v, parents);
    case MergeRemote(remote) => MergeInStepIff(s, f, remote);
    case SquashPrivate =>
      var removed := Removable(s.causal, s.privateIds, s.exposed);
      if removed != {} { SquashSimulates(s.causal, removed, f); }
    case _ =>
  }

  /** The run stays in step with the run without squashing, up to and including the `n`-th
      operation. */
  ghost predicate InStepUpTo<T>(s: LedgerState<T>, f: Graph<T>, ops: seq<Op<T>>, n: nat)
    requires n <= |ops|
  {
    Simulates(Run(s, ops[..n]).causal, OwnRun(f, ops[..n]))
  }

  lemma FirstOfRun<T>(s: LedgerState<T>, f: Graph<T>, ops: seq<Op<T>>, n: nat)
    requires 0 < n <= |ops|
    ensures InStepUpTo(s, f, ops, n) <==> InStepUpTo(Step(s, ops[0]), OwnStep(f, ops[0]), ops[1..], n - 1)
  {
    hide Simulates, Step, OwnStep;
    assert ops[..n][1..] == ops[1..][..n - 1];
  }

  /** Exactly when squashing stays unobservable, whatever parents were named and whatever the
      remotes hold: compared after every operation with the ledger that is given the same
      operations and never squashes, the two stay in step if and only if every operation meets
      the condition. */
  lemma {:induction false} RunInStepIff<T>(s: LedgerState<T>, f: Graph<T>, ops: seq<Op<T>>)
    requires Inv(s) && Simulates(s.causal, f)
    ensures (forall n: nat :: n <= |ops| ==> InStepUpTo(s, f, ops, n)) <==> InStepRun(s, f, ops)
    decreases |ops|
  {
    hide Simulates, Inv, InStep, Step, OwnStep;
    assert InStepUpTo(s, f, ops, 0);
    if ops != [] {
      var t, h, rest := Step(s, ops[0]), OwnStep(f, ops[0]), ops[1..];
      StepInStepIff(s, f, ops[0]);
      StepKeepsInv(s, ops[0]);
      FirstOfRun(s, f, ops, 1);
      assert InStepUpTo(t, h, rest, 0) <==> Simulates(t.causal, h);
      if Simulates(t.causal, h) {
        RunInStepIff(t, h, rest);
        forall n: nat | 0 < n <= |ops|
          ensures InStepUpTo(s, f, ops, n) <==> InStepUpTo(t, h, rest, n - 1)
        {
          FirstOfRun(s, f, ops, n);
        }
        forall n: nat | n <= |rest| ensures InStepUpTo(t, h, rest, n) <==> InStepUpTo(s, f, ops, n + 1) {
          FirstOfRun(s, f, ops, n + 1);
        }
      }
    }
  }

  /** And it can be observed: the remote of `SquashCanBlockARemote`, grown by a revision 5, is
      shown if nothing was squashed and refused otherwise, though it names nothing removed. */
  lemma SquashCanBeObserved()
    ensures var op := MergeRemote(Redundant()[5 := Revision(5, true, {2})]);
            && Oblivious(Step(Blocked(), SquashPrivate).causal, Blocked().causal, op)
            && 5 in Frontier(Run(Blocked(), [op]).causal)
            && 5 !in Frontier(Run(Blocked(), [SquashPrivate, op]).causal)
            && !InStepRun(Blocked(), Blocked().causal, [SquashPrivate, op])
  {
    hide Step, Accepted, Inv, Valid, Blocked, Redundant, Run, InStepRun, Referenced;
    var s := Blocked();
    var remote := Redundant()[5 := Revision(5, true, {2})];
    var op := MergeRemote(remote);
    BlockedIs();
    SquashCanBlockARemote();
    BlockedSquash();
    GrownIsValid(remote);
    GrownIsTaken(s, remote);
    GrownIsRefused(Step(s, SquashPrivate), remote);
    RunOneAndTwo(s, SquashPrivate, op);
  }

  lemma GrownIsValid(remote: Graph<bool>)
    requires remote == Redundant()[5 := Revision(5, true, {2})] && Valid(Redundant())
    ensures Valid(remote) && remote.Keys == {0, 1, 2, 5}
  {
    InsertIsValid(Redundant(), Revision(5, true, {2}));
  }

  lemma BlockedSquash()
    ensures var t := Step(Blocked(), SquashPrivate);
            t.causal.Keys == {0, 1, 2, 4} && Removed(t.causal, Blocked().causal) == {3}
  {
    hide Inv, Blocked, Referenced, Squashed, Valid;
    var s := Blocked();
    BlockedIs();
    RedundantIsCopy(s);
    SquashKeepsGraph(s);
    assert Removable(s.causal, s.privateIds, s.exposed) == {3};
  }

  lemma GrownIsTaken(s: LedgerState<bool>, remote: Graph<bool>)
    requires s == Blocked() && remote == Redundant()[5 := Revision(5, true, {2})] && Valid(remote)
    ensures Accepted(s, MergeRemote(remote)) && Accepted(FromCausal(s.causal), MergeRemote(remote))
    ensures 5 in Frontier(Step(s, MergeRemote(remote)).causal) && 5 !in s.causal
  {
    hide Valid, Inv, Blocked;
    BlockedIs();
  }

  lemma GrownIsRefused(t: LedgerState<bool>, remote: Graph<bool>)
    requires remote == Redundant()[5 := Revision(5, true, {2})] && Valid(Redundant())
    requires !Accepted(t, MergeRemote(Redundant()))
    ensures !Accepted(t, MergeRemote(remote)) && Step(t, MergeRemote(remote)) == t
  {
    hide Valid;
    var k :| k in t.causal && k in Redundant() && t.causal[k] != Redundant()[k];
    assert k in remote && remote[k] == Redundant()[k];
  }

  lemma RunOneAndTwo<T>(s: LedgerState<T>, first: Op<T>, second: Op<T>)
    ensures Run(s, [second]) == Step(s, second)
    ensures Run(s, [first, second]) == Step(Step(s, first), second)
    ensures InStepRun(s, s.causal, [first, second]) ==> InStep(Step(s, first), OwnStep(s.causal, first), second)
  {
    hide Step, InStep, OwnStep;
    assert [first, second][1..] == [second] && [second][1..] == [];
    assert Run(Step(Step(s, first), second), []) == Step(Step(s, first), second);
    assert Run(Step(s, second), []) == Step(s, second);
    if InStepRun(s, s.causal, [first, second]) {
      assert InStepRun(Step(s, first), OwnStep(s.causal, first), [second]);
    }
  }

  /** No operation names a removed identity and no remote holds a rewritten one. */
  ghost predicate UntouchedRun<T>(s: LedgerState<T>, f: Graph<T>, ops: seq<Op<T>>)
    decreases |ops|
  {
    ops == [] ||
    (&& Oblivious(s.causal, f, ops[0])
     && (ops[0].MergeRemote? ==> ops[0].remote.Keys !! RewrittenIds(s.causal, f))
     && UntouchedRun(Step(s, ops[0]), OwnStep(f, ops[0]), ops[1..]))
  }

  lemma UntouchedIsInStep<T>(s: LedgerState<T>, f: Graph<T>, op: Op<T>)
    requires Simulates(s.causal, f) && Oblivious(s.causal, f, op)
    requires op.MergeRemote? ==> op.remote.Keys !! RewrittenIds(s.causal, f)
    ensures InStep(s, f, op) && FullStep(s, f, op) == OwnStep(f, op)
  {
    match op
    case AppendLocal(id, v, parents) => SameParents(s.causal, f, parents);
    case MergeRemote(remote) => MergeAcceptedAlike(s, f, remote);
    case _ =>
  }

  /** Such a run is in step with the very same operations minus the squashes, whatever parents
      they name. */
  lemma {:induction false} UntouchedRunIsInStep<T>(s: LedgerState<T>, f: Graph<T>, ops: seq<Op<T>>)
    requires Inv(s) && Simulates(s.causal, f) && UntouchedRun(s, f, ops)
    ensures InStepRun(s, f, ops) && Simulates(Run(s, ops).causal, OwnRun(f, ops)) && FullRun(s, f, ops) == OwnRun(f, ops)
    decreases |ops|
  {
    if ops != [] {
      StepKeepsInv(s, ops[0]);
      UntouchedIsInStep(s, f, ops[0]);
      StepInStepIff(s, f, ops[0]);
      UntouchedRunIsInStep(Step(s, ops[0]), OwnStep(f, ops[0]), ops[1..]);
    }
  }

  lemma SquashingIsUnobservableUntouched<T>(s: LedgerState<T>, ops: seq<Op<T>>, w: Option<Id>)
    requires Inv(s) && UntouchedRun(s, s.causal, ops)
    ensures var t := Run(s, ops).causal; var f := Run(s, WithoutSquash(ops)).causal;
            && Frontier(t) == Frontier(f)
            && (Winner(t, w) <==> Winner(f, w))
            && (forall x :: x in Frontier(f) ==> x in t && t[x].value == f[x].value)
  {
    UntouchedRunIsInStep(s, s.causal, ops);
    OwnRunIsRun(s, ops);
  }

  // ---------------------------------------------------------------- why remotes name nothing removed

  /** A remote knows of this replica's history only what left it; everything else it holds
      is new here. An append takes an identity never used and names what is held. */
  ghost predicate Reported<T>(s: LedgerState<T>, f: Graph<T>, op: Op<T>) {
    match op
    case AppendLocal(id, _, parents) => id !in f && (parents.Some? ==> parents.value <= s.causal.Keys)
    case MergeRemote(remote) => remote.Keys * f.Keys <= s.exposed
    case _ => true
  }

  ghost predicate ReportedRun<T>(s: LedgerState<T>, f: Graph<T>, ops: seq<Op<T>>)
    decreases |ops|
  {
    ops == [] || (Reported(s, f, ops[0]) && ReportedRun(Step(s, ops[0]), FullStep(s, f, ops[0]), ops[1..]))
  }

  /** Handoffs included, such a run never names a removed identity: what left the replica is
      exposed for good, and nothing exposed is ever removed. */
  lemma {:induction false} ReportedRunIsOblivious<T>(s: LedgerState<T>, f: Graph<T>, ops: seq<Op<T>>)
    requires Inv(s) && ReportedRun(s, f, ops)
    ensures ObliviousRun(s, f, ops)
    decreases |ops|
  {
    if ops != [] {
      StepKeepsInv(s, ops[0]);
      ReportedRunIsOblivious(Step(s, ops[0]), FullStep(s, f, ops[0]), ops[1..]);
    }
  }
}
