/** One local scalar domain as a transition system: a working epoch, the causal register
    it seals into, and the ledger of local, finalized, exposed and handed-off revisions.
    The crash-recovery images are the states. */
module DomainMachine {
  import opened CausalGraph
  import opened CoreTypes

  // ---------------------------------------------------------------- state

  datatype WorkingEpoch<T> = WorkingEpoch(id: Id, value: T, observedFrontier: set<Id>)

  datatype WorkingSnapshot<T> = WorkingSnapshot(causal: Graph<T>, pending: Option<WorkingEpoch<T>>)

  datatype FinalizationSnapshot<T> = FinalizationSnapshot(
    local: set<Id>,
    finalized: map<Id, Revision<T>>,
    exposed: set<Id>,
    handedOff: set<Id>)

  datatype LocalScalarSnapshot<T> = LocalScalarSnapshot(working: WorkingSnapshot<T>, ledger: FinalizationSnapshot<T>)

  datatype Call<T> =
    | BeginEpoch(epochId: Id, value: T)
    | UpdatePending(value: T)
    | SealLocal(id: Id)
    | ObserveRemote(remote: Graph<T>, seal: Option<Id>)
    | Finalize(id: Id)
    | Handoff(ids: set<Id>)

  ghost function Fresh<T>(g: Graph<T>): LocalScalarSnapshot<T> {
    LocalScalarSnapshot(WorkingSnapshot(g, None), FinalizationSnapshot({}, map[], {}, {}))
  }

  // ---------------------------------------------------------------- refusals

  /** The refusals of graph validation: a parent that is missing, or a revision on a cycle. */
  ghost predicate ValidationError<T>(g: Graph<T>, e: CoreError) {
    match e
    case MissingParent(k, p) => k in g && p in g[k].parents && p !in g
    case CausalCycle(c) => Closed(g) && Ancestor(g, c, c)
    case _ => false
  }

  ghost function Conflicts<T>(g: Graph<T>, h: Graph<T>): set<Id> {
    set k | k in g && k in h && g[k] != h[k]
  }

  ghost predicate ConflictError<T>(g: Graph<T>, h: Graph<T>, e: CoreError) {
    e.DuplicateRevisionConflict? && IsLeast(e.revisionId, Conflicts(g, h))
  }

  ghost function Broken<T>(finalized: map<Id, Revision<T>>, g: Graph<T>): set<Id> {
    set k | k in finalized && !(k in g && g[k] == finalized[k])
  }

  /** Refusals of checking a ledger against a causal state. */
  ghost predicate AgainstError<T>(finalized: map<Id, Revision<T>>, g: Graph<T>, e: CoreError) {
    if !(Closed(g) && Acyclic(g)) then ValidationError(g, e)
    else match e
         case UnknownRevision(k) => IsLeast(k, Broken(finalized, g)) && k !in g
         case FinalizedStatementConflict(k) => IsLeast(k, Broken(finalized, g)) && k in g
         case _ => false
  }

  ghost predicate SealRefused<T>(w: WorkingSnapshot<T>, id: Id, e: CoreError) {
    if id in w.causal then e == RevisionAlreadyKnown(id)
    else w.pending.None? && e == NoWorkingEpoch
  }

  ghost predicate ObserveRefused<T>(w: WorkingSnapshot<T>, remote: Graph<T>, seal: Option<Id>, e: CoreError) {
    if !Valid(remote) then ValidationError(remote, e)
    else match seal
         case None => if w.pending.Some? then e == DirtyObservationRequiresSeal else ConflictError(w.causal, remote, e)
         case Some(id) =>
           if w.pending.None? then e == UnexpectedPreObservationRevision(id)
           else if id in w.causal then e == RevisionAlreadyKnown(id)
           else ConflictError(Sealed(w, id).causal, remote, e)
  }

  ghost predicate FinalizeRefused<T>(l: FinalizationSnapshot<T>, g: Graph<T>, id: Id, e: CoreError) {
    if id !in l.local then e == UnknownLocalRevision(id)
    else if id !in g then e == UnknownRevision(id)
    else id in l.finalized && l.finalized[id] != g[id] && e == FinalizedStatementConflict(id)
  }

  ghost predicate HandoffRefused<T>(l: FinalizationSnapshot<T>, g: Graph<T>, ids: set<Id>, e: CoreError) {
    if !(Closed(g) && Acyclic(g) && SubGraph(l.finalized, g)) then AgainstError(l.finalized, g, e)
    else if !(ids <= g.Keys) then e.UnknownRevision? && e.revisionId in ids - g.Keys
    else e.HandoffRequiresFinalizedRevision? && IsLeast(e.revisionId, ClosureOf(g, ids) * l.local - l.finalized.Keys)
  }

  /** `e` is a refusal the call may report; a call without one succeeds. */
  ghost predicate Refused<T>(s: LocalScalarSnapshot<T>, call: Call<T>, e: CoreError) {
    match call
    case BeginEpoch(_, _) => s.working.pending.Some? && e == WorkingEpochAlreadyOpen(s.working.pending.value.id)
    case UpdatePending(_) => s.working.pending.None? && e == NoWorkingEpoch
    case SealLocal(id) => SealRefused(s.working, id, e)
    case ObserveRemote(remote, seal) => ObserveRefused(s.working, remote, seal, e)
    case Finalize(id) => FinalizeRefused(s.ledger, s.working.causal, id, e)
    case Handoff(ids) => HandoffRefused(s.ledger, s.working.causal, ids, e)
  }

  // ---------------------------------------------------------------- transitions

  ghost function Sealed<T>(w: WorkingSnapshot<T>, id: Id): WorkingSnapshot<T>
    requires w.pending.Some?
  {
    WorkingSnapshot(w.causal[id := Revision(id, w.pending.value.value, w.pending.value.observedFrontier)], None)
  }

  /** The identity a call seals the pending epoch under, if it gets that far. */
  ghost function SealedId<T>(w: WorkingSnapshot<T>, call: Call<T>): Option<Id> {
    match call
    case SealLocal(id) => if id !in w.causal && w.pending.Some? then Some(id) else None
    case ObserveRemote(remote, Some(id)) =>
      if Valid(remote) && id !in w.causal && w.pending.Some? then Some(id) else None
    case _ => None
  }

  /** Whether a remote observation reaches its merge, with the register it merges into. */
  ghost function MergeTarget<T>(w: WorkingSnapshot<T>, remote: Graph<T>, seal: Option<Id>): Option<Graph<T>> {
    if !Valid(remote) || w.pending.Some? != seal.Some? then None
    else if seal.None? then Some(w.causal)
    else if seal.value in w.causal then None
    else Some(Sealed(w, seal.value).causal)
  }

  /** The working half after an observation. A conflicting merge is refused only after the
      pending epoch has been sealed, and the seal stays. */
  ghost function Observed<T>(w: WorkingSnapshot<T>, remote: Graph<T>, seal: Option<Id>): WorkingSnapshot<T> {
    var target := MergeTarget(w, remote, seal);
    if target.None? then w
    else if Agree(target.value, remote) then WorkingSnapshot(target.value + remote, None)
    else WorkingSnapshot(target.value, None)
  }

  ghost predicate ObserveMerges<T>(w: WorkingSnapshot<T>, remote: Graph<T>, seal: Option<Id>) {
    var target := MergeTarget(w, remote, seal);
    target.Some? && Agree(target.value, remote)
  }

  ghost function Froze<T>(l: FinalizationSnapshot<T>, g: Graph<T>, id: Id): FinalizationSnapshot<T> {
    if id in l.local && id in g && id !in l.finalized then l.(finalized := l.finalized[id := g[id]]) else l
  }

  ghost predicate HandsOff<T>(l: FinalizationSnapshot<T>, g: Graph<T>, ids: set<Id>) {
    && Closed(g) && Acyclic(g) && SubGraph(l.finalized, g)
    && ids <= g.Keys && ClosureOf(g, ids) * l.local <= l.finalized.Keys
  }

  ghost function HandedOff<T>(l: FinalizationSnapshot<T>, g: Graph<T>, ids: set<Id>): FinalizationSnapshot<T> {
    if HandsOff(l, g, ids)
    then l.(exposed := l.exposed + ClosureOf(g, ids) * l.local, handedOff := l.handedOff + ids * l.local)
    else l
  }

  ghost function Next<T>(s: LocalScalarSnapshot<T>, call: Call<T>): LocalScalarSnapshot<T> {
    var w, l := s.working, s.ledger;
    match call
    case BeginEpoch(id, v) =>
      if w.pending.Some? then s
      else s.(working := w.(pending := Some(WorkingEpoch(id, v, Frontier(w.causal)))))
    case UpdatePending(v) =>
      if w.pending.None? then s
      else s.(working := w.(pending := Some(w.pending.value.(value := v))))
    case SealLocal(id) =>
      if id in w.causal || w.pending.None? then s
      else LocalScalarSnapshot(Sealed(w, id), l.(local := l.local + {id}))
    case ObserveRemote(remote, seal) =>
      LocalScalarSnapshot(
        Observed(w, remote, seal),
        if seal.Some? && ObserveMerges(w, remote, seal) then l.(local := l.local + {seal.value}) else l)
    case Finalize(id) => s.(ledger := Froze(l, w.causal, id))
    case Handoff(ids) => s.(ledger := HandedOff(l, w.causal, ids))
  }

  ghost function Run<T>(s: LocalScalarSnapshot<T>, calls: seq<Call<T>>): LocalScalarSnapshot<T>
    decreases |calls|
  {
    if calls == [] then s else Run(Next(s, calls[0]), calls[1..])
  }

  // ---------------------------------------------------------------- invariant

  /** Remote events cannot enter while an epoch is open, so its captured frontier is the
      current one. */
  ghost predicate WorkingInv<T>(w: WorkingSnapshot<T>) {
    Valid(w.causal) && (w.pending.Some? ==> w.pending.value.observedFrontier == Frontier(w.causal))
  }

  ghost predicate LedgerChain<T>(l: FinalizationSnapshot<T>, g: Graph<T>) {
    && l.handedOff <= l.exposed <= l.finalized.Keys <= l.local <= g.Keys
    && SubGraph(l.finalized, g)
  }

  ghost predicate ExposureIsClosed<T>(l: FinalizationSnapshot<T>, g: Graph<T>) {
    forall e, a :: e in l.exposed && a in l.local && Ancestor(g, a, e) ==> a in l.exposed
  }

  ghost predicate Inv<T>(s: LocalScalarSnapshot<T>) {
    WorkingInv(s.working) && LedgerChain(s.ledger, s.working.causal) && ExposureIsClosed(s.ledger, s.working.causal)
  }

  lemma SealKeepsWorking<T>(w: WorkingSnapshot<T>, id: Id)
    requires WorkingInv(w) && w.pending.Some? && id !in w.causal
    ensures WorkingInv(Sealed(w, id)) && SubGraph(w.causal, Sealed(w, id).causal)
    ensures AncestorSet(Sealed(w, id).causal, id) == w.causal.Keys
    ensures Sealed(w, id).causal.Keys == w.causal.Keys + {id}
  {
    AssignObservesAll(w.causal, id, w.pending.value.value);
  }

  lemma ObserveKeepsWorking<T>(w: WorkingSnapshot<T>, remote: Graph<T>, seal: Option<Id>)
    requires WorkingInv(w)
    ensures WorkingInv(Observed(w, remote, seal)) && SubGraph(w.causal, Observed(w, remote, seal).causal)
    ensures seal.Some? && MergeTarget(w, remote, seal).Some? ==> seal.value in Observed(w, remote, seal).causal
  {
    var target := MergeTarget(w, remote, seal);
    if target.Some? {
      if seal.Some? { SealKeepsWorking(w, seal.value); }
      if Agree(target.value, remote) { UnionIsValid(target.value, remote); }
    }
  }

  lemma WorkingStep<T>(s: LocalScalarSnapshot<T>, call: Call<T>)
    requires WorkingInv(s.working)
    ensures WorkingInv(Next(s, call).working) && SubGraph(s.working.causal, Next(s, call).working.causal)
  {
    match call {
      case SealLocal(id) => if id !in s.working.causal && s.working.pending.Some? { SealKeepsWorking(s.working, id); }
      case ObserveRemote(remote, seal) => ObserveKeepsWorking(s.working, remote, seal);
      case _ =>
    }
  }

  /** A larger register and a newly owned revision outside the old register disturb nothing. */
  lemma GrowthKeepsLedger<T>(l: FinalizationSnapshot<T>, g: Graph<T>, h: Graph<T>, added: set<Id>)
    requires Closed(g) && SubGraph(g, h) && LedgerChain(l, g) && ExposureIsClosed(l, g)
    requires added <= h.Keys && added !! g.Keys
    ensures LedgerChain(l.(local := l.local + added), h) && ExposureIsClosed(l.(local := l.local + added), h)
  {
    forall e, a | e in l.exposed && a in l.local + added && Ancestor(h, a, e) ensures a in l.exposed {
      AncestryIsLocal(g, h, a, e);
      AncestorIsKnown(g, a, e);
    }
  }

  lemma HandoffKeepsLedger<T>(l: FinalizationSnapshot<T>, g: Graph<T>, ids: set<Id>)
    requires LedgerChain(l, g) && ExposureIsClosed(l, g)
    ensures LedgerChain(HandedOff(l, g, ids), g) && ExposureIsClosed(HandedOff(l, g, ids), g)
  {
    if HandsOff(l, g, ids) {
      var closure := ClosureOf(g, ids);
      forall e, a | e in closure && a in l.local && Ancestor(g, a, e) ensures a in closure {
        if e !in ids {
          var r :| r in ids && Ancestor(g, e, r);
          AncestorTrans(g, a, e, r);
        }
      }
    }
  }

  /** Every call, refused or not, keeps the chain handed-off, exposed, finalized, local,
      known, and keeps exposure closed under local ancestry. */
  lemma CallKeepsInv<T>(s: LocalScalarSnapshot<T>, call: Call<T>)
    requires Inv(s)
    ensures Inv(Next(s, call))
  {
    WorkingStep(s, call);
    var l, g := s.ledger, s.working.causal;
    match call {
      case SealLocal(id) =>
        if id !in g && s.working.pending.Some? { GrowthKeepsLedger(l, g, Next(s, call).working.causal, {id}); }
      case ObserveRemote(remote, seal) =>
        ObserveKeepsWorking(s.working, remote, seal);
        var added := if seal.Some? && ObserveMerges(s.working, remote, seal) then {seal.value} else {};
        GrowthKeepsLedger(l, g, Next(s, call).working.causal, added);
        assert l.local + {} == l.local;
      case Finalize(id) =>
      case Handoff(ids) => HandoffKeepsLedger(l, g, ids);
      case _ =>
    }
  }

  lemma {:induction false} RunKeepsInv<T>(s: LocalScalarSnapshot<T>, calls: seq<Call<T>>)
    requires Inv(s)
    ensures Inv(Run(s, calls))
    decreases |calls|
  {
    if calls != [] {
      CallKeepsInv(s, calls[0]);
      RunKeepsInv(Next(s, calls[0]), calls[1..]);
    }
  }

  /** Nothing is ever taken back: statements, ownership, frozen statements, exposure. */
  ghost predicate Extends<T>(s: LocalScalarSnapshot<T>, t: LocalScalarSnapshot<T>) {
    && SubGraph(s.working.causal, t.working.causal)
    && s.ledger.local <= t.ledger.local
    && (forall k :: k in s.ledger.finalized ==> k in t.ledger.finalized && t.ledger.finalized[k] == s.ledger.finalized[k])
    && s.ledger.exposed <= t.ledger.exposed && s.ledger.handedOff <= t.ledger.handedOff
  }

  lemma {:induction false} RunOnlyGrows<T>(s: LocalScalarSnapshot<T>, calls: seq<Call<T>>)
    requires Inv(s)
    ensures Extends(s, Run(s, calls))
    decreases |calls|
  {
    if calls != [] {
      WorkingStep(s, calls[0]);
      CallKeepsInv(s, calls[0]);
      RunOnlyGrows(Next(s, calls[0]), calls[1..]);
    }
  }

  // ---------------------------------------------------------------- refusals that cannot happen

  /** In a reachable state no call can find a frozen statement missing or rewritten, and
      handing off is refused only for an unknown or an unfrozen revision. */
  lemma FrozenStatementsNeverConflict<T>(s: LocalScalarSnapshot<T>, call: Call<T>, e: CoreError)
    requires Inv(s) && Refused(s, call, e)
    ensures !e.FinalizedStatementConflict?
    ensures call.Finalize? ==> e == UnknownLocalRevision(call.id) && call.id !in s.ledger.local
    ensures call.Handoff? ==> e.UnknownRevision? || e.HandoffRequiresFinalizedRevision?
  {
    match call {
      case ObserveRemote(remote, seal) =>
      case _ =>
    }
  }

  /** Exactly when an observation fails, and with which refusal. */
  lemma ObservationRefusedExactly<T>(s: LocalScalarSnapshot<T>, remote: Graph<T>, seal: Option<Id>, e: CoreError)
    requires Inv(s) && Refused(s, ObserveRemote(remote, seal), e)
    ensures e == DirtyObservationRequiresSeal <==> Valid(remote) && s.working.pending.Some? && seal.None?
    ensures e.UnexpectedPreObservationRevision? <==> Valid(remote) && s.working.pending.None? && seal.Some?
    ensures e.RevisionAlreadyKnown? <==> Valid(remote) && s.working.pending.Some? && seal.Some? && seal.value in s.working.causal
    ensures e.MissingParent? || e.CausalCycle? <==> !Valid(remote)
    ensures e.DuplicateRevisionConflict? ==> exists k :: k in remote && e.revisionId == k && (k in s.working.causal || seal == Some(k))
    ensures !ObserveMerges(s.working, remote, seal)
  {
  }

  /** And which of the other calls fail, and why. */
  lemma CallRefusedExactly<T>(s: LocalScalarSnapshot<T>, call: Call<T>)
    requires Inv(s) && !call.ObserveRemote?
    ensures (exists e :: Refused(s, call, e)) <==>
              match call
              case BeginEpoch(_, _) => s.working.pending.Some?
              case UpdatePending(_) => s.working.pending.None?
              case SealLocal(id) => id in s.working.causal || s.working.pending.None?
              case Finalize(id) => id !in s.ledger.local
              case Handoff(ids) =>
                !(ids <= s.working.causal.Keys) ||
                exists a :: a in s.ledger.local && a !in s.ledger.finalized && (a in ids || exists k :: k in ids && Ancestor(s.working.causal, a, k))
              case _ => true
  {
    match call {
      case BeginEpoch(_, _) => if s.working.pending.Some? { assert Refused(s, call, WorkingEpochAlreadyOpen(s.working.pending.value.id)); }
      case UpdatePending(_) => if s.working.pending.None? { assert Refused(s, call, NoWorkingEpoch); }
      case SealLocal(id) =>
        if id in s.working.causal { assert Refused(s, call, RevisionAlreadyKnown(id)); }
        else if s.working.pending.None? { assert Refused(s, call, NoWorkingEpoch); }
      case Finalize(id) => if id !in s.ledger.local { assert Refused(s, call, UnknownLocalRevision(id)); }
      case Handoff(ids) =>
        var unfrozen := ClosureOf(s.working.causal, ids) * s.ledger.local - s.ledger.finalized.Keys;
        if !(ids <= s.working.causal.Keys) {
          var k :| k in ids && k !in s.working.causal;
          assert Refused(s, call, UnknownRevision(k));
        } else if unfrozen != {} {
          LeastExists(unfrozen);
          var k :| IsLeast(k, unfrozen);
          assert Refused(s, call, HandoffRequiresFinalizedRevision(k));
        }
        if a :| a in s.ledger.local && a !in s.ledger.finalized && (a in ids || exists k :: k in ids && Ancestor(s.working.causal, a, k)) {
          assert a in s.working.causal && a in unfrozen;
        }
      case _ =>
    }
  }

  lemma AgreementHasNoConflicts<T>(g: Graph<T>, h: Graph<T>)
    ensures Agree(g, h) <==> Conflicts(g, h) == {}
  {
    if !Agree(g, h) {
      var k :| k in g && k in h && g[k] != h[k];
      assert k in Conflicts(g, h);
    }
  }

  lemma HandsOffWhenAllFrozen<T>(l: FinalizationSnapshot<T>, g: Graph<T>, ids: set<Id>)
    ensures HandsOff(l, g, ids) ==> ClosureOf(g, ids) * l.local - l.finalized.Keys == {}
  {
  }

  /** A refused call leaves the state alone, except for one case. */
  lemma RefusedCallsAreSilent<T>(s: LocalScalarSnapshot<T>, call: Call<T>, e: CoreError)
    requires Inv(s) && Refused(s, call, e)
    ensures Next(s, call) == s || (call.ObserveRemote? && call.seal.Some? && SealedId(s.working, call) == call.seal)
  {
    match call {
      case Handoff(ids) =>
        HandsOffWhenAllFrozen(s.ledger, s.working.causal, ids);
      case ObserveRemote(remote, seal) =>
        AgreementHasNoConflicts(s.working.causal, remote);
      case _ =>
    }
  }

  /** A revision sealed by a call escapes the set of local revisions exactly when the call
      is an observation whose remote contradicts the register just after the seal. */
  lemma SealEscapesExactly<T>(s: LocalScalarSnapshot<T>, call: Call<T>)
    requires Inv(s)
    ensures var id := SealedId(s.working, call);
            (id.Some? && id.value !in Next(s, call).ledger.local) <==>
            (call.ObserveRemote? && id.Some? && Conflicts(Sealed(s.working, id.value).causal, call.remote) != {})
  {
    var id := SealedId(s.working, call);
    if id.Some? && call.ObserveRemote? {
      var target := Sealed(s.working, id.value).causal;
      assert MergeTarget(s.working, call.remote, call.seal) == Some(target);
      AgreementHasNoConflicts(target, call.remote);
    }
  }

  /** That case is real: revision 1 is sealed, but never becomes local. */
  lemma SealCanEscape()
    ensures var g: Graph<bool> := map[0 := Revision(0, true, {})];
            var s := Next(Fresh(g), BeginEpoch(7, true));
            var remote := map[0 := Revision(0, false, {})];
            var t := Next(s, ObserveRemote(remote, Some(1)));
            Inv(s) && 1 in t.working.causal && 1 !in t.ledger.local
  {
    var g: Graph<bool> := map[0 := Revision(0, true, {})];
    var remote := map[0 := Revision(0, false, {})];
    assert Ranks(g, map[]) && Ranks(remote, map[]);
    RankedIsAcyclic(g, map[]);
    RankedIsAcyclic(remote, map[]);
    assert Valid(g) && Valid(remote);
    var s := Next(Fresh(g), BeginEpoch(7, true));
    CallKeepsInv(Fresh(g), BeginEpoch(7, true));
    var h := Sealed(s.working, 1).causal;
    assert 0 in h && 0 in remote && h[0] != remote[0];
    assert !Agree(h, remote);
  }

  // ---------------------------------------------------------------- restart

  ghost predicate LedgerWellFormed<T>(l: FinalizationSnapshot<T>) {
    l.exposed <= l.local && l.handedOff <= l.exposed && l.finalized.Keys <= l.local
  }

  /** What restoring an image checks. */
  ghost predicate Restorable<T>(s: LocalScalarSnapshot<T>) {
    && Closed(s.working.causal) && Acyclic(s.working.causal)
    && (s.working.pending.Some? ==> s.working.pending.value.observedFrontier == Frontier(s.working.causal))
    && LedgerWellFormed(s.ledger) && s.ledger.local <= s.working.causal.Keys
    && SubGraph(s.ledger.finalized, s.working.causal)
  }

  /** The invariant split into what restoring checks and what it does not. */
  lemma InvIsRestorable<T>(s: LocalScalarSnapshot<T>)
    requires Keyed(s.working.causal)
    ensures Inv(s) <==>
              Restorable(s) && s.ledger.exposed <= s.ledger.finalized.Keys && ExposureIsClosed(s.ledger, s.working.causal)
  {
  }

  /** Restoring does not check that exposed revisions are frozen. */
  lemma RestoreAcceptsUnfrozenExposure()
    ensures var g: Graph<bool> := map[0 := Revision(0, true, {})];
            var s := LocalScalarSnapshot(WorkingSnapshot(g, None), FinalizationSnapshot({0}, map[], {0}, {}));
            Restorable(s) && !Inv(s)
  {
    var g: Graph<bool> := map[0 := Revision(0, true, {})];
    assert Ranks(g, map[]);
    RankedIsAcyclic(g, map[]);
    assert Closed(g);
  }

  // ---------------------------------------------------------------- what an epoch observed

  /** The machine with two history variables: what was known when the open epoch began,
      and for every sealed revision what was known when its epoch began. */
  datatype Traced<T> = Traced(state: LocalScalarSnapshot<T>, began: set<Id>, sealed: map<Id, set<Id>>)

  ghost function TracedNext<T>(t: Traced<T>, call: Call<T>): Traced<T> {
    var w := t.state.working;
    var id := SealedId(w, call);
    Traced(
      Next(t.state, call),
      if call.BeginEpoch? && w.pending.None? then w.causal.Keys else t.began,
      if id.Some? then t.sealed[id.value := t.began] else t.sealed)
  }

  ghost function TracedRun<T>(t: Traced<T>, calls: seq<Call<T>>): Traced<T>
    decreases |calls|
  {
    if calls == [] then t else TracedRun(TracedNext(t, calls[0]), calls[1..])
  }

  ghost predicate TracedInv<T>(t: Traced<T>) {
    && Inv(t.state)
    && (t.state.working.pending.Some? ==> t.began == t.state.working.causal.Keys)
    && forall k :: k in t.sealed ==> k in t.state.working.causal && AncestorSet(t.state.working.causal, k) == t.sealed[k]
  }

  lemma TracedSeal<T>(t: Traced<T>, call: Call<T>, id: Id)
    requires TracedInv(t) && SealedId(t.state.working, call) == Some(id)
    ensures id in Next(t.state, call).working.causal
    ensures AncestorSet(Next(t.state, call).working.causal, id) == t.began
  {
    var w := t.state.working;
    var h := Sealed(w, id).causal;
    SealKeepsWorking(w, id);
    if call.ObserveRemote? {
      assert MergeTarget(w, call.remote, call.seal) == Some(h);
      if Agree(h, call.remote) {
        UnionIsValid(h, call.remote);
        AncestorSetIsLocal(h, h + call.remote, id);
      }
    }
  }

  lemma TracedStepKeepsInv<T>(t: Traced<T>, call: Call<T>)
    requires TracedInv(t)
    ensures TracedInv(TracedNext(t, call))
  {
    var g, h := t.state.working.causal, Next(t.state, call).working.causal;
    CallKeepsInv(t.state, call);
    WorkingStep(t.state, call);
    forall k | k in t.sealed ensures k in h && AncestorSet(h, k) == t.sealed[k] { AncestorSetIsLocal(g, h, k); }
    var id := SealedId(t.state.working, call);
    if id.Some? { TracedSeal(t, call, id.value); }
  }

  /** In every run, refused calls included, a sealed revision has as ancestors exactly the
      revisions known when its epoch began: nothing that arrived later, and nothing less. */
  lemma {:induction false} SealsObserveTheirBeginning<T>(t: Traced<T>, calls: seq<Call<T>>)
    requires TracedInv(t)
    ensures TracedInv(TracedRun(t, calls)) && TracedRun(t, calls).state == Run(t.state, calls)
    decreases |calls|
  {
    if calls != [] {
      TracedStepKeepsInv(t, calls[0]);
      SealsObserveTheirBeginning(TracedNext(t, calls[0]), calls[1..]);
    }
  }
}
