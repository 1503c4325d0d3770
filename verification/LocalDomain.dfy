/** The local scalar domain as the objects it is built from. Every method performs exactly
    one transition of the domain machine, refused calls included. */
module LocalDomain {
  import opened CausalGraph
  import opened CoreTypes
  import opened DomainMachine
  import opened ScalarRegisters

  class WorkingScalar<T(==)> {
    var causal: ScalarRegister<T>
    var pending: Option<WorkingEpoch<T>>

    ghost function State(): WorkingSnapshot<T>
      reads this, causal
    {
      WorkingSnapshot(causal.revisions, pending)
    }

    constructor (causal: ScalarRegister<T>, pending: Option<WorkingEpoch<T>>)
      ensures this.causal == causal && this.pending == pending
    {
      this.causal, this.pending := causal, pending;
    }

    static method FromCausal(causal: ScalarRegister<T>) returns (r: Result<WorkingScalar<T>, CoreError>)
      ensures r.Ok? <==> Closed(causal.revisions) && Acyclic(causal.revisions)
      ensures r.Ok? ==> fresh(r.value) && r.value.causal == causal && r.value.pending == None
      ensures r.Err? ==> ValidationError(causal.revisions, r.error)
    {
      var checked := causal.Validate();
      match checked {
        case Err(e) => r := Err(e);
        case Ok(_) =>
          var working := new WorkingScalar(causal, None);
          r := Ok(working);
      }
    }

    /** The pending value wins over the materialized one. */
    method WorkingValue() returns (r: Option<T>)
      requires WorkingInv(State())
      ensures pending.Some? ==> r == Some(pending.value.value)
      ensures pending.None? ==> (r.None? <==> causal.revisions == map[])
      ensures pending.None? && r.Some? ==>
                exists w :: Winner(causal.revisions, Some(w)) && w in causal.revisions && causal.revisions[w].value == r.value
    {
      if pending.Some? { return Some(pending.value.value); }
      var revision := causal.MaterializedRevision();
      r := if revision.Some? then Some(revision.value.value) else None;
    }

    method BeginEpoch(epochId: Id, value: T) returns (r: Result<Unit, CoreError>)
      modifies this
      ensures causal == old(causal) && causal.revisions == old(causal.revisions)
      ensures r.Err? <==> old(pending).Some?
      ensures r.Err? ==> r.error == WorkingEpochAlreadyOpen(old(pending).value.id) && pending == old(pending)
      ensures r.Ok? ==> pending == Some(WorkingEpoch(epochId, value, Frontier(causal.revisions)))
    {
      if pending.Some? { return Err(WorkingEpochAlreadyOpen(pending.value.id)); }
      var frontier := causal.FrontierIds();
      pending := Some(WorkingEpoch(epochId, value, frontier));
      r := Ok(Unit);
    }

    method UpdatePending(value: T) returns (r: Result<Unit, CoreError>)
      modifies this
      ensures causal == old(causal) && causal.revisions == old(causal.revisions)
      ensures r == if old(pending).None? then Err(NoWorkingEpoch) else Ok(Unit)
      ensures pending == if old(pending).None? then None else Some(old(pending).value.(value := value))
    {
      if pending.None? { return Err(NoWorkingEpoch); }
      pending := Some(pending.value.(value := value));
      r := Ok(Unit);
    }

    method Seal(id: Id) returns (r: Result<Revision<T>, CoreError>)
      requires WorkingInv(State())
      modifies this, causal
      ensures causal == old(causal) && WorkingInv(State())
      ensures r.Err? <==> id in old(causal.revisions) || old(pending).None?
      ensures r.Err? ==> SealRefused(old(State()), id, r.error) && State() == old(State())
      ensures r.Ok? ==> State() == Sealed(old(State()), id) && r.value == causal.revisions[id]
      ensures r.Ok? ==> r.value == Revision(id, old(pending).value.value, old(pending).value.observedFrontier) && pending == None
      ensures r.Ok? ==> causal.revisions == old(causal.revisions)[id := r.value]
      ensures r.Err? ==> r.error == if id in old(causal.revisions) then RevisionAlreadyKnown(id) else NoWorkingEpoch
    {
      if id in causal.revisions { return Err(RevisionAlreadyKnown(id)); }
      if pending.None? { return Err(NoWorkingEpoch); }
      SealKeepsWorking(State(), id);
      var revision := Revision(id, pending.value.value, pending.value.observedFrontier);
      var inserted := causal.InsertRevision(revision);
      pending := None;
      r := Ok(revision);
    }

    method ObserveRemote(remote: ScalarRegister<T>, seal: Option<Id>)
      returns (r: Result<Option<Revision<T>>, CoreError>)
      requires WorkingInv(State()) && Keyed(remote.revisions) && remote != causal
      modifies this, causal
      ensures causal == old(causal) || fresh(causal)
      ensures State() == Observed(old(State()), old(remote.revisions), seal)
      ensures r.Ok? <==> ObserveMerges(old(State()), old(remote.revisions), seal)
      ensures r.Err? ==> ObserveRefused(old(State()), old(remote.revisions), seal, r.error)
      ensures r.Ok? ==> r.value.Some? == seal.Some?
      ensures r.Ok? && seal.Some? ==> r.value.value == Sealed(old(State()), seal.value).causal[seal.value]
    {
      var checked := remote.Validate();
      match checked {
        case Err(e) => return Err(e);
        case Ok(_) =>
      }
      var sealed: Option<Revision<T>> := None;
      if pending.Some? && seal.Some? {
        var attempt := Seal(seal.value);
        match attempt {
          case Err(e) => return Err(e);
          case Ok(revision) => sealed := Some(revision);
        }
      } else if pending.Some? {
        return Err(DirtyObservationRequiresSeal);
      } else if seal.Some? {
        return Err(UnexpectedPreObservationRevision(seal.value));
      }
      var merged := causal.Merge(remote);
      match merged {
        case Err(e) => r := Err(e);
        case Ok(register) =>
          causal := register;
          r := Ok(sealed);
      }
    }

    static method Restore(causal: ScalarRegister<T>, pending: Option<WorkingEpoch<T>>)
      returns (r: Result<WorkingScalar<T>, CoreError>)
      ensures r.Ok? <==> Closed(causal.revisions) && Acyclic(causal.revisions) &&
                         (pending.Some? ==> pending.value.observedFrontier == Frontier(causal.revisions))
      ensures r.Ok? ==> fresh(r.value) && r.value.causal == causal && r.value.pending == pending
      ensures r.Err? ==> if Closed(causal.revisions) && Acyclic(causal.revisions) then r.error == InvalidWorkingSnapshot
                         else ValidationError(causal.revisions, r.error)
    {
      var checked := causal.Validate();
      match checked {
        case Err(e) => return Err(e);
        case Ok(_) =>
      }
      if pending.Some? {
        var frontier := causal.FrontierIds();
        if pending.value.observedFrontier != frontier { return Err(InvalidWorkingSnapshot); }
      }
      var working := new WorkingScalar(causal, pending);
      r := Ok(working);
    }
  }

  class FinalizationLedger<T(==)> {
    var localRevisionIds: set<Id>
    var finalized: map<Id, Revision<T>>
    var exposedLocalIds: set<Id>
    var handedOffLocalIds: set<Id>

    ghost function State(): FinalizationSnapshot<T>
      reads this
    {
      FinalizationSnapshot(localRevisionIds, finalized, exposedLocalIds, handedOffLocalIds)
    }

    constructor ()
      ensures State() == FinalizationSnapshot({}, map[], {}, {})
    {
      localRevisionIds, finalized, exposedLocalIds, handedOffLocalIds := {}, map[], {}, {};
    }

    constructor FromSnapshot(image: FinalizationSnapshot<T>)
      ensures State() == image
    {
      localRevisionIds, finalized := image.local, image.finalized;
      exposedLocalIds, handedOffLocalIds := image.exposed, image.handedOff;
    }

    method RegisterLocal(causal: ScalarRegister<T>, id: Id) returns (r: Result<Unit, CoreError>)
      modifies this
      ensures r == if id in causal.revisions then Ok(Unit) else Err(UnknownRevision(id))
      ensures State() == if id in causal.revisions then old(State()).(local := old(State()).local + {id}) else old(State())
    {
      if id !in causal.revisions { return Err(UnknownRevision(id)); }
      localRevisionIds := localRevisionIds + {id};
      r := Ok(Unit);
    }

    method Finalize(causal: ScalarRegister<T>, id: Id) returns (r: Result<Revision<T>, CoreError>)
      modifies this
      ensures State() == Froze(old(State()), causal.revisions, id)
      ensures r.Ok? ==> id in causal.revisions && id in finalized && r.value == finalized[id] == causal.revisions[id]
      ensures r.Err? ==> FinalizeRefused(old(State()), causal.revisions, id, r.error)
      ensures r.Ok? ==> id in localRevisionIds && finalized == old(finalized)[id := r.value]
      ensures r.Err? ==> r.error == if id !in localRevisionIds then UnknownLocalRevision(id)
                                    else if id !in causal.revisions then UnknownRevision(id) else FinalizedStatementConflict(id)
      ensures r.Err? ==> finalized == old(finalized)
      ensures localRevisionIds == old(localRevisionIds) && exposedLocalIds == old(exposedLocalIds) && handedOffLocalIds == old(handedOffLocalIds)
    {
      if id !in localRevisionIds { return Err(UnknownLocalRevision(id)); }
      if id !in causal.revisions { return Err(UnknownRevision(id)); }
      var statement := causal.revisions[id];
      if id in finalized {
        if finalized[id] != statement { return Err(FinalizedStatementConflict(id)); }
        return Ok(finalized[id]);
      }
      finalized := finalized[id := statement];
      r := Ok(statement);
    }

    method ValidateAgainst(causal: ScalarRegister<T>) returns (r: Result<Unit, CoreError>)
      ensures r.Ok? <==> Closed(causal.revisions) && Acyclic(causal.revisions) && SubGraph(finalized, causal.revisions)
      ensures r.Err? ==> AgainstError(finalized, causal.revisions, r.error)
      ensures r.Err? && r.error.UnknownRevision? ==>
                r.error.revisionId in finalized && r.error.revisionId !in causal.revisions
      ensures r.Err? && r.error.FinalizedStatementConflict? ==>
                var k := r.error.revisionId; k in finalized && k in causal.revisions && causal.revisions[k] != finalized[k]
      ensures r.Err? && (r.error.UnknownRevision? || r.error.FinalizedStatementConflict?) ==>
                forall k :: k in finalized && k < r.error.revisionId ==> k in causal.revisions && causal.revisions[k] == finalized[k]
    {
      var checked := causal.Validate();
      match checked {
        case Err(e) => return Err(e);
        case Ok(_) =>
      }
      var todo := finalized.Keys;
      while todo != {}
        invariant todo <= finalized.Keys
        invariant forall k :: k in finalized && k !in todo ==> k in causal.revisions && causal.revisions[k] == finalized[k]
      {
        var k := Least(todo);
        if k !in causal.revisions || causal.revisions[k] != finalized[k] {
          assert IsLeast(k, Broken(finalized, causal.revisions));
          return Err(if k !in causal.revisions then UnknownRevision(k) else FinalizedStatementConflict(k));
        }
        todo := todo - {k};
      }
      r := Ok(Unit);
    }

    method Handoff(causal: ScalarRegister<T>, ids: set<Id>) returns (r: Result<Unit, CoreError>)
      modifies this
      ensures State() == HandedOff(old(State()), causal.revisions, ids)
      ensures r.Ok? <==> HandsOff(old(State()), causal.revisions, ids)
      ensures r.Err? ==> HandoffRefused(old(State()), causal.revisions, ids, r.error)
      ensures r.Ok? ==> ids <= causal.revisions.Keys
      ensures r.Ok? ==> forall a :: a in localRevisionIds && (a in ids || exists k :: k in ids && Ancestor(causal.revisions, a, k)) ==> a in finalized
      ensures r.Ok? ==> forall a :: a in exposedLocalIds <==>
                a in old(exposedLocalIds) || (a in localRevisionIds && (a in ids || exists k :: k in ids && Ancestor(causal.revisions, a, k)))
      ensures r.Ok? ==> handedOffLocalIds == old(handedOffLocalIds) + (ids * localRevisionIds)
      ensures r.Err? ==> State() == old(State())
      ensures r.Err? && r.error.HandoffRequiresFinalizedRevision? ==>
                var a := r.error.revisionId;
                a in localRevisionIds && a !in finalized && (a in ids || exists k :: k in ids && Ancestor(causal.revisions, a, k))
      ensures !(Closed(causal.revisions) && Acyclic(causal.revisions) && SubGraph(finalized, causal.revisions)) ==> r.Err?
      ensures r.Err? && Valid(causal.revisions) && SubGraph(finalized, causal.revisions) ==>
                if ids <= causal.revisions.Keys then r.error.HandoffRequiresFinalizedRevision?
                else r.error.UnknownRevision? && r.error.revisionId in ids && r.error.revisionId !in causal.revisions
      ensures localRevisionIds == old(localRevisionIds) && finalized == old(finalized)
    {
      var checked := ValidateAgainst(causal);
      match checked {
        case Err(e) => return Err(e);
        case Ok(_) =>
      }
      var closure, unknown := AncestorClosure(causal.revisions, ids);
      ClosureStaysKnown(causal.revisions, ids);
      match unknown {
        case Some(k) => return Err(UnknownRevision(k));
        case None =>
      }
      var unfrozen := closure * localRevisionIds - finalized.Keys;
      if unfrozen != {} {
        var k := Least(unfrozen);
        return Err(HandoffRequiresFinalizedRevision(k));
      }
      assert closure * localRevisionIds <= finalized.Keys by {
        forall k | k in closure * localRevisionIds ensures k in finalized { assert k !in unfrozen; }
      }
      exposedLocalIds := exposedLocalIds + closure * localRevisionIds;
      handedOffLocalIds := handedOffLocalIds + ids * localRevisionIds;
      r := Ok(Unit);
    }

    static method Restore(image: FinalizationSnapshot<T>, causal: ScalarRegister<T>)
      returns (r: Result<FinalizationLedger<T>, CoreError>)
      ensures r.Ok? <==> Closed(causal.revisions) && Acyclic(causal.revisions) && LedgerWellFormed(image) &&
                         image.local <= causal.revisions.Keys && SubGraph(image.finalized, causal.revisions)
      ensures r.Ok? ==> fresh(r.value) && r.value.State() == image
      ensures r.Err? ==> match r.error
                         case InvalidFinalizationSnapshot => !LedgerWellFormed(image)
                         case UnknownRevision(k) => IsLeast(k, image.local - causal.revisions.Keys)
                         case e => AgainstError(image.finalized, causal.revisions, e)
    {
      if !(image.exposed <= image.local) || !(image.handedOff <= image.exposed) || !(image.finalized.Keys <= image.local) {
        return Err(InvalidFinalizationSnapshot);
      }
      var unknown := image.local - causal.revisions.Keys;
      if unknown != {} {
        var k := Least(unknown);
        return Err(UnknownRevision(k));
      }
      var ledger := new FinalizationLedger.FromSnapshot(image);
      assert image.local <= causal.revisions.Keys by {
        forall k | k in image.local ensures k in causal.revisions { assert k !in unknown; }
      }
      var checked := ledger.ValidateAgainst(causal);
      match checked {
        case Err(e) => r := Err(e);
        case Ok(_) => r := Ok(ledger);
      }
    }
  }

  /** In a closed graph a worklist over ancestors meets an unknown identity only among its roots. */
  lemma ClosureStaysKnown<T>(g: Graph<T>, ids: set<Id>)
    requires Closed(g)
    ensures forall x, r :: r in ids && Ancestor(g, x, r) ==> x in g
  {
    forall x, r | r in ids && Ancestor(g, x, r) ensures x in g { AncestorIsKnown(g, x, r); }
  }

  class LocalScalarDomain<T(==)> {
    const working: WorkingScalar<T>
    const finalization: FinalizationLedger<T>

    ghost function State(): LocalScalarSnapshot<T>
      reads this, working, working.causal, finalization
    {
      LocalScalarSnapshot(working.State(), finalization.State())
    }

    constructor (working: WorkingScalar<T>, finalization: FinalizationLedger<T>)
      ensures this.working == working && this.finalization == finalization
    {
      this.working, this.finalization := working, finalization;
    }

    static method FromCausal(causal: ScalarRegister<T>) returns (r: Result<LocalScalarDomain<T>, CoreError>)
      requires Keyed(causal.revisions)
      ensures r.Ok? <==> Valid(causal.revisions)
      ensures r.Ok? ==> fresh(r.value) && r.value.State() == Fresh(causal.revisions) && Inv(r.value.State())
      ensures r.Err? ==> ValidationError(causal.revisions, r.error)
    {
      var working := WorkingScalar.FromCausal(causal);
      match working {
        case Err(e) => r := Err(e);
        case Ok(w) =>
          var ledger := new FinalizationLedger();
          var domain := new LocalScalarDomain(w, ledger);
          r := Ok(domain);
      }
    }

    method BeginEpoch(epochId: Id, value: T) returns (r: Result<Unit, CoreError>)
      requires Inv(State())
      modifies working
      ensures working.causal == old(working.causal)
      ensures State() == Next(old(State()), Call.BeginEpoch(epochId, value)) && Inv(State())
      ensures r.Err? ==> Refused(old(State()), Call.BeginEpoch(epochId, value), r.error)
      ensures r.Ok? ==> forall e :: !Refused(old(State()), Call.BeginEpoch(epochId, value), e)
    {
      CallKeepsInv(State(), Call.BeginEpoch(epochId, value));
      r := working.BeginEpoch(epochId, value);
    }

    method UpdatePending(value: T) returns (r: Result<Unit, CoreError>)
      requires Inv(State())
      modifies working
      ensures working.causal == old(working.causal)
      ensures State() == Next(old(State()), Call.UpdatePending(value)) && Inv(State())
      ensures r.Err? ==> Refused(old(State()), Call.UpdatePending(value), r.error)
      ensures r.Ok? ==> forall e :: !Refused(old(State()), Call.UpdatePending(value), e)
    {
      CallKeepsInv(State(), Call.UpdatePending(value));
      r := working.UpdatePending(value);
    }

    method SealLocal(id: Id) returns (r: Result<Revision<T>, CoreError>)
      requires Inv(State())
      modifies working, working.causal, finalization
      ensures working.causal == old(working.causal)
      ensures State() == Next(old(State()), Call.SealLocal(id)) && Inv(State())
      ensures r.Err? ==> Refused(old(State()), Call.SealLocal(id), r.error)
      ensures r.Ok? ==> SealedId(old(State()).working, Call.SealLocal(id)) == Some(id) && r.value == working.causal.revisions[id]
    {
      CallKeepsInv(State(), Call.SealLocal(id));
      var sealed := working.Seal(id);
      match sealed {
        case Err(e) => return Err(e);
        case Ok(revision) =>
          var registered := finalization.RegisterLocal(working.causal, id);
          r := Ok(revision);
      }
    }

    method ObserveRemote(remote: ScalarRegister<T>, seal: Option<Id>)
      returns (r: Result<Option<Revision<T>>, CoreError>)
      requires Inv(State()) && Keyed(remote.revisions) && remote != working.causal
      modifies working, working.causal, finalization
      ensures working.causal == old(working.causal) || fresh(working.causal)
      ensures State() == Next(old(State()), Call.ObserveRemote(old(remote.revisions), seal)) && Inv(State())
      ensures r.Err? ==> Refused(old(State()), Call.ObserveRemote(old(remote.revisions), seal), r.error)
      ensures r.Ok? <==> ObserveMerges(old(State()).working, old(remote.revisions), seal)
      ensures r.Ok? ==> r.value.Some? == seal.Some? && (seal.Some? ==> working.causal.revisions[seal.value] == r.value.value)
    {
      ghost var before, seen := State(), remote.revisions;
      CallKeepsInv(before, Call.ObserveRemote(seen, seal));
      ObserveKeepsWorking(before.working, seen, seal);
      var sealed := working.ObserveRemote(remote, seal);
      match sealed {
        case Err(e) => return Err(e);
        case Ok(None) => r := Ok(None);
        case Ok(Some(revision)) =>
          var registered := finalization.RegisterLocal(working.causal, revision.id);
          r := Ok(Some(revision));
      }
    }

    method Finalize(id: Id) returns (r: Result<Revision<T>, CoreError>)
      requires Inv(State())
      modifies finalization
      ensures State() == Next(old(State()), Call.Finalize(id)) && Inv(State())
      ensures r.Err? ==> r.error == UnknownLocalRevision(id) && id !in old(State()).ledger.local
      ensures r.Ok? ==> id in finalization.finalized && finalization.finalized[id] == r.value
    {
      CallKeepsInv(State(), Call.Finalize(id));
      r := finalization.Finalize(working.causal, id);
    }

    method Handoff(ids: set<Id>) returns (r: Result<Unit, CoreError>)
      requires Inv(State())
      modifies finalization
      ensures State() == Next(old(State()), Call.Handoff(ids)) && Inv(State())
      ensures r.Ok? <==> HandsOff(old(State()).ledger, old(State()).working.causal, ids)
      ensures r.Err? ==> Refused(old(State()), Call.Handoff(ids), r.error)
    {
      CallKeepsInv(State(), Call.Handoff(ids));
      r := finalization.Handoff(working.causal, ids);
    }

    /** The crash-recovery image is the whole state. */
    method Snapshot() returns (image: LocalScalarSnapshot<T>)
      ensures image == State()
    {
      image := LocalScalarSnapshot(
        WorkingSnapshot(working.causal.revisions, working.pending),
        FinalizationSnapshot(finalization.localRevisionIds, finalization.finalized,
                             finalization.exposedLocalIds, finalization.handedOffLocalIds));
    }

    /** Brings back exactly the imaged state, and refuses exactly the images that fail a check. */
    static method Restore(image: LocalScalarSnapshot<T>) returns (r: Result<LocalScalarDomain<T>, CoreError>)
      ensures r.Ok? <==> Restorable(image)
      ensures r.Ok? ==> fresh(r.value) && fresh(r.value.working) && fresh(r.value.working.causal) && fresh(r.value.finalization)
      ensures r.Ok? ==> r.value.State() == image
    {
      var causal := new ScalarRegister.FromGraph(image.working.causal);
      var working := WorkingScalar.Restore(causal, image.working.pending);
      match working {
        case Err(e) => return Err(e);
        case Ok(w) =>
          var ledger := FinalizationLedger.Restore(image.ledger, causal);
          match ledger {
            case Err(e) => return Err(e);
            case Ok(l) =>
              var domain := new LocalScalarDomain(w, l);
              r := Ok(domain);
          }
      }
    }
  }

  /** A crash and restart at any point of any run resumes in the very same state. */
  method CrashAndRestart<T(==)>(domain: LocalScalarDomain<T>) returns (restored: LocalScalarDomain<T>)
    requires Inv(domain.State())
    ensures fresh(restored) && restored.State() == domain.State()
  {
    var image := domain.Snapshot();
    InvIsRestorable(image);
    var r := LocalScalarDomain.Restore(image);
    restored := r.value;
  }
}
