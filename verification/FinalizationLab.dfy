/** The finalization ledger as the stateful object it is: each method performs exactly one
    step of the ledger's transition function. */
module FinalizationLab {
  import opened CausalGraph
  import opened CoreTypes
  import opened Squash
  import opened LedgerRuns

  class FinalizationLedger<T(==)> {
    var state: ExposureAwareCausalState<T>
    var localIds: set<Id>
    var finalized: map<Id, Revision<T>>
    var handedOffIds: set<Id>
    var signingTransitionCount: nat

    ghost function State(): LedgerState<T>
      reads this, state
    {
      LedgerState(state.causal, state.privateLocalIds, state.exposedIds,
                  localIds, finalized, handedOffIds, signingTransitionCount)
    }

    constructor (state: ExposureAwareCausalState<T>)
      ensures this.state == state
      ensures localIds == {} && finalized == map[] && handedOffIds == {} && signingTransitionCount == 0
    {
      this.state := state;
      localIds, finalized, handedOffIds, signingTransitionCount := {}, map[], {}, 0;
    }

    /** Refused exactly for an invalid register. */
    static method FromCausal(causal: ScalarRegisters.ScalarRegister<T>) returns (r: Option<FinalizationLedger<T>>)
      requires Keyed(causal.revisions)
      ensures r.Some? <==> Valid(causal.revisions)
      ensures r.Some? ==> fresh(r.value) && fresh(r.value.state)
      ensures r.Some? ==> r.value.State() == LedgerRuns.FromCausal(causal.revisions) && Inv(r.value.State())
    {
      var checked := causal.Validate();
      if checked.Err? { return None; }
      var state := new ExposureAwareCausalState(causal.revisions, {}, {});
      var ledger := new FinalizationLedger(state);
      r := Some(ledger);
    }

    method AppendLocal(id: Id, value: T, parents: Option<set<Id>>) returns (r: Option<Revision<T>>)
      requires Inv(State())
      modifies this, state
      ensures state == old(state)
      ensures State() == Step(old(State()), Op.AppendLocal(id, value, parents))
      ensures r.Some? <==> Accepted(old(State()), Op.AppendLocal(id, value, parents))
      ensures r.Some? <==> id !in old(state.causal) && (parents.Some? ==> parents.value <= old(state.causal).Keys)
      ensures r.Some? ==> r.value == Revision(id, value, if parents.Some? then parents.value else Frontier(old(state.causal)))
      ensures r.Some? ==> state.causal == old(state.causal)[id := r.value]
      ensures r.Some? ==> localIds == old(localIds) + {id} && state.privateLocalIds == old(state.privateLocalIds) + {id}
      ensures r.None? ==> State() == old(State())
      ensures finalized == old(finalized) && handedOffIds == old(handedOffIds) && state.exposedIds == old(state.exposedIds)
    {
      if id in state.causal { return None; }
      var parentSet := AppendParents(state.causal, parents);
      if !(parentSet <= state.causal.Keys) { return None; }
      var revision := Revision(id, value, parentSet);
      state.causal := state.causal[id := revision];
      localIds := localIds + {id};
      state.privateLocalIds := state.privateLocalIds + {id};
      r := Some(revision);
    }

    method MergeRemote(remote: Graph<T>) returns (ok: bool)
      requires Inv(State()) && Keyed(remote)
      modifies this, state
      ensures state == old(state)
      ensures State() == Step(old(State()), Op.MergeRemote(remote))
      ensures ok <==> Accepted(old(State()), Op.MergeRemote(remote))
      ensures ok <==> Closed(remote) && Acyclic(remote) && Agree(old(state.causal), remote)
      ensures ok ==> state.causal == old(state.causal) + remote && state.exposedIds == old(state.exposedIds) + remote.Keys
      ensures ok ==> state.privateLocalIds == old(state.privateLocalIds) - remote.Keys
      ensures !ok ==> State() == old(State())
      ensures localIds == old(localIds) && finalized == old(finalized) && handedOffIds == old(handedOffIds)
    {
      var incoming := new ScalarRegisters.ScalarRegister.FromGraph(remote);
      var checked := incoming.Validate();
      if checked.Err? { return false; }
      var known := new ScalarRegisters.ScalarRegister.FromGraph(state.causal);
      var merged := known.Merge(incoming);
      if merged.Err? { return false; }
      state.causal := merged.value.revisions;
      state.exposedIds := state.exposedIds + remote.Keys;
      state.privateLocalIds := state.privateLocalIds - remote.Keys;
      ok := true;
    }

    /** Freezing an already frozen statement returns it again and costs no transition. */
    method Finalize(id: Id) returns (r: Option<Revision<T>>)
      requires Inv(State())
      modifies this
      ensures state == old(state) && state.causal == old(state.causal)
      ensures State() == Step(old(State()), Op.Finalize(id))
      ensures r.Some? <==> Accepted(old(State()), Op.Finalize(id))
      ensures r.Some? <==> id in old(localIds)
      ensures r.Some? ==> r.value == state.causal[id] && finalized == old(finalized)[id := r.value]
      ensures signingTransitionCount == old(signingTransitionCount) + if id in old(localIds) && id !in old(finalized) then 1 else 0
      ensures r.None? ==> State() == old(State())
      ensures localIds == old(localIds) && handedOffIds == old(handedOffIds)
    {
      if id !in localIds || id !in state.causal { return None; }
      var statement := state.causal[id];
      if id in finalized {
        assert finalized[id] == statement;
        return Some(statement);
      }
      finalized := finalized[id := statement];
      signingTransitionCount := signingTransitionCount + 1;
      r := Some(statement);
    }

    method Handoff(ids: set<Id>) returns (ok: bool)
      requires Inv(State())
      modifies this, state
      ensures state == old(state)
      ensures State() == Step(old(State()), Op.Handoff(ids))
      ensures ok <==> Accepted(old(State()), Op.Handoff(ids))
      ensures ok <==> ids <= state.causal.Keys &&
                      forall a :: a in localIds && (a in ids || exists r :: r in ids && Ancestor(state.causal, a, r)) ==> a in finalized
      ensures ok ==> forall x :: x in state.exposedIds <==>
                x in old(state.exposedIds) || x in ids || exists r :: r in ids && Ancestor(state.causal, x, r)
      ensures ok ==> handedOffIds == old(handedOffIds) + (ids * localIds)
      ensures !ok ==> State() == old(State())
      ensures state.causal == old(state.causal) && localIds == old(localIds) && finalized == old(finalized)
    {
      var closure, unknown := AncestorClosure(state.causal, ids);
      assert unknown.None? <==> ids <= state.causal.Keys by {
        forall x, k | k in ids && Ancestor(state.causal, x, k) ensures x in state.causal {
          AncestorIsKnown(state.causal, x, k);
        }
      }
      if unknown.Some? || !(closure * localIds <= finalized.Keys) { return false; }
      ok := state.MarkExposed(ids);
      handedOffIds := handedOffIds + (ids * localIds);
    }

    /** Refused when a finalized statement would go or change; otherwise returns what was removed. */
    method SquashPrivate() returns (r: Option<set<Id>>)
      requires Inv(State())
      modifies this
      ensures state == old(state) || fresh(state)
      ensures State() == Step(old(State()), Op.SquashPrivate)
      ensures r.Some? <==> Accepted(old(State()), Op.SquashPrivate)
      ensures r.Some? ==> r.value == Removable(old(state.causal), old(state.privateLocalIds), old(state.exposedIds))
      ensures r.Some? ==> state.causal == SquashOutcome(old(state.causal), r.value) && SubGraph(finalized, state.causal)
      ensures r.Some? ==> localIds == old(localIds) - r.value && state.privateLocalIds == old(state.privateLocalIds) - r.value
      ensures r.None? ==> State() == old(State())
      ensures state.exposedIds == old(state.exposedIds) && finalized == old(finalized) && handedOffIds == old(handedOffIds)
    {
      hide OutsideClosed, Bookkeeping, Valid;
      FinalizedAreKnown(State());
      var candidate, removed := state.SquashUnexposedDominated();
      if removed == {} {
        assert state.privateLocalIds - removed == state.privateLocalIds;
        assert localIds - removed == localIds;
        return Some(removed);
      }
      var todo := finalized.Keys;
      while todo != {}
        invariant todo <= finalized.Keys
        invariant forall k :: k in finalized && k !in todo ==> k in candidate.causal && candidate.causal[k] == finalized[k]
      {
        var k :| k in todo;
        if k !in candidate.causal || candidate.causal[k] != finalized[k] { return None; }
        todo := todo - {k};
      }
      state := candidate;
      localIds := localIds - removed;
      r := Some(removed);
    }
  }

  lemma FinalizedAreKnown<T>(s: LedgerState<T>)
    requires Inv(s)
    ensures Valid(s.causal) && s.privateIds <= s.local <= s.causal.Keys && s.exposed <= s.causal.Keys && SubGraph(s.finalized, s.causal)
  {
  }
}
