/** The recovery session of one replica: preparing and staging publications, catching up,
    resuming the outbox and the bounded cycle. Every method, however it ends, has done
    nothing but a run of protocol events. */
module RecoverySession {
  import opened CausalGraph
  import opened CoreTypes
  import opened DomainMachine
  import opened DomainReachability
  import opened LocalDomain
  import opened RangeAssembly
  import opened RecoveryProtocol
  import opened ScalarRegisters
  import opened SyncPorts

  // ---------------------------------------------------------------- the recovery container

  method RestoreDomain(image: LocalScalarSnapshot<Value>) returns (domain: LocalScalarDomain<Value>)
    requires Inv(image)
    ensures fresh(domain) && fresh(domain.working) && fresh(domain.working.causal) && fresh(domain.finalization)
    ensures domain.State() == image
  {
    InvIsRestorable(image);
    var restored := LocalScalarDomain.Restore(image);
    domain := restored.value;
  }

  /** A known domain with an identity for it was sealed before it observed anything. */
  ghost predicate SealReport(r: RecoveryState, d: DomainKey, pre: map<DomainKey, Id>, image: LocalScalarSnapshot<Value>,
                             sealed: Option<Revision<Value>>)
  {
    if d in r && d in pre
    then pre[d] in image.working.causal && sealed == Some(image.working.causal[pre[d]])
    else sealed == None
  }

  /** One domain crosses its observation boundary. */
  method ObserveDomain(r: RecoveryState, d: DomainKey, remote: Graph<Value>, pre: map<DomainKey, Id>)
    returns (image: Option<LocalScalarSnapshot<Value>>, sealed: Option<Revision<Value>>)
    requires RecoveryOk(r) && Valid(remote)
    ensures image == ObservedDomain(r, d, remote, pre)
    ensures image.Some? ==> SealReport(r, d, pre, image.value, sealed)
  {
    hide Valid, LedgerChain, ExposureIsClosed;
    image, sealed := None, None;
    var incoming := new ScalarRegister.FromGraph(remote);
    if d in r {
      assert Inv(r[d]);
      var local := RestoreDomain(r[d]);
      var seal := if d in pre then Some(pre[d]) else None;
      assert Keyed(remote) by { ValidIsKeyed(remote); }
      var observed := local.ObserveRemote(incoming, seal);
      match observed {
        case Err(_) => return;
        case Ok(s) =>
          sealed := s;
          var after := local.Snapshot();
          image := Some(after);
      }
    } else {
      assert Keyed(remote) && Valid(remote) by { ValidIsKeyed(remote); }
      var created := LocalScalarDomain.FromCausal(incoming);
      match created {
        case Err(_) => return;
        case Ok(local) =>
          var after := local.Snapshot();
          image := Some(after);
      }
    }
  }

  lemma ValidIsKeyed<T>(g: Graph<T>)
    requires Valid(g)
    ensures Keyed(g) && Valid(g)
  {
  }

  /** The domains `done` of `seen` have been observed on top of `r`. */
  ghost predicate PartObserved(r: RecoveryState, seen: Projection, pre: map<DomainKey, Id>, t: RecoveryState, done: set<DomainKey>) {
    && done <= seen.Keys && t.Keys == r.Keys + done
    && (forall d :: d in r && d !in done ==> t[d] == r[d])
    && (forall d :: d in done ==> ObservedDomain(r, d, seen[d], pre) == Some(t[d]))
  }

  lemma PartObservedStep(r: RecoveryState, seen: Projection, pre: map<DomainKey, Id>, t: RecoveryState, done: set<DomainKey>,
                         d: DomainKey, image: LocalScalarSnapshot<Value>)
    requires PartObserved(r, seen, pre, t, done) && d in seen && d !in done
    requires ObservedDomain(r, d, seen[d], pre) == Some(image)
    ensures PartObserved(r, seen, pre, t[d := image], done + {d})
  {
    hide ObservedDomain;
  }

  lemma PartObservedEnds(r: RecoveryState, seen: Projection, pre: map<DomainKey, Id>, t: RecoveryState)
    ensures PartObserved(r, seen, pre, r, {})
    ensures PartObserved(r, seen, pre, t, seen.Keys) ==> ObservedAll(r, seen, pre, t)
  {
    hide ObservedDomain;
  }

  lemma ObservationFails(r: RecoveryState, seen: Projection, pre: map<DomainKey, Id>, d: DomainKey)
    requires d in seen && ObservedDomain(r, d, seen[d], pre) == None
    ensures forall t :: !ObservedAll(r, seen, pre, t)
  {
    hide ObservedDomain;
  }

  function SealOf(sealed: map<DomainKey, Revision<Value>>, d: DomainKey): Option<Revision<Value>> {
    if d in sealed then Some(sealed[d]) else None
  }

  /** Exactly the known domains with an identity were sealed, under their own statements. */
  ghost predicate SealedReport(r: RecoveryState, seen: Projection, pre: map<DomainKey, Id>, t: RecoveryState,
                               sealed: map<DomainKey, Revision<Value>>)
  {
    && sealed.Keys <= seen.Keys
    && forall d :: d in seen ==> d in t && SealReport(r, d, pre, t[d], SealOf(sealed, d))
  }

  /** Observes every domain of `seen`, each with its own pre-observation identity. */
  method ObserveAllDomains(r: RecoveryState, seen: Projection, pre: map<DomainKey, Id>)
    returns (candidate: Option<RecoveryState>, observed: map<DomainKey, set<Id>>, sealed: map<DomainKey, Revision<Value>>)
    requires RecoveryOk(r) && ValidRegisters(seen)
    ensures candidate.Some? ==> ObservedAll(r, seen, pre, candidate.value)
    ensures candidate.None? ==> forall t :: !ObservedAll(r, seen, pre, t)
    ensures candidate.Some? ==> observed.Keys == seen.Keys && forall d :: d in seen ==> observed[d] == seen[d].Keys
    ensures candidate.Some? ==> SealedReport(r, seen, pre, candidate.value, sealed)
  {
    hide RecoveryOk, ObservedDomain, Valid, PartObserved, ObservedAll, SealReport;
    var t := r;
    PartObservedEnds(r, seen, pre, t);
    observed, sealed := map[], map[];
    var todo := seen.Keys;
    assert seen.Keys - todo == {};
    while todo != {}
      invariant todo <= seen.Keys && PartObserved(r, seen, pre, t, seen.Keys - todo)
      invariant observed.Keys == seen.Keys - todo && forall d :: d in observed ==> observed[d] == seen[d].Keys
      invariant sealed.Keys <= seen.Keys - todo
      invariant forall d :: d in seen && d !in todo ==> d in t && SealReport(r, d, pre, t[d], SealOf(sealed, d))
    {
      var d :| d in todo;
      assert Valid(seen[d]);
      var image, s := ObserveDomain(r, d, seen[d], pre);
      if image.None? {
        ObservationFails(r, seen, pre, d);
        candidate := None;
        return;
      }
      PartObservedStep(r, seen, pre, t, seen.Keys - todo, d, image.value);
      assert seen.Keys - (todo - {d}) == seen.Keys - todo + {d};
      t := t[d := image.value];
      observed := observed[d := seen[d].Keys];
      if s.Some? { sealed := sealed[d := s.value]; }
      todo := todo - {d};
    }
    assert seen.Keys - todo == seen.Keys;
    PartObservedEnds(r, seen, pre, t);
    candidate := Some(t);
  }

  // ---------------------------------------------------------------- pending publications

  datatype PendingDecodeError = EmptyObjectSet | PendingWire | PublicationIdMismatch | PendingAssembly(error: AssemblyError)
                              | IncompleteMultipartPublication | MultipleCompletedPublications

  lemma SinglePartAbsorbs(o: WireObject)
    requires Opens(o) && o.index == 0 && o.total == 1
    ensures Absorb(EmptyAssembly(), o) == Some(Assembly(map[], {o.clear}, {o}))
  {
    AbsorbAlone(map[], o);
    var parts := PartsWith(map[], o);
    assert parts == map[0 := o.clear];
    assert parts.Keys == {0} && |parts| == |parts.Keys|;
    assert parts.Values == {o.clear} by { assert parts[0] in parts.Values; }
    UnionOfOne(o.clear);
    var empty: map<Id, Pending> := map[];
    assert empty - {o.publicationId} == empty;
  }

  lemma UnionOfOne(p: Projection)
    requires ValidRegisters(p)
    ensures UnionOf({p}) == Some(p)
  {
    assert IsUnion(p, {p});
    UnionOfIs(p, {p});
  }

  lemma SingleRange(objects: seq<WireObject>)
    requires |objects| == 1 && Opens(objects[0]) && objects[0].index == 0 && objects[0].total == 1
    ensures RangeOutcome(objects) == Some(objects[0].clear)
    ensures AbsorbAll(EmptyAssembly(), objects) == Some(Assembly(map[], {objects[0].clear}, {objects[0]}))
  {
    SinglePartAbsorbs(objects[0]);
    UnionOfOne(objects[0].clear);
    var a := Assembly(map[], {objects[0].clear}, {objects[0]});
    assert AbsorbAll(a, objects[1..]) == Some(a);
  }

  /** The `k`-th object is the first to complete a publication. */
  ghost predicate FirstCompletes(objects: seq<WireObject>, k: nat) {
    && 0 < k <= |objects|
    && AbsorbAll(EmptyAssembly(), objects[..k - 1]).Some? && AbsorbAll(EmptyAssembly(), objects[..k - 1]).value.completed == {}
    && AbsorbAll(EmptyAssembly(), objects[..k]).Some? && AbsorbAll(EmptyAssembly(), objects[..k]).value.completed != {}
  }

  /** Nothing is pending after the first `k` objects, and the next ones up to `i` repeat them. */
  ghost predicate ClosedSince(objects: seq<WireObject>, k: nat, i: nat)
    requires k <= i <= |objects|
  {
    && AbsorbAll(EmptyAssembly(), objects[..k]).Some? && AbsorbAll(EmptyAssembly(), objects[..k]).value.inbox == map[]
    && forall o :: o in objects[k..i] ==> o in objects[..k]
  }

  /** All objects belong to the publication `id`, the `k`-th is the first to complete it, and
      all later ones repeat earlier ones. */
  ghost predicate CompletesAt(objects: seq<WireObject>, id: Id, k: nat) {
    && (forall o :: o in objects ==> o.Part? && o.publicationId == id)
    && FirstCompletes(objects, k) && ClosedSince(objects, k, |objects|)
  }

  lemma {:induction false} CompletedGrows(a: Assembly, objects: seq<WireObject>)
    ensures AbsorbAll(a, objects).Some? ==> a.completed <= AbsorbAll(a, objects).value.completed
    ensures AbsorbAll(a, objects).Some? ==> AbsorbAll(a, objects).value.seen == a.seen + set o | o in objects
    decreases |objects|
  {
    if objects != [] && Absorb(a, objects[0]).Some? {
      assert objects == [objects[0]] + objects[1..];
      CompletedGrows(Absorb(a, objects[0]).value, objects[1..]);
    }
  }

  lemma {:induction false} RepeatsChangeNothing(a: Assembly, objects: seq<WireObject>)
    requires forall o :: o in objects ==> o in a.seen
    ensures AbsorbAll(a, objects) == Some(a)
    decreases |objects|
  {
    if objects != [] { RepeatsChangeNothing(a, objects[1..]); }
  }

  /** What is assembled after `i` objects of a sequence that completes at `k`. */
  lemma CompletingPrefix(objects: seq<WireObject>, id: Id, k: nat, i: nat)
    requires i <= |objects| && CompletesAt(objects, id, k)
    ensures AbsorbAll(EmptyAssembly(), objects[..i]).Some?
    ensures i < k ==> AbsorbAll(EmptyAssembly(), objects[..i]).value.completed == {}
    ensures i >= k ==> AbsorbAll(EmptyAssembly(), objects[..i]) == AbsorbAll(EmptyAssembly(), objects[..k])
    ensures AbsorbAll(EmptyAssembly(), objects[..k]).value.seen == set o | o in objects[..k]
  {
    hide Absorb;
    CompletedGrows(EmptyAssembly(), objects[..k]);
    if i < k {
      assert objects[..k - 1] == objects[..i] + objects[i..k - 1];
      AbsorbAllSplit(EmptyAssembly(), objects[..i], objects[i..k - 1]);
      CompletedGrows(AbsorbAll(EmptyAssembly(), objects[..i]).value, objects[i..k - 1]);
    } else {
      assert objects[..i] == objects[..k] + objects[k..i];
      AbsorbAllSplit(EmptyAssembly(), objects[..k], objects[k..i]);
      assert forall o :: o in objects[k..i] ==> o in objects[k..|objects|];
      RepeatsChangeNothing(AbsorbAll(EmptyAssembly(), objects[..k]).value, objects[k..i]);
    }
  }

  /** What a decoding pass finds after `i` objects, if the sequence completes at `k`. */
  ghost predicate Foreseen(objects: seq<WireObject>, k: nat, i: nat)
    requires i <= |objects|
  {
    && AbsorbAll(EmptyAssembly(), objects[..i]).Some?
    && var a := AbsorbAll(EmptyAssembly(), objects[..i]).value;
       if i < k then a.completed == {} else a.completed != {} && a.inbox == map[] && forall o :: o in objects ==> o in a.seen
  }

  lemma CompletingIsForeseen(objects: seq<WireObject>, id: Id, k: nat, i: nat)
    requires i <= |objects| && CompletesAt(objects, id, k)
    ensures Foreseen(objects, k, i)
  {
    hide Absorb, AbsorbAll;
    CompletingPrefix(objects, id, k, i);
    assert objects == objects[..k] + objects[k..|objects|];
  }

  lemma CompletingPrefixes(objects: seq<WireObject>, id: Id, i: nat)
    requires i <= |objects|
    ensures forall k: nat :: CompletesAt(objects, id, k) ==> Foreseen(objects, k, i)
  {
    hide CompletesAt, Foreseen;
    forall k: nat | CompletesAt(objects, id, k) ensures Foreseen(objects, k, i) { CompletingIsForeseen(objects, id, k, i); }
  }

  /** Something was completed, and nothing was opened since unless `reopened`. */
  ghost predicate CompletedBefore(objects: seq<WireObject>, i: nat, reopened: bool)
    requires i <= |objects|
  {
    exists k: nat :: k <= i && FirstCompletes(objects, k) && (reopened || ClosedSince(objects, k, i))
  }

  lemma CompletedNow(objects: seq<WireObject>, i: nat, reopened: bool)
    requires i < |objects| && AbsorbAll(EmptyAssembly(), objects[..i]).Some? && AbsorbAll(EmptyAssembly(), objects[..i + 1]).Some?
    requires AbsorbAll(EmptyAssembly(), objects[..i]).value.completed == {}
    requires AbsorbAll(EmptyAssembly(), objects[..i + 1]).value.completed != {}
    requires !reopened ==> AbsorbAll(EmptyAssembly(), objects[..i + 1]).value.inbox == map[]
    ensures CompletedBefore(objects, i + 1, reopened)
  {
    assert FirstCompletes(objects, i + 1);
  }

  lemma CompletedStays(objects: seq<WireObject>, i: nat, reopened: bool, still: bool)
    requires i < |objects| && CompletedBefore(objects, i, reopened)
    requires still || (!reopened && objects[i] in objects[..i])
    ensures CompletedBefore(objects, i + 1, still)
  {
    hide AbsorbAll, FirstCompletes;
    var k: nat :| k <= i && FirstCompletes(objects, k) && (reopened || ClosedSince(objects, k, i));
    assert objects[k..i + 1] == objects[k..i] + [objects[i]];
    assert objects[..i] == objects[..k] + objects[k..i];
  }

  lemma CompletedAll(objects: seq<WireObject>, id: Id)
    requires CompletedBefore(objects, |objects|, false) && forall o :: o in objects ==> o.Part? && o.publicationId == id
    ensures exists k: nat :: CompletesAt(objects, id, k)
  {
    hide AbsorbAll, FirstCompletes, ClosedSince;
    var k: nat :| k <= |objects| && FirstCompletes(objects, k) && ClosedSince(objects, k, |objects|);
    assert CompletesAt(objects, id, k);
  }

  /** An outbox entry must hold exactly one complete publication of its own identity. */
  method DecodePendingRecoveryPublication(expectedId: Id, objects: seq<WireObject>)
    returns (r: Result<Projection, PendingDecodeError>)
    ensures r.Ok? <==> exists k: nat :: CompletesAt(objects, expectedId, k)
    ensures r.Ok? ==> RangeOutcome(objects) == Some(r.value)
    ensures |objects| == 1 && Opens(objects[0]) && objects[0].publicationId == expectedId && objects[0].index == 0 && objects[0].total == 1 ==>
              r == Ok(objects[0].clear)
  {
    hide Absorb, AbsorbAll, InboxOk, ValidRegisters, Opens, CompletedBefore, CompletesAt;
    ghost var single := |objects| == 1 && Opens(objects[0]) && objects[0].Part? && objects[0].publicationId == expectedId && objects[0].index == 0 && objects[0].total == 1;
    ghost var E := EmptyAssembly();
    CompletingIsOwn(objects, expectedId);
    if objects == [] { return Err(EmptyObjectSet); }
    if Opens(objects[0]) { OpensIsPart(objects[0]); }
    if single { SingleRange(objects); }
    var inbox := new MultipartInbox();
    var completed: Option<Projection> := None;
    var seen: set<WireObject> := {};
    var i := 0;
    StartsEmpty();
    while i < |objects|
      invariant 0 <= i <= |objects|
      invariant AbsorbAll(E, objects[..i]) == Some(Assembly(inbox.pending, if completed.Some? then {completed.value} else {}, seen))
      invariant InboxOk(inbox.pending) && inbox.pending.Keys <= {expectedId}
      invariant completed.Some? ==> ValidRegisters(completed.value) && CompletedBefore(objects, i, inbox.pending != map[])
      invariant forall j :: 0 <= j < i ==> objects[j].Part? && objects[j].publicationId == expectedId
      invariant seen == set o | o in objects[..i]
      invariant i == 0 ==> completed.None?
    {
      var o := objects[i];
      ghost var before := Assembly(inbox.pending, if completed.Some? then {completed.value} else {}, seen);
      assert objects[..i + 1] == objects[..i] + [o];
      AbsorbAllSplit(E, objects[..i], [o]);
      AbsorbAllOne(before, o);
      CompletingPrefixes(objects, expectedId, i);
      CompletingPrefixes(objects, expectedId, i + 1);
      if o in seen {
        SeenIsSkipped(before, o);
        if completed.Some? { CompletedStays(objects, i, inbox.pending != map[], inbox.pending != map[]); }
      } else {
        AbsorbShape(before, o);
        OpenedOrDone(inbox.pending, o);
        seen := seen + {o};
        if o.Unreadable? { return Err(PendingWire); }
        if o.publicationId != expectedId { return Err(PublicationIdMismatch); }
        assert single ==> objects[..i + 1] == objects;
        var result := inbox.Ingest(o);
        match result {
          case Err(e) => return Err(PendingAssembly(e));
          case Ok(None) =>
            assert before.completed + {} == before.completed;
            if completed.Some? { CompletedStays(objects, i, before.inbox != map[], true); }
          case Ok(Some(p)) =>
            if completed.Some? { return Err(MultipleCompletedPublications); }
            assert before.completed + {p} == {p};
            completed := Some(p);
            CompletedNow(objects, i, inbox.pending != map[]);
        }
      }
      i := i + 1;
    }
    assert objects[..i] == objects;
    CompletingPrefixes(objects, expectedId, i);
    CompletingIsNotLate(objects, expectedId);
    if inbox.pending != map[] || completed.None? { return Err(IncompleteMultipartPublication); }
    CompletedAll(objects, expectedId);
    UnionOfOne(completed.value);
    r := Ok(completed.value);
  }

  lemma CompletingIsOwn(objects: seq<WireObject>, id: Id)
    ensures forall k: nat :: CompletesAt(objects, id, k) ==> objects != [] && forall o :: o in objects ==> o.Part? && o.publicationId == id
  {
  }

  lemma CompletingIsNotLate(objects: seq<WireObject>, id: Id)
    ensures forall k: nat :: CompletesAt(objects, id, k) ==> k <= |objects|
  {
  }

  /** After one more part a publication is pending, or it was completed and left. */
  lemma OpenedOrDone(inbox: map<Id, Pending>, o: WireObject)
    ensures var b := Absorb(Assembly(inbox, {}, {}), o);
            b.Some? && o.Part? ==>
              (b.value.completed == {} ==> b.value.inbox.Keys == inbox.Keys + {o.publicationId}) &&
              (b.value.completed != {} ==> b.value.inbox.Keys == inbox.Keys - {o.publicationId})
  {
    hide UnionOf;
    AbsorbAlone(inbox, o);
  }

  lemma OpensIsPart(o: WireObject)
    requires Opens(o)
    ensures o.Part?
  {
  }

  // ---------------------------------------------------------------- preparing and staging

  datatype PreparedHandoff = PreparedHandoff(selected: map<DomainKey, set<Id>>, id: Id, objects: seq<WireObject>)

  datatype PrepareError = EmptySelection | EmptyRevisionSet(domain: DomainKey) | MissingDomain(domain: DomainKey) | Ineligible(domain: DomainKey)

  datatype StageError = StageMissingDomain(domain: DomainKey) | StageIneligible(domain: DomainKey) | Sync(error: PersistTransitionError)

  ghost predicate IsPrepared(r: RecoveryState, p: PreparedHandoff, carried: Projection, nonce: nat) {
    && p.objects == [Part(p.id, 0, 1, carried, nonce)]
    && p.selected != map[] && (forall d :: d in p.selected ==> p.selected[d] != {})
    && CarriesClosures(r, p.selected, carried)
  }

  /** The bytes of a handoff fit a state: if the handoff is possible there, they carry exactly
      its closures. Where it is not, staging refuses. */
  ghost predicate Fits(r: RecoveryState, p: PreparedHandoff, carried: Projection, nonce: nat) {
    && p.objects == [Part(p.id, 0, 1, carried, nonce)]
    && p.selected != map[] && (forall d :: d in p.selected ==> p.selected[d] != {})
    && (MayHandOff(r, p.selected) ==> CarriesClosures(r, p.selected, carried))
  }

  /** `t` is `r` after some calls on each of its domains, and perhaps new domains. */
  ghost predicate DomainsRan(r: RecoveryState, t: RecoveryState) {
    forall d :: d in r ==> d in t && exists calls :: DomainMachine.Run(r[d], calls) == t[d]
  }

  lemma DomainsRanSelf(r: RecoveryState)
    ensures DomainsRan(r, r)
  {
    forall d | d in r ensures exists calls :: DomainMachine.Run(r[d], calls) == r[d] {
      assert DomainMachine.Run(r[d], []) == r[d];
    }
  }

  lemma DomainsRanTrans(r: RecoveryState, t: RecoveryState, u: RecoveryState)
    requires DomainsRan(r, t) && DomainsRan(t, u)
    ensures DomainsRan(r, u)
  {
    forall d | d in r ensures d in u && exists calls :: DomainMachine.Run(r[d], calls) == u[d] {
      var front :| DomainMachine.Run(r[d], front) == t[d];
      var back :| DomainMachine.Run(t[d], back) == u[d];
      RunAppend(r[d], front, back);
      assert DomainMachine.Run(r[d], front + back) == u[d];
    }
  }

  /** At most one call on each domain, and perhaps new domains. */
  ghost predicate DomainsStepped(r: RecoveryState, t: RecoveryState) {
    forall d :: d in r ==> d in t && (t[d] == r[d] || exists call :: t[d] == Next(r[d], call))
  }

  lemma SteppedRan(r: RecoveryState, t: RecoveryState)
    requires DomainsStepped(r, t)
    ensures DomainsRan(r, t)
  {
    hide Next;
    forall d | d in r ensures d in t && exists calls :: DomainMachine.Run(r[d], calls) == t[d] {
      if t[d] == r[d] {
        assert DomainMachine.Run(r[d], []) == t[d];
      } else {
        var call :| t[d] == Next(r[d], call);
        RunOne(r[d], call);
        assert DomainMachine.Run(r[d], [call]) == t[d];
      }
    }
  }

  lemma EventStepsDomains(s: System, e: Event)
    requires Enabled(s, e) && !e.Crash?
    ensures DomainsStepped(s.recovery, Apply(s, e).recovery)
  {
    hide RangeOutcome, CarriesClosures, MayHandOff, Mentions, Next;
    if e.CatchUp? && Received(s.recovery, Flatten(s.log[e.since..e.upTo]), e.preObservation, e.candidate) {
      ReceivedSteps(s.recovery, Flatten(s.log[e.since..e.upTo]), e.preObservation, e.candidate);
    }
    if e.Stage? { HandedOffSteps(s.recovery, e.selected); }
    if e.LocalCall? { assert Apply(s, e).recovery[e.domain] == Next(s.recovery[e.domain], e.call); }
  }

  lemma HandedOffSteps(r: RecoveryState, selected: map<DomainKey, set<Id>>)
    ensures DomainsStepped(r, HandedOffState(r, selected))
  {
    hide Next;
    forall d | d in r && d in selected ensures exists call :: HandedOffState(r, selected)[d] == Next(r[d], call) {
      assert HandedOffState(r, selected)[d] == Next(r[d], Call.Handoff(selected[d]));
    }
  }

  lemma ReceivedSteps(r: RecoveryState, objects: seq<WireObject>, pre: map<DomainKey, Id>, t: RecoveryState)
    requires Received(r, objects, pre, t)
    ensures DomainsStepped(r, t)
  {
    hide Next, RangeOutcome;
    if objects != [] {
      var seen := RangeOutcome(objects).value;
      forall d | d in r && d in seen ensures exists call :: t[d] == Next(r[d], call) {
        var call := ObserveRemote(seen[d], if d in pre then Some(pre[d]) else None);
        assert t[d] == Next(r[d], call);
      }
    }
  }

  /** Every run of the session without a crash, with failed writes and whatever other replicas
      commit meanwhile, only runs the domains on. */
  lemma {:induction false} SessionRunsDomains(s: System, events: seq<Event>)
    requires forall e :: e in events ==> !e.Crash?
    ensures DomainsRan(s.recovery, RecoveryProtocol.Run(s, events).recovery)
    decreases |events|
  {
    hide DomainsRan, Enabled, Apply;
    if events == [] {
      DomainsRanSelf(s.recovery);
    } else {
      var t := Step(s, events[0]);
      if Enabled(s, events[0]) {
        EventStepsDomains(s, events[0]);
        SteppedRan(s.recovery, t.recovery);
      } else {
        DomainsRanSelf(s.recovery);
      }
      SessionRunsDomains(t, events[1..]);
      DomainsRanTrans(s.recovery, t.recovery, RecoveryProtocol.Run(s, events).recovery);
    }
  }

  /** So a handoff prepared in a session can be staged later in it, until the next crash. */
  lemma PreparedUntilCrash(s: System, events: seq<Event>, p: PreparedHandoff, carried: Projection, nonce: nat)
    requires RecoveryOk(s.recovery) && IsPrepared(s.recovery, p, carried, nonce) && MayHandOff(s.recovery, p.selected)
    requires forall e :: e in events ==> !e.Crash?
    ensures var t := RecoveryProtocol.Run(s, events).recovery;
            IsPrepared(t, p, carried, nonce) && MayHandOff(t, p.selected) && Fits(t, p, carried, nonce)
  {
    SessionRunsDomains(s, events);
    PreparedStaysPrepared(s.recovery, RecoveryProtocol.Run(s, events).recovery, p, carried, nonce);
  }

  /** What was prepared in one state stays prepared, and possible, however its domains went on
      meanwhile. */
  lemma PreparedStaysPrepared(r: RecoveryState, t: RecoveryState, p: PreparedHandoff, carried: Projection, nonce: nat)
    requires RecoveryOk(r) && IsPrepared(r, p, carried, nonce) && MayHandOff(r, p.selected) && DomainsRan(r, t)
    ensures IsPrepared(t, p, carried, nonce) && MayHandOff(t, p.selected) && Fits(t, p, carried, nonce)
  {
    hide HandsOff, Inv;
    forall d | d in p.selected
      ensures d in t && IsClosureOf(carried[d], t[d].working.causal, p.selected[d])
      ensures HandsOff(t[d].ledger, t[d].working.causal, p.selected[d])
    {
      assert d in r && Inv(r[d]) && IsClosureOf(carried[d], r[d].working.causal, p.selected[d]);
      var calls :| DomainMachine.Run(r[d], calls) == t[d];
      RunKeepsHandoff(r[d], calls, p.selected[d]);
    }
  }

  /** A handoff on a throwaway copy decides eligibility; only the exact closure is carried. */
  method PrepareDomain(image: LocalScalarSnapshot<Value>, ids: set<Id>) returns (part: Option<Graph<Value>>)
    requires Inv(image)
    ensures part.Some? <==> HandsOff(image.ledger, image.working.causal, ids)
    ensures part.Some? ==> IsClosureOf(part.value, image.working.causal, ids)
    ensures part.Some? ==> forall k :: k in part.value <==> k in ids || exists r :: r in ids && Ancestor(image.working.causal, k, r)
    ensures part.Some? ==> forall k :: k in part.value ==> part.value[k] == image.working.causal[k]
  {
    hide ExposureIsClosed;
    var g := image.working.causal;
    var eligibility := RestoreDomain(image);
    var handed := eligibility.Handoff(ids);
    if handed.Err? { return None; }
    ClosureStaysKnown(g, ids);
    var closure, unknown := AncestorClosure(g, ids);
    var revisions: Graph<Value> := map[];
    var todo := closure;
    while todo != {}
      invariant todo <= closure && revisions.Keys == closure - todo && SubGraph(revisions, g)
    {
      var k := Least(todo);
      revisions := revisions[k := g[k]];
      todo := todo - {k};
    }
    assert IsClosureOf(revisions, g, ids);
    ClosurePartIsValid(revisions, g, ids);
    var register := new ScalarRegister.FromGraph(revisions);
    var checked := register.Validate();
    part := Some(register.revisions);
  }

  /** One protected single-part publication of the selected closures of several domains. */
  method PrepareRecoveryHandoff(recovery: RecoveryState, id: Id, nonce: nat, selected: map<DomainKey, set<Id>>)
    returns (r: Result<PreparedHandoff, PrepareError>, ghost carried: Projection)
    requires RecoveryOk(recovery)
    ensures r.Ok? <==> MayHandOff(recovery, selected)
    ensures r.Ok? ==> r.value.id == id && r.value.selected == selected && IsPrepared(recovery, r.value, carried, nonce)
    ensures r.Ok? <==> selected != map[] && forall d :: d in selected ==>
              selected[d] != {} && d in recovery && HandsOff(recovery[d].ledger, recovery[d].working.causal, selected[d])
    ensures r.Err? ==> match r.error
                       case EmptySelection => selected == map[]
                       case EmptyRevisionSet(d) => d in selected && selected[d] == {}
                       case MissingDomain(d) => d in selected && d !in recovery
                       case Ineligible(d) =>
                         d in selected && d in recovery && !HandsOff(recovery[d].ledger, recovery[d].working.causal, selected[d])
  {
    hide HandsOff, IsClosureOf, Inv;
    carried := map[];
    if selected == map[] { return Err(EmptySelection), carried; }
    var projected: Projection := map[];
    var todo := selected.Keys;
    while todo != {}
      invariant todo <= selected.Keys && projected.Keys == selected.Keys - todo
      invariant forall d :: d in projected ==> selected[d] != {} && d in recovery && IsClosureOf(projected[d], recovery[d].working.causal, selected[d])
      invariant forall d :: d in projected ==> HandsOff(recovery[d].ledger, recovery[d].working.causal, selected[d])
    {
      var d :| d in todo;
      if selected[d] == {} { return Err(EmptyRevisionSet(d)), carried; }
      if d !in recovery { return Err(MissingDomain(d)), carried; }
      var part := PrepareDomain(recovery[d], selected[d]);
      if part.None? { return Err(Ineligible(d)), carried; }
      projected := projected[d := part.value];
      todo := todo - {d};
    }
    carried := projected;
    r := Ok(PreparedHandoff(selected, id, [Part(id, 0, 1, projected, nonce)]));
  }

  method HandOffDomain(image: LocalScalarSnapshot<Value>, ids: set<Id>)
    returns (after: Option<LocalScalarSnapshot<Value>>)
    requires Inv(image)
    ensures after.Some? <==> HandsOff(image.ledger, image.working.causal, ids)
    ensures after.Some? ==> after.value == Next(image, Call.Handoff(ids))
  {
    hide ExposureIsClosed, HandsOff, LedgerChain;
    var domain := RestoreDomain(image);
    var handed := domain.Handoff(ids);
    if handed.Err? { return None; }
    var s := domain.Snapshot();
    after := Some(s);
  }

  ghost predicate PartHandedOff(r: RecoveryState, selected: map<DomainKey, set<Id>>, t: RecoveryState, done: set<DomainKey>) {
    && t.Keys == r.Keys && done <= r.Keys
    && forall d :: d in r ==> t[d] == if d in done && d in selected then Next(r[d], Call.Handoff(selected[d])) else r[d]
  }

  lemma PartHandedOffStep(r: RecoveryState, selected: map<DomainKey, set<Id>>, t: RecoveryState, done: set<DomainKey>,
                          d: DomainKey, image: LocalScalarSnapshot<Value>)
    requires PartHandedOff(r, selected, t, done) && d in selected && d in r && d !in done
    requires image == Next(r[d], Call.Handoff(selected[d]))
    ensures PartHandedOff(r, selected, t[d := image], done + {d})
  {
    hide Next;
  }

  lemma PartHandedOffAll(r: RecoveryState, selected: map<DomainKey, set<Id>>, t: RecoveryState)
    requires PartHandedOff(r, selected, t, selected.Keys)
    ensures t == HandedOffState(r, selected)
  {
    hide Next;
  }

  /** Applies every handoff on a copy of the container. */
  method ApplyHandoffs(recovery: RecoveryState, selected: map<DomainKey, set<Id>>)
    returns (r: Result<RecoveryState, StageError>)
    requires RecoveryOk(recovery)
    ensures r.Ok? <==> forall d :: d in selected ==> d in recovery && HandsOff(recovery[d].ledger, recovery[d].working.causal, selected[d])
    ensures r.Ok? ==> r.value == HandedOffState(recovery, selected)
    ensures r.Err? ==> match r.error
                       case StageMissingDomain(d) => d in selected && d !in recovery
                       case StageIneligible(d) =>
                         d in selected && d in recovery && !HandsOff(recovery[d].ledger, recovery[d].working.causal, selected[d])
                       case _ => false
  {
    hide HandsOff, Inv, Next, HandedOffState, PartHandedOff;
    var candidate := recovery;
    var todo := selected.Keys;
    PartHandedOffStart(recovery, selected);
    assert selected.Keys - todo == {};
    while todo != {}
      invariant todo <= selected.Keys && PartHandedOff(recovery, selected, candidate, selected.Keys - todo)
      invariant forall d :: d in selected && d !in todo ==> d in recovery && HandsOff(recovery[d].ledger, recovery[d].working.causal, selected[d])
    {
      var d :| d in todo;
      if d !in recovery { return Err(StageMissingDomain(d)); }
      var after := HandOffDomain(recovery[d], selected[d]);
      if after.None? { return Err(StageIneligible(d)); }
      PartHandedOffStep(recovery, selected, candidate, selected.Keys - todo, d, after.value);
      assert selected.Keys - (todo - {d}) == selected.Keys - todo + {d};
      candidate := candidate[d := after.value];
      todo := todo - {d};
    }
    assert selected.Keys - todo == selected.Keys;
    PartHandedOffAll(recovery, selected, candidate);
    r := Ok(candidate);
  }

  lemma PartHandedOffStart(r: RecoveryState, selected: map<DomainKey, set<Id>>)
    ensures PartHandedOff(r, selected, r, {})
  {
  }

  // ---------------------------------------------------------------- event bookkeeping

  /** Commits of other replicas are protocol events. */
  lemma {:induction false} ArrivalsReach(s: System, after: seq<Commit>, reserved: set<Id>)
    requires SystemInv(s) && Arrived(s.log, after, reserved) && s.staged.Keys <= reserved
    ensures SystemInv(s.(log := after)) && Reaches(s, s.(log := after))
    decreases |after| - |s.log|
  {
    hide SystemInv, FreshHead, Reaches;
    var n := |s.log|;
    if n == |after| {
      assert s.log == after;
      ReachesSelf(s);
    } else {
      var e := OthersCommit(after[n]);
      assert after[..n] == s.log;
      assert Enabled(s, e) by {
        forall id | id in s.staged ensures !Mentions(after[n], id) { assert !MentionsAny(after[n], reserved); }
      }
      ReachesStep(s, e);
      var t := s.(log := s.log + [after[n]]);
      assert t.log == after[..n + 1];
      ArrivalsReach(t, after, reserved);
      ReachesTrans(s, t, s.(log := after));
    }
  }

  lemma ArrivedKeepsPositions(before: seq<Commit>, after: seq<Commit>, reserved: set<Id>, cursor: Option<Id>, n: nat)
    requires Arrived(before, after, reserved) && IsAt(before, cursor, n)
    ensures IsAt(after, cursor, n)
  {
    if n > 0 { assert after[..|before|][n - 1] == after[n - 1]; }
  }

  /** How a write that reported `ok` ended, given what is durable now. */
  function OutcomeOf(ok: bool, keptOld: bool): WriteOutcome {
    if ok then Written else if keptOld then FailedKeepingOld else FailedLeavingNew
  }

  // ---------------------------------------------------------------- reports

  datatype CatchUpOutcome =
    | UpToDate(head: Option<Id>)
    | Applied(newHead: Id, objectCount: nat, observed: map<DomainKey, set<Id>>, sealedLocal: map<DomainKey, Revision<Value>>)
    | CursorAdvancedWithoutSemanticObjects(newHead: Id)
    | BaselineUnavailable(head: Option<Id>)

  datatype CatchUpError = Io | Range(error: AssemblyError) | Observation | CommitFailed

  datatype ResumeAction =
    | Nothing
    | BlockedByBaseline
    | NeedsRebase(ids: set<Id>)
    | PublishedAndReconciled(ids: set<Id>, newHead: Id)
    | Conflict(ids: set<Id>, currentHead: Option<Id>)

  predicate Publishes(action: ResumeAction) {
    action.PublishedAndReconciled? || action.Conflict?
  }

  datatype ResumeReport = ResumeReport(catchUp: CatchUpOutcome, observedReconciled: set<Id>, action: ResumeAction)

  datatype ResumeError =
    | CatchUpFailed(reason: CatchUpError)
    | PendingDecode(id: Id, decode: PendingDecodeError)
    | PublishFailed(publish: BatchPublishError)
    | ReconcileFailed(commit: BatchCommitError)

  datatype CycleReport = CycleReport(initial: ResumeReport, postConflict: Option<ResumeReport>)

  // ---------------------------------------------------------------- what an answer must lead to

  ghost predicate CanReceive(r: RecoveryState, objects: seq<WireObject>, pre: map<DomainKey, Id>) {
    exists t :: Received(r, objects, pre, t)
  }

  ghost predicate Writes(fetched: Result<FetchOutcome, TransportError>, r: RecoveryState, pre: map<DomainKey, Id>) {
    fetched.Ok? && fetched.value.Changed? && CanReceive(r, fetched.value.objects, pre)
  }

  ghost predicate AppliedReport(outcome: CatchUpOutcome, head: Id, objects: seq<WireObject>, pre: map<DomainKey, Id>,
                                before: RecoveryState, after: RecoveryState)
  {
    && outcome.Applied? && outcome.newHead == head && outcome.objectCount == |objects|
    && RangeOutcome(objects).Some?
    && var seen := RangeOutcome(objects).value;
       && outcome.observed.Keys == seen.Keys && (forall d :: d in seen ==> outcome.observed[d] == seen[d].Keys)
       && SealedReport(before, seen, pre, after, outcome.sealedLocal)
  }

  /** What a catch-up reports and does, given the answer to its fetch and whether its one write
      succeeded: nothing is left to choose. */
  ghost predicate CaughtUp(r: Result<CatchUpOutcome, CatchUpError>, fetched: Result<FetchOutcome, TransportError>, written: bool,
                           pre: map<DomainKey, Id>, before: RecoveryState, after: RecoveryState)
  {
    match fetched
    case Err(_) => r == Err(Io) && after == before
    case Ok(UpToDate(head)) => r == Ok(CatchUpOutcome.UpToDate(head)) && after == before
    case Ok(BaselineUnavailable(head)) => r == Ok(CatchUpOutcome.BaselineUnavailable(head)) && after == before
    case Ok(Changed(head, objects)) =>
      if !CanReceive(before, objects, pre) then
        after == before && r.Err? && if RangeOutcome(objects).None? then r.error.Range? else r.error == Observation
      else if !written then r == Err(CommitFailed) && after == before
      else
        && Received(before, objects, pre, after)
        && if objects == [] then r == Ok(CursorAdvancedWithoutSemanticObjects(head))
           else r.Ok? && AppliedReport(r.value, head, objects, pre, before, after)
  }

  lemma CanReceiveIs(r: RecoveryState, objects: seq<WireObject>, pre: map<DomainKey, Id>)
    ensures CanReceive(r, objects, pre) <==> exists t :: Received(r, objects, pre, t)
  {
  }

  lemma CaughtWithoutRange(fetched: Result<FetchOutcome, TransportError>, written: bool, pre: map<DomainKey, Id>, r: RecoveryState)
    ensures fetched.Err? ==> CaughtUp(Err(Io), fetched, written, pre, r, r)
    ensures fetched.Ok? && fetched.value.UpToDate? ==>
              CaughtUp(Ok(CatchUpOutcome.UpToDate(fetched.value.head)), fetched, written, pre, r, r)
    ensures fetched.Ok? && fetched.value.BaselineUnavailable? ==>
              CaughtUp(Ok(CatchUpOutcome.BaselineUnavailable(fetched.value.currentHead)), fetched, written, pre, r, r)
  {
    hide CanReceive, Received, RangeOutcome, AppliedReport;
  }

  lemma CaughtRefused(e: CatchUpError, head: Id, objects: seq<WireObject>, written: bool, pre: map<DomainKey, Id>, r: RecoveryState)
    requires !CanReceive(r, objects, pre)
    requires if RangeOutcome(objects).None? then e.Range? else e == Observation
    ensures CaughtUp(Err(e), Ok(FetchOutcome.Changed(head, objects)), written, pre, r, r)
  {
    hide CanReceive, Received, RangeOutcome, AppliedReport;
  }

  lemma CaughtReceived(image: ReceivedImage, head: Id, objects: seq<WireObject>, ok: bool, pre: map<DomainKey, Id>, r: RecoveryState,
                       seen: Projection)
    requires CanReceive(r, objects, pre) && Received(r, objects, pre, image.candidate)
    requires objects != [] ==> RangeOutcome(objects) == Some(seen) && image.observed.Keys == seen.Keys
    requires objects != [] ==> forall d :: d in seen ==> image.observed[d] == seen[d].Keys
    requires objects != [] ==> SealedReport(r, seen, pre, image.candidate, image.sealedLocal)
    ensures var fetched := Ok(FetchOutcome.Changed(head, objects));
            && (!ok ==> CaughtUp(Err(CommitFailed), fetched, ok, pre, r, r))
            && (ok && objects == [] ==> CaughtUp(Ok(CursorAdvancedWithoutSemanticObjects(head)), fetched, ok, pre, r, image.candidate))
            && (ok && objects != [] ==>
                  CaughtUp(Ok(Applied(head, |objects|, image.observed, image.sealedLocal)), fetched, ok, pre, r, image.candidate))
  {
    hide CanReceive, Received, RangeOutcome, SealedReport;
  }

  /** Publications whose expected cursor is no longer the applied one. */
  ghost function Stale(entries: map<Id, OutboxEntry>, cursor: Option<Id>): set<Id> {
    set id | id in entries && entries[id].expected != cursor
  }

  /** The stale publications all of whose revision identities the fetched range showed. */
  ghost function Retirable(entries: map<Id, OutboxEntry>, cursor: Option<Id>, fetched: Result<FetchOutcome, TransportError>): set<Id> {
    if fetched.Ok? && fetched.value.Changed? && fetched.value.objects != [] && RangeOutcome(fetched.value.objects).Some?
    then set id | id in Stale(entries, cursor) && IdsObserved(ClearOf(entries[id]), RangeOutcome(fetched.value.objects).value)
    else {}
  }

  /** Where a pass whose fetch was answered leaves the cursor before it publishes. */
  function CursorAfter(cursor: Option<Id>, fetched: Result<FetchOutcome, TransportError>): Option<Id> {
    if fetched.Ok? && fetched.value.Changed? then Some(fetched.value.newHead) else cursor
  }

  /** The action of a pass over `entries` that retired `retired` on evidence: unresolved stale
      publications block; otherwise all current ones are published at once. */
  ghost predicate ActionIs(action: ResumeAction, entries: map<Id, OutboxEntry>, cursor: Option<Id>, retired: set<Id>,
                           published: Result<PublishOutcome, TransportError>)
  {
    var left := Stale(entries, cursor) - retired;
    var current := entries.Keys - Stale(entries, cursor);
    if left != {} then action == NeedsRebase(left)
    else if current == {} then action == Nothing
    else match published
         case Err(_) => false
         case Ok(Published(head)) => action == PublishedAndReconciled(current, head)
         case Ok(Conflict(head)) => action == ResumeAction.Conflict(current, head)
  }

  /** Why a pass failed: its catch-up did, its one publish got no answer, or a write failed. */
  ghost predicate ResumeFailed(e: ResumeError, fetched: Result<FetchOutcome, TransportError>,
                               published: Result<PublishOutcome, TransportError>, written: bool,
                               pre: map<DomainKey, Id>, before: RecoveryState)
  {
    match e
    case CatchUpFailed(reason) => CaughtUp(Err(reason), fetched, reason != CommitFailed, pre, before, before)
                                  && (reason == CommitFailed ==> !written)
    case PendingDecode(_, _) => false
    case PublishFailed(reason) => fetched.Ok? && published.Err? && reason == Transport(published.error)
    case ReconcileFailed(reason) => fetched.Ok? && reason == Store && !written
  }

  /** A whole pass, given the answers of the transport and the last write: what it reports. */
  ghost predicate Resumed(r: Result<ResumeReport, ResumeError>, s: System, t: System, pre: map<DomainKey, Id>,
                          fetched: Result<FetchOutcome, TransportError>, published: Result<PublishOutcome, TransportError>, written: bool)
  {
    match r
    case Err(e) => ResumeFailed(e, fetched, published, written, pre, s.recovery)
    case Ok(report) =>
      && CaughtUp(Ok(report.catchUp), fetched, true, pre, s.recovery, t.recovery)
      && if fetched.Ok? && fetched.value.BaselineUnavailable?
         then report.action == BlockedByBaseline && report.observedReconciled == {} && t.memory == s.memory
         else var cursor := CursorAfter(s.memory.cursor, fetched);
              && report.observedReconciled == Retirable(s.memory.outbox, cursor, fetched)
              && ActionIs(report.action, s.memory.outbox, cursor, report.observedReconciled, published)
              && ReportOk(report, s.memory.outbox, t.memory)
  }

  // ---------------------------------------------------------------- the replica

  class Replica {
    var recovery: RecoveryState
    var record: DurableSyncRecord
    const store: RecordStore
    const transport: OpaqueTransport
    ghost var staged: map<Id, OutboxEntry>
    ghost var acked: set<Acked>

    ghost function State(): System
      reads this, record, store, transport
    {
      System(recovery, record.State(), store.committed, transport.commits, staged, acked)
    }

    ghost predicate Valid()
      reads this, record, store, transport
    {
      SystemInv(State()) && staged.Keys <= transport.reserved
    }

    constructor (recovery: RecoveryState, store: RecordStore, transport: OpaqueTransport)
      requires RecoveryOk(recovery) && UniqueHeads(transport.commits)
      requires store.committed == SyncRecord(recovery, None, map[])
      ensures this.store == store && this.transport == transport && fresh(record)
      ensures Valid() && State() == Start(recovery, transport.commits)
    {
      this.recovery, this.store, this.transport := recovery, store, transport;
      record := new DurableSyncRecord(recovery, None, map[]);
      staged, acked := map[], {};
      new;
      StartIsInv(recovery, transport.commits);
    }

    /** A restart keeps nothing but what is durable. */
    method Restart()
      requires Valid()
      modifies this
      ensures Valid() && Reaches(old(State()), State()) && fresh(record)
      ensures recovery == store.committed.trusted && record.State() == store.committed
    {
      ghost var s := State();
      recovery := store.committed.trusted;
      record := new DurableSyncRecord(store.committed.trusted, store.committed.cursor, store.committed.outbox);
      ReachesStep(s, Crash);
      assert State() == Apply(s, Crash);
    }

    /** One complete catch-up pass. A failed pass leaves memory as it was. */
    method CatchUp(pre: map<DomainKey, Id>)
      returns (r: Result<CatchUpOutcome, CatchUpError>, ghost since: nat, ghost seen: Projection)
      requires Valid()
      modifies this, store, transport`commits, transport`fetchCalls, transport`fetched
      ensures Valid() && Reaches(old(State()), State())
      ensures transport.fetchCalls == old(transport.fetchCalls) + 1
      ensures CaughtUp(r, transport.fetched, store.written, pre, old(recovery), recovery)
      ensures store.writes == old(store.writes) + if Writes(transport.fetched, old(recovery), pre) then 1 else 0
      ensures r.Ok? ==> record.appliedCursor == CursorAfter(old(record.appliedCursor), transport.fetched)
      ensures transport.fetched.Ok? && transport.fetched.value.Changed? ==>
                since < |transport.commits| && transport.fetched.value.objects == Flatten(transport.commits[since..])
      ensures staged == old(staged) && acked == old(acked)
      ensures record == old(record) || fresh(record)
      ensures record.outbox == old(record.outbox)
      ensures Arrived(old(transport.commits), transport.commits, transport.reserved)
      ensures r.Err? || r.value.UpToDate? || r.value.BaselineUnavailable? ==> record.State() == old(record.State()) && recovery == old(recovery)
      ensures r.Ok? && r.value.UpToDate? ==> record.appliedCursor == HeadOf(transport.commits)
      ensures r.Ok? && (r.value.Applied? || r.value.CursorAdvancedWithoutSemanticObjects?) ==>
                record.appliedCursor == Some(r.value.newHead) == HeadOf(transport.commits)
      ensures r.Ok? && (r.value.Applied? || r.value.CursorAdvancedWithoutSemanticObjects?) ==>
                since < |transport.commits| && IsAt(transport.commits, old(record.appliedCursor), since)
      ensures r.Ok? && r.value.CursorAdvancedWithoutSemanticObjects? ==> Flatten(transport.commits[since..]) == []
      ensures r.Ok? && r.value.Applied? ==>
                RangeOutcome(Flatten(transport.commits[since..])) == Some(seen) && r.value.observed.Keys == seen.Keys
      ensures r.Ok? && r.value.Applied? ==> forall d :: d in seen ==> r.value.observed[d] == seen[d].Keys
    {
      hide SystemInv, Reaches, RangeOutcome, Received, RecoveryOk, Flatten, CaughtUp, CanReceive, AppliedReport, SealedReport, Arrived;
      ghost var s := State();
      since, seen := 0, map[];
      var fetched;
      fetched, since := transport.FetchSince(record.appliedCursor);
      ArrivalsReach(s, transport.commits, transport.reserved);
      ghost var t := State();
      CaughtWithoutRange(fetched, store.written, pre, recovery);
      match fetched {
        case Err(_) => return Err(Io), since, seen;
        case Ok(outcome) =>
          match outcome {
            case UpToDate(head) => return Ok(CatchUpOutcome.UpToDate(head)), since, seen;
            case BaselineUnavailable(head) => return Ok(CatchUpOutcome.BaselineUnavailable(head)), since, seen;
            case Changed(head, objects) =>
              InvRecovery(t);
              var received;
              received, seen := ApplyObjects(recovery, objects, pre);
              assert received.Ok? <==> CanReceive(recovery, objects, pre) by { CanReceiveIs(recovery, objects, pre); }
              match received {
                case Err(e) =>
                  CaughtRefused(e, head, objects, store.written, pre, recovery);
                  return Err(e), since, seen;
                case Ok(image) =>
                  var ok := CommitCandidate(since, pre, image.candidate, head, objects);
                  CaughtReceived(image, head, objects, ok, pre, t.recovery, seen);
                  ReachesTrans(s, t, State());
                  if !ok { return Err(CommitFailed), since, seen; }
                  if objects == [] { return Ok(CursorAdvancedWithoutSemanticObjects(head)), since, seen; }
                  r := Ok(Applied(head, |objects|, image.observed, image.sealedLocal));
              }
          }
      }
    }

    /** Persists the new trusted state and cursor as one record; only then is memory swapped. */
    method CommitCandidate(ghost since: nat, pre: map<DomainKey, Id>, candidate: RecoveryState, head: Id, ghost objects: seq<WireObject>)
      returns (ok: bool)
      requires Valid()
      requires since < |transport.commits| && IsAt(transport.commits, record.appliedCursor, since)
      requires objects == Flatten(transport.commits[since..]) && HeadOf(transport.commits) == Some(head)
      requires Received(recovery, objects, pre, candidate)
      modifies this, store
      ensures Valid() && Reaches(old(State()), State())
      ensures staged == old(staged) && acked == old(acked)
      ensures record == old(record) || fresh(record)
      ensures store.writes == old(store.writes) + 1 && store.written == ok
      ensures ok ==> recovery == candidate && record.State() == SyncRecord(candidate, Some(head), old(record.outbox))
      ensures !ok ==> recovery == old(recovery) && record == old(record)
    {
      hide SystemInv, Reaches, Received, Flatten;
      ghost var t := State();
      ghost var before := store.committed;
      var committed, next := CommitReceived(record, store, candidate, head);
      ok := committed;
      ghost var e := Event.CatchUp(since, |transport.commits|, pre, candidate, OutcomeOf(ok, store.committed == before));
      CatchUpIsEnabled(t, e, head, objects);
      ReachesStep(t, e);
      if ok { record, recovery := next, candidate; }
      assert State() == Apply(t, e);
    }

    /** Couples the exposure with the exact bytes to be retried, in one durable write. */
    method StagePreparedRecoveryHandoff(p: PreparedHandoff, ghost carried: Projection, ghost nonce: nat)
      returns (r: Result<Unit, StageError>)
      requires Valid() && Fits(recovery, p, carried, nonce)
      requires p.id !in record.outbox ==> forall i :: 0 <= i < |transport.commits| ==> !Mentions(transport.commits[i], p.id)
      modifies this, store, transport`reserved
      ensures Valid() && Reaches(old(State()), State())
      ensures record == old(record) || fresh(record)
      ensures r.Ok? ==> State() == StagedSystem(old(State()), p.id, nonce, carried, HandedOffState(old(recovery), p.selected))
      ensures MayHandOff(old(recovery), p.selected) <==> r.Ok? || r.error.Sync?
      ensures MayHandOff(old(recovery), p.selected) ==>
                r == if p.id in old(record.outbox) && old(record.outbox)[p.id] != StagedEntry(old(State()), p.id, nonce, carried)
                     then Err(Sync(StageRecovery(PublicationIdentityCollision)))
                     else if store.written then Ok(Unit) else Err(Sync(StageStore))
      ensures !MayHandOff(old(recovery), p.selected) ==> State() == old(State())
      ensures r.Err? ==> recovery == old(recovery) && record == old(record) && acked == old(acked)
    {
      hide SystemInv, Reaches, CarriesClosures, Mentions, HandedOffState, StagedSystem, HandsOff;
      ghost var s := State();
      ReachesSelf(s);
      InvRecovery(s);
      var handed := ApplyHandoffs(recovery, p.selected);
      match handed {
        case Err(e) => return Err(e);
        case Ok(candidate) =>
          r := CommitStaged(p, carried, nonce, candidate);
      }
    }

    method CommitStaged(p: PreparedHandoff, ghost carried: Projection, ghost nonce: nat, candidate: RecoveryState)
      returns (r: Result<Unit, StageError>)
      requires Valid() && IsPrepared(recovery, p, carried, nonce) && MayHandOff(recovery, p.selected)
      requires p.id !in record.outbox ==> forall i :: 0 <= i < |transport.commits| ==> !Mentions(transport.commits[i], p.id)
      requires candidate == HandedOffState(recovery, p.selected)
      modifies this, store, transport`reserved
      ensures Valid() && Reaches(old(State()), State())
      ensures record == old(record) || fresh(record)
      ensures r.Ok? ==> State() == StagedSystem(old(State()), p.id, nonce, carried, candidate)
      ensures r.Err? ==> recovery == old(recovery) && record == old(record) && acked == old(acked)
      ensures r == if p.id in old(record.outbox) && old(record.outbox)[p.id] != StagedEntry(old(State()), p.id, nonce, carried)
                   then Err(Sync(StageRecovery(PublicationIdentityCollision)))
                   else if store.written then Ok(Unit) else Err(Sync(StageStore))
    {
      hide SystemInv, Reaches, CarriesClosures, Mentions, HandedOffState, MayHandOff, IsPrepared;
      ghost var s := State();
      ghost var entry := StagedEntry(s, p.id, nonce, carried);
      PreparedObjects(recovery, p, carried, nonce);
      var result, next := StageOutbound(record, store, candidate, p.id, p.objects);
      transport.reserved := transport.reserved + {p.id};
      match result {
        case Err(e) =>
          ghost var kept := store.committed == s.durable;
          if !kept { staged := staged[p.id := entry]; }
          StageEnds(s, p, carried, nonce, candidate, State());
          r := Err(Sync(e));
        case Ok(_) =>
          staged := staged[p.id := entry];
          acked := acked + {Acked(p.id, carried)};
          record, recovery := next, candidate;
          StageEnds(s, p, carried, nonce, candidate, State());
          r := Ok(Unit);
      }
    }

    /** Splits the pending publications by whether they still target the current cursor. */
    method Classify(pending: set<Id>) returns (current: set<Id>, stale: set<Id>)
      requires pending <= record.outbox.Keys
      ensures current == set id | id in pending && record.outbox[id].expected == record.appliedCursor
      ensures stale == pending - current
    {
      current, stale := {}, {};
      var todo := pending;
      while todo != {}
        invariant todo <= pending && current + stale == pending - todo && current !! stale
        invariant forall id :: id in current ==> record.outbox[id].expected == record.appliedCursor
        invariant forall id :: id in stale ==> record.outbox[id].expected != record.appliedCursor
      {
        var id := Least(todo);
        todo := todo - {id};
        if record.outbox[id].expected == record.appliedCursor { current := current + {id}; } else { stale := stale + {id}; }
      }
    }

    /** The stale publications whose every revision identity was seen in this very pass. */
    method FindObserved(stale: set<Id>, observed: map<DomainKey, set<Id>>, ghost seen: Projection)
      returns (r: Result<set<Id>, ResumeError>)
      requires stale <= record.outbox.Keys && EntriesCovered(record.State())
      requires observed.Keys == seen.Keys && forall d :: d in seen ==> observed[d] == seen[d].Keys
      ensures r.Ok? && r.value == set id | id in stale && IdsObserved(ClearOf(record.outbox[id]), seen)
    {
      hide Covers, SinglePart;
      var found: set<Id> := {};
      var todo := stale;
      while todo != {}
        invariant todo <= stale && found <= stale - todo
        invariant forall id :: id in stale - todo ==> (id in found <==> IdsObserved(ClearOf(record.outbox[id]), seen))
      {
        var id := Least(todo);
        todo := todo - {id};
        assert SinglePart(record.outbox[id], id);
        SinglePartDecodes(record.outbox[id], id);
        var pending := DecodePendingRecoveryPublication(id, record.outbox[id].objects);
        match pending {
          case Err(e) => return Err(PendingDecode(id, e));
          case Ok(projection) =>
            var all := ProjectionIsObserved(projection, observed, seen);
            if all { found := found + {id}; }
        }
      }
      r := Ok(found);
    }

    /** Retires publications on the evidence of the pass that moved the cursor to `head`. */
    method RetireObservedSet(ids: set<Id>, head: Id, ghost since: nat, ghost seen: Projection)
      returns (r: Result<Unit, BatchCommitError>)
      requires Valid() && ids != {} && ids <= record.outbox.Keys
      requires since < |transport.commits| && record.appliedCursor == Some(head) == HeadOf(transport.commits)
      requires RangeOutcome(Flatten(transport.commits[since..])) == Some(seen)
      requires forall id :: id in ids ==> IdsObserved(ClearOf(record.outbox[id]), seen)
      modifies this, store
      ensures Valid() && Reaches(old(State()), State())
      ensures staged == old(staged) && acked == old(acked)
      ensures record == old(record) || fresh(record)
      ensures recovery == old(recovery)
      ensures r.Ok? ==> record.State() == old(record.State()).(outbox := old(record.outbox) - ids)
      ensures r.Err? ==> record == old(record) && r.error == Store && !store.written
    {
      hide SystemInv, Reaches, RangeOutcome, Flatten, IdsObserved;
      ghost var s := State();
      ghost var before := store.committed;
      var result, next := CommitReconciledOutboxBatch(record, store, ids, record.trustedState, head);
      ghost var e := Event.RetireObserved(ids, since, |transport.commits|, seen, OutcomeOf(result.Ok?, store.committed == before));
      assert transport.commits[since..|transport.commits|] == transport.commits[since..];
      assert Enabled(s, e);
      assert NextRecord(s, e) == SyncRecord(record.trustedState, Some(head), record.outbox - ids);
      ReachesStep(s, e);
      if result.Ok? { record := next; }
      assert State() == Apply(s, e);
      r := result;
    }

    /** One compare-and-swap for all current publications, and their retirement if it was
        answered. */
    method PublishCurrent(current: set<Id>) returns (r: Result<ResumeAction, ResumeError>)
      requires Valid() && current != {} && current <= record.outbox.Keys
      requires forall id :: id in current ==> record.outbox[id].expected == record.appliedCursor
      modifies this, store, transport`commits, transport`publishCalls, transport`published
      ensures Valid() && Reaches(old(State()), State())
      ensures staged == old(staged) && acked == old(acked) && recovery == old(recovery)
      ensures record == old(record) || fresh(record)
      ensures transport.publishCalls == old(transport.publishCalls) + 1
      ensures match transport.published
              case Err(e) => r == Err(PublishFailed(Transport(e)))
              case Ok(Conflict(head)) => r == Ok(ResumeAction.Conflict(current, head))
              case Ok(Published(head)) =>
                r == if store.written then Ok(PublishedAndReconciled(current, head)) else Err(ReconcileFailed(Store))
      ensures r.Ok? ==> Publishes(r.value)
      ensures r.Ok? && r.value.PublishedAndReconciled? ==>
                record.State() == SyncRecord(old(record.trustedState), Some(r.value.newHead), old(record.outbox) - current) &&
                record.appliedCursor == HeadOf(transport.commits)
      ensures r.Ok? && r.value.Conflict? ==> r.value.ids == current && record.State() == old(record.State())
      ensures r.Err? ==> record == old(record)
    {
      hide SystemInv, Reaches, BatchLands, Arrived, Listed, IsBatch, FreshHead;
      ghost var s := State();
      var outcome;
      ghost var arrived;
      outcome, arrived := PublishStagedBatch(record, current, transport);
      ghost var t := LandedReach(s, current, arrived, transport.commits, transport.reserved);
      match outcome {
        case Err(e) => return Err(PublishFailed(e));
        case Ok(answer) =>
          match answer {
            case Conflict(head) => return Ok(ResumeAction.Conflict(current, head));
            case Published(head) =>
              ghost var u := State();
              ghost var before := store.committed;
              var result, next := CommitReconciledOutboxBatch(record, store, current, record.trustedState, head);
              ghost var e := Event.RetirePublished(current, |arrived|, OutcomeOf(result.Ok?, store.committed == before));
              RetireIsEnabled(u, e, arrived);
              ReachesStep(u, e);
              if result.Ok? { record := next; }
              assert State() == Apply(u, e);
              ReachesTrans(s, u, State());
              match result {
                case Err(error) => r := Err(ReconcileFailed(error));
                case Ok(_) => r := Ok(PublishedAndReconciled(current, head));
              }
          }
      }
    }

    /** One foreground pass over the durable outbox: at most one publish. A publication that
        was accepted although its answer got lost is retired from evidence, not sent again. */
    method Resume(pre: map<DomainKey, Id>) returns (r: Result<ResumeReport, ResumeError>)
      requires Valid()
      modifies this, store, transport
      ensures Valid() && Reaches(old(State()), State())
      ensures transport.reserved == old(transport.reserved)
      ensures transport.fetchCalls == old(transport.fetchCalls) + 1
      ensures Resumed(r, old(State()), State(), pre, transport.fetched, transport.published, store.written)
      ensures staged == old(staged) && acked == old(acked)
      ensures record == old(record) || fresh(record)
      ensures transport.publishCalls <= old(transport.publishCalls) + 1
      ensures r.Ok? ==> ReportOk(r.value, old(record.outbox), record.State())
      ensures r.Ok? ==> transport.publishCalls == old(transport.publishCalls) + if Publishes(r.value.action) then 1 else 0
      ensures r.Err? && r.error.PublishFailed? ==> transport.publishCalls == old(transport.publishCalls) + 1
      ensures forall id :: AcceptedUnanswered(old(record.State()), old(transport.commits), id) &&
                           r.Ok? && !(transport.fetched.Ok? && transport.fetched.value.BaselineUnavailable?) ==>
                id !in record.outbox && id in r.value.observedReconciled && transport.publishCalls == old(transport.publishCalls)
    {
      hide SystemInv, Reaches, RangeOutcome, Flatten, Arrived, IdsObserved, AcceptedUnanswered;
      hide CaughtUp, Resumed, ResumeFailed, Evidenced, Retirable, ActionIs, ReportOk, CursorAfter;
      ghost var s := State();
      ghost var since, seen;
      var caught;
      caught, since, seen := CatchUp(pre);
      ghost var t := State();
      ghost var fetched := transport.fetched;
      match caught {
        case Err(e) =>
          CatchUpFails(e, fetched, transport.published, store.written, pre, s, t);
          return Err(CatchUpFailed(e));
        case Ok(outcome) =>
          OutcomeFits(outcome, fetched, store.written, pre, s, t, since, seen);
          if outcome.BaselineUnavailable? {
            BlockedIsResumed(outcome, s, t, pre, fetched, transport.published, store.written);
            return Ok(ResumeReport(outcome, {}, BlockedByBaseline));
          }
          r := ResumeCaughtUp(outcome, pre, s, since, seen);
      }
    }

    /** The pass after a catch-up that reached the head. */
    method ResumeCaughtUp(outcome: CatchUpOutcome, ghost pre: map<DomainKey, Id>, ghost s: System, ghost since: nat, ghost seen: Projection)
      returns (r: Result<ResumeReport, ResumeError>)
      requires Valid() && SystemInv(s) && Reaches(s, State()) && Arrived(s.log, transport.commits, transport.reserved)
      requires CaughtUp(Ok(outcome), transport.fetched, true, pre, s.recovery, recovery)
      requires transport.fetched.Ok? && !transport.fetched.value.BaselineUnavailable? && !outcome.BaselineUnavailable?
      requires record.outbox == s.memory.outbox && record.appliedCursor == CursorAfter(s.memory.cursor, transport.fetched)
      requires outcome.UpToDate? ==> record.State() == s.memory && record.appliedCursor == HeadOf(transport.commits)
      requires outcome.Applied? || outcome.CursorAdvancedWithoutSemanticObjects? ==>
                 since < |transport.commits| && IsAt(transport.commits, s.memory.cursor, since) && record.appliedCursor == HeadOf(transport.commits)
      requires outcome.CursorAdvancedWithoutSemanticObjects? ==> Flatten(transport.commits[since..]) == []
      requires outcome.Applied? ==> EvidenceOk(transport.commits, record.appliedCursor, outcome, since, seen)
      requires forall entries, cursor :: Retirable(entries, cursor, transport.fetched) == Evidenced(entries, cursor, outcome, seen)
      modifies this, store, transport`commits, transport`publishCalls, transport`published
      ensures Valid() && Reaches(s, State())
      ensures Resumed(r, s, State(), pre, transport.fetched, transport.published, store.written)
      ensures staged == old(staged) && acked == old(acked)
      ensures record == old(record) || fresh(record)
      ensures transport.publishCalls <= old(transport.publishCalls) + 1
      ensures r.Ok? ==> ReportOk(r.value, s.memory.outbox, record.State())
      ensures r.Ok? ==> transport.publishCalls == old(transport.publishCalls) + if Publishes(r.value.action) then 1 else 0
      ensures r.Err? && r.error.PublishFailed? ==> transport.publishCalls == old(transport.publishCalls) + 1
      ensures forall id :: AcceptedUnanswered(s.memory, s.log, id) && r.Ok? ==>
                id !in record.outbox && id in r.value.observedReconciled && transport.publishCalls == old(transport.publishCalls)
    {
      hide SystemInv, Reaches, RangeOutcome, Flatten, Arrived, IdsObserved, AcceptedUnanswered;
      hide CaughtUp, Resumed, ResumeFailed, Evidenced, Retirable, ActionIs, ReportOk, CursorAfter;
      ghost var t := State();
      AcceptedIsStale(s, t, outcome, transport.reserved, since, seen);
      if record.outbox == map[] {
        NothingPending(outcome, s, t, seen, pre, transport.fetched, transport.published, store.written);
        return Ok(ResumeReport(outcome, {}, Nothing));
      }
      r := ResumePending(outcome, since, seen);
      ReachesTrans(s, t, State());
      PassIsResumed(r, outcome, s, t, State(), seen, pre, transport.fetched, transport.published, store.written);
    }

    /** Retires the stale publications this pass has evidence for; without an applied range
        there is none. */
    method RetireStale(stale: set<Id>, outcome: CatchUpOutcome, ghost since: nat, ghost seen: Projection)
      returns (r: Result<set<Id>, ResumeError>)
      requires Valid() && stale <= record.outbox.Keys
      requires outcome.Applied? ==> EvidenceOk(transport.commits, record.appliedCursor, outcome, since, seen)
      modifies this, store
      ensures Valid() && Reaches(old(State()), State())
      ensures staged == old(staged) && acked == old(acked)
      ensures record == old(record) || fresh(record)
      ensures r.Ok? ==> r.value == if outcome.Applied? then set id | id in stale && IdsObserved(ClearOf(old(record.outbox)[id]), seen) else {}
      ensures r.Ok? ==> record.State() == old(record.State()).(outbox := old(record.outbox) - r.value)
      ensures recovery == old(recovery)
      ensures r.Err? ==> r.error == ReconcileFailed(Store) && !store.written
    {
      hide SystemInv, Reaches, RangeOutcome, Flatten, IdsObserved;
      ghost var t := State();
      ReachesSelf(t);
      assert record.outbox - {} == record.outbox;
      if stale == {} || !outcome.Applied? { return Ok({}); }
      InvEntries(t);
      var found := FindObserved(stale, outcome.observed, seen);
      match found {
        case Err(e) => return Err(e);
        case Ok(ids) =>
          if ids == {} { return Ok(ids); }
          var retired := RetireObservedSet(ids, outcome.newHead, since, seen);
          match retired {
            case Err(e) => r := Err(ReconcileFailed(e));
            case Ok(_) => r := Ok(ids);
          }
      }
    }

    /** The pass after its catch-up: classify, retire on evidence, then publish or report. */
    method ResumePending(outcome: CatchUpOutcome, ghost since: nat, ghost seen: Projection)
      returns (r: Result<ResumeReport, ResumeError>)
      requires Valid() && record.outbox != map[] && !outcome.BaselineUnavailable?
      requires outcome.Applied? ==> EvidenceOk(transport.commits, record.appliedCursor, outcome, since, seen)
      modifies this, store, transport`commits, transport`publishCalls, transport`published
      ensures Valid() && Reaches(old(State()), State())
      ensures staged == old(staged) && acked == old(acked) && recovery == old(recovery)
      ensures record == old(record) || fresh(record)
      ensures transport.publishCalls <= old(transport.publishCalls) + 1
      ensures r.Ok? ==> r.value.catchUp == outcome && r.value.observedReconciled == Evidenced(old(record.outbox), old(record.appliedCursor), outcome, seen)
      ensures r.Ok? ==> ActionIs(r.value.action, old(record.outbox), old(record.appliedCursor), r.value.observedReconciled, transport.published)
      ensures r.Err? ==> (r.error == ReconcileFailed(Store) && !store.written)
                         || (transport.published.Err? && r.error == PublishFailed(Transport(transport.published.error))
                             && transport.publishCalls == old(transport.publishCalls) + 1)
      ensures r.Ok? ==> ReportOk(r.value, old(record.outbox), record.State())
      ensures r.Ok? ==> transport.publishCalls == old(transport.publishCalls) + if Publishes(r.value.action) then 1 else 0
      ensures r.Ok? ==> r.value.observedReconciled !! record.outbox.Keys
    {
      hide SystemInv, Reaches, RangeOutcome, Flatten, IdsObserved, ReportOk, EvidenceOk, ActionIs, Evidenced;
      ghost var t := State();
      ghost var entries := record.outbox;
      var current, stale := Classify(record.outbox.Keys);
      var retired := RetireStale(stale, outcome, since, seen);
      var observed: set<Id> := {};
      match retired {
        case Err(e) => return Err(e);
        case Ok(ids) => observed := ids;
      }
      EvidencedIs(entries, t.memory.cursor, outcome, seen, stale, observed);
      KeptReport(outcome, entries, record.State(), current, stale, observed, transport.published);
      if stale - observed != {} { return Ok(ResumeReport(outcome, observed, NeedsRebase(stale - observed))); }
      if current == {} { return Ok(ResumeReport(outcome, observed, Nothing)); }
      ghost var u := State();
      var published := PublishCurrent(current);
      ReachesTrans(t, u, State());
      match published {
        case Err(e) => r := Err(e);
        case Ok(action) =>
          PublishedReport(outcome, entries, record.State(), u.memory, current, stale, observed, action, transport.published);
          r := Ok(ResumeReport(outcome, observed, action));
      }
    }

    /** At most two passes, the second exactly after a lost race, each reporting what its own
        answers lead to. */
    method ResumeBounded(pre: map<DomainKey, Id>)
      returns (r: Result<CycleReport, ResumeError>, ghost middle: System,
               ghost fetched: Result<FetchOutcome, TransportError>, ghost published: Result<PublishOutcome, TransportError>, ghost written: bool)
      requires Valid()
      modifies this, store, transport
      ensures Valid() && Reaches(old(State()), State())
      ensures transport.publishCalls <= old(transport.publishCalls) + 2
      ensures r.Ok? ==> (r.value.postConflict.Some? <==> r.value.initial.action.Conflict?)
      ensures r.Ok? ==> Resumed(Ok(r.value.initial), old(State()), middle, pre, fetched, published, written)
      ensures r.Ok? && r.value.postConflict.None? ==>
                middle == State() && fetched == transport.fetched && transport.fetchCalls == old(transport.fetchCalls) + 1
      ensures r.Ok? && r.value.postConflict.Some? ==>
                transport.fetchCalls == old(transport.fetchCalls) + 2 &&
                Resumed(Ok(r.value.postConflict.value), middle, State(), pre, transport.fetched, transport.published, store.written)
      ensures r.Err? ==> if transport.fetchCalls == old(transport.fetchCalls) + 1
                         then Resumed(Err(r.error), old(State()), State(), pre, transport.fetched, transport.published, store.written)
                         else Resumed(Err(r.error), middle, State(), pre, transport.fetched, transport.published, store.written)
      ensures forall id :: AcceptedUnanswered(old(record.State()), old(transport.commits), id) &&
                           r.Ok? && !(fetched.Ok? && fetched.value.BaselineUnavailable?) ==>
                r.value.postConflict.None? && id !in record.outbox && transport.publishCalls == old(transport.publishCalls)
    {
      hide SystemInv, Reaches, AcceptedUnanswered, Resumed, ReportOk;
      ghost var s := State();
      var initial := Resume(pre);
      middle, fetched, published, written := State(), transport.fetched, transport.published, store.written;
      match initial {
        case Err(e) => return Err(e), middle, fetched, published, written;
        case Ok(first) =>
          if !first.action.Conflict? { return Ok(CycleReport(first, None)), middle, fetched, published, written; }
          var second := Resume(pre);
          ReachesTrans(s, middle, State());
          match second {
            case Err(e) => r := Err(e);
            case Ok(report) => r := Ok(CycleReport(first, Some(report)));
          }
      }
    }
  }

  /** The observation evidence of an applied pass, while its cursor is still the log's head. */
  ghost predicate EvidenceOk(log: seq<Commit>, cursor: Option<Id>, outcome: CatchUpOutcome, since: nat, seen: Projection)
    requires outcome.Applied?
  {
    && since < |log| && cursor == Some(outcome.newHead) == HeadOf(log)
    && RangeOutcome(Flatten(log[since..])) == Some(seen)
    && outcome.observed.Keys == seen.Keys && forall d :: d in seen ==> outcome.observed[d] == seen[d].Keys
  }

  ghost function Evidenced(entries: map<Id, OutboxEntry>, cursor: Option<Id>, outcome: CatchUpOutcome, seen: Projection): set<Id> {
    if outcome.Applied? then set id | id in Stale(entries, cursor) && IdsObserved(ClearOf(entries[id]), seen) else {}
  }

  // ---------------------------------------------------------------- what a report says

  /** Every pending publication is accounted for: retired with evidence, published, or kept. */
  ghost predicate ReportOk(report: ResumeReport, pending: map<Id, OutboxEntry>, rec: SyncRecord) {
    && report.observedReconciled <= pending.Keys
    && match report.action
       case Nothing => rec.outbox == pending - report.observedReconciled && rec.outbox == map[]
       case BlockedByBaseline => rec.outbox == pending && report.observedReconciled == {}
       case NeedsRebase(ids) =>
         rec.outbox == pending - report.observedReconciled && ids != {} && ids <= rec.outbox.Keys &&
         forall id :: id in ids ==> rec.outbox[id].expected != rec.cursor
       case PublishedAndReconciled(ids, head) =>
         ids != {} && rec.outbox == map[] && pending.Keys == report.observedReconciled + ids && rec.cursor == Some(head)
       case Conflict(ids, _) =>
         ids != {} && rec.outbox == pending - report.observedReconciled && rec.outbox.Keys == ids
  }

  lemma NothingLeft<V>(a: set<V>, b: set<V>)
    requires a - b == {} && b <= a
    ensures a == b
  {
    forall x | x in a ensures x in b { assert x !in a - b; }
  }

  lemma CatchUpFails(e: CatchUpError, fetched: Result<FetchOutcome, TransportError>, published: Result<PublishOutcome, TransportError>,
                     written: bool, pre: map<DomainKey, Id>, s: System, t: System)
    requires CaughtUp(Err(e), fetched, written, pre, s.recovery, t.recovery)
    ensures Resumed(Err(CatchUpFailed(e)), s, t, pre, fetched, published, written)
  {
    hide Received, RangeOutcome, AppliedReport;
  }

  /** The outcome of a successful catch-up names the answer it came from. */
  lemma OutcomeFits(outcome: CatchUpOutcome, fetched: Result<FetchOutcome, TransportError>, written: bool, pre: map<DomainKey, Id>,
                    s: System, t: System, since: nat, seen: Projection)
    requires CaughtUp(Ok(outcome), fetched, written, pre, s.recovery, t.recovery)
    requires t.memory.outbox == s.memory.outbox
    requires outcome.Applied? ==> since < |t.log| && RangeOutcome(Flatten(t.log[since..])) == Some(seen)
    requires fetched.Ok? && fetched.value.Changed? ==> since < |t.log| && fetched.value.objects == Flatten(t.log[since..])
    ensures CaughtUp(Ok(outcome), fetched, true, pre, s.recovery, t.recovery) && fetched.Ok?
    ensures outcome.BaselineUnavailable? <==> fetched.value.BaselineUnavailable?
    ensures forall entries, cursor :: Retirable(entries, cursor, fetched) == Evidenced(entries, cursor, outcome, seen)
  {
    hide Received, IdsObserved, SealedReport;
  }

  lemma BlockedIsResumed(outcome: CatchUpOutcome, s: System, t: System, pre: map<DomainKey, Id>, fetched: Result<FetchOutcome, TransportError>,
                         published: Result<PublishOutcome, TransportError>, written: bool)
    requires CaughtUp(Ok(outcome), fetched, true, pre, s.recovery, t.recovery)
    requires fetched.Ok? && fetched.value.BaselineUnavailable? && t.memory == s.memory
    ensures var report := ResumeReport(outcome, {}, BlockedByBaseline);
            Resumed(Ok(report), s, t, pre, fetched, published, written) && ReportOk(report, s.memory.outbox, t.memory)
  {
    hide CaughtUp;
  }

  lemma NothingPending(outcome: CatchUpOutcome, s: System, t: System, seen: Projection, pre: map<DomainKey, Id>,
                       fetched: Result<FetchOutcome, TransportError>, published: Result<PublishOutcome, TransportError>, written: bool)
    requires CaughtUp(Ok(outcome), fetched, true, pre, s.recovery, t.recovery)
    requires fetched.Ok? && !fetched.value.BaselineUnavailable? && s.memory.outbox == t.memory.outbox == map[]
    ensures var report := ResumeReport(outcome, {}, Nothing);
            Resumed(Ok(report), s, t, pre, fetched, published, written) && ReportOk(report, s.memory.outbox, t.memory)
  {
    hide CaughtUp, RangeOutcome, IdsObserved;
    assert Stale(s.memory.outbox, CursorAfter(s.memory.cursor, fetched)) == {};
    assert s.memory.outbox - {} == s.memory.outbox;
  }

  /** After a successful catch-up to `t`, the rest of the pass up to `u` completes the report. */
  lemma PassIsResumed(r: Result<ResumeReport, ResumeError>, outcome: CatchUpOutcome, s: System, t: System, u: System, seen: Projection,
                      pre: map<DomainKey, Id>, fetched: Result<FetchOutcome, TransportError>,
                      published: Result<PublishOutcome, TransportError>, written: bool)
    requires CaughtUp(Ok(outcome), fetched, true, pre, s.recovery, t.recovery) && u.recovery == t.recovery
    requires fetched.Ok? && !fetched.value.BaselineUnavailable? && t.memory.outbox == s.memory.outbox
    requires t.memory.cursor == CursorAfter(s.memory.cursor, fetched)
    requires forall entries, cursor :: Retirable(entries, cursor, fetched) == Evidenced(entries, cursor, outcome, seen)
    requires match r
             case Ok(report) =>
               && report.catchUp == outcome && report.observedReconciled == Evidenced(s.memory.outbox, t.memory.cursor, outcome, seen)
               && ActionIs(report.action, s.memory.outbox, t.memory.cursor, report.observedReconciled, published)
               && ReportOk(report, s.memory.outbox, u.memory)
             case Err(e) =>
               (e == ReconcileFailed(Store) && !written) || (published.Err? && e == PublishFailed(Transport(published.error)))
    ensures Resumed(r, s, u, pre, fetched, published, written)
    ensures r.Ok? && (forall k :: k in s.memory.outbox ==> s.memory.outbox[k].expected != t.memory.cursor) ==>
              !Publishes(r.value.action) &&
              (outcome.Applied? ==> r.value.observedReconciled == set id | id in s.memory.outbox && IdsObserved(ClearOf(s.memory.outbox[id]), seen))
  {
    hide CaughtUp, IdsObserved, ReportOk, Retirable;
    if forall k :: k in s.memory.outbox ==> s.memory.outbox[k].expected != t.memory.cursor {
      assert Stale(s.memory.outbox, t.memory.cursor) == s.memory.outbox.Keys;
    }
  }

  lemma EvidencedIs(entries: map<Id, OutboxEntry>, cursor: Option<Id>, outcome: CatchUpOutcome, seen: Projection, stale: set<Id>, observed: set<Id>)
    requires stale == entries.Keys - set id | id in entries && entries[id].expected == cursor
    requires observed == if outcome.Applied? then set id | id in stale && IdsObserved(ClearOf(entries[id]), seen) else {}
    ensures observed == Evidenced(entries, cursor, outcome, seen) && observed <= stale
  {
    hide IdsObserved;
    assert stale == Stale(entries, cursor);
  }

  lemma KeptReport(outcome: CatchUpOutcome, entries: map<Id, OutboxEntry>, rec: SyncRecord, current: set<Id>, stale: set<Id>, observed: set<Id>,
                   published: Result<PublishOutcome, TransportError>)
    requires current == set id | id in entries && entries[id].expected == rec.cursor
    requires stale == entries.Keys - current && observed <= stale && rec.outbox == entries - observed && entries != map[]
    ensures current <= rec.outbox.Keys && observed !! rec.outbox.Keys
    ensures forall id :: id in current ==> rec.outbox[id].expected == rec.cursor
    ensures stale - observed != {} ==> ReportOk(ResumeReport(outcome, observed, NeedsRebase(stale - observed)), entries, rec)
    ensures stale - observed == {} && current == {} ==> ReportOk(ResumeReport(outcome, observed, Nothing), entries, rec)
    ensures stale - observed != {} ==> ActionIs(NeedsRebase(stale - observed), entries, rec.cursor, observed, published)
    ensures stale - observed == {} && current == {} ==> ActionIs(Nothing, entries, rec.cursor, observed, published)
  {
    assert stale == Stale(entries, rec.cursor) && current == entries.Keys - stale;
    if stale - observed == {} {
      NothingLeft(stale, observed);
      if current == {} {
        assert observed == entries.Keys;
        assert entries - observed == map[];
      }
    }
  }

  lemma PublishedReport(outcome: CatchUpOutcome, entries: map<Id, OutboxEntry>, rec: SyncRecord, before: SyncRecord,
                        current: set<Id>, stale: set<Id>, observed: set<Id>, action: ResumeAction,
                        published: Result<PublishOutcome, TransportError>)
    requires current == (set id | id in entries && entries[id].expected == before.cursor)
    requires current != {} && stale == entries.Keys - current && observed <= stale && stale - observed == {}
    requires match published
             case Err(_) => false
             case Ok(Published(head)) => action == PublishedAndReconciled(current, head)
             case Ok(Conflict(head)) => action == ResumeAction.Conflict(current, head)
    requires before.outbox == entries - observed
    requires action.PublishedAndReconciled? ==>
               action.ids == current && rec.outbox == before.outbox - current && rec.cursor == Some(action.newHead)
    requires action.Conflict? ==> action.ids == current && rec == before
    ensures ReportOk(ResumeReport(outcome, observed, action), entries, rec) && observed !! rec.outbox.Keys
    ensures ActionIs(action, entries, before.cursor, observed, published)
  {
    assert stale == Stale(entries, before.cursor) && current == entries.Keys - stale;
    NothingLeft(stale, observed);
    assert entries.Keys == observed + current;
    assert entries - observed - current == map[];
    assert (entries - observed).Keys == current;
  }

  /** The publication still expects the applied cursor, and its object is already in the log
      beyond that cursor. */
  ghost predicate AcceptedUnanswered(rec: SyncRecord, log: seq<Commit>, id: Id) {
    && id in rec.outbox && rec.outbox[id].expected == rec.cursor
    && exists i :: 0 <= i < |log| && IsAt(log, rec.cursor, i) && |rec.outbox[id].objects| > 0 && rec.outbox[id].objects[0] in log[i].objects
  }

  datatype ReceivedImage = ReceivedImage(candidate: RecoveryState, observed: map<DomainKey, set<Id>>, sealedLocal: map<DomainKey, Revision<Value>>)

  /** Assembles the fetched objects and observes them on a copy of the recovery state. */
  method ApplyObjects(recovery: RecoveryState, objects: seq<WireObject>, pre: map<DomainKey, Id>)
    returns (r: Result<ReceivedImage, CatchUpError>, ghost seen: Projection)
    requires RecoveryOk(recovery)
    ensures r.Ok? <==> exists t :: Received(recovery, objects, pre, t)
    ensures r.Ok? ==> Received(recovery, objects, pre, r.value.candidate)
    ensures r.Ok? && objects != [] ==> RangeOutcome(objects) == Some(seen) && r.value.observed.Keys == seen.Keys
    ensures r.Ok? && objects != [] ==> forall d :: d in seen ==> r.value.observed[d] == seen[d].Keys
    ensures r.Ok? && objects != [] ==> SealedReport(recovery, seen, pre, r.value.candidate, r.value.sealedLocal)
    ensures r.Err? ==> if RangeOutcome(objects).None? then r.error.Range? else r.error == Observation
  {
    hide SealedReport, RangeOutcome, ObservedAll, RecoveryOk, ValidRegisters;
    seen := map[];
    if objects == [] {
      assert Received(recovery, objects, pre, recovery);
      return Ok(ReceivedImage(recovery, map[], map[])), seen;
    }
    var combined := CombineRange(objects);
    match combined {
      case Err(e) => return Err(Range(e)), seen;
      case Ok(projection) =>
        seen := projection;
        var candidate, observed, sealed := ObserveAllDomains(recovery, projection, pre);
        match candidate {
          case None => return Err(Observation), seen;
          case Some(t) =>
            assert Received(recovery, objects, pre, t);
            r := Ok(ReceivedImage(t, observed, sealed));
        }
    }
  }

  lemma InvRecovery(s: System)
    requires SystemInv(s)
    ensures RecoveryOk(s.recovery) && RecoveryOk(s.memory.trusted) && UniqueHeads(s.log)
  {
  }

  lemma CatchUpIsEnabled(t: System, e: Event, head: Id, objects: seq<WireObject>)
    requires e.CatchUp? && e.since < |t.log| && e.upTo == |t.log| && IsAt(t.log, t.memory.cursor, e.since)
    requires objects == Flatten(t.log[e.since..]) && HeadOf(t.log) == Some(head)
    requires Received(t.recovery, objects, e.preObservation, e.candidate)
    ensures Enabled(t, e) && NextRecord(t, e) == SyncRecord(e.candidate, Some(head), t.memory.outbox)
  {
    hide Received, Flatten;
    assert t.log[e.since..e.upTo] == t.log[e.since..];
  }

  // ---------------------------------------------------------------- supporting facts

  lemma PreparedObjects(r: RecoveryState, p: PreparedHandoff, carried: Projection, nonce: nat)
    requires IsPrepared(r, p, carried, nonce)
    ensures p.objects == [Part(p.id, 0, 1, carried, nonce)]
  {
  }

  lemma StageIsEnabled(s: System, e: Event, p: PreparedHandoff)
    requires e.Stage? && e.id == p.id && e.selected == p.selected
    requires IsPrepared(s.recovery, p, e.carried, e.nonce) && MayHandOff(s.recovery, p.selected)
    requires p.id in s.memory.outbox ==> s.memory.outbox[p.id] == StagedEntry(s, p.id, e.nonce, e.carried)
    requires p.id !in s.memory.outbox ==> forall i :: 0 <= i < |s.log| ==> !Mentions(s.log[i], p.id)
    ensures Enabled(s, e)
    ensures NextRecord(s, e) == SyncRecord(HandedOffState(s.recovery, p.selected), s.memory.cursor,
                                           s.memory.outbox[p.id := StagedEntry(s, p.id, e.nonce, e.carried)])
  {
    hide CarriesClosures, MayHandOff, HandedOffState, Mentions;
  }

  /** After a successful staging memory and disk agree, and the publication counts as acknowledged. */
  ghost function StagedSystem(s: System, id: Id, nonce: nat, carried: Projection, candidate: RecoveryState): System {
    var entry := StagedEntry(s, id, nonce, carried);
    var next := SyncRecord(candidate, s.memory.cursor, s.memory.outbox[id := entry]);
    System(candidate, next, next, s.log, s.staged[id := entry], s.acked + {Acked(id, carried)})
  }

  lemma StageApplied(s: System, e: Event, candidate: RecoveryState)
    requires e.Stage? && Enabled(s, e) && candidate == HandedOffState(s.recovery, e.selected)
    ensures var entry := StagedEntry(s, e.id, e.nonce, e.carried);
            var next := SyncRecord(candidate, s.memory.cursor, s.memory.outbox[e.id := entry]);
            Apply(s, e) ==
              match e.write
              case FailedKeepingOld => s
              case FailedLeavingNew => s.(durable := next, staged := s.staged[e.id := entry])
              case Written => StagedSystem(s, e.id, e.nonce, e.carried, candidate)
  {
    hide CarriesClosures, MayHandOff, HandedOffState, Mentions;
  }

  /** The three ways a staging can end are protocol steps. */
  lemma StageEnds(s: System, p: PreparedHandoff, carried: Projection, nonce: nat, candidate: RecoveryState, t: System)
    requires SystemInv(s) && IsPrepared(s.recovery, p, carried, nonce) && MayHandOff(s.recovery, p.selected)
    requires candidate == HandedOffState(s.recovery, p.selected)
    requires p.id !in s.memory.outbox ==> forall i :: 0 <= i < |s.log| ==> !Mentions(s.log[i], p.id)
    requires t != s ==> (p.id in s.memory.outbox ==> s.memory.outbox[p.id] == StagedEntry(s, p.id, nonce, carried))
    requires var done := StagedSystem(s, p.id, nonce, carried, candidate);
             t == s || t == done || t == s.(durable := done.durable, staged := done.staged)
    ensures SystemInv(t) && Reaches(s, t)
  {
    hide SystemInv, Reaches, CarriesClosures, MayHandOff, HandedOffState, Mentions;
    if t == s {
      ReachesSelf(s);
    } else {
      var done := StagedSystem(s, p.id, nonce, carried, candidate);
      var e := Event.Stage(p.id, nonce, p.selected, carried, if t == done then Written else FailedLeavingNew);
      StageIsEnabled(s, e, p);
      StageApplied(s, e, candidate);
      ReachesStep(s, e);
    }
  }

  lemma InvEntries(s: System)
    requires SystemInv(s)
    ensures EntriesCovered(s.memory)
  {
  }

  lemma SinglePartDecodes(e: OutboxEntry, id: Id)
    requires SinglePart(e, id)
    ensures |e.objects| == 1 && Opens(e.objects[0]) && e.objects[0].Part? && e.objects[0].publicationId == id
    ensures e.objects[0].index == 0 && e.objects[0].total == 1 && e.objects[0].clear == ClearOf(e)
  {
  }

  method ProjectionIsObserved(projection: Projection, observed: map<DomainKey, set<Id>>, ghost seen: Projection)
    returns (all: bool)
    requires observed.Keys == seen.Keys && forall d :: d in seen ==> observed[d] == seen[d].Keys
    ensures all <==> IdsObserved(projection, seen)
  {
    var todo := projection.Keys;
    while todo != {}
      invariant todo <= projection.Keys
      invariant forall d :: d in projection && d !in todo ==> d in seen && projection[d].Keys <= seen[d].Keys
    {
      var d :| d in todo;
      if d !in observed || !(projection[d].Keys <= observed[d]) { return false; }
      todo := todo - {d};
    }
    all := true;
  }

  /** A publish request: others may land first, then possibly the batch. */
  lemma LandedReach(s: System, ids: set<Id>, arrived: seq<Commit>, after: seq<Commit>, reserved: set<Id>)
    returns (t: System)
    requires SystemInv(s) && Arrived(s.log, arrived, reserved) && s.staged.Keys <= reserved
    requires after == arrived ||
             (|after| == |arrived| + 1 && after == arrived + [after[|arrived|]] && BatchLands(arrived, s.memory.outbox, ids, after[|arrived|]))
    ensures t == s.(log := after) && SystemInv(t) && Reaches(s, t)
  {
    hide SystemInv, Reaches, BatchLands, Arrived;
    ArrivalsReach(s, arrived, reserved);
    var u := s.(log := arrived);
    t := s.(log := after);
    if after != arrived {
      var e := Publish(ids, after[|arrived|]);
      ReachesStep(u, e);
      assert Apply(u, e) == t;
      ReachesTrans(s, u, t);
    }
  }

  lemma RetireIsEnabled(u: System, e: Event, arrived: seq<Commit>)
    requires e.RetirePublished? && e.at == |arrived| < |u.log| && u.log == arrived + [u.log[|arrived|]]
    requires BatchLands(arrived, u.memory.outbox, e.ids, u.log[|arrived|])
    requires forall id :: id in e.ids ==> id in u.memory.outbox && u.memory.outbox[id].expected == u.memory.cursor
    ensures Enabled(u, e)
    ensures NextRecord(u, e) == SyncRecord(u.memory.trusted, HeadOf(u.log), u.memory.outbox - e.ids)
  {
    var id :| id in e.ids;
    IsAtExtends(arrived, u.log[|arrived|], u.memory.cursor, |arrived|);
  }

  lemma ArrivedPrefix(before: seq<Commit>, after: seq<Commit>, reserved: set<Id>, i: nat)
    requires Arrived(before, after, reserved) && i < |before|
    ensures i < |after| && after[i] == before[i]
  {
    assert after[..|before|][i] == after[i];
  }

  lemma PositionsAgree(log: seq<Commit>, cursor: Option<Id>, m: nat, n: nat)
    requires UniqueHeads(log)
    ensures IsAt(log, cursor, m) && IsAt(log, cursor, n) ==> m == n
  {
    if IsAt(log, cursor, m) && IsAt(log, cursor, n) { PositionIsUnique(log, cursor, m, n); }
  }

  /** The log has grown past the cursor everything was staged at or before. */
  lemma AllStale(s: System, t: System, reserved: set<Id>, i: nat)
    requires UniqueHeads(s.log) && UniqueHeads(t.log) && CursorOk(s.log, s.memory) && IsAt(s.log, s.memory.cursor, i) && i < |s.log|
    requires Arrived(s.log, t.log, reserved) && t.memory.cursor == HeadOf(t.log)
    ensures forall k :: k in s.memory.outbox ==> s.memory.outbox[k].expected != t.memory.cursor
  {
    hide CoveredTo;
    var n: nat :| PositionOk(s.log, s.memory, n);
    PositionIsUnique(s.log, s.memory.cursor, i, n);
    forall k | k in s.memory.outbox ensures s.memory.outbox[k].expected != t.memory.cursor {
      assert KnownBy(s.log, s.memory.outbox[k].expected, n);
      var m: nat :| m <= n && IsAt(s.log, s.memory.outbox[k].expected, m);
      ArrivedKeepsPositions(s.log, t.log, reserved, s.memory.outbox[k].expected, m);
      assert IsAt(t.log, t.memory.cursor, |t.log|);
      PositionsAgree(t.log, t.memory.cursor, m, |t.log|);
    }
  }

  /** A range that contains a publication's object shows all its revision identities. */
  lemma ObjectShowsIds(objects: seq<WireObject>, o: WireObject, seen: Projection)
    requires o in objects && o.Part? && RangeOutcome(objects) == Some(seen)
    ensures IdsObserved(o.clear, seen)
  {
    AcceptedRangeIsExact(objects, seen);
    var all := set u | u in objects;
    assert o in all && o.clear in Clears(all) && Opens(o);
    forall d | d in o.clear ensures d in seen && o.clear[d].Keys <= seen[d].Keys {
      assert Holds(o.clear, Domain(d));
      assert SomeHolds(Clears(all), Domain(d));
      forall k | k in o.clear[d] ensures k in seen[d] {
        var f := Statement(d, o.clear[d][k]);
        assert Valid(o.clear[d]) && o.clear[d][k].id == k;
        assert Holds(o.clear, f);
        assert SomeHolds(Clears(all), f);
        assert Holds(seen, f);
      }
    }
  }

  lemma InvCursor(s: System)
    requires SystemInv(s)
    ensures UniqueHeads(s.log) && CursorOk(s.log, s.memory) && EntriesCovered(s.memory)
  {
  }

  lemma AcceptedIsObserved(s: System, t: System, outcome: CatchUpOutcome, reserved: set<Id>, since: nat, seen: Projection, id: Id)
    requires SystemInv(s) && SystemInv(t) && Arrived(s.log, t.log, reserved) && t.memory.outbox == s.memory.outbox
    requires !outcome.BaselineUnavailable?
    requires outcome.UpToDate? ==> t.memory == s.memory && t.memory.cursor == HeadOf(t.log)
    requires outcome.Applied? || outcome.CursorAdvancedWithoutSemanticObjects? ==>
               since < |t.log| && IsAt(t.log, s.memory.cursor, since) && t.memory.cursor == HeadOf(t.log)
    requires outcome.CursorAdvancedWithoutSemanticObjects? ==> Flatten(t.log[since..]) == []
    requires outcome.Applied? ==> RangeOutcome(Flatten(t.log[since..])) == Some(seen)
    requires AcceptedUnanswered(s.memory, s.log, id)
    ensures outcome.Applied? && IdsObserved(ClearOf(t.memory.outbox[id]), seen)
    ensures forall k :: k in t.memory.outbox ==> t.memory.outbox[k].expected != t.memory.cursor
  {
    hide SystemInv, RangeOutcome, Flatten, Arrived, CursorOk, IdsObserved, Covers, Opens;
    InvCursor(s);
    InvCursor(t);
    var i: nat :| i < |s.log| && IsAt(s.log, s.memory.cursor, i) && s.memory.outbox[id].objects[0] in s.log[i].objects;
    var o := s.memory.outbox[id].objects[0];
    SinglePartDecodes(s.memory.outbox[id], id);
    ArrivedPrefix(s.log, t.log, reserved, i);
    ArrivedKeepsPositions(s.log, t.log, reserved, s.memory.cursor, i);
    assert outcome.UpToDate? ==> t.memory.outbox[id].expected == t.memory.cursor;
    AllStale(s, t, reserved, i);
    if !outcome.UpToDate? {
      PositionIsUnique(t.log, s.memory.cursor, i, since);
      assert t.log[since..][0] == t.log[i];
      FlattenHas(t.log[since..], 0, o);
      if outcome.Applied? { ObjectShowsIds(Flatten(t.log[since..]), o, seen); }
    }
  }

  /** After a pass over a log that moved on, everything staged before is stale; and an entry
      that had been accepted is among what the pass observed. */
  lemma AcceptedIsStale(s: System, t: System, outcome: CatchUpOutcome, reserved: set<Id>, since: nat, seen: Projection)
    requires SystemInv(s) && SystemInv(t) && Arrived(s.log, t.log, reserved) && t.memory.outbox == s.memory.outbox
    requires !outcome.BaselineUnavailable?
    requires outcome.UpToDate? ==> t.memory == s.memory && t.memory.cursor == HeadOf(t.log)
    requires outcome.Applied? || outcome.CursorAdvancedWithoutSemanticObjects? ==>
               since < |t.log| && IsAt(t.log, s.memory.cursor, since) && t.memory.cursor == HeadOf(t.log)
    requires outcome.CursorAdvancedWithoutSemanticObjects? ==> Flatten(t.log[since..]) == []
    requires outcome.Applied? ==> RangeOutcome(Flatten(t.log[since..])) == Some(seen)
    ensures forall id :: AcceptedUnanswered(s.memory, s.log, id) ==>
              outcome.Applied? && id in t.memory.outbox && t.memory.outbox[id].expected != t.memory.cursor &&
              IdsObserved(ClearOf(t.memory.outbox[id]), seen)
    ensures (exists id :: AcceptedUnanswered(s.memory, s.log, id)) ==>
              forall k :: k in t.memory.outbox ==> t.memory.outbox[k].expected != t.memory.cursor
  {
    hide SystemInv, RangeOutcome, Flatten, Arrived;
    forall id | AcceptedUnanswered(s.memory, s.log, id)
      ensures outcome.Applied? && id in t.memory.outbox && IdsObserved(ClearOf(t.memory.outbox[id]), seen)
      ensures forall k :: k in t.memory.outbox ==> t.memory.outbox[k].expected != t.memory.cursor
    {
      AcceptedIsObserved(s, t, outcome, reserved, since, seen, id);
    }
  }
}
