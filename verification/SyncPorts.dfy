/** The durable record, its store and the opaque transport, with every way each can fail:
    a write may fail and still land, a request may be lost before or after it took effect,
    and other replicas may commit before any request arrives. */
module SyncPorts {
  import opened CausalGraph
  import opened CoreTypes
  import opened RangeAssembly
  import opened RecoveryProtocol

  datatype SyncRecoveryError = EmptyOutbox | PublicationIdentityCollision | UnknownOutboxPublication

  datatype TransportError = Unreachable

  datatype FetchOutcome =
    | UpToDate(head: Option<Id>)
    | Changed(newHead: Id, objects: seq<WireObject>)
    | BaselineUnavailable(currentHead: Option<Id>)

  datatype PublishOutcome = Published(head: Id) | Conflict(currentHead: Option<Id>)

  datatype BatchPublishError = EmptyBatch | Recovery(error: SyncRecoveryError) | MixedExpectedCursor | Transport(failure: TransportError)

  datatype BatchCommitError = EmptyCommitBatch | CommitRecovery(error: SyncRecoveryError) | Store

  // ---------------------------------------------------------------- the record

  class DurableSyncRecord {
    var trustedState: RecoveryState
    var appliedCursor: Option<Id>
    var outbox: map<Id, OutboxEntry>

    ghost function State(): SyncRecord
      reads this
    {
      SyncRecord(trustedState, appliedCursor, outbox)
    }

    constructor (trusted: RecoveryState, cursor: Option<Id>, outbox: map<Id, OutboxEntry>)
      ensures State() == SyncRecord(trusted, cursor, outbox)
    {
      trustedState, appliedCursor, this.outbox := trusted, cursor, outbox;
    }

    method Clone() returns (copy: DurableSyncRecord)
      ensures fresh(copy) && copy.State() == State()
    {
      copy := new DurableSyncRecord(trustedState, appliedCursor, outbox);
    }

    /** Staging the same bytes again is harmless; other bytes under a used identity are refused. */
    method PrepareOutbox(exposed: RecoveryState, id: Id, expected: Option<Id>, objects: seq<WireObject>)
      returns (r: Result<Unit, SyncRecoveryError>)
      modifies this
      ensures r.Ok? <==> objects != [] && (id in old(outbox) ==> old(outbox)[id] == OutboxEntry(id, expected, objects))
      ensures r.Ok? ==> State() == SyncRecord(exposed, old(appliedCursor), old(outbox)[id := OutboxEntry(id, expected, objects)])
      ensures r.Err? ==> State() == old(State())
      ensures r.Err? ==> r.error == if objects == [] then EmptyOutbox else PublicationIdentityCollision
    {
      if objects == [] { return Err(EmptyOutbox); }
      var entry := OutboxEntry(id, expected, objects);
      if id in outbox {
        if outbox[id] != entry { return Err(PublicationIdentityCollision); }
        assert outbox[id := entry] == outbox;
        trustedState := exposed;
      } else {
        trustedState := exposed;
        outbox := outbox[id := entry];
      }
      r := Ok(Unit);
    }

    /** Pending publications survive an applied range. */
    method ApplyReceived(merged: RecoveryState, newCursor: Id)
      modifies this
      ensures State() == SyncRecord(merged, Some(newCursor), old(outbox))
    {
      trustedState, appliedCursor := merged, Some(newCursor);
    }

    method RetireOutbox(id: Id, reconciled: RecoveryState, newCursor: Id) returns (r: Result<Unit, SyncRecoveryError>)
      modifies this
      ensures r == if id in old(outbox) then Ok(Unit) else Err(UnknownOutboxPublication)
      ensures State() == if id in old(outbox) then SyncRecord(reconciled, Some(newCursor), old(outbox) - {id}) else old(State())
    {
      if id !in outbox { return Err(UnknownOutboxPublication); }
      outbox := outbox - {id};
      trustedState, appliedCursor := reconciled, Some(newCursor);
      r := Ok(Unit);
    }
  }

  /** `writes` counts the attempts and `written` is what the last one reported. */
  class RecordStore {
    var committed: SyncRecord
    ghost var writes: nat
    ghost var written: bool

    constructor (initial: SyncRecord)
      ensures committed == initial && writes == 0
    {
      committed, writes := initial, 0;
    }

    /** Success means durable. Failure means nothing at all. */
    method Persist(record: DurableSyncRecord) returns (ok: bool)
      modifies this
      ensures writes == old(writes) + 1 && written == ok
      ensures ok ==> committed == record.State()
      ensures !ok ==> committed == old(committed) || committed == record.State()
    {
      var lands: bool := *;
      if lands {
        committed := SyncRecord(record.trustedState, record.appliedCursor, record.outbox);
        ok := *;
      } else {
        ok := false;
      }
      writes, written := writes + 1, ok;
    }
  }

  // ---------------------------------------------------------------- the transport

  predicate HeadIsFresh(log: seq<Commit>, head: Id)
    ensures HeadIsFresh(log, head) == FreshHead(log, head)
  {
    forall i :: 0 <= i < |log| ==> log[i].head != head
  }

  predicate MentionsAny(commit: Commit, ids: set<Id>) {
    exists id :: id in ids && Mentions(commit, id)
  }

  /** `after` is `before` with commits of other replicas added: their heads are new, and they
      never use the publication identities in `reserved`. */
  ghost predicate Arrived(before: seq<Commit>, after: seq<Commit>, reserved: set<Id>) {
    && |before| <= |after| && after[..|before|] == before
    && forall i :: |before| <= i < |after| ==> FreshHead(after[..i], after[i].head) && !MentionsAny(after[i], reserved)
  }

  function HeadOf(log: seq<Commit>): Option<Id> {
    if log == [] then None else Some(log[|log| - 1].head)
  }

  /** The calls made so far and the last answer to each kind are recorded for the contracts. */
  class OpaqueTransport {
    var commits: seq<Commit>
    var reserved: set<Id>
    ghost var fetchCalls: nat
    ghost var fetched: Result<FetchOutcome, TransportError>
    ghost var publishCalls: nat
    ghost var published: Result<PublishOutcome, TransportError>

    constructor (log: seq<Commit>, reserved: set<Id>)
      ensures commits == log && this.reserved == reserved && publishCalls == 0 && fetchCalls == 0
    {
      commits, this.reserved, publishCalls, fetchCalls := log, reserved, 0, 0;
    }

    /** Other replicas commit at any time. */
    method Arrivals()
      modifies this`commits
      ensures Arrived(old(commits), commits, reserved)
    {
      var candidates: seq<Commit> := *;
      for i := 0 to |candidates|
        invariant Arrived(old(commits), commits, reserved)
      {
        var commit := candidates[i];
        if HeadIsFresh(commits, commit.head) && !MentionsAny(commit, reserved) {
          ghost var now := commits;
          commits := commits + [commit];
          assert forall k :: |old(commits)| <= k < |now| ==> commits[..k] == now[..k];
          assert commits[..|now|] == now;
          assert commits[..|old(commits)|] == now[..|old(commits)|];
        }
      }
    }

    /** Everything after a known head, or an admission that it is no longer available. */
    method FetchSince(known: Option<Id>) returns (r: Result<FetchOutcome, TransportError>, ghost since: nat)
      modifies this`commits, this`fetchCalls, this`fetched
      ensures fetchCalls == old(fetchCalls) + 1 && fetched == r
      ensures Arrived(old(commits), commits, reserved)
      ensures r.Ok? && r.value.UpToDate? ==> r.value.head == known == HeadOf(commits)
      ensures r.Ok? && r.value.BaselineUnavailable? ==> r.value.currentHead == HeadOf(commits) != known
      ensures r.Ok? && r.value.Changed? ==>
                since < |commits| && IsAt(commits, known, since) && HeadOf(commits) == Some(r.value.newHead) &&
                r.value.objects == Flatten(commits[since..])
    {
      since := 0;
      fetchCalls := fetchCalls + 1;
      Arrivals();
      r, since := Answer(known);
      fetched := r;
    }

    method Answer(known: Option<Id>) returns (r: Result<FetchOutcome, TransportError>, ghost since: nat)
      ensures r.Ok? && r.value.UpToDate? ==> r.value.head == known == HeadOf(commits)
      ensures r.Ok? && r.value.BaselineUnavailable? ==> r.value.currentHead == HeadOf(commits) != known
      ensures r.Ok? && r.value.Changed? ==>
                since < |commits| && IsAt(commits, known, since) && HeadOf(commits) == Some(r.value.newHead) &&
                r.value.objects == Flatten(commits[since..])
    {
      since := 0;
      var reachable: bool, retained: bool := *, *;
      if !reachable { return Err(Unreachable), 0; }
      var head := HeadOf(commits);
      if head == known { return Ok(UpToDate(head)), 0; }
      var start := 0;
      if known.Some? {
        while start < |commits| && commits[start].head != known.value
          invariant start <= |commits|
        {
          start := start + 1;
        }
        if start == |commits| { return Ok(BaselineUnavailable(head)), 0; }
        start := start + 1;
      }
      if !retained { return Ok(BaselineUnavailable(head)), 0; }
      r, since := Ok(Changed(head.value, Flatten(commits[start..]))), start;
    }

    method FreshRevision() returns (head: Id)
      ensures FreshHead(commits, head)
    {
      head := 0;
      for i := 0 to |commits|
        invariant forall k :: 0 <= k < i ==> commits[k].head < head
      {
        if head <= commits[i].head { head := commits[i].head + 1; }
      }
    }

    /** Compare and swap on the head. An error says nothing about whether it took effect. */
    method Publish(expected: Option<Id>, objects: seq<WireObject>)
      returns (r: Result<PublishOutcome, TransportError>, ghost before: seq<Commit>)
      modifies this`commits, this`publishCalls, this`published
      ensures Arrived(old(commits), before, reserved) && publishCalls == old(publishCalls) + 1 && published == r
      ensures commits == before ||
              (|commits| == |before| + 1 && commits == before + [Commit(commits[|before|].head, objects)] &&
               FreshHead(before, commits[|before|].head) && expected == HeadOf(before))
      ensures r.Ok? && r.value.Published? ==> commits != before && HeadOf(commits) == Some(r.value.head)
      ensures r.Ok? && r.value.Conflict? ==> commits == before && expected != HeadOf(before) == r.value.currentHead
    {
      publishCalls := publishCalls + 1;
      Arrivals();
      before := commits;
      var arrives: bool, answered: bool := *, *;
      r := Err(Unreachable);
      if arrives {
        var current := HeadOf(commits);
        if current != expected {
          r := Ok(Conflict(current));
        } else {
          var head := FreshRevision();
          commits := commits + [Commit(head, objects)];
          assert |commits| == |before| + 1;
          if answered { r := Ok(Published(head)); }
        }
      }
      published := r;
    }
  }

  // ---------------------------------------------------------------- single transitions

  /** Clone, apply, persist, swap. A failed write leaves the caller's record as it was. */
  method CommitReceived(record: DurableSyncRecord, store: RecordStore, merged: RecoveryState, newHead: Id)
    returns (ok: bool, next: DurableSyncRecord)
    modifies store
    ensures store.writes == old(store.writes) + 1 && store.written == ok
    ensures ok ==> fresh(next) && next.State() == store.committed == SyncRecord(merged, Some(newHead), record.outbox)
    ensures !ok ==> next == record
    ensures !ok ==> store.committed == old(store.committed) || store.committed == SyncRecord(merged, Some(newHead), record.outbox)
  {
    next := record.Clone();
    next.ApplyReceived(merged, newHead);
    ok := store.Persist(next);
    if !ok { next := record; }
  }

  datatype PersistTransitionError = StageRecovery(error: SyncRecoveryError) | StageStore

  /** A staged publication targets the cursor it was staged at. */
  method StageOutbound(record: DurableSyncRecord, store: RecordStore, exposed: RecoveryState, id: Id, objects: seq<WireObject>)
    returns (r: Result<Unit, PersistTransitionError>, next: DurableSyncRecord)
    modifies store
    ensures r.Err? && r.error.StageRecovery? <==>
              objects == [] || (id in record.outbox && record.outbox[id] != OutboxEntry(id, record.appliedCursor, objects))
    ensures r.Err? && r.error.StageRecovery? ==> r.error.error == if objects == [] then EmptyOutbox else PublicationIdentityCollision
    ensures r.Err? && r.error.StageRecovery? ==> store.writes == old(store.writes)
    ensures r.Ok? || r.error.StageStore? ==> store.writes == old(store.writes) + 1 && store.written == r.Ok?
    ensures r.Ok? ==> fresh(next) && next.State() == store.committed
    ensures r.Ok? ==> store.committed == SyncRecord(exposed, record.appliedCursor, record.outbox[id := OutboxEntry(id, record.appliedCursor, objects)])
    ensures r.Err? ==> next == record
    ensures r.Err? && r.error.StageRecovery? ==> store.committed == old(store.committed)
    ensures r.Err? ==>
              store.committed == old(store.committed) ||
              store.committed == SyncRecord(exposed, record.appliedCursor, record.outbox[id := OutboxEntry(id, record.appliedCursor, objects)])
  {
    next := record.Clone();
    var prepared := next.PrepareOutbox(exposed, id, record.appliedCursor, objects);
    match prepared {
      case Err(e) => return Err(StageRecovery(e)), record;
      case Ok(_) =>
    }
    var ok := store.Persist(next);
    if !ok { return Err(StageStore), record; }
    r := Ok(Unit);
  }

  // ---------------------------------------------------------------- batches

  datatype Batch = Batch(expected: Option<Id>, objects: seq<WireObject>)

  lemma BatchGrows(outbox: map<Id, OutboxEntry>, done: set<Id>, objects: seq<WireObject>, id: Id)
    requires IsBatch(outbox, done, objects) && id in outbox
    ensures IsBatch(outbox, done + {id}, objects + outbox[id].objects)
  {
    forall o | o in objects + outbox[id].objects
      ensures exists k :: k in done + {id} && k in outbox && o in outbox[k].objects
    {
      if o in objects {
        var k :| k in done && k in outbox && o in outbox[k].objects;
        assert k in done + {id};
      } else {
        assert id in done + {id} && o in outbox[id].objects;
      }
    }
  }

  lemma ListedStep(outbox: map<Id, OutboxEntry>, todo: set<Id>, id: Id, objects: seq<WireObject>)
    requires IsLeast(id, todo) && id in outbox
    ensures todo <= outbox.Keys ==>
              objects + Listed(outbox, Ascending(todo)) == objects + outbox[id].objects + Listed(outbox, Ascending(todo - {id}))
  {
    AscendingStep(todo, id);
  }

  lemma BatchStarts(outbox: map<Id, OutboxEntry>, ids: set<Id>)
    ensures IsBatch(outbox, {}, []) && ids - ids == {}
    ensures ids <= outbox.Keys ==> [] + Listed(outbox, Ascending(ids)) == Listed(outbox, Ascending(ids))
  {
  }

  lemma BatchEnds(outbox: map<Id, OutboxEntry>, ids: set<Id>, cursor: Option<Id>, objects: seq<WireObject>)
    requires ids != {} && ids <= outbox.Keys && forall id :: id in ids ==> outbox[id].expected == cursor
    ensures objects + Listed(outbox, Ascending({})) == objects && OneCursor(outbox, ids)
  {
  }

  lemma NothingArrived(transport: OpaqueTransport)
    ensures Arrived(transport.commits, transport.commits, transport.reserved)
  {
  }

  lemma BatchMayLand(outbox: map<Id, OutboxEntry>, ids: set<Id>, batch: Batch)
    requires ids != {} && ids <= outbox.Keys && IsBatch(outbox, ids, batch.objects)
    requires forall id :: id in ids ==> outbox[id].expected == batch.expected
    ensures forall log, head :: FreshHead(log, head) && batch.expected == HeadOf(log) ==> BatchLands(log, outbox, ids, Commit(head, batch.objects))
  {
  }

  /** The objects of several entries, in the order they are listed. */
  function Listed(outbox: map<Id, OutboxEntry>, order: seq<Id>): seq<WireObject>
    requires forall id :: id in order ==> id in outbox
  {
    if order == [] then [] else outbox[order[0]].objects + Listed(outbox, order[1..])
  }

  ghost predicate OneCursor(outbox: map<Id, OutboxEntry>, ids: set<Id>) {
    forall id, k :: id in ids && k in ids && id in outbox && k in outbox ==> outbox[id].expected == outbox[k].expected
  }

  /** The one request for a set of entries, if all of them target one cursor. */
  method CollectBatch(record: DurableSyncRecord, ids: set<Id>) returns (r: Result<Batch, BatchPublishError>)
    ensures r.Ok? <==> ids != {} && ids <= record.outbox.Keys && OneCursor(record.outbox, ids)
    ensures r.Ok? ==> IsBatch(record.outbox, ids, r.value.objects) && r.value.objects == Listed(record.outbox, Ascending(ids))
    ensures r.Ok? ==> forall id :: id in ids ==> record.outbox[id].expected == r.value.expected
    ensures r.Err? ==> match r.error
                       case EmptyBatch => ids == {}
                       case Recovery(e) => e == UnknownOutboxPublication && !(ids <= record.outbox.Keys)
                       case MixedExpectedCursor => !OneCursor(record.outbox, ids)
                       case Transport(_) => false
  {
    hide IsBatch, Listed;
    BatchStarts(record.outbox, ids);
    if ids == {} { return Err(EmptyBatch); }
    var common: Option<Option<Id>> := None;
    ghost var first := 0;
    var objects: seq<WireObject> := [];
    var todo := ids;
    while todo != {}
      invariant todo <= ids && ids - todo <= record.outbox.Keys
      invariant IsBatch(record.outbox, ids - todo, objects)
      invariant ids <= record.outbox.Keys ==> objects + Listed(record.outbox, Ascending(todo)) == Listed(record.outbox, Ascending(ids))
      invariant common.None? ==> todo == ids
      invariant common.Some? ==> forall id :: id in ids - todo ==> record.outbox[id].expected == common.value
      invariant common.Some? ==> first in ids - todo
    {
      var id := Least(todo);
      if id !in record.outbox { return Err(Recovery(UnknownOutboxPublication)); }
      var entry := record.outbox[id];
      if common.None? {
        common, first := Some(entry.expected), id;
      } else if common.value != entry.expected {
        assert id in ids && first in ids;
        return Err(MixedExpectedCursor);
      }
      BatchGrows(record.outbox, ids - todo, objects, id);
      ListedStep(record.outbox, todo, id, objects);
      assert ids - (todo - {id}) == ids - todo + {id};
      objects := objects + entry.objects;
      todo := todo - {id};
    }
    assert ids - todo == ids;
    BatchEnds(record.outbox, ids, common.value, objects);
    r := Ok(Batch(common.value, objects));
  }

  /** Nothing is sent unless all members target one cursor; otherwise everything is sent, in
      one request, and the answer is the transport's. */
  method PublishStagedBatch(record: DurableSyncRecord, ids: set<Id>, transport: OpaqueTransport)
    returns (r: Result<PublishOutcome, BatchPublishError>, ghost before: seq<Commit>)
    modifies transport`commits, transport`publishCalls, transport`published
    ensures Arrived(old(transport.commits), before, transport.reserved)
    ensures transport.publishCalls ==
            old(transport.publishCalls) + if ids != {} && ids <= record.outbox.Keys && OneCursor(record.outbox, ids) then 1 else 0
    ensures ids != {} && ids <= record.outbox.Keys && OneCursor(record.outbox, ids) ==>
              r == match transport.published
                   case Err(e) => Err(Transport(e))
                   case Ok(answer) => Ok(answer)
    ensures r.Err? ==> match r.error
                       case EmptyBatch => ids == {}
                       case Recovery(e) => e == UnknownOutboxPublication && !(ids <= record.outbox.Keys)
                       case MixedExpectedCursor => !OneCursor(record.outbox, ids)
                       case Transport(_) => ids != {} && ids <= record.outbox.Keys && OneCursor(record.outbox, ids)
    ensures transport.commits == before ||
            (|transport.commits| == |before| + 1 && transport.commits == before + [transport.commits[|before|]] &&
             BatchLands(before, record.outbox, ids, transport.commits[|before|]) &&
             ids <= record.outbox.Keys && transport.commits[|before|].objects == Listed(record.outbox, Ascending(ids)))
    ensures r.Ok? && r.value.Published? ==> transport.commits != before && HeadOf(transport.commits) == Some(r.value.head)
    ensures r.Ok? && r.value.Conflict? ==> transport.commits == before && r.value.currentHead == HeadOf(before)
    ensures r.Err? && !r.error.Transport? ==> transport.commits == old(transport.commits)
  {
    hide Arrived, IsBatch, BatchLands, FreshHead, Listed, OneCursor;
    before := transport.commits;
    NothingArrived(transport);
    var collected := CollectBatch(record, ids);
    match collected {
      case Err(e) => r := Err(e);
      case Ok(batch) =>
        BatchMayLand(record.outbox, ids, batch);
        var outcome;
        outcome, before := transport.Publish(batch.expected, batch.objects);
        match outcome {
          case Err(e) => r := Err(Transport(e));
          case Ok(o) => r := Ok(o);
        }
    }
  }

  /** Clone, retire all, persist, swap: one durable step for the whole set. */
  method CommitReconciledOutboxBatch(record: DurableSyncRecord, store: RecordStore, ids: set<Id>, reconciled: RecoveryState, newHead: Id)
    returns (r: Result<Unit, BatchCommitError>, next: DurableSyncRecord)
    modifies store
    ensures r.Ok? ==> ids != {} && ids <= record.outbox.Keys && fresh(next)
    ensures r.Ok? ==> next.State() == store.committed == SyncRecord(reconciled, Some(newHead), record.outbox - ids)
    ensures r.Err? ==> next == record
    ensures r.Err? && !r.error.Store? ==> store.committed == old(store.committed) && store.writes == old(store.writes)
    ensures r.Err? ==> match r.error
                       case EmptyCommitBatch => ids == {}
                       case CommitRecovery(e) => e == UnknownOutboxPublication && !(ids <= record.outbox.Keys)
                       case Store => ids != {} && ids <= record.outbox.Keys
    ensures ids != {} && ids <= record.outbox.Keys ==> store.writes == old(store.writes) + 1 && store.written == r.Ok?
    ensures r.Err? ==> store.committed == old(store.committed) || store.committed == SyncRecord(reconciled, Some(newHead), record.outbox - ids)
  {
    if ids == {} { return Err(EmptyCommitBatch), record; }
    next := record.Clone();
    var todo := ids;
    while todo != {}
      invariant fresh(next) && store.committed == old(store.committed) && store.writes == old(store.writes)
      invariant todo <= ids && ids - todo <= record.outbox.Keys
      invariant next.outbox == record.outbox - (ids - todo)
      invariant todo != ids ==> next.trustedState == reconciled && next.appliedCursor == Some(newHead)
    {
      var id := Least(todo);
      var retired := next.RetireOutbox(id, reconciled, newHead);
      if retired.Err? {
        assert id !in record.outbox;
        return Err(CommitRecovery(UnknownOutboxPublication)), record;
      }
      assert record.outbox - (ids - todo) - {id} == record.outbox - (ids - (todo - {id}));
      todo := todo - {id};
    }
    assert ids - todo == ids;
    var ok := store.Persist(next);
    if !ok { return Err(Store), record; }
    r := Ok(Unit);
  }
}
