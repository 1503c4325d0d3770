/** One replica, its durable record and the shared append-only log, as a transition system.
    Events are the smallest effects the resume machinery has: each may be followed by a
    crash, by another replica's commit, or by nothing. */
module RecoveryProtocol {
  import opened CausalGraph
  import opened CoreTypes
  import opened DomainMachine
  import opened RangeAssembly

  // ---------------------------------------------------------------- state

  type RecoveryState = map<DomainKey, LocalScalarSnapshot<Value>>

  datatype OutboxEntry = OutboxEntry(publicationId: Id, expected: Option<Id>, objects: seq<WireObject>)

  /** Trusted state, applied cursor and outbox always travel together. */
  datatype SyncRecord = SyncRecord(trusted: RecoveryState, cursor: Option<Id>, outbox: map<Id, OutboxEntry>)

  datatype Commit = Commit(head: Id, objects: seq<WireObject>)

  datatype Acked = Acked(id: Id, carried: Projection)

  /** `staged` is every entry that ever became durable, `acked` every publication whose
      staging reported success; both only record history. */
  datatype System = System(
    recovery: RecoveryState,
    memory: SyncRecord,
    durable: SyncRecord,
    log: seq<Commit>,
    staged: map<Id, OutboxEntry>,
    acked: set<Acked>)

  /** A failed write leaves the old or the new record durable. */
  datatype WriteOutcome = Written | FailedKeepingOld | FailedLeavingNew

  datatype Event =
    | LocalCall(domain: DomainKey, call: Call<Value>)
    | OpenDomain(domain: DomainKey)
    | Stage(id: Id, nonce: nat, selected: map<DomainKey, set<Id>>, carried: Projection, write: WriteOutcome)
    | CatchUp(since: nat, upTo: nat, preObservation: map<DomainKey, Id>, candidate: RecoveryState, write: WriteOutcome)
    | RetireObserved(ids: set<Id>, since: nat, upTo: nat, seen: Projection, write: WriteOutcome)
    | Publish(ids: set<Id>, commit: Commit)
    | RetirePublished(ids: set<Id>, at: nat, write: WriteOutcome)
    | OthersCommit(commit: Commit)
    | Crash

  // ---------------------------------------------------------------- the log

  ghost predicate UniqueHeads(log: seq<Commit>) {
    forall i, j :: 0 <= i < j < |log| ==> log[i].head != log[j].head
  }

  /** `cursor` names the position after the first `n` commits. */
  predicate IsAt(log: seq<Commit>, cursor: Option<Id>, n: nat) {
    n <= |log| && cursor == if n == 0 then None else Some(log[n - 1].head)
  }

  lemma PositionIsUnique(log: seq<Commit>, cursor: Option<Id>, m: nat, n: nat)
    requires UniqueHeads(log) && IsAt(log, cursor, m) && IsAt(log, cursor, n)
    ensures m == n
  {
    assert m > 0 && n > 0 ==> log[m - 1].head == log[n - 1].head;
  }

  predicate Mentions(commit: Commit, id: Id) {
    exists o :: o in commit.objects && o.Part? && o.publicationId == id
  }

  ghost predicate FreshHead(log: seq<Commit>, head: Id) {
    forall i :: 0 <= i < |log| ==> log[i].head != head
  }

  function Flatten(commits: seq<Commit>): seq<WireObject> {
    if commits == [] then [] else commits[0].objects + Flatten(commits[1..])
  }

  lemma {:induction false} FlattenHas(commits: seq<Commit>, i: nat, o: WireObject)
    requires i < |commits| && o in commits[i].objects
    ensures o in Flatten(commits)
    decreases i
  {
    if i > 0 { FlattenHas(commits[1..], i - 1, o); }
  }

  lemma {:induction false} FlattenComesFrom(commits: seq<Commit>, o: WireObject) returns (i: nat)
    requires o in Flatten(commits)
    ensures i < |commits| && o in commits[i].objects
    decreases |commits|
  {
    if o in commits[0].objects {
      i := 0;
    } else {
      i := FlattenComesFrom(commits[1..], o);
      i := i + 1;
    }
  }

  // ---------------------------------------------------------------- what a state knows

  ghost predicate Knows(r: RecoveryState, d: DomainKey, v: Revision<Value>) {
    d in r && v.id in r[d].working.causal && r[d].working.causal[v.id] == v
  }

  ghost predicate Covers(r: RecoveryState, p: Projection) {
    forall d, v :: Holds(p, Statement(d, v)) ==> Knows(r, d, v)
  }

  ghost predicate CoversCommit(r: RecoveryState, c: Commit) {
    forall o :: o in c.objects && o.Part? ==> Covers(r, o.clear)
  }

  ghost predicate Grows(r: RecoveryState, t: RecoveryState) {
    forall d, v :: Knows(r, d, v) ==> Knows(t, d, v)
  }

  ghost predicate RecoveryOk(r: RecoveryState) {
    forall d :: d in r ==> d.domain != [] && Inv(r[d])
  }

  ghost predicate StatementInLog(log: seq<Commit>, d: DomainKey, v: Revision<Value>) {
    exists i, o :: 0 <= i < |log| && o in log[i].objects && o.Part? && Holds(o.clear, Statement(d, v))
  }

  /** Every statement of `p` is in the log, with identical content. */
  ghost predicate InLog(log: seq<Commit>, p: Projection) {
    forall d, v :: Holds(p, Statement(d, v)) ==> StatementInLog(log, d, v)
  }

  // ---------------------------------------------------------------- transitions

  ghost function Persisted(s: System, next: SyncRecord, recovery: RecoveryState, write: WriteOutcome): System {
    match write
    case Written => s.(memory := next, durable := next, recovery := recovery)
    case FailedKeepingOld => s
    case FailedLeavingNew => s.(durable := next)
  }

  /** What a selection publishes: in each domain the selected revisions and their ancestors. */
  ghost predicate CarriesClosures(r: RecoveryState, selected: map<DomainKey, set<Id>>, p: Projection) {
    && p.Keys == selected.Keys
    && forall d :: d in selected ==> d in r && IsClosureOf(p[d], r[d].working.causal, selected[d])
  }

  ghost predicate IsClosureOf<T>(part: Graph<T>, g: Graph<T>, ids: set<Id>) {
    part.Keys == ClosureOf(g, ids) && SubGraph(part, g)
  }

  ghost predicate MayHandOff(r: RecoveryState, selected: map<DomainKey, set<Id>>) {
    && selected != map[]
    && forall d :: d in selected ==> selected[d] != {} && d in r && HandsOff(r[d].ledger, r[d].working.causal, selected[d])
  }

  ghost function HandedOffState(r: RecoveryState, selected: map<DomainKey, set<Id>>): RecoveryState {
    map d | d in r :: if d in selected then Next(r[d], Call.Handoff(selected[d])) else r[d]
  }

  function StagedEntry(s: System, id: Id, nonce: nat, carried: Projection): OutboxEntry {
    OutboxEntry(id, s.memory.cursor, [Part(id, 0, 1, carried, nonce)])
  }

  ghost function ObservedDomain(r: RecoveryState, d: DomainKey, remote: Graph<Value>, preObservation: map<DomainKey, Id>): Option<LocalScalarSnapshot<Value>> {
    var seal := if d in preObservation then Some(preObservation[d]) else None;
    if d !in r then Some(Fresh(remote))
    else if ObserveMerges(r[d].working, remote, seal) then Some(Next(r[d], ObserveRemote(remote, seal)))
    else None
  }

  /** `t` is `r` after every domain of `seen` crossed its own observation boundary. */
  ghost predicate ObservedAll(r: RecoveryState, seen: Projection, preObservation: map<DomainKey, Id>, t: RecoveryState) {
    && t.Keys == r.Keys + seen.Keys
    && (forall d :: d in r && d !in seen ==> t[d] == r[d])
    && (forall d :: d in seen ==> ObservedDomain(r, d, seen[d], preObservation) == Some(t[d]))
  }

  /** The state after applying the fetched objects. */
  ghost predicate Received(r: RecoveryState, objects: seq<WireObject>, preObservation: map<DomainKey, Id>, t: RecoveryState) {
    if objects == [] then t == r
    else RangeOutcome(objects).Some? && ObservedAll(r, RangeOutcome(objects).value, preObservation, t)
  }

  /** Every revision identity of `p` appears in `seen`; contents are not compared. */
  ghost predicate IdsObserved(p: Projection, seen: Projection) {
    forall d :: d in p ==> d in seen && p[d].Keys <= seen[d].Keys
  }

  ghost predicate IsBatch(outbox: map<Id, OutboxEntry>, ids: set<Id>, objects: seq<WireObject>) {
    && (forall id, o :: id in ids && id in outbox && o in outbox[id].objects ==> o in objects)
    && (forall o :: o in objects ==> exists id :: id in ids && id in outbox && o in outbox[id].objects)
  }

  /** The compare-and-swap accepts the batch as `commit` on top of `log`. */
  ghost predicate BatchLands(log: seq<Commit>, outbox: map<Id, OutboxEntry>, ids: set<Id>, commit: Commit) {
    && ids != {} && ids <= outbox.Keys && FreshHead(log, commit.head)
    && IsBatch(outbox, ids, commit.objects)
    && forall id :: id in ids ==> IsAt(log, outbox[id].expected, |log|)
  }

  function ClearOf(e: OutboxEntry): Projection {
    if |e.objects| > 0 && e.objects[0].Part? then e.objects[0].clear else map[]
  }

  ghost predicate Enabled(s: System, e: Event) {
    match e
    case LocalCall(d, call) => d in s.recovery && !call.ObserveRemote?
    case OpenDomain(d) => d !in s.recovery && d.domain != []
    case Stage(id, nonce, selected, carried, _) =>
      && MayHandOff(s.recovery, selected) && CarriesClosures(s.recovery, selected, carried)
      && (id in s.memory.outbox ==> s.memory.outbox[id] == StagedEntry(s, id, nonce, carried))
      && (id !in s.memory.outbox ==> forall i :: 0 <= i < |s.log| ==> !Mentions(s.log[i], id))
    case CatchUp(since, upTo, pre, candidate, _) =>
      && since < upTo <= |s.log| && IsAt(s.log, s.memory.cursor, since)
      && Received(s.recovery, Flatten(s.log[since..upTo]), pre, candidate)
    case RetireObserved(ids, since, upTo, seen, _) =>
      && ids <= s.memory.outbox.Keys
      && since < upTo <= |s.log| && IsAt(s.log, s.memory.cursor, upTo)
      && RangeOutcome(Flatten(s.log[since..upTo])) == Some(seen)
      && forall id :: id in ids ==> IdsObserved(ClearOf(s.memory.outbox[id]), seen)
    case Publish(ids, commit) => BatchLands(s.log, s.memory.outbox, ids, commit)
    case RetirePublished(ids, at, _) =>
      && ids <= s.memory.outbox.Keys && at < |s.log| && IsAt(s.log, s.memory.cursor, at)
      && IsBatch(s.memory.outbox, ids, s.log[at].objects)
    case OthersCommit(commit) =>
      FreshHead(s.log, commit.head) && forall id :: id in s.staged ==> !Mentions(commit, id)
    case Crash => true
  }

  /** The record each event tries to make durable. */
  ghost function NextRecord(s: System, e: Event): SyncRecord
    requires Enabled(s, e)
  {
    match e
    case Stage(id, nonce, selected, carried, _) =>
      SyncRecord(HandedOffState(s.recovery, selected), s.memory.cursor, s.memory.outbox[id := StagedEntry(s, id, nonce, carried)])
    case CatchUp(_, upTo, _, candidate, _) => SyncRecord(candidate, Some(s.log[upTo - 1].head), s.memory.outbox)
    case RetireObserved(ids, _, _, _, _) => s.memory.(outbox := s.memory.outbox - ids)
    case RetirePublished(ids, at, _) => SyncRecord(s.memory.trusted, Some(s.log[at].head), s.memory.outbox - ids)
    case _ => s.memory
  }

  ghost function Apply(s: System, e: Event): System
    requires Enabled(s, e)
  {
    match e
    case LocalCall(d, call) => s.(recovery := s.recovery[d := Next(s.recovery[d], call)])
    case OpenDomain(d) => s.(recovery := s.recovery[d := Fresh(map[])])
    case Stage(id, nonce, selected, carried, write) =>
      Persisted(
        s.(staged := if write.FailedKeepingOld? then s.staged else s.staged[id := StagedEntry(s, id, nonce, carried)],
           acked := if write.Written? then s.acked + {Acked(id, carried)} else s.acked),
        NextRecord(s, e), HandedOffState(s.recovery, selected), write)
    case CatchUp(_, _, _, candidate, write) => Persisted(s, NextRecord(s, e), candidate, write)
    case RetireObserved(_, _, _, _, write) => Persisted(s, NextRecord(s, e), s.recovery, write)
    case Publish(_, commit) => s.(log := s.log + [commit])
    case RetirePublished(_, _, write) => Persisted(s, NextRecord(s, e), s.recovery, write)
    case OthersCommit(commit) => s.(log := s.log + [commit])
    case Crash => s.(recovery := s.durable.trusted, memory := s.durable)
  }

  ghost function Step(s: System, e: Event): System {
    if Enabled(s, e) then Apply(s, e) else s
  }

  ghost function Run(s: System, events: seq<Event>): System
    decreases |events|
  {
    if events == [] then s else Run(Step(s, events[0]), events[1..])
  }

  // ---------------------------------------------------------------- invariant

  ghost predicate SinglePart(e: OutboxEntry, id: Id) {
    && e.publicationId == id && |e.objects| == 1 && Opens(e.objects[0])
    && e.objects[0].publicationId == id && e.objects[0].index == 0 && e.objects[0].total == 1
  }

  ghost predicate EntriesCovered(rec: SyncRecord) {
    forall id :: id in rec.outbox ==> SinglePart(rec.outbox[id], id) && Covers(rec.trusted, ClearOf(rec.outbox[id]))
  }

  ghost predicate CoveredTo(log: seq<Commit>, r: RecoveryState, n: nat) {
    forall i :: 0 <= i < n && i < |log| ==> CoversCommit(r, log[i])
  }

  ghost predicate KnownBy(log: seq<Commit>, cursor: Option<Id>, n: nat) {
    exists m: nat :: m <= n && IsAt(log, cursor, m)
  }

  ghost predicate EntriesBefore(log: seq<Commit>, outbox: map<Id, OutboxEntry>, n: nat) {
    forall id :: id in outbox ==> KnownBy(log, outbox[id].expected, n)
  }

  ghost predicate PositionOk(log: seq<Commit>, rec: SyncRecord, n: nat) {
    IsAt(log, rec.cursor, n) && CoveredTo(log, rec.trusted, n) && EntriesBefore(log, rec.outbox, n)
  }

  /** The cursor never outruns the state it is stored with. */
  ghost predicate CursorOk(log: seq<Commit>, rec: SyncRecord) {
    exists n: nat :: PositionOk(log, rec, n)
  }

  ghost predicate NoLoss(log: seq<Commit>, acked: set<Acked>, rec: SyncRecord) {
    forall a :: a in acked ==> (a.id in rec.outbox && ClearOf(rec.outbox[a.id]) == a.carried) || InLog(log, a.carried)
  }

  ghost predicate Staged(outbox: map<Id, OutboxEntry>, staged: map<Id, OutboxEntry>) {
    forall id :: id in outbox ==> id in staged && staged[id] == outbox[id]
  }

  ghost predicate RecordInv(log: seq<Commit>, staged: map<Id, OutboxEntry>, acked: set<Acked>, rec: SyncRecord) {
    RecoveryOk(rec.trusted) && CursorOk(log, rec) && EntriesCovered(rec) && Staged(rec.outbox, staged) && NoLoss(log, acked, rec)
  }

  /** A publication can only have entered the log at the position its entry expected. */
  ghost predicate PublishedAtExpected(log: seq<Commit>, staged: map<Id, OutboxEntry>) {
    forall id, i: nat :: id in staged && i < |log| && Mentions(log[i], id) ==> IsAt(log, staged[id].expected, i)
  }

  ghost predicate SystemInv(s: System) {
    && UniqueHeads(s.log) && PublishedAtExpected(s.log, s.staged)
    && RecordInv(s.log, s.staged, s.acked, s.memory)
    && RecordInv(s.log, s.staged, s.acked, s.durable)
    && RecoveryOk(s.recovery) && Grows(s.memory.trusted, s.recovery)
  }

  /** A replica that has synchronized nothing yet, beside any log. */
  ghost function Start(recovery: RecoveryState, log: seq<Commit>): System {
    var rec := SyncRecord(recovery, None, map[]);
    System(recovery, rec, rec, log, map[], {})
  }

  lemma StartIsInv(recovery: RecoveryState, log: seq<Commit>)
    requires RecoveryOk(recovery) && UniqueHeads(log)
    ensures SystemInv(Start(recovery, log))
  {
    assert PositionOk(log, Start(recovery, log).memory, 0);
  }

  // ---------------------------------------------------------------- growth

  lemma CoversGrows(r: RecoveryState, t: RecoveryState, p: Projection)
    requires Covers(r, p) && Grows(r, t)
    ensures Covers(t, p)
  {
  }

  lemma CoveredToGrows(log: seq<Commit>, r: RecoveryState, t: RecoveryState, n: nat)
    requires CoveredTo(log, r, n) && Grows(r, t)
    ensures CoveredTo(log, t, n)
  {
    hide Covers, Grows;
    forall i | 0 <= i < n && i < |log| ensures CoversCommit(t, log[i]) {
      forall o | o in log[i].objects && o.Part? ensures Covers(t, o.clear) {
        assert CoversCommit(r, log[i]);
        CoversGrows(r, t, o.clear);
      }
    }
  }

  lemma EntriesGrow(rec: SyncRecord, t: RecoveryState)
    requires EntriesCovered(rec) && Grows(rec.trusted, t)
    ensures EntriesCovered(rec.(trusted := t))
  {
    hide Covers, Grows;
    forall id | id in rec.outbox ensures Covers(t, ClearOf(rec.outbox[id])) {
      CoversGrows(rec.trusted, t, ClearOf(rec.outbox[id]));
    }
  }

  lemma IsAtExtends(log: seq<Commit>, commit: Commit, cursor: Option<Id>, n: nat)
    requires IsAt(log, cursor, n)
    ensures IsAt(log + [commit], cursor, n)
  {
  }

  lemma PositionExtends(log: seq<Commit>, commit: Commit, rec: SyncRecord, n: nat)
    requires PositionOk(log, rec, n)
    ensures PositionOk(log + [commit], rec, n)
  {
    hide CoversCommit;
    IsAtExtends(log, commit, rec.cursor, n);
    forall id | id in rec.outbox ensures KnownBy(log + [commit], rec.outbox[id].expected, n) {
      var m: nat :| m <= n && IsAt(log, rec.outbox[id].expected, m);
      IsAtExtends(log, commit, rec.outbox[id].expected, m);
    }
    forall i | 0 <= i < n && i < |log + [commit]| ensures CoversCommit(rec.trusted, (log + [commit])[i]) {
      assert CoversCommit(rec.trusted, log[i]);
    }
  }

  lemma InLogExtends(log: seq<Commit>, commit: Commit, p: Projection)
    requires InLog(log, p)
    ensures InLog(log + [commit], p)
  {
    forall d, v | Holds(p, Statement(d, v)) ensures StatementInLog(log + [commit], d, v) {
      assert StatementInLog(log, d, v);
      var i, o :| 0 <= i < |log| && o in log[i].objects && o.Part? && Holds(o.clear, Statement(d, v));
      assert (log + [commit])[i] == log[i];
    }
  }

  lemma RecordExtends(log: seq<Commit>, commit: Commit, staged: map<Id, OutboxEntry>, acked: set<Acked>, rec: SyncRecord)
    requires RecordInv(log, staged, acked, rec)
    ensures RecordInv(log + [commit], staged, acked, rec)
  {
    hide PositionOk, InLog;
    var n: nat :| PositionOk(log, rec, n);
    PositionExtends(log, commit, rec, n);
    forall a | a in acked && InLog(log, a.carried) ensures InLog(log + [commit], a.carried) {
      InLogExtends(log, commit, a.carried);
    }
  }

  lemma UniqueExtends(log: seq<Commit>, commit: Commit)
    requires UniqueHeads(log) && FreshHead(log, commit.head)
    ensures UniqueHeads(log + [commit])
  {
  }

  lemma PublishedExtends(log: seq<Commit>, commit: Commit, staged: map<Id, OutboxEntry>)
    requires PublishedAtExpected(log, staged)
    requires forall id :: id in staged && Mentions(commit, id) ==> IsAt(log, staged[id].expected, |log|)
    ensures PublishedAtExpected(log + [commit], staged)
  {
    hide Mentions;
    var longer := log + [commit];
    forall id, i: nat | id in staged && i < |longer| && Mentions(longer[i], id) ensures IsAt(longer, staged[id].expected, i) {
      if i < |log| { assert longer[i] == log[i]; }
      IsAtExtends(log, commit, staged[id].expected, i);
    }
  }

  lemma CommitKeepsInv(s: System, commit: Commit)
    requires SystemInv(s) && FreshHead(s.log, commit.head)
    requires forall id :: id in s.staged && Mentions(commit, id) ==> IsAt(s.log, s.staged[id].expected, |s.log|)
    ensures SystemInv(s.(log := s.log + [commit]))
  {
    hide RecordInv, RecoveryOk, Grows, PublishedAtExpected, Mentions, FreshHead;
    UniqueExtends(s.log, commit);
    PublishedExtends(s.log, commit, s.staged);
    RecordExtends(s.log, commit, s.staged, s.acked, s.memory);
    RecordExtends(s.log, commit, s.staged, s.acked, s.durable);
  }

  /** Only the identities in the batch are mentioned by the commit that publishes it. */
  lemma BatchMentions(outbox: map<Id, OutboxEntry>, ids: set<Id>, objects: seq<WireObject>, head: Id, id: Id)
    requires IsBatch(outbox, ids, objects) && forall k :: k in outbox ==> SinglePart(outbox[k], k)
    requires Mentions(Commit(head, objects), id)
    ensures id in ids && id in outbox
  {
    var o :| o in objects && o.Part? && o.publicationId == id;
    var k :| k in ids && k in outbox && o in outbox[k].objects;
  }

  lemma PublishKeepsInv(s: System, ids: set<Id>, commit: Commit)
    requires SystemInv(s) && Enabled(s, Publish(ids, commit))
    ensures SystemInv(s.(log := s.log + [commit]))
  {
    forall id | id in s.staged && Mentions(commit, id) ensures IsAt(s.log, s.staged[id].expected, |s.log|) {
      BatchMentions(s.memory.outbox, ids, commit.objects, commit.head, id);
    }
    CommitKeepsInv(s, commit);
  }

  // ---------------------------------------------------------------- persisting

  lemma PersistKeepsInv(s: System, next: SyncRecord, recovery: RecoveryState, write: WriteOutcome)
    requires SystemInv(s)
    requires RecordInv(s.log, s.staged, s.acked, next) && RecoveryOk(recovery) && Grows(next.trusted, recovery)
    ensures SystemInv(Persisted(s, next, recovery, write))
  {
  }

  // ---------------------------------------------------------------- local work

  lemma LocalGrows(r: RecoveryState, d: DomainKey, call: Call<Value>)
    requires RecoveryOk(r) && d in r
    ensures RecoveryOk(r[d := Next(r[d], call)]) && Grows(r, r[d := Next(r[d], call)])
  {
    assert Inv(r[d]);
    CallKeepsInv(r[d], call);
    WorkingStep(r[d], call);
    hide Inv, Next;
    var t := r[d := Next(r[d], call)];
    assert forall k :: k in t ==> k.domain != [] && Inv(t[k]);
  }

  lemma OpenGrows(r: RecoveryState, d: DomainKey)
    requires RecoveryOk(r) && d !in r && d.domain != []
    ensures RecoveryOk(r[d := Fresh(map[])]) && Grows(r, r[d := Fresh(map[])])
  {
    EmptyGraphIsValid();
    var empty: Graph<Value> := map[];
    assert Inv(Fresh(empty));
  }

  lemma GrowsTrans(r: RecoveryState, t: RecoveryState, u: RecoveryState)
    requires Grows(r, t) && Grows(t, u)
    ensures Grows(r, u)
  {
  }

  // ---------------------------------------------------------------- staging

  lemma HandoffGrows(r: RecoveryState, selected: map<DomainKey, set<Id>>)
    requires RecoveryOk(r)
    ensures RecoveryOk(HandedOffState(r, selected)) && Grows(r, HandedOffState(r, selected))
  {
    var t := HandedOffState(r, selected);
    forall d | d in t ensures d.domain != [] && Inv(t[d]) {
      assert Inv(r[d]);
      if d in selected { CallKeepsInv(r[d], Call.Handoff(selected[d])); }
    }
  }

  lemma ClosurePartIsValid<T>(part: Graph<T>, g: Graph<T>, ids: set<Id>)
    requires Valid(g) && IsClosureOf(part, g, ids)
    ensures Valid(part)
  {
    forall k, p | k in part && p in part[k].parents ensures p in part {
      ParentIsAncestor(g, k, p);
      if k !in ids {
        var r :| r in ids && Ancestor(g, k, r);
        AncestorTrans(g, p, k, r);
      }
    }
    forall x | Ancestor(part, x, x) ensures Ancestor(g, x, x) {
      var n: nat :| n > 0 && Path(part, n, x, x);
      PathUp(part, g, n, x, x);
    }
  }

  lemma CarriedIsCovered(r: RecoveryState, selected: map<DomainKey, set<Id>>, p: Projection)
    requires RecoveryOk(r) && CarriesClosures(r, selected, p)
    ensures NamedDomains(p) && ValidRegisters(p) && Covers(r, p)
  {
    forall d | d in p ensures d.domain != [] && Valid(p[d]) {
      assert Inv(r[d]);
      ClosurePartIsValid(p[d], r[d].working.causal, selected[d]);
    }
    forall d, v | Holds(p, Statement(d, v)) ensures Knows(r, d, v) {
      assert IsClosureOf(p[d], r[d].working.causal, selected[d]);
    }
  }

  lemma StagedIsSinglePart(s: System, e: Event)
    requires RecoveryOk(s.recovery) && e.Stage? && Enabled(s, e)
    ensures SinglePart(StagedEntry(s, e.id, e.nonce, e.carried), e.id)
  {
    CarriedIsCovered(s.recovery, e.selected, e.carried);
    var d :| d in e.selected;
    assert d in e.carried;
  }

  lemma OneMoreEntry(rec: SyncRecord, t: RecoveryState, entry: OutboxEntry, id: Id)
    requires EntriesCovered(rec) && Grows(rec.trusted, t) && SinglePart(entry, id) && Covers(t, ClearOf(entry))
    ensures EntriesCovered(SyncRecord(t, rec.cursor, rec.outbox[id := entry]))
  {
    hide Covers, Grows, SinglePart;
    EntriesGrow(rec, t);
  }

  lemma OneMorePosition(log: seq<Commit>, rec: SyncRecord, t: RecoveryState, entry: OutboxEntry, id: Id)
    requires CursorOk(log, rec) && Grows(rec.trusted, t) && entry.expected == rec.cursor
    ensures CursorOk(log, SyncRecord(t, rec.cursor, rec.outbox[id := entry]))
  {
    hide CoveredTo, Grows;
    var next := SyncRecord(t, rec.cursor, rec.outbox[id := entry]);
    var n: nat :| PositionOk(log, rec, n);
    CoveredToGrows(log, rec.trusted, t, n);
    assert KnownBy(log, entry.expected, n);
    assert PositionOk(log, next, n);
  }

  lemma OneMoreAcked(log: seq<Commit>, acked: set<Acked>, rec: SyncRecord, t: RecoveryState, entry: OutboxEntry, id: Id)
    requires NoLoss(log, acked, rec) && (id in rec.outbox ==> rec.outbox[id] == entry)
    ensures NoLoss(log, acked + {Acked(id, ClearOf(entry))}, SyncRecord(t, rec.cursor, rec.outbox[id := entry]))
  {
    hide InLog;
  }

  lemma StagedRecordIsInv(s: System, e: Event)
    requires SystemInv(s) && e.Stage? && Enabled(s, e)
    ensures RecordInv(s.log, s.staged[e.id := StagedEntry(s, e.id, e.nonce, e.carried)],
                      s.acked + {Acked(e.id, e.carried)}, NextRecord(s, e))
  {
    hide NoLoss, CursorOk, EntriesCovered, Mentions, Grows, Covers, CarriesClosures, RecoveryOk, MayHandOff;
    var rec, next := s.memory, NextRecord(s, e);
    var entry := StagedEntry(s, e.id, e.nonce, e.carried);
    HandoffGrows(s.recovery, e.selected);
    GrowsTrans(rec.trusted, s.recovery, next.trusted);
    CarriedIsCovered(s.recovery, e.selected, e.carried);
    CoversGrows(s.recovery, next.trusted, e.carried);
    StagedIsSinglePart(s, e);
    OneMoreEntry(rec, next.trusted, entry, e.id);
    OneMorePosition(s.log, rec, next.trusted, entry, e.id);
    OneMoreAcked(s.log, s.acked, rec, next.trusted, entry, e.id);
  }

  /** Staging never re-uses an identity the log has already seen for different content. */
  lemma StagedStaysAtExpected(s: System, e: Event)
    requires SystemInv(s) && e.Stage? && Enabled(s, e)
    ensures PublishedAtExpected(s.log, s.staged[e.id := StagedEntry(s, e.id, e.nonce, e.carried)])
  {
    hide Mentions, RecordInv, CarriesClosures, MayHandOff;
    assert e.id in s.memory.outbox ==> s.staged[e.id] == StagedEntry(s, e.id, e.nonce, e.carried) by { RecordStaged(s); }
  }

  lemma RecordStaged(s: System)
    requires SystemInv(s)
    ensures Staged(s.memory.outbox, s.staged)
  {
  }

  lemma FewerAcked(log: seq<Commit>, staged: map<Id, OutboxEntry>, acked: set<Acked>, more: set<Acked>, rec: SyncRecord)
    requires RecordInv(log, staged, more, rec) && acked <= more
    ensures RecordInv(log, staged, acked, rec)
  {
  }

  lemma MoreStaged(log: seq<Commit>, staged: map<Id, OutboxEntry>, acked: set<Acked>, rec: SyncRecord, id: Id, entry: OutboxEntry)
    requires RecordInv(log, staged, acked, rec) && (id in rec.outbox ==> rec.outbox[id] == entry)
    ensures RecordInv(log, staged[id := entry], acked, rec)
  {
    hide NoLoss, CursorOk, EntriesCovered, RecoveryOk;
  }

  lemma StageKeepsInv(s: System, e: Event)
    requires SystemInv(s) && e.Stage? && Enabled(s, e)
    ensures SystemInv(Apply(s, e))
  {
    hide RecordInv, CarriesClosures, MayHandOff, Grows, RecoveryOk, PublishedAtExpected, Mentions, HandedOffState;
    var entry := StagedEntry(s, e.id, e.nonce, e.carried);
    var staged := s.staged[e.id := entry];
    var next := NextRecord(s, e);
    StagedRecordIsInv(s, e);
    StagedStaysAtExpected(s, e);
    HandoffGrows(s.recovery, e.selected);
    GrowsSelf(next.trusted);
    FewerAcked(s.log, staged, s.acked, s.acked + {Acked(e.id, e.carried)}, next);
    MoreStaged(s.log, s.staged, s.acked, s.memory, e.id, entry);
    match e.write {
      case FailedKeepingOld =>
      case FailedLeavingNew => assert Apply(s, e) == s.(staged := staged, durable := next);
      case Written => assert Apply(s, e) == System(next.trusted, next, next, s.log, staged, s.acked + {Acked(e.id, e.carried)});
    }
  }

  lemma GrowsSelf(r: RecoveryState)
    ensures Grows(r, r)
  {
  }

  // ---------------------------------------------------------------- catching up

  lemma ObservedDomainGrows(r: RecoveryState, d: DomainKey, remote: Graph<Value>, pre: map<DomainKey, Id>)
    requires (d in r ==> Inv(r[d])) && Valid(remote) && ObservedDomain(r, d, remote, pre).Some?
    ensures var t := ObservedDomain(r, d, remote, pre).value;
            Inv(t) && SubGraph(remote, t.working.causal) && (d in r ==> SubGraph(r[d].working.causal, t.working.causal))
  {
    if d in r {
      var seal := if d in pre then Some(pre[d]) else None;
      CallKeepsInv(r[d], ObserveRemote(remote, seal));
      WorkingStep(r[d], ObserveRemote(remote, seal));
    }
  }

  lemma ObservedGrows(r: RecoveryState, seen: Projection, pre: map<DomainKey, Id>, t: RecoveryState)
    requires RecoveryOk(r) && NamedDomains(seen) && ValidRegisters(seen) && ObservedAll(r, seen, pre, t)
    ensures RecoveryOk(t) && Grows(r, t) && Covers(t, seen)
  {
    hide ObservedDomain, Inv;
    forall d | d in seen
      ensures Inv(t[d]) && SubGraph(seen[d], t[d].working.causal)
      ensures d in r ==> SubGraph(r[d].working.causal, t[d].working.causal)
    {
      ObservedDomainGrows(r, d, seen[d], pre);
    }
  }

  /** Applying a range makes every statement of every object in it known. */
  lemma ReceivedCovers(r: RecoveryState, objects: seq<WireObject>, pre: map<DomainKey, Id>, t: RecoveryState)
    requires RecoveryOk(r) && Received(r, objects, pre, t)
    ensures RecoveryOk(t) && Grows(r, t)
    ensures forall o :: o in objects && o.Part? ==> Covers(t, o.clear)
  {
    if objects != [] {
      var seen := RangeOutcome(objects).value;
      AcceptedRangeIsExact(objects, seen);
      AcceptedRangeIsNamed(objects, seen);
      ObservedGrows(r, seen, pre, t);
      var all := set o | o in objects;
      forall o | o in objects && o.Part? ensures Covers(t, o.clear) {
        assert o.clear in Clears(all) by { assert o in all; }
        forall d, v | Holds(o.clear, Statement(d, v)) ensures Knows(t, d, v) {
          assert SomeHolds(Clears(all), Statement(d, v));
          assert Holds(seen, Statement(d, v));
        }
      }
    }
  }

  lemma CaughtUpCovers(log: seq<Commit>, r: RecoveryState, t: RecoveryState, since: nat, upTo: nat)
    requires since < upTo <= |log| && CoveredTo(log, r, since) && Grows(r, t)
    requires forall o :: o in Flatten(log[since..upTo]) && o.Part? ==> Covers(t, o.clear)
    ensures CoveredTo(log, t, upTo)
  {
    hide Covers, Grows;
    CoveredToGrows(log, r, t, since);
    forall i | since <= i < upTo ensures CoversCommit(t, log[i]) {
      forall o | o in log[i].objects && o.Part? ensures Covers(t, o.clear) {
        assert log[since..upTo][i - since] == log[i];
        FlattenHas(log[since..upTo], i - since, o);
      }
    }
  }

  lemma KnownByLater(log: seq<Commit>, outbox: map<Id, OutboxEntry>, m: nat, n: nat)
    requires EntriesBefore(log, outbox, m) && m <= n
    ensures EntriesBefore(log, outbox, n)
  {
    forall id | id in outbox ensures KnownBy(log, outbox[id].expected, n) {
      assert KnownBy(log, outbox[id].expected, m);
    }
  }

  lemma CatchUpKeepsInv(s: System, e: Event)
    requires SystemInv(s) && e.CatchUp? && Enabled(s, e)
    ensures SystemInv(Apply(s, e))
  {
    hide Covers, Grows, RecoveryOk, NoLoss, Received, PublishedAtExpected, CoveredTo, EntriesBefore;
    var next := NextRecord(s, e);
    var n: nat :| PositionOk(s.log, s.memory, n);
    PositionIsUnique(s.log, s.memory.cursor, n, e.since);
    ReceivedCovers(s.recovery, Flatten(s.log[e.since..e.upTo]), e.preObservation, e.candidate);
    GrowsTrans(s.memory.trusted, s.recovery, e.candidate);
    CaughtUpCovers(s.log, s.memory.trusted, e.candidate, e.since, e.upTo);
    KnownByLater(s.log, s.memory.outbox, n, e.upTo);
    EntriesGrow(s.memory, e.candidate);
    assert PositionOk(s.log, next, e.upTo);
    assert s.memory.(trusted := e.candidate).outbox == next.outbox;
    assert EntriesCovered(next);
    assert NoLoss(s.log, s.acked, next) by { NoLossDependsOnOutbox(s.log, s.acked, s.memory, next); }
    GrowsSelf(e.candidate);
    PersistKeepsInv(s, next, e.candidate, e.write);
  }

  lemma NoLossDependsOnOutbox(log: seq<Commit>, acked: set<Acked>, rec: SyncRecord, next: SyncRecord)
    requires NoLoss(log, acked, rec) && next.outbox == rec.outbox
    ensures NoLoss(log, acked, next)
  {
  }

  // ---------------------------------------------------------------- retiring

  /** Evidence by identity alone suffices: both the entry's statements and the observed ones
      are already in one conflict-free state, so equal identities mean equal content. */
  lemma ObservedMeansInLog(s: System, e: Event, id: Id)
    requires SystemInv(s) && e.RetireObserved? && Enabled(s, e) && id in e.ids
    ensures InLog(s.log, ClearOf(s.memory.outbox[id]))
  {
    var p := ClearOf(s.memory.outbox[id]);
    var range := Flatten(s.log[e.since..e.upTo]);
    var n: nat :| PositionOk(s.log, s.memory, n);
    PositionIsUnique(s.log, s.memory.cursor, n, e.upTo);
    AcceptedRangeIsExact(range, e.seen);
    assert SinglePart(s.memory.outbox[id], id) && Covers(s.memory.trusted, p);
    forall d, v | Holds(p, Statement(d, v)) ensures StatementInLog(s.log, d, v) {
      assert Valid(p[d]) && Valid(e.seen[d]);
      var w := e.seen[d][v.id];
      assert w.id == v.id && Holds(e.seen, Statement(d, w));
      assert SomeHolds(Clears(set o | o in range), Statement(d, w));
      SourceInLog(s.log, s.memory.trusted, e.since, e.upTo, d, w);
      assert Knows(s.memory.trusted, d, v) && Knows(s.memory.trusted, d, w);
    }
  }

  /** A statement assembled from a covered range is in the log and known. */
  lemma SourceInLog(log: seq<Commit>, r: RecoveryState, since: nat, upTo: nat, d: DomainKey, w: Revision<Value>)
    requires since < upTo <= |log| && CoveredTo(log, r, upTo)
    requires SomeHolds(Clears(set o | o in Flatten(log[since..upTo])), Statement(d, w))
    ensures StatementInLog(log, d, w) && Knows(r, d, w)
  {
    var all := set o | o in Flatten(log[since..upTo]);
    var c :| c in Clears(all) && Holds(c, Statement(d, w));
    var o :| o in all && o.Part? && o.clear == c;
    var i := FlattenComesFrom(log[since..upTo], o);
    assert log[since..upTo][i] == log[since + i];
    assert CoversCommit(r, log[since + i]);
  }

  lemma RetiredNoLoss(log: seq<Commit>, acked: set<Acked>, rec: SyncRecord, ids: set<Id>, next: SyncRecord)
    requires NoLoss(log, acked, rec) && next.outbox == rec.outbox - ids && ids <= rec.outbox.Keys
    requires forall id :: id in ids ==> InLog(log, ClearOf(rec.outbox[id]))
    ensures NoLoss(log, acked, next)
  {
    hide InLog;
    forall a | a in acked
      ensures (a.id in next.outbox && ClearOf(next.outbox[a.id]) == a.carried) || InLog(log, a.carried)
    {
      if a.id in rec.outbox && ClearOf(rec.outbox[a.id]) == a.carried && a.id !in ids {
        assert a.id in next.outbox;
      }
    }
  }

  lemma RetiredRest(s: System, next: SyncRecord, ids: set<Id>, n: nat, m: nat)
    requires RecordInv(s.log, s.staged, s.acked, s.memory) && next.outbox == s.memory.outbox - ids && next.trusted == s.memory.trusted
    requires EntriesBefore(s.log, s.memory.outbox, n) && n <= m
    ensures EntriesCovered(next) && Staged(next.outbox, s.staged) && EntriesBefore(s.log, next.outbox, m)
  {
    hide Covers, CursorOk, NoLoss;
    KnownByLater(s.log, s.memory.outbox, n, m);
  }

  lemma RetireObservedKeepsInv(s: System, e: Event)
    requires SystemInv(s) && e.RetireObserved? && Enabled(s, e)
    ensures SystemInv(Apply(s, e))
  {
    hide InLog, Covers, Grows, CoveredTo, NoLoss, EntriesBefore, EntriesCovered, IdsObserved, PublishedAtExpected;
    var next := NextRecord(s, e);
    forall id | id in e.ids ensures InLog(s.log, ClearOf(s.memory.outbox[id])) { ObservedMeansInLog(s, e, id); }
    RetiredNoLoss(s.log, s.acked, s.memory, e.ids, next);
    var n: nat :| PositionOk(s.log, s.memory, n);
    RetiredRest(s, next, e.ids, n, n);
    assert PositionOk(s.log, next, n);
    PersistKeepsInv(s, next, s.recovery, e.write);
  }

  lemma BatchInLog(log: seq<Commit>, outbox: map<Id, OutboxEntry>, ids: set<Id>, at: nat, id: Id)
    requires at < |log| && IsBatch(outbox, ids, log[at].objects) && id in ids && id in outbox && SinglePart(outbox[id], id)
    ensures InLog(log, ClearOf(outbox[id]))
  {
    var o := outbox[id].objects[0];
    assert o in outbox[id].objects && o in log[at].objects;
  }

  lemma BatchCovered(rec: SyncRecord, ids: set<Id>, c: Commit)
    requires EntriesCovered(rec) && IsBatch(rec.outbox, ids, c.objects)
    ensures CoversCommit(rec.trusted, c)
  {
    forall o | o in c.objects && o.Part? ensures Covers(rec.trusted, o.clear) {
      var id :| id in ids && id in rec.outbox && o in rec.outbox[id].objects;
      assert SinglePart(rec.outbox[id], id);
    }
  }

  /** Moving the cursor over one's own commit needs no fetch: what was published was known. */
  lemma RetirePublishedKeepsInv(s: System, e: Event)
    requires SystemInv(s) && e.RetirePublished? && Enabled(s, e)
    ensures SystemInv(Apply(s, e))
  {
    hide InLog, Covers, Grows, NoLoss, EntriesBefore, EntriesCovered, CoversCommit, PublishedAtExpected;
    var next := NextRecord(s, e);
    forall id | id in e.ids ensures InLog(s.log, ClearOf(s.memory.outbox[id])) {
      assert SinglePart(s.memory.outbox[id], id) by { EntryIsSingle(s.memory, id); }
      BatchInLog(s.log, s.memory.outbox, e.ids, e.at, id);
    }
    RetiredNoLoss(s.log, s.acked, s.memory, e.ids, next);
    var n: nat :| PositionOk(s.log, s.memory, n);
    PositionIsUnique(s.log, s.memory.cursor, n, e.at);
    BatchCovered(s.memory, e.ids, s.log[e.at]);
    RetiredRest(s, next, e.ids, n, e.at + 1);
    assert PositionOk(s.log, next, e.at + 1);
    PersistKeepsInv(s, next, s.recovery, e.write);
  }

  lemma EntryIsSingle(rec: SyncRecord, id: Id)
    requires EntriesCovered(rec) && id in rec.outbox
    ensures SinglePart(rec.outbox[id], id)
  {
  }

  // ---------------------------------------------------------------- runs

  lemma StepKeepsInv(s: System, e: Event)
    requires SystemInv(s)
    ensures SystemInv(Step(s, e))
  {
    if Enabled(s, e) {
      match e {
        case LocalCall(d, call) =>
          LocalGrows(s.recovery, d, call);
          GrowsTrans(s.memory.trusted, s.recovery, s.recovery[d := Next(s.recovery[d], call)]);
        case OpenDomain(d) =>
          OpenGrows(s.recovery, d);
          GrowsTrans(s.memory.trusted, s.recovery, s.recovery[d := Fresh(map[])]);
        case Stage(_, _, _, _, _) => StageKeepsInv(s, e);
        case CatchUp(_, _, _, _, _) => CatchUpKeepsInv(s, e);
        case RetireObserved(_, _, _, _, _) => RetireObservedKeepsInv(s, e);
        case Publish(ids, commit) => PublishKeepsInv(s, ids, commit);
        case RetirePublished(_, _, _) => RetirePublishedKeepsInv(s, e);
        case OthersCommit(commit) => CommitKeepsInv(s, commit);
        case Crash => GrowsSelf(s.durable.trusted);
      }
    }
  }

  lemma {:induction false} RunKeepsInv(s: System, events: seq<Event>)
    requires SystemInv(s)
    ensures SystemInv(Run(s, events))
    decreases |events|
  {
    if events != [] {
      StepKeepsInv(s, events[0]);
      RunKeepsInv(Step(s, events[0]), events[1..]);
    }
  }

  lemma {:induction false} RunAppends(s: System, first: seq<Event>, second: seq<Event>)
    ensures Run(s, first + second) == Run(Run(s, first), second)
    decreases |first|
  {
    if first == [] {
      assert first + second == second;
    } else {
      assert (first + second)[0] == first[0] && (first + second)[1..] == first[1..] + second;
      RunAppends(Step(s, first[0]), first[1..], second);
    }
  }

  lemma {:induction false} AckedGrows(s: System, events: seq<Event>)
    ensures s.acked <= Run(s, events).acked
    decreases |events|
  {
    if events != [] { AckedGrows(Step(s, events[0]), events[1..]); }
  }

  /** Whatever happens after a publication was staged successfully, crashes, failed writes
      and lost responses included, it is still in the outbox, in memory and on disk, or the
      log holds every statement it carries with identical content. */
  lemma NoExposedWorkIsLost(s: System, before: seq<Event>, e: Event, after: seq<Event>)
    requires SystemInv(s) && e.Stage? && e.write.Written? && Enabled(Run(s, before), e)
    ensures var t := Run(s, before + [e] + after);
            forall rec :: rec in {t.memory, t.durable} ==>
              (e.id in rec.outbox && ClearOf(rec.outbox[e.id]) == e.carried) || InLog(t.log, e.carried)
  {
    hide SystemInv, Enabled;
    var u := Step(Run(s, before), e);
    var t := Run(s, before + [e] + after);
    RunAppends(s, before + [e], after);
    RunAppends(s, before, [e]);
    assert Run(Run(s, before), [e]) == u by { assert [e][1..] == []; }
    AckedGrows(u, after);
    RunKeepsInv(s, before + [e] + after);
    AckedIsSafe(t, Acked(e.id, e.carried));
  }

  lemma AckedIsSafe(t: System, a: Acked)
    requires SystemInv(t) && a in t.acked
    ensures forall rec :: rec in {t.memory, t.durable} ==>
              (a.id in rec.outbox && ClearOf(rec.outbox[a.id]) == a.carried) || InLog(t.log, a.carried)
  {
  }

  /** No publication of this replica is accepted twice. */
  lemma AcceptedAtMostOnce(s: System, events: seq<Event>, id: Id, i: nat, j: nat)
    requires SystemInv(s)
    ensures var t := Run(s, events);
            id in t.staged && i < |t.log| && j < |t.log| && Mentions(t.log[i], id) && Mentions(t.log[j], id) ==> i == j
  {
    var t := Run(s, events);
    RunKeepsInv(s, events);
    if id in t.staged && i < |t.log| && j < |t.log| && Mentions(t.log[i], id) && Mentions(t.log[j], id) {
      PositionIsUnique(t.log, t.staged[id].expected, i, j);
    }
  }

  /** In memory and on disk, after every event of every run: all commits before the applied
      cursor, and all outbox entries, are contained in the trusted state stored with them. */
  lemma CursorNeverOutrunsState(s: System, events: seq<Event>, rec: SyncRecord, n: nat)
    requires SystemInv(s) && rec in {Run(s, events).memory, Run(s, events).durable} && IsAt(Run(s, events).log, rec.cursor, n)
    ensures forall i, o :: 0 <= i < n && o in Run(s, events).log[i].objects && o.Part? ==> Covers(rec.trusted, o.clear)
    ensures forall id, o :: id in rec.outbox && o in rec.outbox[id].objects && o.Part? ==> Covers(rec.trusted, o.clear)
  {
    hide RecordInv, Covers, IsAt;
    RunKeepsInv(s, events);
    StoredIsCovered(Run(s, events).log, Run(s, events).staged, Run(s, events).acked, rec, n);
  }

  lemma StoredIsCovered(log: seq<Commit>, staged: map<Id, OutboxEntry>, acked: set<Acked>, rec: SyncRecord, n: nat)
    requires UniqueHeads(log) && RecordInv(log, staged, acked, rec) && IsAt(log, rec.cursor, n)
    ensures forall i, o :: 0 <= i < n && o in log[i].objects && o.Part? ==> Covers(rec.trusted, o.clear)
    ensures forall id, o :: id in rec.outbox && o in rec.outbox[id].objects && o.Part? ==> Covers(rec.trusted, o.clear)
  {
    hide Covers, NoLoss, RecoveryOk, EntriesBefore;
    var m: nat :| PositionOk(log, rec, m);
    PositionIsUnique(log, rec.cursor, m, n);
    assert forall i :: 0 <= i < n ==> CoversCommit(rec.trusted, log[i]);
    forall id, o | id in rec.outbox && o in rec.outbox[id].objects && o.Part? ensures Covers(rec.trusted, o.clear) {
      assert SinglePart(rec.outbox[id], id);
      assert o == rec.outbox[id].objects[0];
    }
  }

  // ---------------------------------------------------------------- reachability

  /** `t` is reached from `s` by some run of events. */
  ghost predicate Reaches(s: System, t: System) {
    exists events :: Run(s, events) == t
  }

  lemma ReachesSelf(s: System)
    ensures Reaches(s, s)
  {
    assert Run(s, []) == s;
  }

  lemma ReachesStep(s: System, e: Event)
    requires SystemInv(s) && Enabled(s, e)
    ensures Reaches(s, Apply(s, e)) && SystemInv(Apply(s, e))
  {
    hide SystemInv, Enabled;
    StepKeepsInv(s, e);
    assert [e][1..] == [];
    assert Run(s, [e]) == Run(Step(s, e), []);
  }

  lemma ReachesTrans(s: System, t: System, u: System)
    requires Reaches(s, t) && Reaches(t, u)
    ensures Reaches(s, u)
  {
    var first :| Run(s, first) == t;
    var second :| Run(t, second) == u;
    RunAppends(s, first, second);
  }
}
