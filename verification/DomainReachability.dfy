/** Which states a local domain can reach, exactly, and what becomes of a domain restored
    from an image no run produces. */
module DomainReachability {
  import opened CausalGraph
  import opened CoreTypes
  import opened DomainMachine

  // ---------------------------------------------------------------- what every run keeps

  /** Local revisions form one chain, and each names exactly the maximal revisions it saw. */
  ghost predicate LocalOrder<T>(local: set<Id>, g: Graph<T>) {
    && (forall a, b :: a in local && b in local ==> a == b || Ancestor(g, a, b) || Ancestor(g, b, a))
    && (forall k :: k in local && k in g ==> Antichain(g, g[k].parents))
  }

  /** Handing off `x` accounts for exposures: `x` was handed off, or is not local, and all
      local revisions below it are exposed. */
  ghost predicate Accounts<T>(l: FinalizationSnapshot<T>, g: Graph<T>, x: Id) {
    x in g && (x in l.handedOff || x !in l.local) && ClosureOf(g, {x}) * l.local <= l.exposed
  }

  ghost predicate Witnessed<T>(l: FinalizationSnapshot<T>, g: Graph<T>, e: Id) {
    exists x :: Accounts(l, g, x) && e in ClosureOf(g, {x})
  }

  ghost predicate ExposureIsWitnessed<T>(l: FinalizationSnapshot<T>, g: Graph<T>) {
    forall e :: e in l.exposed ==> Witnessed(l, g, e)
  }

  ghost predicate ReachInv<T>(s: LocalScalarSnapshot<T>) {
    && Inv(s)
    && LocalOrder(s.ledger.local, s.working.causal)
    && ExposureIsWitnessed(s.ledger, s.working.causal)
  }

  lemma ClosureIsLocal<T>(g: Graph<T>, h: Graph<T>, roots: set<Id>)
    requires SubGraph(g, h) && Closed(g) && roots <= g.Keys
    ensures ClosureOf(h, roots) == ClosureOf(g, roots) && ClosureOf(g, roots) <= g.Keys
  {
    forall a, x | x in roots
      ensures Ancestor(g, a, x) <==> Ancestor(h, a, x)
      ensures Ancestor(g, a, x) ==> a in g
    {
      AncestryIsLocal(g, h, a, x);
      if Ancestor(g, a, x) { AncestorIsKnown(g, a, x); }
    }
  }

  /** A call grows the register from `g` to `h` and makes `added` local: nothing, or one
      revision sealed above everything in `g`. */
  ghost predicate Grows<T>(g: Graph<T>, h: Graph<T>, added: set<Id>) {
    && SubGraph(g, h)
    && (forall m, n :: m in added && n in added ==> m == n)
    && (forall n :: n in added ==> n in h && n !in g && h[n].parents == Frontier(g) && AncestorSet(h, n) == g.Keys)
  }

  lemma SealGrows<T>(w: WorkingSnapshot<T>, id: Id)
    requires WorkingInv(w) && w.pending.Some? && id !in w.causal
    ensures Grows(w.causal, Sealed(w, id).causal, {id})
  {
    SealKeepsWorking(w, id);
  }

  lemma ObserveGrows<T>(w: WorkingSnapshot<T>, remote: Graph<T>, seal: Option<Id>)
    requires WorkingInv(w)
    ensures Grows(w.causal, Observed(w, remote, seal).causal,
                  if seal.Some? && ObserveMerges(w, remote, seal) then {seal.value} else {})
  {
    ObserveKeepsWorking(w, remote, seal);
    if seal.Some? && ObserveMerges(w, remote, seal) {
      var h := Sealed(w, seal.value).causal;
      SealKeepsWorking(w, seal.value);
      UnionIsValid(h, remote);
      AncestorSetIsLocal(h, h + remote, seal.value);
    }
  }

  lemma OrderIsLocal<T>(local: set<Id>, g: Graph<T>, h: Graph<T>)
    requires Closed(g) && SubGraph(g, h) && local <= g.Keys
    ensures LocalOrder(local, g) <==> LocalOrder(local, h)
  {
    forall a, b | a in local && b in local ensures Ancestor(g, a, b) <==> Ancestor(h, a, b) { AncestryIsLocal(g, h, a, b); }
    forall k | k in local ensures Antichain(g, g[k].parents) <==> Antichain(h, h[k].parents) {
      AntichainIsLocal(g, h, g[k].parents);
    }
  }

  /** Growth neither orders local revisions nor disorders them. */
  lemma GrowthKeepsOrder<T>(local: set<Id>, g: Graph<T>, h: Graph<T>, added: set<Id>)
    requires Closed(g) && Grows(g, h, added) && local <= g.Keys
    ensures LocalOrder(local + added, h) <==> LocalOrder(local, g)
  {
    OrderIsLocal(local, g, h);
    FrontierIsAntichain(g);
    forall n | n in added ensures Antichain(h, h[n].parents) { AntichainIsLocal(g, h, h[n].parents); }
    forall n, a | n in added && a in local ensures Ancestor(h, a, n) { assert a in AncestorSet(h, n); }
  }

  lemma GrowthKeepsWitnesses<T>(l: FinalizationSnapshot<T>, g: Graph<T>, h: Graph<T>, added: set<Id>)
    requires Closed(g) && Grows(g, h, added) && ExposureIsWitnessed(l, g)
    ensures ExposureIsWitnessed(l.(local := l.local + added), h)
  {
    var m := l.(local := l.local + added);
    forall e | e in l.exposed ensures Witnessed(m, h, e) {
      assert Witnessed(l, g, e);
      var x :| Accounts(l, g, x) && e in ClosureOf(g, {x});
      ClosureIsLocal(g, h, {x});
      assert Accounts(m, h, x);
    }
  }

  lemma HandoffKeepsWitnesses<T>(l: FinalizationSnapshot<T>, g: Graph<T>, ids: set<Id>)
    requires ExposureIsWitnessed(l, g)
    ensures ExposureIsWitnessed(HandedOff(l, g, ids), g)
  {
    var m := HandedOff(l, g, ids);
    if HandsOff(l, g, ids) {
      forall e | e in m.exposed ensures Witnessed(m, g, e) {
        if e in l.exposed {
          assert Witnessed(l, g, e);
          var x :| Accounts(l, g, x) && e in ClosureOf(g, {x});
          assert Accounts(m, g, x);
        } else {
          assert e in ClosureOf(g, ids);
          var r :| r in ids && (r == e || (e in g && Ancestor(g, e, r)));
          assert ClosureOf(g, {r}) <= ClosureOf(g, ids);
          assert Accounts(m, g, r) && e in ClosureOf(g, {r});
        }
      }
    }
  }

  lemma CallKeepsReachInv<T>(s: LocalScalarSnapshot<T>, call: Call<T>)
    requires ReachInv(s)
    ensures ReachInv(Next(s, call))
  {
    CallKeepsInv(s, call);
    var l, g, h := s.ledger, s.working.causal, Next(s, call).working.causal;
    assert l.local + {} == l.local;
    match call {
      case SealLocal(id) =>
        if id !in g && s.working.pending.Some? {
          SealGrows(s.working, id);
          GrowthKeepsOrder(l.local, g, h, {id});
          GrowthKeepsWitnesses(l, g, h, {id});
        }
      case ObserveRemote(remote, seal) =>
        var added := if seal.Some? && ObserveMerges(s.working, remote, seal) then {seal.value} else {};
        ObserveGrows(s.working, remote, seal);
        GrowthKeepsOrder(l.local, g, h, added);
        GrowthKeepsWitnesses(l, g, h, added);
      case Handoff(ids) => HandoffKeepsWitnesses(l, g, ids);
      case Finalize(id) =>
        forall e | e in l.exposed ensures Witnessed(Froze(l, g, id), g, e) {
          assert Witnessed(l, g, e);
          var x :| Accounts(l, g, x) && e in ClosureOf(g, {x});
          assert Accounts(Froze(l, g, id), g, x);
        }
      case _ =>
    }
  }

  lemma {:induction false} RunKeepsReachInv<T>(s: LocalScalarSnapshot<T>, calls: seq<Call<T>>)
    requires ReachInv(s)
    ensures ReachInv(Run(s, calls))
    decreases |calls|
  {
    if calls != [] {
      CallKeepsReachInv(s, calls[0]);
      RunKeepsReachInv(Next(s, calls[0]), calls[1..]);
    }
  }

  // ---------------------------------------------------------------- a possible handoff stays possible

  /** How a call changes the register and the set of local revisions. */
  lemma CallGrows<T>(s: LocalScalarSnapshot<T>, call: Call<T>) returns (added: set<Id>)
    requires WorkingInv(s.working)
    ensures Grows(s.working.causal, Next(s, call).working.causal, added)
    ensures Next(s, call).ledger.local == s.ledger.local + added
  {
    added := {};
    assert s.ledger.local + {} == s.ledger.local;
    match call {
      case SealLocal(id) =>
        if id !in s.working.causal && s.working.pending.Some? {
          SealGrows(s.working, id);
          added := {id};
        }
      case ObserveRemote(remote, seal) =>
        ObserveGrows(s.working, remote, seal);
        if seal.Some? && ObserveMerges(s.working, remote, seal) { added := {seal.value}; }
      case _ =>
    }
  }

  lemma CallKeepsHandoff<T>(s: LocalScalarSnapshot<T>, call: Call<T>, ids: set<Id>)
    requires Inv(s) && HandsOff(s.ledger, s.working.causal, ids)
    ensures var t := Next(s, call);
            && HandsOff(t.ledger, t.working.causal, ids)
            && SubGraph(s.working.causal, t.working.causal)
            && ClosureOf(t.working.causal, ids) == ClosureOf(s.working.causal, ids)
  {
    var t := Next(s, call);
    var g, h := s.working.causal, t.working.causal;
    CallKeepsInv(s, call);
    var added := CallGrows(s, call);
    ClosureIsLocal(g, h, ids);
  }

  /** A handoff that is possible once stays possible, with the same ancestor closure, in
      every later run of the domain. */
  lemma {:induction false} RunKeepsHandoff<T>(s: LocalScalarSnapshot<T>, calls: seq<Call<T>>, ids: set<Id>)
    requires Inv(s) && HandsOff(s.ledger, s.working.causal, ids)
    ensures var t := Run(s, calls);
            && HandsOff(t.ledger, t.working.causal, ids)
            && SubGraph(s.working.causal, t.working.causal)
            && ClosureOf(t.working.causal, ids) == ClosureOf(s.working.causal, ids)
    decreases |calls|
  {
    if calls != [] {
      CallKeepsInv(s, calls[0]);
      CallKeepsHandoff(s, calls[0], ids);
      RunKeepsHandoff(Next(s, calls[0]), calls[1..], ids);
    }
  }

  // ---------------------------------------------------------------- and nothing more

  lemma {:induction false} RunAppend<T>(s: LocalScalarSnapshot<T>, front: seq<Call<T>>, back: seq<Call<T>>)
    ensures Run(s, front + back) == Run(Run(s, front), back)
    decreases |front|
  {
    if front == [] {
      assert front + back == back;
    } else {
      assert (front + back)[0] == front[0] && (front + back)[1..] == front[1..] + back;
      RunAppend(Next(s, front[0]), front[1..], back);
    }
  }

  lemma RunOne<T>(s: LocalScalarSnapshot<T>, call: Call<T>)
    ensures Run(s, [call]) == Next(s, call)
  {
    assert [call][1..] == [];
    assert Run(Next(s, call), []) == Next(s, call);
  }

  /** Everything below one revision is a valid register of its own. */
  lemma BelowIsValid<T>(g: Graph<T>, d: Id)
    requires Valid(g)
    ensures var h := Restrict(g, AncestorSet(g, d)); Valid(h) && SubGraph(h, g) && h.Keys == AncestorSet(g, d)
  {
    forall k, p | k in AncestorSet(g, d) && p in g[k].parents ensures p in AncestorSet(g, d) {
      ParentIsAncestor(g, k, p);
      AncestorTrans(g, p, k, d);
    }
    RestrictIsValid(g, AncestorSet(g, d));
  }

  /** A revision with antichain parents names exactly the frontier of what is below it. */
  lemma ParentsAreFrontierBelow<T>(g: Graph<T>, d: Id)
    requires Valid(g) && d in g && Antichain(g, g[d].parents)
    ensures Frontier(Restrict(g, AncestorSet(g, d))) == g[d].parents
  {
    var h := Restrict(g, AncestorSet(g, d));
    BelowIsValid(g, d);
    forall p | p in g[d].parents ensures p in h { ParentIsAncestor(g, d, p); }
    forall x | x in h ensures x in Frontier(h) <==> x in g[d].parents {
      FrontierIsMaximal(h, x);
      var q := AncestorStep(g, x, d);
      if q != x { AncestryIsLocal(h, g, x, q); }
      if y :| Ancestor(h, x, y) {
        AncestorIsKnown(h, x, y);
        AncestryIsLocal(h, g, x, y);
        var r := AncestorStep(g, y, d);
        if r != y { AncestorTrans(g, x, y, r); }
      }
    }
  }

  /** A nonempty chain has a last member. */
  lemma {:induction false} Last<T>(local: set<Id>, g: Graph<T>) returns (top: Id)
    requires LocalOrder(local, g) && local != {}
    ensures top in local && forall a :: a in local && a != top ==> Ancestor(g, a, top)
    decreases |local|
  {
    var k :| k in local;
    var rest := local - {k};
    if rest == {} {
      top := k;
    } else {
      var m := Last(rest, g);
      top := if Ancestor(g, k, m) then m else k;
      forall a | a in local && a != top ensures Ancestor(g, a, top) {
        if a != k && a != m && top == k { AncestorTrans(g, a, m, k); }
      }
    }
  }

  ghost function Owning<T>(g: Graph<T>, local: set<Id>): LocalScalarSnapshot<T> {
    LocalScalarSnapshot(WorkingSnapshot(g, None), FinalizationSnapshot(local, map[], {}, {}))
  }

  /** Seal `top` on what is below it, then learn the rest. */
  lemma SealAndLearn<T>(g: Graph<T>, local: set<Id>, top: Id) returns (calls: seq<Call<T>>)
    requires Valid(g) && top in g && top in local && Antichain(g, g[top].parents)
    ensures Run(Owning(Restrict(g, AncestorSet(g, top)), local - {top}), calls) == Owning(g, local)
  {
    var h := Restrict(g, AncestorSet(g, top));
    var s := Owning(h, local - {top});
    BelowIsValid(g, top);
    ParentsAreFrontierBelow(g, top);
    var begin, seal, learn := BeginEpoch(0, g[top].value), SealLocal(top), ObserveRemote(g, None);
    var begun := Next(s, begin);
    var sealed := Next(begun, seal);
    assert sealed.working.causal == h[top := g[top]];
    assert local - {top} + {top} == local;
    assert sealed == Owning(h[top := g[top]], local);
    assert h[top := g[top]] + g == g;
    assert Next(sealed, learn) == Owning(g, local);
    calls := [begin, seal, learn];
    assert calls[1..] == [seal, learn] && calls[1..][1..] == [learn];
    RunOne(sealed, learn);
  }

  lemma {:induction false} ReachOwning<T>(g: Graph<T>, local: set<Id>) returns (start: Graph<T>, calls: seq<Call<T>>)
    requires Valid(g) && local <= g.Keys && LocalOrder(local, g)
    ensures Valid(start) && Run(Fresh(start), calls) == Owning(g, local)
    decreases |local|
  {
    if local == {} {
      start, calls := g, [];
    } else {
      var top := Last(local, g);
      var h := Restrict(g, AncestorSet(g, top));
      BelowIsValid(g, top);
      OrderIsLocal(local - {top}, h, g);
      var front: seq<Call<T>>;
      start, front := ReachOwning(h, local - {top});
      var back := SealAndLearn(g, local, top);
      RunAppend(Fresh(start), front, back);
      calls := front + back;
    }
  }

  lemma {:induction false} ReachFrozen<T>(g: Graph<T>, local: set<Id>, finalized: map<Id, Revision<T>>)
    returns (calls: seq<Call<T>>)
    requires finalized.Keys <= local <= g.Keys && SubGraph(finalized, g)
    ensures var s := Owning(g, local); Run(s, calls) == s.(ledger := s.ledger.(finalized := finalized))
    decreases |finalized|
  {
    var s := Owning(g, local);
    if finalized == map[] {
      calls := [];
    } else {
      var k :| k in finalized;
      var front := ReachFrozen(g, local, finalized - {k});
      RunAppend(s, front, [Finalize(k)]);
      RunOne(Run(s, front), Finalize(k));
      assert (finalized - {k})[k := g[k]] == finalized;
      calls := front + [Finalize(k)];
    }
  }

  /** One handoff that exposes exactly what the state exposes. */
  lemma ReachExposed<T>(s: LocalScalarSnapshot<T>) returns (ids: set<Id>)
    requires ReachInv(s)
    ensures var l := s.ledger; HandedOff(l.(exposed := {}, handedOff := {}), s.working.causal, ids) == l
  {
    var l, g := s.ledger, s.working.causal;
    ids := set x | x in g && Accounts(l, g, x);
    forall h | h in l.handedOff ensures Accounts(l, g, h) {
      forall a | a in ClosureOf(g, {h}) && a in l.local ensures a in l.exposed {
        assert a == h || Ancestor(g, a, h);
      }
    }
    forall e ensures e in ClosureOf(g, ids) * l.local <==> e in l.exposed {
      if e in l.exposed {
        assert Witnessed(l, g, e);
        var x :| Accounts(l, g, x) && e in ClosureOf(g, {x});
        assert x in ids;
      }
      if e in ClosureOf(g, ids) && e in l.local {
        var x :| x in ids && (x == e || (e in g && Ancestor(g, e, x)));
        assert e in ClosureOf(g, {x}) * l.local;
      }
    }
    assert ClosureOf(g, ids) * l.local == l.exposed;
    assert ids * l.local == l.handedOff by {
      forall x | x in ids * l.local ensures x in l.handedOff { assert Accounts(l, g, x); }
    }
  }

  lemma Reach<T>(s: LocalScalarSnapshot<T>) returns (start: Graph<T>, calls: seq<Call<T>>)
    requires ReachInv(s)
    ensures Valid(start) && Run(Fresh(start), calls) == s
  {
    var l, g := s.ledger, s.working.causal;
    var front: seq<Call<T>>;
    start, front := ReachOwning(g, l.local);
    var freeze := ReachFrozen(g, l.local, l.finalized);
    RunAppend(Fresh(start), front, freeze);
    var ids := ReachExposed(s);
    var frozen := Run(Fresh(start), front + freeze);
    RunAppend(Fresh(start), front + freeze, [Handoff(ids)]);
    RunOne(frozen, Handoff(ids));
    calls := front + freeze + [Handoff(ids)];
    var closed := s.(working := s.working.(pending := None));
    assert Run(Fresh(start), calls) == closed;
    if s.working.pending.Some? {
      var p := s.working.pending.value;
      RunAppend(Fresh(start), calls, [BeginEpoch(p.id, p.value)]);
      RunOne(closed, BeginEpoch(p.id, p.value));
      calls := calls + [BeginEpoch(p.id, p.value)];
    }
  }

  ghost predicate Reached<T>(s: LocalScalarSnapshot<T>, start: Graph<T>, calls: seq<Call<T>>) {
    Valid(start) && Run(Fresh(start), calls) == s
  }

  ghost predicate Reachable<T(!new)>(s: LocalScalarSnapshot<T>) {
    exists start, calls :: Reached(s, start, calls)
  }

  /** The reachable states, exactly: the containment chain, one ancestry chain of local
      revisions with captured parents, and exposures that some handoff accounts for. */
  lemma ReachableExactly<T(!new)>(s: LocalScalarSnapshot<T>)
    ensures Reachable(s) <==> ReachInv(s)
  {
    if ReachInv(s) {
      var start, calls := Reach(s);
      assert Reached(s, start, calls);
    }
    if Reachable(s) {
      var start, calls :| Reached(s, start, calls);
      RunKeepsReachInv(Fresh(start), calls);
    }
  }

  // ---------------------------------------------------------------- life after an unreachable image

  ghost function Unfrozen<T>(l: FinalizationSnapshot<T>): set<Id> {
    l.exposed - l.finalized.Keys
  }

  /** Local revisions below an exposed one that are not exposed themselves. */
  ghost function Gap<T>(l: FinalizationSnapshot<T>, g: Graph<T>): set<Id> {
    set a | a in l.local && a !in l.exposed && exists e :: e in l.exposed && Ancestor(g, a, e)
  }

  /** What restoring leaves of the invariant. */
  ghost predicate Restored<T>(s: LocalScalarSnapshot<T>) {
    Keyed(s.working.causal) && Restorable(s)
  }

  lemma RestoredShort<T>(s: LocalScalarSnapshot<T>)
    ensures Restored(s) <==>
              && WorkingInv(s.working)
              && s.ledger.handedOff <= s.ledger.exposed <= s.ledger.local <= s.working.causal.Keys
              && s.ledger.finalized.Keys <= s.ledger.local && SubGraph(s.ledger.finalized, s.working.causal)
    ensures Restored(s) ==> (Inv(s) <==> Unfrozen(s.ledger) == {} && Gap(s.ledger, s.working.causal) == {})
  {
    assert Unfrozen(s.ledger) == {} <==> s.ledger.exposed <= s.ledger.finalized.Keys by {
      assert forall e :: e in s.ledger.exposed ==> e in s.ledger.finalized || e in Unfrozen(s.ledger);
    }
    if Restored(s) && Gap(s.ledger, s.working.causal) == {} {
      forall e, a | e in s.ledger.exposed && a in s.ledger.local && Ancestor(s.working.causal, a, e)
        ensures a in s.ledger.exposed
      {
        assert a in s.ledger.exposed || a in Gap(s.ledger, s.working.causal);
      }
    }
  }

  lemma CallKeepsRestored<T>(s: LocalScalarSnapshot<T>, call: Call<T>)
    requires Restored(s)
    ensures Restored(Next(s, call))
    ensures Unfrozen(Next(s, call).ledger) == Unfrozen(s.ledger) - (if call.Finalize? then {call.id} else {})
  {
    hide Valid, Ancestor;
    RestoredShort(s);
    RestoredShort(Next(s, call));
    WorkingStep(s, call);
    var added := CallGrows(s, call);
    if call.Handoff? { assert ClosureOf(s.working.causal, call.ids) * s.ledger.local <= s.working.causal.Keys; }
  }

  lemma CallClosesGaps<T>(s: LocalScalarSnapshot<T>, call: Call<T>)
    requires Restored(s)
    ensures var t := Next(s, call);
            Gap(t.ledger, t.working.causal) == Gap(s.ledger, s.working.causal) - t.ledger.exposed
  {
    var t := Next(s, call);
    var g, h := s.working.causal, t.working.causal;
    var added := CallGrows(s, call);
    RestoredShort(s);
    forall a, e | a in t.ledger.local && e in s.ledger.exposed
      ensures Ancestor(h, a, e) <==> Ancestor(g, a, e)
      ensures Ancestor(g, a, e) ==> a in s.ledger.local
    {
      AncestryIsLocal(g, h, a, e);
      if Ancestor(g, a, e) { AncestorIsKnown(g, a, e); }
    }
    forall a, e | a in t.ledger.local && e in t.ledger.exposed && e !in s.ledger.exposed && Ancestor(h, a, e)
      ensures a in t.ledger.exposed
    {
      NewExposureIsClosed(s.ledger, g, call.ids, a, e);
    }
  }

  /** What a handoff exposes, it exposes with everything local below it. */
  lemma NewExposureIsClosed<T>(l: FinalizationSnapshot<T>, g: Graph<T>, ids: set<Id>, a: Id, e: Id)
    requires e in HandedOff(l, g, ids).exposed && e !in l.exposed && a in l.local && Ancestor(g, a, e)
    ensures a in HandedOff(l, g, ids).exposed
  {
    AncestorIsKnown(g, a, e);
    if e !in ids {
      var r :| r in ids && Ancestor(g, e, r);
      AncestorTrans(g, a, e, r);
    }
  }

  /** After a restart from any accepted image and any run: the exposed revisions still
      without a frozen statement are exactly the restored ones nobody finalized, and the
      holes in exposure are exactly the restored ones no handoff has covered. */
  lemma {:induction false} RestoredRunGaps<T>(s: LocalScalarSnapshot<T>, calls: seq<Call<T>>)
    requires Restored(s)
    ensures var t := Run(s, calls);
            && Restored(t)
            && s.ledger.exposed <= t.ledger.exposed
            && Unfrozen(t.ledger) == (set e | e in Unfrozen(s.ledger) && Finalize(e) !in calls)
            && Gap(t.ledger, t.working.causal) == Gap(s.ledger, s.working.causal) - t.ledger.exposed
    decreases |calls|
  {
    if calls != [] {
      var m := Next(s, calls[0]);
      CallKeepsRestored(s, calls[0]);
      CallClosesGaps(s, calls[0]);
      RestoredRunGaps(m, calls[1..]);
      FinalizedLater(Unfrozen(s.ledger), calls);
    }
  }

  lemma FinalizedLater<T>(ids: set<Id>, calls: seq<Call<T>>)
    requires calls != []
    ensures (set e | e in ids && Finalize(e) !in calls) ==
            (set e | e in ids - (if calls[0].Finalize? then {calls[0].id} else {}) && Finalize(e) !in calls[1..])
  {
    assert calls == [calls[0]] + calls[1..];
  }

  /** The `i`-th call is a handoff the run accepts, of something at or below which `a` lies. */
  ghost predicate Covered<T>(s: LocalScalarSnapshot<T>, calls: seq<Call<T>>, i: nat, a: Id) {
    && i < |calls| && calls[i].Handoff?
    && var m := Run(s, calls[..i]);
       HandsOff(m.ledger, m.working.causal, calls[i].ids) && a in ClosureOf(m.working.causal, calls[i].ids)
  }

  lemma CoveredLater<T>(s: LocalScalarSnapshot<T>, calls: seq<Call<T>>, i: nat, a: Id)
    requires i + 1 < |calls|
    ensures Covered(s, calls, i + 1, a) <==> Covered(Next(s, calls[0]), calls[1..], i, a)
  {
    assert calls[..i + 1][1..] == calls[1..][..i];
  }

  lemma CallExposes<T>(s: LocalScalarSnapshot<T>, calls: seq<Call<T>>, a: Id)
    requires calls != [] && a in s.ledger.local && a !in s.ledger.exposed
    ensures a in Next(s, calls[0]).ledger.exposed <==> Covered(s, calls, 0, a)
    ensures a in Next(s, calls[0]).ledger.local
  {
    assert Run(s, calls[..0]) == s;
  }

  lemma {:induction false} ExposedForGood<T>(s: LocalScalarSnapshot<T>, calls: seq<Call<T>>)
    ensures s.ledger.exposed <= Run(s, calls).ledger.exposed
    decreases |calls|
  {
    if calls != [] { ExposedForGood(Next(s, calls[0]), calls[1..]); }
  }

  /** A local revision becomes exposed in a run exactly when an accepted handoff covers it. */
  lemma {:induction false} ExposedExactly<T>(s: LocalScalarSnapshot<T>, calls: seq<Call<T>>, a: Id)
    requires a in s.ledger.local && a !in s.ledger.exposed
    ensures a in Run(s, calls).ledger.exposed <==> exists i: nat :: Covered(s, calls, i, a)
    decreases |calls|
  {
    hide Next, Covered;
    if calls == [] {
      forall i: nat ensures !Covered(s, calls, i, a) { NothingCovered(s, i, a); }
    } else {
      var m := Next(s, calls[0]);
      CallExposes(s, calls, a);
      if a in m.ledger.exposed {
        ExposedForGood(m, calls[1..]);
      } else {
        ExposedExactly(m, calls[1..], a);
        if i: nat :| Covered(m, calls[1..], i, a) {
          CoveredInRange(m, calls[1..], i, a);
          CoveredLater(s, calls, i, a);
        }
        if j: nat :| Covered(s, calls, j, a) {
          CoveredInRange(s, calls, j, a);
          assert j != 0;
          CoveredLater(s, calls, j - 1, a);
        }
      }
    }
  }

  lemma NothingCovered<T>(s: LocalScalarSnapshot<T>, i: nat, a: Id)
    ensures !Covered(s, [], i, a)
  {
  }

  lemma CoveredInRange<T>(s: LocalScalarSnapshot<T>, calls: seq<Call<T>>, i: nat, a: Id)
    ensures Covered(s, calls, i, a) ==> i < |calls|
  {
  }

  /** So a restored domain is back under the invariant exactly when every unfrozen exposure
      has been finalized and every hole was covered by an accepted handoff. */
  lemma RestoredRunHasInvExactly<T>(s: LocalScalarSnapshot<T>, calls: seq<Call<T>>)
    requires Restored(s)
    ensures Inv(Run(s, calls)) <==>
              && (forall e :: e in Unfrozen(s.ledger) ==> Finalize(e) in calls)
              && (forall a :: a in Gap(s.ledger, s.working.causal) ==> exists i: nat :: Covered(s, calls, i, a))
  {
    hide Restored, Inv, Unfrozen, Gap, Covered;
    var t := Run(s, calls);
    RestoredRunGaps(s, calls);
    RestoredShort(t);
    assert Unfrozen(t.ledger) == {} <==> forall e :: e in Unfrozen(s.ledger) ==> Finalize(e) in calls by {
      assert forall e :: e in Unfrozen(s.ledger) && Finalize(e) !in calls ==> e in Unfrozen(t.ledger);
    }
    var gap := Gap(s.ledger, s.working.causal);
    forall a | a in gap ensures a in t.ledger.exposed <==> exists i: nat :: Covered(s, calls, i, a) {
      GapIsLocal(s.ledger, s.working.causal, a);
      ExposedExactly(s, calls, a);
    }
    assert gap - t.ledger.exposed == {} <==> gap <= t.ledger.exposed by {
      assert forall a :: a in gap ==> a in gap - t.ledger.exposed || a in t.ledger.exposed;
    }
  }

  lemma GapIsLocal<T>(l: FinalizationSnapshot<T>, g: Graph<T>, a: Id)
    requires a in Gap(l, g)
    ensures a in l.local && a !in l.exposed
  {
  }

  /** The order of local revisions never recovers: it holds after a restart exactly when the
      image had it, whatever is done since. */
  lemma {:induction false} LocalOrderIsForever<T>(s: LocalScalarSnapshot<T>, calls: seq<Call<T>>)
    requires Restored(s)
    ensures LocalOrder(Run(s, calls).ledger.local, Run(s, calls).working.causal) <==>
            LocalOrder(s.ledger.local, s.working.causal)
    decreases |calls|
  {
    if calls != [] {
      RestoredShort(s);
      CallKeepsRestored(s, calls[0]);
      var added := CallGrows(s, calls[0]);
      GrowthKeepsOrder(s.ledger.local, s.working.causal, Next(s, calls[0]).working.causal, added);
      LocalOrderIsForever(Next(s, calls[0]), calls[1..]);
    }
  }

  /** A reachable state is always accepted; an image with two concurrent local revisions is
      accepted too, and no run from any register produces it. */
  lemma RestoreAcceptsConcurrentLocals()
    ensures var g: Graph<bool> := map[0 := Revision(0, true, {}), 1 := Revision(1, true, {})];
            var s := Owning(g, {0, 1});
            Restorable(s) && Inv(s) && !Reachable(s)
  {
    var g: Graph<bool> := map[0 := Revision(0, true, {}), 1 := Revision(1, true, {})];
    var s := Owning(g, {0, 1});
    assert Ranks(g, map[]);
    RankedIsAcyclic(g, map[]);
    assert Inv(s) && Restorable(s);
    if Ancestor(g, 0, 1) { var q := AncestorStep(g, 0, 1); }
    if Ancestor(g, 1, 0) { var q := AncestorStep(g, 1, 0); }
    assert !LocalOrder(s.ledger.local, g);
    ReachableExactly(s);
  }
}
