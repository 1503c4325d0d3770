/** The frontier-parent register against the explicit all-ancestors oracle: after any
    history of assignments and merges over any number of replicas, the compact graph's
    ancestry is the oracle's recorded context. */
module OracleRefinement {
  import opened CausalGraph

  // ---------------------------------------------------------------- the oracle register

  datatype OracleRevision<T> = OracleRevision(id: Id, value: T, context: set<Id>)

  type Oracle<T> = map<Id, OracleRevision<T>>

  function ObservedContext<T>(o: Oracle<T>): set<Id> {
    o.Keys + set k, x | k in o && x in o[k].context :: x
  }

  /** Refused when the new revision would observe itself, or when the identity already
      carries another statement. */
  function OracleAssign<T(==)>(o: Oracle<T>, id: Id, v: T): Option<Oracle<T>> {
    var r := OracleRevision(id, v, ObservedContext(o));
    if id in r.context || (id in o && o[id] != r) then None else Some(o[id := r])
  }

  ghost function OracleMerge<T>(o: Oracle<T>, p: Oracle<T>): Option<Oracle<T>> {
    if forall k :: k in o && k in p ==> o[k] == p[k] then Some(o + p) else None
  }

  function OracleFrontier<T>(o: Oracle<T>): set<Id> {
    set x | x in o && forall k :: k in o ==> x !in o[k].context
  }

  // ---------------------------------------------------------------- the compact register

  ghost function CompactAssign<T>(g: Graph<T>, id: Id, v: T): Option<Graph<T>> {
    var r := Revision(id, v, Frontier(g));
    if id in r.parents || (id in g && g[id] != r) || !Closed(g[id := r]) || !Acyclic(g[id := r]) then None
    else Some(g[id := r])
  }

  ghost function CompactMerge<T>(g: Graph<T>, h: Graph<T>): Option<Graph<T>> {
    if Agree(g, h) && Closed(g + h) && Acyclic(g + h) then Some(g + h) else None
  }

  // ---------------------------------------------------------------- what the operations store

  /** An assignment is refused exactly for an identity already observed; otherwise it observes
      everything known and becomes the only frontier member. */
  lemma OracleAssignStores<T>(o: Oracle<T>, id: Id, v: T)
    ensures OracleAssign(o, id, v).None? <==> id in o || exists k :: k in o && id in o[k].context
    ensures OracleAssign(o, id, v).Some? ==>
              var p := OracleAssign(o, id, v).value;
              && p.Keys == o.Keys + {id} && (forall k :: k in o ==> p[k] == o[k])
              && p[id].id == id && p[id].value == v
              && (forall k :: k in p[id].context <==> k in o || exists j :: j in o && k in o[j].context)
              && OracleFrontier(p) == {id}
  {
    if k :| k in o && id in o[k].context { assert id in ObservedContext(o); }
    if OracleAssign(o, id, v).Some? {
      var p := OracleAssign(o, id, v).value;
      forall x | x in p ensures x in OracleFrontier(p) <==> x == id {
        if x != id { assert x in p[id].context; }
      }
    }
  }

  /** A merge is refused exactly for two statements of one identity; otherwise it holds the
      statements of both sides. */
  lemma OracleMergeStores<T>(o: Oracle<T>, p: Oracle<T>)
    ensures OracleMerge(o, p).None? <==> exists k :: k in o && k in p && o[k] != p[k]
    ensures OracleMerge(o, p).Some? ==>
              var m := OracleMerge(o, p).value;
              m.Keys == o.Keys + p.Keys && (forall k :: k in o ==> m[k] == o[k]) && (forall k :: k in p ==> m[k] == p[k])
  {
  }

  /** The same for the compact register: on valid registers the validation never refuses. */
  lemma CompactAssignStores<T>(g: Graph<T>, id: Id, v: T)
    requires Valid(g)
    ensures CompactAssign(g, id, v).None? <==> id in g
    ensures CompactAssign(g, id, v).Some? ==>
              var h := CompactAssign(g, id, v).value;
              && h.Keys == g.Keys + {id} && SubGraph(g, h) && h[id].value == v
              && Frontier(h) == {id} && AncestorSet(h, id) == g.Keys
  {
    if id in g { NoSuccessorIsKnown(g, id, v); } else { AssignObservesAll(g, id, v); }
  }

  lemma CompactMergeStores<T>(g: Graph<T>, h: Graph<T>)
    requires Valid(g) && Valid(h)
    ensures CompactMerge(g, h).None? <==> exists k :: k in g && k in h && g[k] != h[k]
    ensures CompactMerge(g, h).Some? ==>
              var m := CompactMerge(g, h).value; m.Keys == g.Keys + h.Keys && SubGraph(g, m) && SubGraph(h, m)
  {
    if Agree(g, h) { UnionIsValid(g, h); }
  }

  // ---------------------------------------------------------------- histories

  /** One replica kept in both representations. */
  datatype Replica<T> = Replica(compact: Graph<T>, oracle: Oracle<T>)

  type World<T> = seq<Replica<T>>

  datatype Op<T> = Assign(at: nat, id: Id, value: T) | Merge(into: nat, from: nat)

  function OrElse<V>(o: Option<V>, d: V): V { if o.Some? then o.value else d }

  /** A refused operation leaves its register unchanged, in each representation separately. */
  ghost function Step<T>(w: World<T>, op: Op<T>): World<T> {
    match op
    case Assign(i, id, v) =>
      if i >= |w| then w
      else w[i := Replica(OrElse(CompactAssign(w[i].compact, id, v), w[i].compact),
                          OrElse(OracleAssign(w[i].oracle, id, v), w[i].oracle))]
    case Merge(i, j) =>
      if i >= |w| || j >= |w| then w
      else w[i := Replica(OrElse(CompactMerge(w[i].compact, w[j].compact), w[i].compact),
                          OrElse(OracleMerge(w[i].oracle, w[j].oracle), w[i].oracle))]
  }

  ghost function Run<T>(w: World<T>, ops: seq<Op<T>>): World<T>
    decreases |ops|
  {
    if ops == [] then w else Run(Step(w, ops[0]), ops[1..])
  }

  /** An identity may be assigned twice on its own replica (and is then refused there),
      but two replicas never mint the same one. */
  ghost predicate MintedOnce<T>(w: World<T>, op: Op<T>) {
    op.Assign? ==> forall j :: 0 <= j < |w| && j != op.at && op.at < |w| && op.id in w[j].compact ==> op.id in w[op.at].compact
  }

  ghost predicate FreshRun<T>(w: World<T>, ops: seq<Op<T>>)
    decreases |ops|
  {
    ops == [] || (MintedOnce(w, ops[0]) && FreshRun(Step(w, ops[0]), ops[1..]))
  }

  // ---------------------------------------------------------------- refinement

  /** The oracle records exactly the compact graph's strict ancestry. */
  ghost predicate Refines<T>(g: Graph<T>, o: Oracle<T>) {
    && Valid(g)
    && o.Keys == g.Keys
    && forall k :: k in g ==> o[k] == OracleRevision(k, g[k].value, AncestorSet(g, k))
  }

  ghost predicate WorldRefines<T>(w: World<T>) {
    && (forall i :: 0 <= i < |w| ==> Refines(w[i].compact, w[i].oracle))
    && (forall i, j :: 0 <= i < |w| && 0 <= j < |w| ==> Agree(w[i].compact, w[j].compact))
  }

  /** Equal ancestry means equal frontiers, hence equal winners and equal shown values. */
  lemma RefinementFixesFrontier<T>(g: Graph<T>, o: Oracle<T>)
    requires Refines(g, o)
    ensures OracleFrontier(o) == Frontier(g)
  {
    forall x | x in g ensures x in OracleFrontier(o) <==> x in Frontier(g) {
      FrontierIsMaximal(g, x);
      forall d | Ancestor(g, x, d) ensures d in g { AncestorIsKnown(g, x, d); }
    }
  }

  /** Assignment succeeds in both representations exactly when the identity is new. */
  lemma AssignRefines<T>(g: Graph<T>, o: Oracle<T>, id: Id, v: T)
    requires Refines(g, o)
    ensures CompactAssign(g, id, v).Some? <==> id !in g
    ensures OracleAssign(o, id, v).Some? <==> id !in g
    ensures id !in g ==> CompactAssign(g, id, v) == Some(g[id := Revision(id, v, Frontier(g))])
    ensures id !in g ==> Refines(CompactAssign(g, id, v).value, OracleAssign(o, id, v).value)
  {
    if id in g {
      NoSuccessorIsKnown(g, id, v);
    } else {
      AssignObservesAll(g, id, v);
      var h := g[id := Revision(id, v, Frontier(g))];
      assert ObservedContext(o) == g.Keys;
      forall k | k in g ensures AncestorSet(g, k) == AncestorSet(h, k) {
        AncestorSetIsLocal(g, h, k);
      }
    }
  }

  lemma NoSuccessorIsKnown<T>(g: Graph<T>, id: Id, v: T)
    requires Valid(g) && id in g
    ensures id in Frontier(g) || g[id] != Revision(id, v, Frontier(g))
  {
    if g[id].parents == Frontier(g) {
      var f := BelowFrontier(g, id);
      if f != id {
        ParentIsAncestor(g, id, f);
        AncestorTrans(g, id, f, id);
      }
    }
  }

  lemma MergeRefines<T>(g: Graph<T>, o: Oracle<T>, h: Graph<T>, p: Oracle<T>)
    requires Refines(g, o) && Refines(h, p) && Agree(g, h)
    ensures CompactMerge(g, h) == Some(g + h) && OracleMerge(o, p) == Some(o + p)
    ensures Refines(g + h, o + p)
  {
    UnionIsValid(g, h);
    forall k | k in g ensures o[k].context == AncestorSet(g + h, k) { AncestorSetIsLocal(g, g + h, k); }
    forall k | k in h ensures p[k].context == AncestorSet(g + h, k) { AncestorSetIsLocal(h, g + h, k); }
  }

  /** Replacing one replica by another that still agrees with the rest. */
  lemma ReplaceRefines<T>(w: World<T>, i: nat, r: Replica<T>)
    requires WorldRefines(w) && i < |w| && Refines(r.compact, r.oracle)
    requires forall j :: 0 <= j < |w| && j != i ==> Agree(r.compact, w[j].compact)
    ensures WorldRefines(w[i := r])
  {
  }

  lemma StepRefines<T>(w: World<T>, op: Op<T>)
    requires WorldRefines(w) && MintedOnce(w, op)
    ensures WorldRefines(Step(w, op))
  {
    match op
    case Assign(i, id, v) =>
      if i < |w| && id !in w[i].compact {
        AssignRefines(w[i].compact, w[i].oracle, id, v);
        ReplaceRefines(w, i, Step(w, op)[i]);
      } else if i < |w| {
        AssignRefines(w[i].compact, w[i].oracle, id, v);
        assert Step(w, op) == w;
      }
    case Merge(i, j) =>
      if i < |w| && j < |w| {
        MergeRefines(w[i].compact, w[i].oracle, w[j].compact, w[j].oracle);
        ReplaceRefines(w, i, Step(w, op)[i]);
      }
  }

  /** In every history from empty replicas, each replica's compact ancestry is its oracle
      context, so both representations show the same frontier and the same winner. */
  lemma {:induction false} HistoryRefines<T>(w: World<T>, ops: seq<Op<T>>)
    requires WorldRefines(w) && FreshRun(w, ops)
    ensures WorldRefines(Run(w, ops))
    decreases |ops|
  {
    if ops != [] {
      StepRefines(w, ops[0]);
      HistoryRefines(Step(w, ops[0]), ops[1..]);
    }
  }

  lemma RepresentationsAgree<T>(n: nat, ops: seq<Op<T>>, i: nat)
    requires i < n
    requires var start: World<T> := seq(n, _ => Replica(map[], map[])); FreshRun(start, ops)
    ensures var start: World<T> := seq(n, _ => Replica(map[], map[]));
            var end := Run(start, ops);
            && |end| == n
            && end[i].compact.Keys == end[i].oracle.Keys
            && (forall k :: k in end[i].compact ==> end[i].compact[k].value == end[i].oracle[k].value)
            && (forall k :: k in end[i].compact ==> AncestorSet(end[i].compact, k) == end[i].oracle[k].context)
            && Frontier(end[i].compact) == OracleFrontier(end[i].oracle)
  {
    var start: World<T> := seq(n, _ => Replica(map[], map[]));
    var empty: Graph<T> := map[];
    RankedIsAcyclic(empty, map[]);
    HistoryRefines(start, ops);
    RunKeepsReplicas(start, ops);
    RefinementFixesFrontier(Run(start, ops)[i].compact, Run(start, ops)[i].oracle);
  }

  lemma {:induction false} RunKeepsReplicas<T>(w: World<T>, ops: seq<Op<T>>)
    ensures |Run(w, ops)| == |w|
    decreases |ops|
  {
    if ops != [] { RunKeepsReplicas(Step(w, ops[0]), ops[1..]); }
  }
}
