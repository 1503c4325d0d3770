/** Exact-coverage checkpoints: superseded revisions are dropped and only their identities
    remembered. Under any interleaving of assignment, import and compaction the compacted
    register behaves as the full history does. */
module Checkpoint {
  import opened CausalGraph
  import opened CoreTypes
  import opened ScalarRegisters
  import opened OracleRefinement

  datatype Coverage<T> = Coverage(retained: Graph<T>, covered: set<Id>)

  // ---------------------------------------------------------------- operations

  ghost predicate CoverageValid<T>(c: Coverage<T>) {
    && c.retained.Keys !! c.covered
    && (forall k, p :: k in c.retained && p in c.retained[k].parents ==> p in c.retained || p in c.covered)
    && Acyclic(c.retained)
  }

  function CoverageFrontier<T>(c: Coverage<T>): set<Id> {
    Frontier(c.retained)
  }

  function Only<T>(g: Graph<T>, ids: set<Id>): Graph<T> {
    map k | k in g && k in ids :: g[k]
  }

  function FromFull<T>(g: Graph<T>): Coverage<T> {
    Coverage(Only(g, Frontier(g)), g.Keys - Frontier(g))
  }

  ghost function CoverageAssign<T>(c: Coverage<T>, id: Id, v: T): Option<Coverage<T>> {
    var r := Revision(id, v, CoverageFrontier(c));
    var next := Coverage(c.retained[id := r], c.covered);
    if id in c.covered || id in r.parents || (id in c.retained && c.retained[id] != r) || !CoverageValid(next) then None
    else Some(next)
  }

  function Novel<T>(c: Coverage<T>, incoming: Graph<T>): Graph<T> {
    map k | k in incoming && k !in c.covered && k !in c.retained :: incoming[k]
  }

  /** Revisions whose identity is covered are taken as already incorporated, unseen. */
  ghost function CoverageImport<T>(c: Coverage<T>, incoming: Graph<T>): Option<Coverage<T>> {
    var next := Coverage(c.retained + Novel(c, incoming), c.covered);
    if !Keyed(incoming) || !Agree(c.retained, incoming) || !CoverageValid(next) then None else Some(next)
  }

  function Compacted<T>(c: Coverage<T>): Coverage<T> {
    Coverage(Only(c.retained, CoverageFrontier(c)), c.covered + (c.retained.Keys - CoverageFrontier(c)))
  }

  /** Compaction validates its result as well. */
  ghost function CoverageCompact<T>(c: Coverage<T>): Option<Coverage<T>> {
    if CoverageValid(Compacted(c)) then Some(Compacted(c)) else None
  }

  ghost function FullImport<T>(g: Graph<T>, incoming: Graph<T>): Option<Graph<T>> {
    if Keyed(incoming) && Agree(g, incoming) && Closed(g + incoming) && Acyclic(g + incoming) then Some(g + incoming) else None
  }

  // ---------------------------------------------------------------- what the operations keep

  ghost predicate Superseded<T>(g: Graph<T>, k: Id) {
    exists x :: x in g && k in g[x].parents
  }

  /** `t` keeps the statements of `g` that no statement of `g` supersedes, and covers exactly
      the rest beside what `covered` held. */
  ghost predicate Checkpointed<T>(g: Graph<T>, covered: set<Id>, t: Coverage<T>) {
    && (forall k :: k in t.retained <==> k in g && !Superseded(g, k))
    && (forall k :: k in t.retained ==> t.retained[k] == g[k])
    && (forall k :: k in t.covered <==> k in covered || (k in g && Superseded(g, k)))
  }

  /** Compaction of a valid register is always accepted and drops exactly what is superseded;
      doing it again changes nothing. */
  lemma CompactStores<T>(c: Coverage<T>)
    requires CoverageValid(c)
    ensures CoverageCompact(c).Some? && Checkpointed(c.retained, c.covered, CoverageCompact(c).value)
    ensures var t := CoverageCompact(c).value; CoverageCompact(t) == Some(t)
  {
    var t := Compacted(c);
    OnlyIsAcyclic(c.retained, CoverageFrontier(c));
    assert CoverageValid(t);
    forall k | k in t.retained ensures k in Frontier(t.retained) {
      assert !Referenced(c.retained, k);
    }
    assert Compacted(t) == t;
  }

  lemma OnlyIsAcyclic<T>(g: Graph<T>, ids: set<Id>)
    requires Acyclic(g)
    ensures Acyclic(Only(g, ids))
  {
    forall x ensures !Ancestor(Only(g, ids), x, x) {
      if Ancestor(Only(g, ids), x, x) {
        var n: nat :| n > 0 && Path(Only(g, ids), n, x, x);
        PathUp(Only(g, ids), g, n, x, x);
        assert Ancestor(g, x, x);
      }
    }
  }

  lemma FromFullStores<T>(g: Graph<T>)
    ensures Checkpointed(g, {}, FromFull(g))
  {
  }

  /** An import is refused exactly for a mismatched key, a contradicted statement, an unknown
      parent or a cycle; otherwise every statement not covered is there afterwards. */
  lemma ImportStores<T>(c: Coverage<T>, incoming: Graph<T>)
    requires CoverageValid(c)
    ensures CoverageImport(c, incoming).Some? ==>
              var t := CoverageImport(c, incoming).value;
              && t.covered == c.covered && t.retained.Keys == c.retained.Keys + (incoming.Keys - c.covered)
              && (forall k :: k in c.retained ==> t.retained[k] == c.retained[k])
              && (forall k :: k in incoming && k !in c.covered ==> t.retained[k] == incoming[k])
    ensures CoverageImport(c, incoming).None? <==>
              || !Keyed(incoming)
              || (exists k :: k in c.retained && k in incoming && c.retained[k] != incoming[k])
              || (exists k, p :: k in incoming && k !in c.covered && p in incoming[k].parents &&
                    p !in c.retained && p !in c.covered && p !in incoming)
              || !Acyclic(c.retained + Novel(c, incoming))
  {
    var part := c.retained + Novel(c, incoming);
    if Keyed(incoming) && Agree(c.retained, incoming) {
      if k, p :| k in incoming && k !in c.covered && p in incoming[k].parents && p !in c.retained && p !in c.covered && p !in incoming {
        assert k in part && part[k] == incoming[k] && p !in part;
      } else if Acyclic(part) {
        forall k, p | k in part && p in part[k].parents ensures p in part || p in c.covered {
          if k !in c.retained { assert k in incoming && part[k] == incoming[k]; }
        }
      }
    }
  }

  // ---------------------------------------------------------------- runs

  datatype Op<T> = Assign(id: Id, value: T) | Import(incoming: Graph<T>) | Compact

  ghost function CoverageStep<T>(c: Coverage<T>, op: Op<T>): Option<Coverage<T>> {
    match op
    case Assign(id, v) => CoverageAssign(c, id, v)
    case Import(incoming) => CoverageImport(c, incoming)
    case Compact => CoverageCompact(c)
  }

  ghost function FullStep<T>(g: Graph<T>, op: Op<T>): Option<Graph<T>> {
    match op
    case Assign(id, v) => CompactAssign(g, id, v)
    case Import(incoming) => FullImport(g, incoming)
    case Compact => Some(g)
  }

  /** A refused operation leaves the register as it was. */
  ghost function CoverageRun<T>(c: Coverage<T>, ops: seq<Op<T>>): Coverage<T>
    decreases |ops|
  {
    if ops == [] then c else CoverageRun(OrElse(CoverageStep(c, ops[0]), c), ops[1..])
  }

  ghost function FullRun<T>(g: Graph<T>, ops: seq<Op<T>>): Graph<T>
    decreases |ops|
  {
    if ops == [] then g else FullRun(OrElse(FullStep(g, ops[0]), g), ops[1..])
  }

  /** Authenticated: an identity the full history knows is never offered with other contents. */
  ghost predicate Authentic<T>(g: Graph<T>, c: Coverage<T>, op: Op<T>) {
    op.Import? ==> forall k :: k in op.incoming && k in c.covered && k in g ==> op.incoming[k] == g[k]
  }

  ghost predicate AuthenticRun<T>(g: Graph<T>, c: Coverage<T>, ops: seq<Op<T>>)
    decreases |ops|
  {
    ops == [] ||
    (Authentic(g, c, ops[0]) &&
     AuthenticRun(OrElse(FullStep(g, ops[0]), g), OrElse(CoverageStep(c, ops[0]), c), ops[1..]))
  }

  // ---------------------------------------------------------------- the simulation

  ghost predicate Covers<T>(c: Coverage<T>, g: Graph<T>) {
    && Valid(g)
    && g.Keys == c.retained.Keys + c.covered && c.retained.Keys !! c.covered
    && (forall k :: k in c.retained ==> c.retained[k] == g[k])
    && (forall k, p :: k in c.covered && p in g[k].parents ==> p in c.covered)
    && c.covered !! Frontier(g)
  }

  lemma CoversFrontier<T>(c: Coverage<T>, g: Graph<T>)
    requires Covers(c, g)
    ensures CoverageFrontier(c) == Frontier(g)
  {
    forall x | x in c.retained ensures Referenced(c.retained, x) <==> Referenced(g, x) {
      if Referenced(g, x) {
        var k :| k in g && x in g[k].parents;
        assert k in c.retained;
      }
      if Referenced(c.retained, x) {
        var k :| k in c.retained && x in c.retained[k].parents;
        assert k in g && x in g[k].parents;
      }
    }
  }

  /** A path that ends outside the covered part never enters it. */
  lemma {:induction false} PathAvoidsCovered<T>(h: Graph<T>, part: Graph<T>, covered: set<Id>, n: nat, d: Id, a: Id)
    requires h.Keys == part.Keys + covered && SubGraph(part, h)
    requires forall k, p :: k in covered && k in h && p in h[k].parents ==> p in covered
    requires Path(h, n, d, a) && a !in covered
    ensures Path(part, n, d, a)
    decreases n
  {
    if n > 0 {
      if d in covered { PathStaysIn(h, n, d, a, covered); }
      var q :| q in h[d].parents && Path(h, n - 1, q, a);
      PathAvoidsCovered(h, part, covered, n - 1, q, a);
    }
  }

  /** Cycles of the full graph are cycles of the retained part: the covered part is closed
      and was acyclic already. */
  lemma AcyclicIffRetainedAcyclic<T>(g: Graph<T>, h: Graph<T>, part: Graph<T>, covered: set<Id>)
    requires Valid(g) && SubGraph(g, h) && covered <= g.Keys
    requires h.Keys == part.Keys + covered && SubGraph(part, h)
    requires forall k, p :: k in covered && p in g[k].parents ==> p in covered
    ensures Acyclic(h) <==> Acyclic(part)
  {
    if !Acyclic(part) {
      var x :| Ancestor(part, x, x);
      var n: nat :| n > 0 && Path(part, n, x, x);
      PathUp(part, h, n, x, x);
      assert Ancestor(h, x, x);
    }
    if !Acyclic(h) {
      var x :| Ancestor(h, x, x);
      if x in covered {
        AncestryIsLocal(g, h, x, x);
      }
      var n: nat :| n > 0 && Path(h, n, x, x);
      PathAvoidsCovered(h, part, covered, n, x, x);
      assert Ancestor(part, x, x);
    }
  }

  lemma AssignCovers<T>(c: Coverage<T>, g: Graph<T>, id: Id, v: T)
    requires Covers(c, g)
    ensures CoverageAssign(c, id, v).Some? <==> CompactAssign(g, id, v).Some?
    ensures CompactAssign(g, id, v).Some? ==>
              Covers(CoverageAssign(c, id, v).value, CompactAssign(g, id, v).value) &&
              CoverageAssign(c, id, v).value.retained[id] == CompactAssign(g, id, v).value[id]
  {
    CoversFrontier(c, g);
    var r := Revision(id, v, Frontier(g));
    if id in g {
      NoSuccessorIsKnown(g, id, v);
    } else {
      AssignObservesAll(g, id, v);
      AcyclicIffRetainedAcyclic(g, g[id := r], c.retained[id := r], c.covered);
      assert CoverageValid(Coverage(c.retained[id := r], c.covered));
    }
  }

  lemma ImportedGraph<T>(c: Coverage<T>, g: Graph<T>, incoming: Graph<T>)
    requires Covers(c, g) && Agree(g, incoming)
    ensures var part := c.retained + Novel(c, incoming); var h := g + incoming;
            h.Keys == part.Keys + c.covered && part.Keys !! c.covered && SubGraph(part, h) && SubGraph(g, h)
  {
  }

  lemma ImportCovers<T>(c: Coverage<T>, g: Graph<T>, incoming: Graph<T>)
    requires Covers(c, g) && Authentic(g, c, Import(incoming))
    ensures CoverageImport(c, incoming).Some? <==> FullImport(g, incoming).Some?
    ensures FullImport(g, incoming).Some? ==> Covers(CoverageImport(c, incoming).value, FullImport(g, incoming).value)
  {
    var part := c.retained + Novel(c, incoming);
    var h := g + incoming;
    assert Agree(c.retained, incoming) <==> Agree(g, incoming);
    if Keyed(incoming) && Agree(g, incoming) {
      ImportedGraph(c, g, incoming);
      AcyclicIffRetainedAcyclic(g, h, part, c.covered);
      ImportClosed(c, g, incoming);
      if Closed(h) && Acyclic(h) { ImportKeepsCovers(c, g, incoming); }
    }
  }

  lemma ImportClosed<T>(c: Coverage<T>, g: Graph<T>, incoming: Graph<T>)
    requires Covers(c, g) && Agree(g, incoming)
    ensures var part := c.retained + Novel(c, incoming);
            Closed(g + incoming) <==>
            forall k, p :: k in part && p in part[k].parents ==> p in part || p in c.covered
  {
    var part := c.retained + Novel(c, incoming);
    var h := g + incoming;
    ImportedGraph(c, g, incoming);
    if forall k, p :: k in part && p in part[k].parents ==> p in part || p in c.covered {
      forall k, p | k in h && p in h[k].parents ensures p in h {
        if k in part { assert p in part || p in c.covered; } else { assert k in g; }
      }
    }
  }

  lemma StaysReferenced<T>(g: Graph<T>, h: Graph<T>, x: Id)
    requires SubGraph(g, h) && x in g && x !in Frontier(g)
    ensures x !in Frontier(h)
  {
    var k :| k in g && x in g[k].parents;
    assert k in h && x in h[k].parents;
  }

  lemma ImportKeepsCovers<T>(c: Coverage<T>, g: Graph<T>, incoming: Graph<T>)
    requires Covers(c, g) && Agree(g, incoming) && Valid(g + incoming)
    ensures Covers(Coverage(c.retained + Novel(c, incoming), c.covered), g + incoming)
  {
    ImportedGraph(c, g, incoming);
    forall x | x in c.covered ensures x !in Frontier(g + incoming) {
      StaysReferenced(g, g + incoming, x);
    }
  }

  lemma CompactCovers<T>(c: Coverage<T>, g: Graph<T>)
    requires Covers(c, g)
    ensures CoverageCompact(c) == Some(Compacted(c)) && Covers(Compacted(c), g)
  {
    CoversFrontier(c, g);
    var d := Compacted(c);
    forall k, p | k in d.covered && p in g[k].parents ensures p in d.covered {
      assert Referenced(g, p);
    }
    AcyclicIffRetainedAcyclic(g, g, d.retained, d.covered);
  }

  lemma StepCovers<T>(c: Coverage<T>, g: Graph<T>, op: Op<T>)
    requires Covers(c, g) && Authentic(g, c, op)
    ensures CoverageStep(c, op).Some? <==> FullStep(g, op).Some?
    ensures Covers(OrElse(CoverageStep(c, op), c), OrElse(FullStep(g, op), g))
  {
    match op
    case Assign(id, v) => AssignCovers(c, g, id, v);
    case Import(incoming) => ImportCovers(c, g, incoming);
    case Compact => CompactCovers(c, g);
  }

  lemma {:induction false} RunCovers<T>(c: Coverage<T>, g: Graph<T>, ops: seq<Op<T>>)
    requires Covers(c, g) && AuthenticRun(g, c, ops)
    ensures Covers(CoverageRun(c, ops), FullRun(g, ops))
    decreases |ops|
  {
    if ops != [] {
      StepCovers(c, g, ops[0]);
      RunCovers(OrElse(CoverageStep(c, ops[0]), c), OrElse(FullStep(g, ops[0]), g), ops[1..]);
    }
  }

  lemma FromFullCovers<T>(g: Graph<T>)
    requires Valid(g)
    ensures Covers(FromFull(g), g)
  {
    var c := FromFull(g);
    forall k, p | k in c.covered && p in g[k].parents ensures p in c.covered {
      assert Referenced(g, p);
    }
  }

  /** The main result: a checkpointed register and the full history show the same frontier,
      the same winner and the same value after any run. */
  lemma CheckpointSimulatesHistory<T>(g: Graph<T>, ops: seq<Op<T>>, w: Option<Id>)
    requires Valid(g) && AuthenticRun(g, FromFull(g), ops)
    ensures var c := CoverageRun(FromFull(g), ops); var f := FullRun(g, ops);
            && CoverageFrontier(c) == Frontier(f)
            && (Winner(c.retained, w) <==> Winner(f, w))
            && (forall x :: x in Frontier(f) ==> x in c.retained && c.retained[x] == f[x])
            && (forall k, p :: k in c.covered && k in f && p in f[k].parents ==> p in c.covered)
  {
    FromFullCovers(g);
    RunCovers(FromFull(g), g, ops);
    CoversFrontier(CoverageRun(FromFull(g), ops), FullRun(g, ops));
  }

  /** Right after a compaction nothing but the frontier of the full history is kept. */
  lemma CompactedKeepsOnlyFrontier<T>(g: Graph<T>, ops: seq<Op<T>>)
    requires Valid(g) && AuthenticRun(g, FromFull(g), ops)
    ensures var c := CoverageRun(FromFull(g), ops); var f := FullRun(g, ops);
            && CoverageCompact(c).Some?
            && CoverageCompact(c).value.retained.Keys == Frontier(f)
            && CoverageCompact(c).value.covered == f.Keys - Frontier(f)
  {
    hide Covers, CoverageRun, FullRun, AuthenticRun;
    FromFullCovers(g);
    RunCovers(FromFull(g), g, ops);
    CompactedIsFrontier(CoverageRun(FromFull(g), ops), FullRun(g, ops));
  }

  lemma CompactedIsFrontier<T>(c: Coverage<T>, f: Graph<T>)
    requires Covers(c, f)
    ensures CoverageCompact(c).Some?
    ensures CoverageCompact(c).value.retained.Keys == Frontier(f)
    ensures CoverageCompact(c).value.covered == f.Keys - Frontier(f)
  {
    hide CoverageCompact, CoverageValid;
    CompactCovers(c, f);
    CoversFrontier(c, f);
    CompactedKeys(c);
  }

  lemma CompactedKeys<T>(c: Coverage<T>)
    ensures Compacted(c).retained.Keys == CoverageFrontier(c)
    ensures Compacted(c).covered == c.covered + (c.retained.Keys - CoverageFrontier(c))
  {
  }

  /** Content binding is outside the checkpoint: what is offered under a covered identity is
      not looked at, where the full history would refuse a different statement. */
  lemma CoveredContentIsIgnored<T>(c: Coverage<T>, incoming: Graph<T>, k: Id, r: Revision<T>)
    requires k in incoming && k in c.covered && k !in c.retained && r.id == k && Keyed(incoming)
    ensures CoverageImport(c, incoming[k := r]) == CoverageImport(c, incoming)
  {
    assert Novel(c, incoming[k := r]) == Novel(c, incoming);
    assert Agree(c.retained, incoming[k := r]) <==> Agree(c.retained, incoming);
  }

  // ---------------------------------------------------------------- the importing loop

  /** The retained part with only the references that stay inside it. */
  function Inner<T>(g: Graph<T>): Graph<T> {
    map k | k in g :: Revision(g[k].id, g[k].value, g[k].parents * g.Keys)
  }

  lemma {:induction false} InnerPath<T>(g: Graph<T>, n: nat, d: Id, a: Id)
    requires a in g
    ensures Path(Inner(g), n, d, a) <==> Path(g, n, d, a)
    decreases n
  {
    if n > 0 && Path(g, n, d, a) {
      var q :| q in g[d].parents && Path(g, n - 1, q, a);
      InnerPath(g, n - 1, q, a);
      assert q in Inner(g)[d].parents;
    }
    if n > 0 && Path(Inner(g), n, d, a) {
      var q :| q in Inner(g)[d].parents && Path(Inner(g), n - 1, q, a);
      InnerPath(g, n - 1, q, a);
    }
  }

  lemma InnerAcyclic<T>(g: Graph<T>)
    ensures Acyclic(Inner(g)) <==> Acyclic(g)
  {
    forall x ensures Ancestor(Inner(g), x, x) <==> Ancestor(g, x, x) {
      if x in g {
        forall n: nat ensures Path(Inner(g), n, x, x) <==> Path(g, n, x, x) { InnerPath(g, n, x, x); }
      }
    }
  }

  method ValidateCoverage<T(==)>(c: Coverage<T>) returns (ok: bool)
    ensures ok <==> CoverageValid(c)
    ensures ok <==>
              && (forall k :: !(k in c.retained && k in c.covered))
              && (forall k, p :: k in c.retained && p in c.retained[k].parents ==> p in c.retained || p in c.covered)
              && (forall x :: !Ancestor(c.retained, x, x))
  {
    if !(c.retained.Keys !! c.covered) { return false; }
    var todo := c.retained.Keys;
    while todo != {}
      invariant todo <= c.retained.Keys
      invariant forall k, p :: k in c.retained && k !in todo && p in c.retained[k].parents ==> p in c.retained || p in c.covered
    {
      var k :| k in todo;
      var missing := c.retained[k].parents - c.retained.Keys - c.covered;
      if missing != {} {
        var p :| p in missing;
        assert p in c.retained[k].parents && p !in c.retained && p !in c.covered;
        return false;
      }
      assert forall p :: p in c.retained[k].parents ==> p in missing || p in c.retained || p in c.covered;
      todo := todo - {k};
    }
    InnerAcyclic(c.retained);
    var register := new ScalarRegister.FromGraph(Inner(c.retained));
    var checked := register.Validate();
    ok := checked.Ok?;
  }

  method ImportRevisions<T(==)>(c: Coverage<T>, incoming: Graph<T>) returns (r: Option<Coverage<T>>)
    ensures r == CoverageImport(c, incoming)
  {
    var novel: Graph<T> := map[];
    var todo := incoming.Keys;
    while todo != {}
      invariant todo <= incoming.Keys
      invariant forall k :: k in incoming && k !in todo ==> incoming[k].id == k
      invariant forall k :: k in incoming && k !in todo && k in c.retained && k !in c.covered ==> c.retained[k] == incoming[k]
      invariant novel == map k | k in incoming && k !in todo && k !in c.covered && k !in c.retained :: incoming[k]
    {
      var k :| k in todo;
      todo := todo - {k};
      if incoming[k].id != k { return None; }
      if k in c.covered {
      } else if k in c.retained {
        if c.retained[k] != incoming[k] { return None; }
      } else {
        novel := novel[k := incoming[k]];
      }
    }
    assert novel == Novel(c, incoming);
    var next := Coverage(c.retained + novel, c.covered);
    var ok := ValidateCoverage(next);
    r := if ok then Some(next) else None;
  }
}
