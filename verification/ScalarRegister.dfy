/** The scalar register: a set of immutable statements over direct-frontier parents,
    grown by local assignment and by state merge. */
module ScalarRegisters {
  import opened CausalGraph
  import opened CoreTypes

  // ---------------------------------------------------------------- merge laws

  /** What merging two valid registers yields: their union, unless one identity carries
      two different statements. */
  ghost function Merged<T>(g: Graph<T>, h: Graph<T>): Option<Graph<T>> {
    if Agree(g, h) then Some(g + h) else None
  }

  ghost function MergedOption<T>(g: Option<Graph<T>>, h: Option<Graph<T>>): Option<Graph<T>> {
    if g.Some? && h.Some? then Merged(g.value, h.value) else None
  }

  lemma MergeCommutes<T>(g: Graph<T>, h: Graph<T>)
    ensures Merged(g, h) == Merged(h, g)
  {
    if Agree(g, h) {
      assert Agree(h, g);
      assert g + h == h + g;
    } else {
      assert !Agree(h, g);
    }
  }

  /** Grouping never matters, not even for whether the merge is refused. */
  lemma MergeAssociates<T>(a: Graph<T>, b: Graph<T>, c: Graph<T>)
    ensures MergedOption(Merged(a, b), Some(c)) == MergedOption(Some(a), Merged(b, c))
  {
    if Agree(a, b) && Agree(b, c) && Agree(a, c) {
      assert Agree(a + b, c) && Agree(a, b + c);
      assert (a + b) + c == a + (b + c);
    } else if Agree(a, b) {
      assert !Agree(a + b, c);
      assert Agree(b, c) ==> !Agree(a, b + c);
    }
  }

  lemma MergeIdempotent<T>(g: Graph<T>)
    ensures Merged(g, g) == Some(g)
  {
    assert g + g == g;
  }

  /** A known identity can never be assigned again: the successor it would need names the
      whole frontier, which no statement already inside a valid register can. */
  lemma KnownIdIsNotFrontierSuccessor<T>(g: Graph<T>, id: Id)
    requires Valid(g) && id in g
    ensures g[id].parents != Frontier(g)
  {
    if g[id].parents == Frontier(g) {
      var f := BelowFrontier(g, id);
      ParentIsAncestor(g, id, f);
      if f != id { AncestorTrans(g, id, f, id); }
    }
  }

  // ---------------------------------------------------------------- depth-first search

  /** Everything below `s` has been searched and lies on no cycle. */
  ghost predicate Searched<T>(g: Graph<T>, s: set<Id>) {
    && s <= g.Keys
    && (forall k, p :: k in s && p in g[k].parents ==> p in s)
    && (forall x :: x in s ==> !Ancestor(g, x, x))
  }

  ghost predicate AllBelow<T>(g: Graph<T>, x: Id, above: set<Id>) {
    forall v :: v in above ==> Ancestor(g, x, v)
  }

  /** One recursive visit. `visiting` is the stack of open visits. */
  method VisitForCycle<T>(g: Graph<T>, id: Id, visiting: set<Id>, complete: set<Id>)
    returns (r: Result<Unit, CoreError>, visiting': set<Id>, complete': set<Id>)
    requires Closed(g) && id in g && visiting <= g.Keys && visiting !! complete
    requires Searched(g, complete) && AllBelow(g, id, visiting)
    ensures r.Ok? ==> visiting' == visiting && complete <= complete' && id in complete'
    ensures r.Ok? ==> Searched(g, complete') && visiting' !! complete'
    ensures r.Err? ==> r.error.CausalCycle? && Ancestor(g, r.error.revisionId, r.error.revisionId)
    decreases g.Keys - visiting
  {
    visiting', complete' := visiting, complete;
    if id in complete { return Ok(Unit), visiting', complete'; }
    if id in visiting { return Err(CausalCycle(id)), visiting', complete'; }
    visiting' := visiting' + {id};
    var remaining := g[id].parents;
    while remaining != {}
      invariant visiting' == visiting + {id} && visiting' !! complete'
      invariant complete <= complete' && Searched(g, complete')
      invariant remaining <= g[id].parents
      invariant forall p :: p in g[id].parents ==> p in remaining || p in complete'
    {
      var p := Least(remaining);
      remaining := remaining - {p};
      forall v | v in visiting' ensures Ancestor(g, p, v) {
        ParentIsAncestor(g, id, p);
        if v != id { AncestorTrans(g, p, id, v); }
      }
      r, visiting', complete' := VisitForCycle(g, p, visiting', complete');
      if r.Err? { return r, visiting', complete'; }
    }
    if Ancestor(g, id, id) {
      var q := AncestorStep(g, id, id);
      if q != id { AncestorStaysIn(g, id, q, complete'); }
    }
    visiting' := visiting' - {id};
    complete' := complete' + {id};
    r := Ok(Unit);
  }

  /** The list holds exactly the statements of the graph. */
  ghost predicate Lists<T>(g: Graph<T>, list: seq<Revision<T>>) {
    && (forall v :: v in list ==> v.id in g && g[v.id] == v)
    && (forall k :: k in g ==> g[k] in list)
  }

  lemma ListsDetermine<T>(g: Graph<T>, h: Graph<T>, list: seq<Revision<T>>)
    requires Keyed(g) && Keyed(h) && Lists(g, list) && Lists(h, list)
    ensures g == h
  {
    forall k ensures k in g <==> k in h {
      assert k in g ==> g[k] in list && g[k].id == k;
      assert k in h ==> h[k] in list && h[k].id == k;
    }
    forall k | k in g ensures g[k] == h[k] { assert g[k] in list; }
  }

  class ScalarRegister<T(==)> {
    var revisions: Graph<T>

    constructor ()
      ensures revisions == map[]
    {
      revisions := map[];
    }

    constructor FromGraph(g: Graph<T>)
      ensures revisions == g
    {
      revisions := g;
    }

    /** Succeeds exactly on closed acyclic graphs; a refusal names a real witness. */
    method Validate() returns (r: Result<Unit, CoreError>)
      ensures r.Ok? <==> Closed(revisions) && Acyclic(revisions)
      ensures r.Err? ==> match r.error
                         case MissingParent(k, p) => k in revisions && p in revisions[k].parents && p !in revisions
                         case CausalCycle(c) => Closed(revisions) && Ancestor(revisions, c, c)
                         case _ => false
    {
      var todo := revisions.Keys;
      while todo != {}
        invariant todo <= revisions.Keys
        invariant forall k, p :: k in revisions && k !in todo && p in revisions[k].parents ==> p in revisions
      {
        var k := Least(todo);
        todo := todo - {k};
        var missing := revisions[k].parents - revisions.Keys;
        if missing != {} {
          var p := Least(missing);
          return Err(MissingParent(k, p));
        }
        assert forall p :: p in revisions[k].parents ==> p in missing || p in revisions;
      }
      var visiting, complete := {}, {};
      todo := revisions.Keys;
      while todo != {}
        invariant todo <= revisions.Keys && visiting == {}
        invariant Searched(revisions, complete)
        invariant forall k :: k in revisions ==> k in todo || k in complete
      {
        var id := Least(todo);
        todo := todo - {id};
        r, visiting, complete := VisitForCycle(revisions, id, visiting, complete);
        if r.Err? { return; }
      }
      forall x ensures !Ancestor(revisions, x, x) {
        if Ancestor(revisions, x, x) { AncestorIsKnown(revisions, x, x); }
      }
      r := Ok(Unit);
    }

    /** Imports a list of statements: duplicates of one statement are harmless, two
        statements for one identity are refused. */
    static method FromRevisions(list: seq<Revision<T>>) returns (r: Result<ScalarRegister<T>, CoreError>)
      ensures r.Ok? ==> fresh(r.value) && Valid(r.value.revisions) && Lists(r.value.revisions, list)
      ensures r.Err? ==> forall g :: Keyed(g) && Lists(g, list) ==> !Valid(g)
      ensures r.Err? && r.error.DuplicateRevisionConflict? ==>
                exists i, j :: 0 <= i < j < |list| && list[i].id == list[j].id == r.error.revisionId && list[i] != list[j]
      ensures (exists i, j :: 0 <= i < j < |list| && list[i].id == list[j].id && list[i] != list[j]) ==>
                r.Err? && r.error.DuplicateRevisionConflict?
      ensures r.Err? && r.error.MissingParent? ==>
                (exists v :: v in list && v.id == r.error.revisionId && r.error.parentId in v.parents) &&
                forall v :: v in list ==> v.id != r.error.parentId
    {
      var g: Graph<T> := map[];
      var i := 0;
      while i < |list|
        invariant 0 <= i <= |list| && Keyed(g)
        invariant forall k :: k in g ==> exists j :: 0 <= j < i && list[j] == g[k]
        invariant forall j :: 0 <= j < i ==> list[j].id in g && g[list[j].id] == list[j]
      {
        if list[i].id in g && g[list[i].id] != list[i] {
          ghost var j :| 0 <= j < i && list[j] == g[list[i].id];
          assert list[j] in list && list[i] in list;
          return Err(DuplicateRevisionConflict(list[i].id));
        }
        g := g[list[i].id := list[i]];
        i := i + 1;
      }
      var register := new ScalarRegister.FromGraph(g);
      var checked := register.Validate();
      assert Lists(g, list) by {
        forall v | v in list ensures v.id in g && g[v.id] == v { var j :| 0 <= j < |list| && list[j] == v; }
      }
      if checked.Err? {
        assert forall k :: k in g ==> g[k] in list;
        forall h | Keyed(h) && Lists(h, list) ensures !Valid(h) { ListsDetermine(g, h, list); }
        return Err(checked.error);
      }
      r := Ok(register);
    }

    method InsertRevision(v: Revision<T>) returns (r: Result<Unit, CoreError>)
      modifies this
      ensures v.id in old(revisions) ==>
                r == (if old(revisions)[v.id] == v then Ok(Unit) else Err(DuplicateRevisionConflict(v.id)))
      ensures v.id !in old(revisions) && v.parents <= old(revisions).Keys ==> r == Ok(Unit)
      ensures v.id !in old(revisions) && !(v.parents <= old(revisions).Keys) ==>
                r.Err? && r.error.MissingParent? && r.error.revisionId == v.id &&
                IsLeast(r.error.parentId, v.parents - old(revisions).Keys)
      ensures revisions == if r.Ok? then old(revisions)[v.id := v] else old(revisions)
      ensures old(Valid(revisions)) ==> Valid(revisions)
    {
      if v.id in revisions {
        assert revisions[v.id] == v ==> revisions == revisions[v.id := v];
        return if revisions[v.id] == v then Ok(Unit) else Err(DuplicateRevisionConflict(v.id));
      }
      var missing := v.parents - revisions.Keys;
      if missing != {} {
        var p := Least(missing);
        return Err(MissingParent(v.id, p));
      }
      assert forall p :: p in v.parents ==> p in missing || p in revisions;
      if Valid(revisions) { InsertIsValid(revisions, v); }
      revisions := revisions[v.id := v];
      r := Ok(Unit);
    }

    /** A local successor of exactly the observed frontier. On a valid register it is
        refused exactly when the identity is already known. */
    method Assign(id: Id, value: T) returns (r: Result<Unit, CoreError>)
      requires Valid(revisions)
      modifies this
      ensures r == if id in old(revisions) then Err(DuplicateRevisionConflict(id)) else Ok(Unit)
      ensures r.Err? ==> revisions == old(revisions)
      ensures r.Ok? ==> Valid(revisions) && SubGraph(old(revisions), revisions) && revisions.Keys == old(revisions).Keys + {id}
      ensures r.Ok? ==> revisions[id] == Revision(id, value, Frontier(old(revisions)))
      ensures r.Ok? ==> Frontier(revisions) == {id} && AncestorSet(revisions, id) == old(revisions).Keys
    {
      ghost var g := revisions;
      var parents := FrontierIds();
      if id in revisions { KnownIdIsNotFrontierSuccessor(g, id); } else { AssignObservesAll(g, id, value); }
      r := InsertRevision(Revision(id, value, parents));
    }

    method Merge(other: ScalarRegister<T>) returns (r: Result<ScalarRegister<T>, CoreError>)
      requires Valid(revisions) && Valid(other.revisions)
      ensures r.Ok? <==> Agree(revisions, other.revisions)
      ensures r.Ok? ==> fresh(r.value) && Merged(revisions, other.revisions) == Some(r.value.revisions)
      ensures r.Ok? ==> Valid(r.value.revisions) && r.value.revisions == revisions + other.revisions
      ensures r.Err? ==> r.error.DuplicateRevisionConflict? &&
                         IsLeast(r.error.revisionId, set k | k in revisions && k in other.revisions && revisions[k] != other.revisions[k])
    {
      var merged := revisions;
      var todo := other.revisions.Keys;
      while todo != {}
        invariant todo <= other.revisions.Keys
        invariant merged.Keys == revisions.Keys + (other.revisions.Keys - todo)
        invariant forall k :: k in revisions ==> merged[k] == revisions[k]
        invariant forall k :: k in other.revisions && k !in todo ==> merged[k] == other.revisions[k]
        invariant forall k, x :: k in other.revisions && k !in todo && x in todo ==> k < x
      {
        var id := Least(todo);
        if id in merged && merged[id] != other.revisions[id] {
          return Err(DuplicateRevisionConflict(id));
        }
        merged := merged[id := other.revisions[id]];
        todo := todo - {id};
      }
      assert merged == revisions + other.revisions;
      UnionIsValid(revisions, other.revisions);
      var result := new ScalarRegister.FromGraph(merged);
      var checked := result.Validate();
      r := Ok(result);
    }

    method FrontierIds() returns (s: set<Id>)
      ensures s == Frontier(revisions)
      ensures Closed(revisions) ==> forall x :: x in s <==> x in revisions && forall d :: !Ancestor(revisions, x, d)
      ensures Closed(revisions) && Acyclic(revisions) && revisions != map[] ==> s != {}
    {
      var dominated: set<Id> := {};
      var todo := revisions.Keys;
      while todo != {}
        invariant todo <= revisions.Keys
        invariant forall x :: x in dominated ==> Referenced(revisions, x)
        invariant forall k, p :: k in revisions && (k !in todo || k in dominated) && p in revisions[k].parents ==> p in dominated
      {
        var k := Least(todo);
        todo := todo - {k};
        var stack := revisions[k].parents;
        ghost var before := dominated;
        while stack != {}
          invariant forall x :: x in dominated || x in stack ==> Referenced(revisions, x)
          invariant before <= dominated && dominated <= before + NamedIds(revisions)
          invariant forall p :: p in revisions[k].parents ==> p in dominated || p in stack
          invariant forall j, p :: j in revisions && ((j !in todo && j != k) || j in dominated) && p in revisions[j].parents ==>
                      p in dominated || p in stack
          decreases before + NamedIds(revisions) - dominated, stack
        {
          var id :| id in stack;
          stack := stack - {id};
          if id !in dominated {
            assert id in NamedIds(revisions);
            dominated := dominated + {id};
            if id in revisions { stack := stack + revisions[id].parents; }
          }
        }
      }
      s := set x | x in revisions && x !in dominated;
      if Closed(revisions) {
        forall x | x in revisions
          ensures x in s <==> forall d :: !Ancestor(revisions, x, d)
        {
          FrontierIsMaximal(revisions, x);
        }
        if Acyclic(revisions) && revisions != map[] { FrontierNonEmpty(revisions); }
      }
    }

    method MaterializedRevision() returns (r: Option<Revision<T>>)
      requires Valid(revisions)
      ensures r.None? <==> revisions == map[]
      ensures r.Some? ==> r.value.id in revisions && revisions[r.value.id] == r.value && Winner(revisions, Some(r.value.id))
      ensures Winner(revisions, if r.Some? then Some(r.value.id) else None)
      ensures r.Some? ==> r.value.id in Frontier(revisions) && forall x :: x in Frontier(revisions) ==> x <= r.value.id
    {
      var frontier := FrontierIds();
      if frontier == {} { return None; }
      var winner := Greatest(frontier);
      r := Some(revisions[winner]);
    }

    method IsAncestor(ancestor: Id, descendant: Id) returns (r: bool)
      ensures r == Ancestor(revisions, ancestor, descendant)
    {
      if descendant !in revisions {
        if Ancestor(revisions, ancestor, descendant) {
          var q := AncestorStep(revisions, ancestor, descendant);
        }
        return false;
      }
      var seen: set<Id> := {};
      var stack := revisions[descendant].parents;
      while stack != {}
        invariant forall x :: x in seen || x in stack ==> Ancestor(revisions, x, descendant) || x in revisions[descendant].parents
        invariant forall p :: p in revisions[descendant].parents ==> p in seen || p in stack
        invariant forall k, p :: k in seen && k in revisions && p in revisions[k].parents ==> p in seen || p in stack
        invariant ancestor !in seen && seen <= NamedIds(revisions)
        decreases NamedIds(revisions) - seen, stack
      {
        var id :| id in stack;
        stack := stack - {id};
        if id in revisions[descendant].parents { ParentIsAncestor(revisions, descendant, id); }
        if id == ancestor { return true; }
        if id !in seen {
          var k := IdIsNamed(revisions, id, descendant);
          seen := seen + {id};
          if id in revisions {
            forall p | p in revisions[id].parents ensures Ancestor(revisions, p, descendant) {
              ParentIsAncestor(revisions, id, p);
              AncestorTrans(revisions, p, id, descendant);
            }
            stack := stack + revisions[id].parents;
          }
        }
      }
      if Ancestor(revisions, ancestor, descendant) {
        var q := AncestorStep(revisions, ancestor, descendant);
        if q != ancestor { AncestorStaysIn(revisions, ancestor, q, seen); }
      }
      r := false;
    }
  }

  /** Every identity a register mentions. */
  ghost function NamedIds<T>(g: Graph<T>): set<Id> {
    set k, p | k in g && p in g[k].parents :: p
  }

  lemma IdIsNamed<T>(g: Graph<T>, a: Id, d: Id) returns (k: Id)
    requires Ancestor(g, a, d)
    ensures k in g && a in g[k].parents && a in NamedIds(g)
  {
    var n: nat :| n > 0 && Path(g, n, d, a);
    PathIsReferenced(g, n, d, a);
    k :| k in g && a in g[k].parents;
  }
}
