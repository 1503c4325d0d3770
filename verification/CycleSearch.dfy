/** Finding the cycles of a functional parent graph by walking from every atom once. */
module CycleSearch {
  import opened CausalGraph
  import opened CoreTypes
  import opened CycleBreaking

  ghost function SetOf(c: seq<Atom>): set<Atom> {
    set x | x in c
  }

  /** Each member's parent is the following member. */
  ghost predicate Chained(ps: Parents, c: seq<Atom>) {
    && (forall i :: 0 <= i < |c| ==> c[i] in ps)
    && (forall i :: 0 <= i < |c| - 1 ==> ps[c[i]] == Some(c[i + 1]))
  }

  /** A cycle listed once, each member followed by its parent and the last by the first. */
  ghost predicate ListedCycle(ps: Parents, c: seq<Atom>) {
    |c| > 0 && Distinct(c) && Chained(ps, c) && ps[c[|c| - 1]] == Some(c[0])
  }

  /** `s` contains the parents of its members. */
  ghost predicate UpClosed(ps: Parents, s: set<Atom>) {
    forall k :: k in s && Next(ps, k).Some? && Next(ps, k).value in ps ==> Next(ps, k).value in s
  }

  // ---------------------------------------------------------------- facts about chains

  lemma NextOnCycle(ps: Parents, x: Atom)
    requires OnCycle(ps, x)
    ensures x in ps && ps[x].Some? && ps[x].value in ps
    ensures OnCycle(ps, ps[x].value) && Orbit(ps, ps[x].value) == Orbit(ps, x)
  {
    OnCycleIsKnown(ps, x);
    assert IsCycle(ps, Orbit(ps, x));
    CycleMember(ps, Orbit(ps, x), x);
    OrbitShared(ps, x, ps[x].value);
  }

  lemma {:induction false} OrbitAlong(ps: Parents, c: seq<Atom>, i: nat, j: nat)
    requires Chained(ps, c) && i <= j < |c| && OnCycle(ps, c[i])
    ensures OnCycle(ps, c[j]) && Orbit(ps, c[j]) == Orbit(ps, c[i])
    decreases j - i
  {
    if i < j {
      NextOnCycle(ps, c[i]);
      OrbitAlong(ps, c, i + 1, j);
    }
  }

  lemma {:induction false} WalkAlong(ps: Parents, c: seq<Atom>, i: nat, j: nat)
    requires Chained(ps, c) && i <= j < |c|
    ensures Walk(ps, j - i, c[i]) == Some(c[j])
    decreases j - i
  {
    if i < j { WalkAlong(ps, c, i + 1, j); }
  }

  /** A listed cycle is a cycle, and its members are that cycle's orbit. */
  lemma ListedIsCycle(ps: Parents, c: seq<Atom>)
    requires ListedCycle(ps, c)
    ensures forall x :: x in c ==> OnCycle(ps, x) && Orbit(ps, x) == SetOf(c)
    ensures IsCycle(ps, SetOf(c))
  {
    var last := |c| - 1;
    WalkAlong(ps, c, 0, last);
    assert Walk(ps, 1, c[last]) == Some(c[0]) by { assert Walk(ps, 0, c[0]) == Some(c[0]); }
    WalkAdds(ps, last, 1, c[0], c[last]);
    assert OnCycle(ps, c[0]);
    forall y ensures y in Orbit(ps, c[0]) <==> y in SetOf(c) {
      if y in Orbit(ps, c[0]) {
        var n: nat :| Walk(ps, n, c[0]) == Some(y);
        forall k | k in SetOf(c) && Next(ps, k).Some? ensures Next(ps, k).value in SetOf(c) {
          var i :| 0 <= i < |c| && c[i] == k;
          assert i < last ==> ps[c[i]] == Some(c[i + 1]);
        }
        WalkStaysIn(ps, n, c[0], y, SetOf(c));
      }
      if y in c {
        var i :| 0 <= i < |c| && c[i] == y;
        WalkAlong(ps, c, 0, i);
      }
    }
    forall x | x in c ensures OnCycle(ps, x) && Orbit(ps, x) == SetOf(c) { OrbitShared(ps, c[0], x); }
  }

  /** A chain that leaves the graph, or runs into a searched part, touches no cycle. */
  lemma ChainOffCycle(ps: Parents, c: seq<Atom>, done: set<Atom>)
    requires |c| > 0 && Chained(ps, c) && UpClosed(ps, done) && SetOf(c) !! done
    requires ps[c[|c| - 1]].None? || ps[c[|c| - 1]].value !in ps || ps[c[|c| - 1]].value in done
    ensures forall x :: x in c ==> !OnCycle(ps, x)
  {
    var last := |c| - 1;
    forall x | x in c ensures !OnCycle(ps, x) {
      if OnCycle(ps, x) {
        var i :| 0 <= i < |c| && c[i] == x;
        OrbitAlong(ps, c, i, last);
        NextOnCycle(ps, c[last]);
        var y := ps[c[last]].value;
        OnCycleIsKnown(ps, x);
        assert x in Orbit(ps, y);
        var n: nat :| Walk(ps, n, y) == Some(x);
        OrbitInDone(ps, n, y, x, done);
      }
    }
  }

  lemma {:induction false} OrbitInDone(ps: Parents, n: nat, y: Atom, x: Atom, done: set<Atom>)
    requires Walk(ps, n, y) == Some(x) && OnCycle(ps, y) && y in done && UpClosed(ps, done)
    ensures x in done
    decreases n
  {
    if n > 0 {
      NextOnCycle(ps, y);
      OrbitInDone(ps, n - 1, ps[y].value, x, done);
    }
  }

  /** A chain that runs back into itself: exactly the tail from that point is the cycle. */
  lemma ChainIntoItself(ps: Parents, c: seq<Atom>, at: nat)
    requires Chained(ps, c) && Distinct(c) && at < |c| && ps[c[|c| - 1]] == Some(c[at])
    ensures ListedCycle(ps, c[at..])
    ensures forall x :: x in c ==> (OnCycle(ps, x) <==> x in c[at..])
  {
    var tail := c[at..];
    assert ListedCycle(ps, tail) by {
      assert forall i :: 0 <= i < |tail| ==> tail[i] == c[at + i];
    }
    ListedIsCycle(ps, tail);
    forall x | x in c && OnCycle(ps, x) ensures x in tail {
      var i :| 0 <= i < |c| && c[i] == x;
      if i < at {
        OrbitAlong(ps, c, i, at);
        OnCycleIsKnown(ps, x);
        assert c[at] == tail[0];
        assert x in SetOf(tail);
      } else {
        assert tail[i - at] == x;
      }
    }
  }

  // ---------------------------------------------------------------- the search

  /** One walk from an unsearched atom. */
  method WalkFrom(ps: Parents, start: Atom, done: set<Atom>) returns (path: seq<Atom>, cycle: Option<seq<Atom>>)
    requires start in ps && start !in done && done <= ps.Keys && UpClosed(ps, done)
    ensures start in path && SetOf(path) <= ps.Keys && SetOf(path) !! done
    ensures UpClosed(ps, done + SetOf(path))
    ensures cycle.None? ==> forall x :: x in path ==> !OnCycle(ps, x)
    ensures cycle.Some? ==> ListedCycle(ps, cycle.value) && SetOf(cycle.value) <= SetOf(path)
    ensures cycle.Some? ==> forall x :: x in path ==> (OnCycle(ps, x) <==> x in cycle.value)
  {
    path, cycle := [], None;
    var index: map<Atom, nat> := map[];
    var current: Option<Atom> := Some(start);
    while current.Some? && current.value in ps
      invariant Chained(ps, path) && Distinct(path) && SetOf(path) !! done
      invariant |path| == 0 ==> current == Some(start)
      invariant |path| > 0 ==> path[0] == start && ps[path[|path| - 1]] == current
      invariant forall x :: x in index <==> x in path
      invariant forall x :: x in index ==> index[x] < |path| && path[index[x]] == x
      decreases ps.Keys - index.Keys
    {
      var x := current.value;
      if x in index {
        cycle := Some(path[index[x]..]);
        ChainIntoItself(ps, path, index[x]);
        break;
      }
      if x in done { break; }
      ghost var before := index;
      index := index[x := |path|];
      assert ps.Keys - index.Keys == ps.Keys - before.Keys - {x} && x in ps.Keys - before.Keys;
      path := path + [x];
      current := ps[x];
    }
    if cycle.None? { ChainOffCycle(ps, path, done); }
    forall k | k in done + SetOf(path) && Next(ps, k).Some? && Next(ps, k).value in ps
      ensures Next(ps, k).value in done + SetOf(path)
    {
      if k !in done {
        var i :| 0 <= i < |path| && path[i] == k;
        assert i < |path| - 1 ==> ps[path[i]] == Some(path[i + 1]);
      }
    }
  }

  /** The first cycle met, or none exactly when the graph has no cycle. */
  method FindCycle(ps: Parents) returns (cycle: Option<seq<Atom>>)
    ensures cycle.None? <==> CycleFree(ps)
    ensures cycle.Some? ==> ListedCycle(ps, cycle.value)
  {
    var done: set<Atom> := {};
    var todo := ps.Keys;
    while todo != {}
      invariant todo <= ps.Keys && done <= ps.Keys && UpClosed(ps, done)
      invariant forall x :: x in ps ==> x in todo || x in done
      invariant forall x :: x in done ==> !OnCycle(ps, x)
    {
      var start :| start in todo;
      todo := todo - {start};
      if start !in done {
        var path;
        path, cycle := WalkFrom(ps, start, done);
        if cycle.Some? {
          ListedIsCycle(ps, cycle.value);
          assert cycle.value[0] in cycle.value;
          return;
        }
        done := done + set x | x in path;
      }
    }
    forall x ensures !OnCycle(ps, x) {
      if OnCycle(ps, x) { OnCycleIsKnown(ps, x); }
    }
    cycle := None;
  }

  ghost predicate Listed(cycles: seq<seq<Atom>>, x: Atom) {
    exists i :: 0 <= i < |cycles| && x in cycles[i]
  }

  ghost function SetsOf(cycles: seq<seq<Atom>>): set<set<Atom>> {
    set i | 0 <= i < |cycles| :: SetOf(cycles[i])
  }

  ghost predicate PairwiseDisjoint(cycles: seq<seq<Atom>>) {
    forall i, j :: 0 <= i < j < |cycles| ==> SetOf(cycles[i]) !! SetOf(cycles[j])
  }

  /** The cycles among the searched atoms, each once. */
  ghost predicate ListsCyclesOf(ps: Parents, cycles: seq<seq<Atom>>, done: set<Atom>) {
    && (forall i :: 0 <= i < |cycles| ==> ListedCycle(ps, cycles[i]) && SetOf(cycles[i]) <= done)
    && PairwiseDisjoint(cycles)
    && (forall x :: x in done ==> (OnCycle(ps, x) <==> Listed(cycles, x)))
    && |SetsOf(cycles)| == |cycles|
  }

  lemma ListedExtends(cycles: seq<seq<Atom>>, c: seq<Atom>)
    ensures forall x :: Listed(cycles + [c], x) <==> Listed(cycles, x) || x in c
    ensures SetsOf(cycles + [c]) == SetsOf(cycles) + {SetOf(c)}
  {
    var all := cycles + [c];
    assert all[|cycles|] == c && forall i :: 0 <= i < |cycles| ==> all[i] == cycles[i];
    forall x ensures Listed(all, x) <==> Listed(cycles, x) || x in c {
      if i :| 0 <= i < |cycles| && x in cycles[i] { assert x in all[i]; }
    }
    forall s ensures s in SetsOf(all) <==> s in SetsOf(cycles) || s == SetOf(c) {
      if s in SetsOf(cycles) {
        var i :| 0 <= i < |cycles| && s == SetOf(cycles[i]);
        assert s == SetOf(all[i]);
      }
      if s == SetOf(c) { assert s == SetOf(all[|cycles|]); }
    }
  }

  lemma ListedWithin(cycles: seq<seq<Atom>>, done: set<Atom>)
    requires forall i :: 0 <= i < |cycles| ==> SetOf(cycles[i]) <= done
    ensures forall x :: Listed(cycles, x) ==> x in done
    ensures forall s :: s in SetsOf(cycles) ==> s <= done
  {
    forall x | Listed(cycles, x) ensures x in done {
      var i :| 0 <= i < |cycles| && x in cycles[i];
      assert x in SetOf(cycles[i]);
    }
  }

  lemma AddCycle(ps: Parents, cycles: seq<seq<Atom>>, done: set<Atom>, path: set<Atom>, c: seq<Atom>)
    requires ListsCyclesOf(ps, cycles, done) && path !! done
    requires ListedCycle(ps, c) && SetOf(c) <= path && forall x :: x in path ==> (OnCycle(ps, x) <==> x in c)
    ensures ListsCyclesOf(ps, cycles + [c], done + path)
  {
    ListedExtends(cycles, c);
    ListedWithin(cycles, done);
    assert c[0] in SetOf(c);
    assert SetOf(c) !in SetsOf(cycles);
    forall x | x in done ensures x !in c { assert x in SetOf(c) <==> x in c; }
  }

  lemma AddNoCycle(ps: Parents, cycles: seq<seq<Atom>>, done: set<Atom>, path: set<Atom>)
    requires ListsCyclesOf(ps, cycles, done) && path !! done
    requires forall x :: x in path ==> !OnCycle(ps, x)
    ensures ListsCyclesOf(ps, cycles, done + path)
  {
    ListedWithin(cycles, done);
  }

  /** Every cycle exactly once: the listed cycles are pairwise disjoint and as sets they are
      precisely the cycles of the graph. */
  ghost predicate ListsAllCycles(ps: Parents, cycles: seq<seq<Atom>>) {
    && (forall i :: 0 <= i < |cycles| ==> ListedCycle(ps, cycles[i]))
    && PairwiseDisjoint(cycles)
    && SetsOf(cycles) == CycleSets(ps)
    && |cycles| == |CycleSets(ps)|
  }

  lemma AllListed(ps: Parents, cycles: seq<seq<Atom>>)
    requires ListsCyclesOf(ps, cycles, ps.Keys)
    ensures ListsAllCycles(ps, cycles)
  {
    forall c ensures c in SetsOf(cycles) <==> c in CycleSets(ps) {
      CycleSetsAreCycles(ps, c);
      if c in SetsOf(cycles) {
        var i :| 0 <= i < |cycles| && SetOf(cycles[i]) == c;
        ListedIsCycle(ps, cycles[i]);
      }
      if IsCycle(ps, c) {
        var x :| OnCycle(ps, x) && c == Orbit(ps, x);
        OnCycleIsKnown(ps, x);
        assert Listed(cycles, x);
        var i :| 0 <= i < |cycles| && x in cycles[i];
        ListedIsCycle(ps, cycles[i]);
      }
    }
  }

  lemma NoneListedIfFree(ps: Parents, cycles: seq<seq<Atom>>)
    requires ListsCyclesOf(ps, cycles, ps.Keys)
    ensures cycles == [] <==> CycleFree(ps)
  {
    if cycles != [] {
      ListedIsCycle(ps, cycles[0]);
      assert cycles[0][0] in cycles[0];
    }
    forall x ensures OnCycle(ps, x) ==> cycles != [] {
      if OnCycle(ps, x) {
        OnCycleIsKnown(ps, x);
        assert Listed(cycles, x);
      }
    }
  }

  lemma NothingListed(ps: Parents)
    ensures ListsCyclesOf(ps, [], {})
  {
  }

  method AllCycles(ps: Parents) returns (cycles: seq<seq<Atom>>)
    ensures ListsAllCycles(ps, cycles)
    ensures cycles == [] <==> CycleFree(ps)
  {
    hide ListsCyclesOf, ListsAllCycles, CycleFree, OnCycle, ListedCycle;
    cycles := [];
    NothingListed(ps);
    var done: set<Atom> := {};
    var todo := ps.Keys;
    while todo != {}
      invariant todo <= ps.Keys && done <= ps.Keys && UpClosed(ps, done)
      invariant forall x :: x in ps ==> x in todo || x in done
      invariant ListsCyclesOf(ps, cycles, done)
    {
      var start :| start in todo;
      todo := todo - {start};
      if start !in done {
        var path, cycle := WalkFrom(ps, start, done);
        if cycle.Some? {
          AddCycle(ps, cycles, done, SetOf(path), cycle.value);
          cycles := cycles + [cycle.value];
        } else {
          AddNoCycle(ps, cycles, done, SetOf(path));
        }
        done := done + set x | x in path;
      }
    }
    assert done == ps.Keys;
    AllListed(ps, cycles);
    NoneListedIfFree(ps, cycles);
  }
}
