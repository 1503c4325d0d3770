/** Repeated cycle breaking on a functional parent graph. Every atom has a list of
    placements it falls back through; while the graph has a cycle, some cycle is picked and
    its least-key atom falls back once. The outcome does not depend on which cycle is picked. */
module CycleBreaking {
  import opened CausalGraph

  type Atom = Id

  type Parents = map<Atom, Option<Atom>>

  // ---------------------------------------------------------------- functional graphs

  function Next(ps: Parents, x: Atom): Option<Atom> {
    if x in ps then ps[x] else None
  }

  /** The atom reached after `n` steps towards the root, if the chain is that long. */
  function Walk(ps: Parents, n: nat, x: Atom): Option<Atom> {
    if n == 0 then Some(x)
    else match Next(ps, x)
         case None => None
         case Some(y) => Walk(ps, n - 1, y)
  }

  ghost predicate OnCycle(ps: Parents, x: Atom) {
    exists n: nat :: n > 0 && Walk(ps, n, x) == Some(x)
  }

  ghost function Orbit(ps: Parents, x: Atom): set<Atom> {
    set y | y in ps && exists n: nat :: Walk(ps, n, x) == Some(y)
  }

  ghost predicate IsCycle(ps: Parents, c: set<Atom>) {
    exists x :: OnCycle(ps, x) && c == Orbit(ps, x)
  }

  ghost predicate CycleFree(ps: Parents) {
    forall x :: !OnCycle(ps, x)
  }

  ghost function CycleSets(ps: Parents): set<set<Atom>> {
    set x | x in ps && OnCycle(ps, x) :: Orbit(ps, x)
  }

  lemma {:induction false} WalkAdds(ps: Parents, m: nat, n: nat, x: Atom, y: Atom)
    requires Walk(ps, m, x) == Some(y)
    ensures Walk(ps, m + n, x) == Walk(ps, n, y)
    decreases m
  {
    if m > 0 { WalkAdds(ps, m - 1, n, ps[x].value, y); }
  }

  lemma {:induction false} WalkStaysIn(ps: Parents, n: nat, x: Atom, y: Atom, s: set<Atom>)
    requires Walk(ps, n, x) == Some(y) && x in s
    requires forall k :: k in s && Next(ps, k).Some? ==> Next(ps, k).value in s
    ensures y in s
    decreases n
  {
    if n > 0 { WalkStaysIn(ps, n - 1, ps[x].value, y, s); }
  }

  lemma {:induction false} CycleRepeats(ps: Parents, p: nat, k: nat, x: Atom)
    requires Walk(ps, p, x) == Some(x)
    ensures Walk(ps, k * p, x) == Some(x)
    decreases k
  {
    if k > 0 {
      CycleRepeats(ps, p, k - 1, x);
      WalkAdds(ps, p, (k - 1) * p, x, x);
      assert p + (k - 1) * p == k * p;
    }
  }

  /** From anywhere on a cycle the walk comes back. */
  lemma CycleReturns(ps: Parents, n: nat, x: Atom, y: Atom) returns (m: nat)
    requires OnCycle(ps, x) && Walk(ps, n, x) == Some(y)
    ensures m > 0 && Walk(ps, m, y) == Some(x)
  {
    var p: nat :| p > 0 && Walk(ps, p, x) == Some(x);
    CycleRepeats(ps, p, n + 1, x);
    assert (n + 1) * p == n * p + p && n * p >= n by { MulAtLeast(n, p); }
    m := (n + 1) * p - n;
    WalkAdds(ps, n, m, x, y);
  }

  lemma MulAtLeast(n: nat, p: nat)
    requires p > 0
    ensures n * p >= n && (n + 1) * p == n * p + p
  {
  }

  /** Members of one orbit share it: cycles are equal or disjoint. */
  lemma OrbitShared(ps: Parents, x: Atom, y: Atom)
    requires OnCycle(ps, x) && y in Orbit(ps, x)
    ensures OnCycle(ps, y) && Orbit(ps, y) == Orbit(ps, x) && x in Orbit(ps, y)
  {
    var n: nat :| Walk(ps, n, x) == Some(y);
    var m := CycleReturns(ps, n, x, y);
    WalkAdds(ps, m, n, y, x);
    assert Walk(ps, m + n, y) == Some(y);
    forall z | z in ps ensures z in Orbit(ps, x) <==> z in Orbit(ps, y) {
      if z in Orbit(ps, x) {
        var k: nat :| Walk(ps, k, x) == Some(z);
        WalkAdds(ps, m, k, y, x);
      }
      if z in Orbit(ps, y) {
        var k: nat :| Walk(ps, k, y) == Some(z);
        WalkAdds(ps, n, k, x, y);
      }
    }
    OnCycleIsKnown(ps, x);
  }

  lemma OnCycleIsKnown(ps: Parents, x: Atom)
    requires OnCycle(ps, x)
    ensures x in ps && ps[x].Some? && x in Orbit(ps, x)
  {
    assert Walk(ps, 0, x) == Some(x);
  }

  lemma CycleMember(ps: Parents, c: set<Atom>, x: Atom)
    requires IsCycle(ps, c) && x in c
    ensures OnCycle(ps, x) && c == Orbit(ps, x) && x in ps && ps[x].Some? && ps[x].value in c
  {
    var y :| OnCycle(ps, y) && c == Orbit(ps, y);
    OrbitShared(ps, y, x);
    OnCycleIsKnown(ps, x);
    var m := CycleReturns(ps, 0, x, x);
    assert Walk(ps, 1, x) == Some(ps[x].value) by { assert Walk(ps, 0, ps[x].value) == Some(ps[x].value); }
    if m == 1 { assert ps[x].value == x; } else {
      assert Walk(ps, m - 1, ps[x].value) == Some(x);
      assert ps[x].value in ps;
    }
  }

  lemma CycleNonEmpty(ps: Parents, c: set<Atom>)
    requires IsCycle(ps, c)
    ensures c != {} && c <= ps.Keys
  {
    var x :| OnCycle(ps, x) && c == Orbit(ps, x);
    OnCycleIsKnown(ps, x);
  }

  lemma CyclesDisjoint(ps: Parents, c: set<Atom>, d: set<Atom>)
    requires IsCycle(ps, c) && IsCycle(ps, d) && c != d
    ensures c !! d
  {
    forall x | x in c && x in d ensures false {
      CycleMember(ps, c, x);
      CycleMember(ps, d, x);
    }
  }

  lemma CycleSetsAreCycles(ps: Parents, c: set<Atom>)
    ensures c in CycleSets(ps) <==> IsCycle(ps, c)
  {
    if IsCycle(ps, c) {
      var x :| OnCycle(ps, x) && c == Orbit(ps, x);
      OnCycleIsKnown(ps, x);
    }
  }

  lemma {:induction false} WalkSame(ps: Parents, qs: Parents, n: nat, x: Atom, s: set<Atom>)
    requires x in s
    requires forall k :: k in s ==> Next(ps, k) == Next(qs, k)
    requires forall k :: k in s && Next(ps, k).Some? ==> Next(ps, k).value in s
    ensures Walk(ps, n, x) == Walk(qs, n, x)
    decreases n
  {
    if n > 0 && Next(ps, x).Some? { WalkSame(ps, qs, n - 1, Next(ps, x).value, s); }
  }

  /** A cycle survives every change made outside it. */
  lemma CycleSurvives(ps: Parents, qs: Parents, c: set<Atom>)
    requires IsCycle(ps, c) && c <= qs.Keys
    requires forall k :: k in c ==> ps[k] == qs[k]
    ensures IsCycle(qs, c)
  {
    var x :| OnCycle(ps, x) && c == Orbit(ps, x);
    OnCycleIsKnown(ps, x);
    forall k | k in c ensures Next(ps, k) == Next(qs, k) && Next(ps, k).Some? && Next(ps, k).value in c { CycleMember(ps, c, k); }
    forall n: nat ensures Walk(ps, n, x) == Walk(qs, n, x) { WalkSame(ps, qs, n, x, c); }
    assert OnCycle(qs, x);
    forall y ensures y in Orbit(qs, x) <==> y in c {
      if y in Orbit(qs, x) {
        var n: nat :| Walk(qs, n, x) == Some(y);
        WalkStaysIn(ps, n, x, y, c);
      }
    }
  }

  // ---------------------------------------------------------------- fallback systems

  /** One placement of an atom, and the key by which losers of a cycle are chosen. */
  datatype Slot = Slot(parent: Option<Atom>, key: Id)

  /** Each atom's placements, current one first. */
  type System = map<Atom, seq<Slot>>

  /** How often each atom has fallen back, or that some atom ran out of placements. */
  datatype State = Running(level: map<Atom, nat>) | Exhausted

  ghost predicate InRange(sys: System, level: map<Atom, nat>) {
    level.Keys == sys.Keys && forall a :: a in sys ==> level[a] < |sys[a]|
  }

  ghost predicate Fits(sys: System, s: State) {
    s.Running? ==> InRange(sys, s.level)
  }

  ghost function ParentsAt(sys: System, level: map<Atom, nat>): Parents
    requires InRange(sys, level)
  {
    map a | a in sys :: sys[a][level[a]].parent
  }

  /** Least key first, least atom among equal keys. */
  ghost predicate Loses(sys: System, level: map<Atom, nat>, c: set<Atom>, a: Atom)
    requires InRange(sys, level) && c <= sys.Keys
  {
    a in c && forall b :: b in c ==>
      sys[a][level[a]].key < sys[b][level[b]].key || (sys[a][level[a]].key == sys[b][level[b]].key && a <= b)
  }

  lemma {:induction false} LoserExists(sys: System, level: map<Atom, nat>, c: set<Atom>) returns (a: Atom)
    requires InRange(sys, level) && c <= sys.Keys && c != {}
    ensures Loses(sys, level, c, a)
    decreases c
  {
    var x :| x in c;
    if c == {x} { return x; }
    a := LoserExists(sys, level, c - {x});
    if sys[x][level[x]].key < sys[a][level[a]].key || (sys[x][level[x]].key == sys[a][level[a]].key && x <= a) { a := x; }
  }

  lemma SomeLoser(sys: System, level: map<Atom, nat>, c: set<Atom>)
    requires InRange(sys, level) && c <= sys.Keys && c != {}
    ensures exists a :: Loses(sys, level, c, a)
  {
    var a := LoserExists(sys, level, c);
  }

  ghost function Loser(sys: System, level: map<Atom, nat>, c: set<Atom>): Atom
    requires InRange(sys, level) && c <= sys.Keys && c != {}
  {
    SomeLoser(sys, level, c);
    var a :| Loses(sys, level, c, a);
    a
  }

  lemma LoserUnique(sys: System, level: map<Atom, nat>, c: set<Atom>, a: Atom)
    requires InRange(sys, level) && c <= sys.Keys && Loses(sys, level, c, a)
    ensures Loser(sys, level, c) == a
  {
  }

  ghost function FallBack(sys: System, level: map<Atom, nat>, a: Atom): State
    requires InRange(sys, level) && a in sys
  {
    if level[a] + 1 < |sys[a]| then Running(level[a := level[a] + 1]) else Exhausted
  }

  ghost predicate Breakable(sys: System, s: State, c: set<Atom>)
    requires Fits(sys, s)
  {
    s.Running? && IsCycle(ParentsAt(sys, s.level), c)
  }

  /** Breaking one cycle. */
  ghost function Break(sys: System, s: State, c: set<Atom>): (t: State)
    requires Fits(sys, s) && Breakable(sys, s, c)
    ensures Fits(sys, t)
  {
    CycleNonEmpty(ParentsAt(sys, s.level), c);
    FallBack(sys, s.level, Loser(sys, s.level, c))
  }

  /** The placements already fallen through. */
  ghost function Passed(level: map<Atom, nat>): set<(Atom, nat)> {
    set a, k: nat | a in level && 0 <= k < level[a] :: (a, k)
  }

  ghost function Slots(sys: System): set<(Atom, nat)> {
    set a, k: nat | a in sys && 0 <= k < |sys[a]| :: (a, k)
  }

  lemma FallBackPasses(sys: System, level: map<Atom, nat>, a: Atom)
    requires InRange(sys, level) && a in sys
    ensures Passed(level[a := level[a] + 1]) == Passed(level) + {(a, level[a])}
    ensures |Passed(level[a := level[a] + 1])| == |Passed(level)| + 1
    ensures |Passed(level)| < |Slots(sys)|
  {
    assert Passed(level[a := level[a] + 1]) == Passed(level) + {(a, level[a])};
    assert Passed(level) <= Slots(sys) - {(a, level[a])};
    SubsetSize(Passed(level), Slots(sys) - {(a, level[a])});
  }

  ghost function Budget(sys: System, s: State): nat
    requires Fits(sys, s)
  {
    if s.Exhausted? then 0
    else SubsetSize(Passed(s.level), Slots(sys)); 1 + |Slots(sys)| - |Passed(s.level)|
  }

  lemma BreakSpends(sys: System, s: State, c: set<Atom>)
    requires Fits(sys, s) && Breakable(sys, s, c)
    ensures Budget(sys, Break(sys, s, c)) < Budget(sys, s)
  {
    CycleNonEmpty(ParentsAt(sys, s.level), c);
    FallBackPasses(sys, s.level, Loser(sys, s.level, c));
  }

  ghost predicate Settled(sys: System, s: State)
    requires Fits(sys, s)
  {
    s.Exhausted? || CycleFree(ParentsAt(sys, s.level))
  }

  lemma UnsettledIsBreakable(sys: System, s: State)
    requires Fits(sys, s) && !Settled(sys, s)
    ensures exists c :: Breakable(sys, s, c)
  {
    var x :| OnCycle(ParentsAt(sys, s.level), x);
    assert Breakable(sys, s, Orbit(ParentsAt(sys, s.level), x));
  }

  ghost function Pick(sys: System, s: State): (c: set<Atom>)
    requires Fits(sys, s) && !Settled(sys, s)
    ensures Breakable(sys, s, c)
  {
    UnsettledIsBreakable(sys, s);
    var c :| Breakable(sys, s, c);
    c
  }

  /** Breaking cycles in some fixed order until none is left. */
  ghost function Outcome(sys: System, s: State): (t: State)
    requires Fits(sys, s)
    ensures Fits(sys, t) && Settled(sys, t)
    decreases Budget(sys, s)
  {
    if Settled(sys, s) then s
    else
      BreakSpends(sys, s, Pick(sys, s));
      Outcome(sys, Break(sys, s, Pick(sys, s)))
  }

  // ---------------------------------------------------------------- the diamond

  /** After one cycle is broken, every other cycle is still there with the same loser at the
      same placement. */
  lemma OtherCycleUntouched(sys: System, level: map<Atom, nat>, c: set<Atom>, d: set<Atom>)
    requires InRange(sys, level) && c != d
    requires IsCycle(ParentsAt(sys, level), c) && IsCycle(ParentsAt(sys, level), d)
    requires Break(sys, Running(level), c).Running?
    ensures Breakable(sys, Break(sys, Running(level), c), d)
    ensures d <= sys.Keys && d != {} && d !! c
    ensures Loser(sys, Break(sys, Running(level), c).level, d) == Loser(sys, level, d)
  {
    var ps := ParentsAt(sys, level);
    CycleNonEmpty(ps, c);
    CycleNonEmpty(ps, d);
    CyclesDisjoint(ps, c, d);
    var t := Break(sys, Running(level), c);
    CycleSurvives(ps, ParentsAt(sys, t.level), d);
    var l := LoserExists(sys, level, d);
    LoserUnique(sys, level, d, l);
    LoserUnique(sys, t.level, d, l);
  }

  lemma FallBackCommutes(sys: System, level: map<Atom, nat>, a: Atom, b: Atom)
    requires InRange(sys, level) && a in sys && b in sys && a != b
    ensures var t := FallBack(sys, level, a); var u := FallBack(sys, level, b);
            && (t.Running? && u.Running? ==> FallBack(sys, t.level, b) == FallBack(sys, u.level, a))
            && (t.Exhausted? && u.Running? ==> FallBack(sys, u.level, a).Exhausted?)
            && (t.Running? && u.Exhausted? ==> FallBack(sys, t.level, b).Exhausted?)
  {
    assert level[a := level[a] + 1][b := level[b] + 1] == level[b := level[b] + 1][a := level[a] + 1];
  }

  lemma BreakIsFallBack(sys: System, s: State, c: set<Atom>) returns (a: Atom)
    requires Fits(sys, s) && Breakable(sys, s, c)
    ensures c <= sys.Keys && c != {} && a in c && a == Loser(sys, s.level, c)
    ensures Break(sys, s, c) == FallBack(sys, s.level, a)
  {
    CycleNonEmpty(ParentsAt(sys, s.level), c);
    a := Loser(sys, s.level, c);
  }

  /** Breaking two different cycles commutes, also when one of them exhausts its loser. */
  lemma Diamond(sys: System, s: State, c: set<Atom>, d: set<Atom>)
    requires Fits(sys, s) && Breakable(sys, s, c) && Breakable(sys, s, d) && c != d
    ensures var t := Break(sys, s, c); var u := Break(sys, s, d);
            && (t.Running? ==> Breakable(sys, t, d))
            && (u.Running? ==> Breakable(sys, u, c))
            && (t.Running? && u.Running? ==> Break(sys, t, d) == Break(sys, u, c))
            && (t.Exhausted? && u.Running? ==> Break(sys, u, c).Exhausted?)
            && (t.Running? && u.Exhausted? ==> Break(sys, t, d).Exhausted?)
  {
    var a := BreakIsFallBack(sys, s, c);
    var b := BreakIsFallBack(sys, s, d);
    CyclesDisjoint(ParentsAt(sys, s.level), c, d);
    FallBackCommutes(sys, s.level, a, b);
    if Break(sys, s, c).Running? {
      OtherCycleUntouched(sys, s.level, c, d);
      var b' := BreakIsFallBack(sys, Break(sys, s, c), d);
    }
    if Break(sys, s, d).Running? {
      OtherCycleUntouched(sys, s.level, d, c);
      var a' := BreakIsFallBack(sys, Break(sys, s, d), c);
    }
  }

  /** The main result: whichever cycle is broken next, the outcome is the same. */
  lemma {:induction false} ChoiceDoesNotMatter(sys: System, s: State, c: set<Atom>)
    requires Fits(sys, s) && Breakable(sys, s, c)
    ensures Outcome(sys, Break(sys, s, c)) == Outcome(sys, s)
    decreases Budget(sys, s)
  {
    assert !Settled(sys, s) by {
      var x :| OnCycle(ParentsAt(sys, s.level), x) && c == Orbit(ParentsAt(sys, s.level), x);
    }
    var d := Pick(sys, s);
    if c != d {
      Diamond(sys, s, c, d);
      var t, u := Break(sys, s, c), Break(sys, s, d);
      BreakSpends(sys, s, c);
      BreakSpends(sys, s, d);
      if t.Running? { ChoiceDoesNotMatter(sys, t, d); }
      if u.Running? { ChoiceDoesNotMatter(sys, u, c); }
    }
  }

  // ---------------------------------------------------------------- arbitrary runs

  ghost predicate LegalRun(sys: System, s: State, picks: seq<set<Atom>>)
    requires Fits(sys, s)
    decreases |picks|
  {
    picks == [] || (Breakable(sys, s, picks[0]) && LegalRun(sys, Break(sys, s, picks[0]), picks[1..]))
  }

  ghost function AfterRun(sys: System, s: State, picks: seq<set<Atom>>): (t: State)
    requires Fits(sys, s) && LegalRun(sys, s, picks)
    ensures Fits(sys, t)
    decreases |picks|
  {
    if picks == [] then s else AfterRun(sys, Break(sys, s, picks[0]), picks[1..])
  }

  lemma BreakPasses(sys: System, s: State, c: set<Atom>)
    requires Fits(sys, s) && Breakable(sys, s, c) && Break(sys, s, c).Running?
    ensures |Passed(Break(sys, s, c).level)| == |Passed(s.level)| + 1
  {
    var a := BreakIsFallBack(sys, s, c);
    FallBackPasses(sys, s.level, a);
  }

  /** Any run, picking any cycles, that stops where no cycle is left stops in the one outcome,
      after one step per placement passed. */
  lemma {:induction false} EveryRunAgrees(sys: System, s: State, picks: seq<set<Atom>>)
    requires Fits(sys, s) && LegalRun(sys, s, picks) && Settled(sys, AfterRun(sys, s, picks))
    ensures AfterRun(sys, s, picks) == Outcome(sys, s)
    ensures s.Running? && Outcome(sys, s).Running? ==> |picks| == |Passed(Outcome(sys, s).level)| - |Passed(s.level)|
    decreases |picks|
  {
    if picks != [] {
      ChoiceDoesNotMatter(sys, s, picks[0]);
      EveryRunAgrees(sys, Break(sys, s, picks[0]), picks[1..]);
      if Break(sys, s, picks[0]).Running? { BreakPasses(sys, s, picks[0]); }
    }
  }
}
