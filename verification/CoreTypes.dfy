/** Error and result types shared by the core state machines. */
module CoreTypes {
  import opened CausalGraph

  datatype CoreError =
    | DuplicateRevisionConflict(revisionId: Id)
    | RevisionAlreadyKnown(revisionId: Id)
    | UnknownRevision(revisionId: Id)
    | MissingParent(revisionId: Id, parentId: Id)
    | CausalCycle(revisionId: Id)
    | WorkingEpochAlreadyOpen(epochId: Id)
    | NoWorkingEpoch
    | DirtyObservationRequiresSeal
    | UnexpectedPreObservationRevision(revisionId: Id)
    | InvalidWorkingSnapshot
    | UnknownLocalRevision(revisionId: Id)
    | FinalizedStatementConflict(revisionId: Id)
    | HandoffRequiresFinalizedRevision(revisionId: Id)
    | InvalidFinalizationSnapshot

  datatype Result<+T, +E> = Ok(value: T) | Err(error: E) {
    predicate IsFailure() {
      Err?
    }

    function PropagateFailure<U>(): Result<U, E>
      requires Err?
    {
      Err(error)
    }

    function Extract(): T
      requires Ok?
    {
      value
    }
  }

  datatype Unit = Unit

  ghost predicate Distinct<T>(list: seq<T>) {
    forall i, j :: 0 <= i < j < |list| ==> list[i] != list[j]
  }

  predicate IsLeast(m: Id, s: set<Id>) {
    m in s && forall x :: x in s ==> m <= x
  }

  /** The members in ascending order. */
  ghost function Ascending(s: set<Id>): (list: seq<Id>)
    ensures |list| == |s| && forall x :: x in list <==> x in s
    decreases |s|
  {
    if s == {} then [] else
    LeastExists(s);
    var m :| IsLeast(m, s);
    [m] + Ascending(s - {m})
  }

  lemma {:induction false} LeastExists(s: set<Id>)
    requires s != {}
    ensures exists m :: IsLeast(m, s)
    decreases |s|
  {
    var x :| x in s;
    var rest := s - {x};
    if rest == {} {
      assert s == {x};
      assert IsLeast(x, s);
    } else {
      LeastExists(rest);
      var m :| IsLeast(m, rest);
      var k := if x < m then x else m;
      forall y | y in s ensures k <= y { assert y == x || y in rest; }
      assert IsLeast(k, s);
    }
  }

  lemma AscendingStep(s: set<Id>, m: Id)
    requires IsLeast(m, s)
    ensures Ascending(s) == [m] + Ascending(s - {m})
  {
  }

  ghost predicate Sorted(list: seq<Id>) {
    forall i, j :: 0 <= i < j < |list| ==> list[i] < list[j]
  }

  lemma SortedCons(m: Id, rest: seq<Id>)
    requires Sorted(rest) && forall x :: x in rest ==> m < x
    ensures Sorted([m] + rest)
  {
    var list := [m] + rest;
    forall i, j | 0 <= i < j < |list| ensures list[i] < list[j] {
      assert list[j] == rest[j - 1] && rest[j - 1] in rest;
      if i > 0 { assert list[i] == rest[i - 1]; }
    }
  }

  lemma SortedNone()
    ensures Sorted([])
  {
  }

  lemma LeastIsBelow(s: set<Id>, m: Id)
    requires IsLeast(m, s)
    ensures forall x :: x in s - {m} ==> m < x
  {
  }

  lemma {:induction false} AscendingSorted(s: set<Id>)
    ensures Sorted(Ascending(s))
    decreases |s|
  {
    if s != {} {
      LeastExists(s);
      var m :| IsLeast(m, s);
      hide IsLeast, Sorted;
      AscendingStep(s, m);
      LeastIsBelow(s, m);
      AscendingSorted(s - {m});
      SortedCons(m, Ascending(s - {m}));
    } else {
      assert Ascending(s) == [];
      SortedNone();
    }
  }

  lemma AscendingDistinct(s: set<Id>)
    ensures Distinct(Ascending(s))
  {
    AscendingSorted(s);
  }

  /** Ordered sets are walked from their least member upwards. */
  method Least(s: set<Id>) returns (m: Id)
    requires s != {}
    ensures IsLeast(m, s) && m in s && forall x :: x in s ==> m <= x
  {
    m :| m in s;
    var rest := s - {m};
    while rest != {}
      invariant m in s && rest <= s
      invariant forall x :: x in s && x !in rest ==> m <= x
    {
      var y :| y in rest;
      rest := rest - {y};
      if y < m { m := y; }
    }
  }

  method Greatest(s: set<Id>) returns (m: Id)
    requires s != {}
    ensures IsMax(m, s) && m in s && forall x :: x in s ==> x <= m
  {
    m :| m in s;
    var rest := s - {m};
    while rest != {}
      invariant m in s && rest <= s
      invariant forall x :: x in s && x !in rest ==> x <= m
    {
      var y :| y in rest;
      rest := rest - {y};
      if m < y { m := y; }
    }
  }
}
