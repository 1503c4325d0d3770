/** The Fugue position forest: positions hang as left or right children below others, and
    the document order is the in-order walk with opaque identities ordering siblings. */
module FuguePositions {
  import opened CausalGraph
  import opened CoreTypes
  import opened ScalarRegisters

  datatype Position = Position(id: Id, parent: Option<Id>, left: bool)

  type Tree = map<Id, Position>

  datatype PositionError =
    | PositionExists | UnknownNeighbor | LeftNotBeforeRight | UnknownPosition | PositionCollision | InvalidTree
    | InvalidDepth | InvalidAncestorComparison | NoCommonRoot | NotAfterLeft | NotBeforeRight

  // ---------------------------------------------------------------- validity

  function ParentSet(p: Position): set<Id> {
    if p.parent.Some? then {p.parent.value} else {}
  }

  /** A forest as a causal graph: the single parent is the parent set, the side the value. */
  function GraphOf(t: Tree): Graph<bool> {
    map k | k in t :: Revision(t[k].id, t[k].left, ParentSet(t[k]))
  }

  ghost predicate ValidTree(t: Tree) {
    Valid(GraphOf(t))
  }

  lemma ParentKnown(t: Tree, x: Id)
    requires ValidTree(t) && x in t && t[x].parent.Some?
    ensures t[x].parent.value in t && t[x].parent.value != x && t[x].id == x
    ensures |AncestorSet(GraphOf(t), t[x].parent.value)| < |AncestorSet(GraphOf(t), x)|
  {
    var g := GraphOf(t);
    var p := t[x].parent.value;
    assert p in g[x].parents;
    ParentIsAncestor(g, x, p);
    AncestorsShrink(g, p, x);
  }

  lemma ValidIsKeyed(t: Tree)
    requires ValidTree(t)
    ensures forall k :: k in t ==> t[k].id == k
  {
    forall k | k in t ensures t[k].id == k { assert GraphOf(t)[k].id == k; }
  }

  // ---------------------------------------------------------------- root paths and their order

  datatype Turn = Turn(left: bool, id: Id)

  /** The turns from the root down to a position. */
  ghost function RootPath(t: Tree, x: Id): (p: seq<Turn>)
    requires ValidTree(t) && x in t
    ensures p != [] && p[|p| - 1] == Turn(t[x].left, x)
    decreases |AncestorSet(GraphOf(t), x)|
  {
    match t[x].parent
    case None => [Turn(t[x].left, x)]
    case Some(q) => ParentKnown(t, x); RootPath(t, q) + [Turn(t[x].left, x)]
  }

  predicate TurnBefore(a: Turn, b: Turn) {
    if a.left != b.left then a.left else a.id < b.id
  }

  /** Lexicographic, where ending a path sorts after going left and before going right. */
  predicate Before(p: seq<Turn>, q: seq<Turn>) {
    if p == [] then q != [] && !q[0].left
    else if q == [] then p[0].left
    else if p[0] == q[0] then Before(p[1..], q[1..])
    else TurnBefore(p[0], q[0])
  }

  lemma {:induction false} BeforeIsTotal(p: seq<Turn>, q: seq<Turn>)
    ensures Before(p, q) || p == q || Before(q, p)
    ensures !(Before(p, q) && Before(q, p)) && !Before(p, p)
    decreases |p|
  {
    if p != [] && q != [] && p[0] == q[0] {
      BeforeIsTotal(p[1..], q[1..]);
      assert p == [p[0]] + p[1..] && q == [q[0]] + q[1..];
    }
    if p != [] { BeforeIsTotal(p[1..], p[1..]); }
  }

  lemma {:induction false} BeforeTrans(p: seq<Turn>, q: seq<Turn>, r: seq<Turn>)
    requires Before(p, q) && Before(q, r)
    ensures Before(p, r)
    decreases |p|
  {
    if p != [] && q != [] && r != [] && p[0] == q[0] == r[0] { BeforeTrans(p[1..], q[1..], r[1..]); }
  }

  /** Where two paths first part decides. */
  lemma {:induction false} BeforeAt(p: seq<Turn>, q: seq<Turn>, k: nat)
    requires k < |p| && k < |q| && p[..k] == q[..k] && p[k] != q[k]
    ensures Before(p, q) <==> TurnBefore(p[k], q[k])
    decreases k
  {
    if k > 0 {
      assert p[0] == p[..k][0] && q[0] == q[..k][0];
      assert p[1..][..k - 1] == p[..k][1..] && q[1..][..k - 1] == q[..k][1..];
      BeforeAt(p[1..], q[1..], k - 1);
    }
  }

  /** Below a common prefix only the side taken next matters. */
  lemma {:induction false} BeforePrefix(p: seq<Turn>, q: seq<Turn>)
    requires |p| < |q| && p == q[..|p|]
    ensures Before(p, q) <==> !q[|p|].left
    ensures Before(q, p) <==> q[|p|].left
    decreases |p|
  {
    if p != [] {
      assert p[1..] == q[1..][..|p| - 1];
      BeforePrefix(p[1..], q[1..]);
    }
  }

  lemma PrefixTail(p: seq<Turn>, q: seq<Turn>)
    requires p != [] && q != [] && p[0] == q[0]
    ensures p <= q <==> p[1..] <= q[1..]
  {
    assert p == [p[0]] + p[1..] && q == [q[0]] + q[1..];
  }

  /** Paths that part strictly before either ends stay ordered however they are extended. */
  lemma {:induction false} BeforeExtends(p: seq<Turn>, q: seq<Turn>, p': seq<Turn>, q': seq<Turn>)
    requires p <= p' && q <= q' && !(p <= q) && !(q <= p)
    ensures Before(p', q') <==> Before(p, q)
    decreases |p|
  {
    assert p != [] && q != [];
    if p[0] == q[0] {
      assert p[1..] <= p'[1..] && q[1..] <= q'[1..];
      PrefixTail(p, q);
      PrefixTail(q, p);
      BeforeExtends(p[1..], q[1..], p'[1..], q'[1..]);
    }
  }

  /** Whatever lies between two paths through one prefix goes through it too. */
  lemma {:induction false} PrefixIsInterval(s: seq<Turn>, a: seq<Turn>, b: seq<Turn>, c: seq<Turn>)
    requires s <= a && s <= c && Before(a, b) && Before(b, c)
    ensures s <= b
    decreases |s|
  {
    if s != [] {
      assert a[0] == s[0] && c[0] == s[0];
      assert b != [] && b[0] == s[0];
      PrefixIsInterval(s[1..], a[1..], b[1..], c[1..]);
      assert s == [s[0]] + s[1..] && b == [b[0]] + b[1..];
    }
  }

  // ---------------------------------------------------------------- paths in a forest

  /** Every proper initial part of a root path is the root path of an ancestor. */
  lemma {:induction false} PathPrefix(t: Tree, x: Id, k: nat)
    requires ValidTree(t) && x in t && 0 < k <= |RootPath(t, x)|
    ensures RootPath(t, x)[k - 1].id in t
    ensures RootPath(t, RootPath(t, x)[k - 1].id) == RootPath(t, x)[..k]
    decreases |RootPath(t, x)|
  {
    var p := RootPath(t, x);
    if k < |p| {
      ParentKnown(t, x);
      var q := t[x].parent.value;
      assert p == RootPath(t, q) + [p[|p| - 1]];
      PathPrefix(t, q, k);
      assert p[..k] == RootPath(t, q)[..k];
    } else {
      assert p[..k] == p;
    }
  }

  lemma PathInjective(t: Tree, x: Id, y: Id)
    requires ValidTree(t) && x in t && y in t
    ensures RootPath(t, x) == RootPath(t, y) ==> x == y
  {
  }

  /** Root paths only look upwards, so a larger valid forest does not change them. */
  lemma {:induction false} PathsStable(t: Tree, u: Tree, x: Id)
    requires ValidTree(t) && ValidTree(u) && SubGraph(t, u) && x in t
    ensures RootPath(u, x) == RootPath(t, x)
    decreases |AncestorSet(GraphOf(t), x)|
  {
    if t[x].parent.Some? {
      ParentKnown(t, x);
      PathsStable(t, u, t[x].parent.value);
    }
  }

  /** Strictly before in document order. */
  ghost predicate Precedes(t: Tree, x: Id, y: Id)
    requires ValidTree(t) && x in t && y in t
  {
    Before(RootPath(t, x), RootPath(t, y))
  }

  /** `y` is `x` or lies below it. */
  ghost predicate InSubtree(t: Tree, x: Id, y: Id)
    requires ValidTree(t) && x in t && y in t
  {
    RootPath(t, x) <= RootPath(t, y)
  }

  lemma {:induction false} SubtreeIsAncestry(t: Tree, x: Id, y: Id)
    requires ValidTree(t) && x in t && y in t
    ensures InSubtree(t, x, y) <==> x == y || Ancestor(GraphOf(t), x, y)
    decreases |AncestorSet(GraphOf(t), y)|
  {
    var g := GraphOf(t);
    var px, py := RootPath(t, x), RootPath(t, y);
    match t[y].parent
    case None =>
      if Ancestor(g, x, y) { var q := AncestorStep(g, x, y); }
      if InSubtree(t, x, y) { assert px == py; }
    case Some(q) =>
      ParentKnown(t, y);
      SubtreeIsAncestry(t, x, q);
      assert q in g[y].parents;
      if Ancestor(g, x, y) {
        var q' := AncestorStep(g, x, y);
        assert q' == q;
      }
      if InSubtree(t, x, q) { AncestorVia(g, x, q, y); }
      if InSubtree(t, x, y) {
        if |px| == |py| { assert px == py; } else { assert px <= RootPath(t, q); }
      }
  }

  // ---------------------------------------------------------------- order theorems

  lemma PrecedesIsStrictTotalOrder(t: Tree, x: Id, y: Id, z: Id)
    requires ValidTree(t) && x in t && y in t && z in t
    ensures !Precedes(t, x, x)
    ensures x != y ==> (Precedes(t, x, y) <==> !Precedes(t, y, x))
    ensures Precedes(t, x, y) && Precedes(t, y, z) ==> Precedes(t, x, z)
  {
    BeforeIsTotal(RootPath(t, x), RootPath(t, y));
    PathInjective(t, x, y);
    if Precedes(t, x, y) && Precedes(t, y, z) { BeforeTrans(RootPath(t, x), RootPath(t, y), RootPath(t, z)); }
  }

  /** Merging in any further positions leaves the order of the old ones as it was. */
  lemma OrderIsStable(t: Tree, u: Tree, x: Id, y: Id)
    requires ValidTree(t) && ValidTree(u) && SubGraph(t, u) && x in t && y in t
    ensures Precedes(u, x, y) <==> Precedes(t, x, y)
  {
    PathsStable(t, u, x);
    PathsStable(t, u, y);
  }

  /** Every subtree is a contiguous stretch of the document. */
  lemma SubtreeIsContiguous(t: Tree, x: Id, a: Id, b: Id, c: Id)
    requires ValidTree(t) && x in t && a in t && b in t && c in t
    requires InSubtree(t, x, a) && InSubtree(t, x, c) && Precedes(t, a, b) && Precedes(t, b, c)
    ensures InSubtree(t, x, b)
  {
    PrefixIsInterval(RootPath(t, x), RootPath(t, a), RootPath(t, b), RootPath(t, c));
  }

  /** The document is the in-order walk: everything below a left child comes before its
      parent, everything below a right child after it. */
  lemma ChildrenSurroundParent(t: Tree, x: Id, y: Id)
    requires ValidTree(t) && x in t && y in t && t[x].parent.Some? && t[x].parent.value in t && InSubtree(t, x, y)
    ensures Precedes(t, y, t[x].parent.value) <==> t[x].left
    ensures Precedes(t, t[x].parent.value, y) <==> !t[x].left
  {
    var q := t[x].parent.value;
    var p, e := RootPath(t, q), RootPath(t, y);
    assert RootPath(t, x) == p + [Turn(t[x].left, x)] <= e;
    assert p == e[..|p|] && e[|p|] == Turn(t[x].left, x);
    BeforePrefix(p, e);
  }

  /** Two children of one parent, with all that is below them: left before right, and on one
      side the smaller identity first. */
  lemma SiblingsInOrder(t: Tree, a: Id, b: Id, x: Id, y: Id)
    requires ValidTree(t) && a in t && b in t && a != b && t[a].parent == t[b].parent
    requires x in t && y in t && InSubtree(t, a, x) && InSubtree(t, b, y)
    ensures Precedes(t, x, y) <==> if t[a].left != t[b].left then t[a].left else a < b
  {
    if t[a].parent.Some? { ParentKnown(t, a); }
    var p := if t[a].parent.Some? then RootPath(t, t[a].parent.value) else [];
    var u, w := RootPath(t, x), RootPath(t, y);
    assert p + [Turn(t[a].left, a)] <= u && p + [Turn(t[b].left, b)] <= w;
    assert u[..|p|] == p == w[..|p|] && u[|p|] == Turn(t[a].left, a) && w[|p|] == Turn(t[b].left, b);
    BeforeAt(u, w, |p|);
  }

  lemma TreesUnite(t: Tree, u: Tree)
    requires ValidTree(t) && ValidTree(u) && forall k :: k in t && k in u ==> t[k] == u[k]
    ensures ValidTree(t + u) && SubGraph(t, t + u) && SubGraph(u, t + u)
  {
    UnionIsValid(GraphOf(t), GraphOf(u));
    assert GraphOf(t + u) == GraphOf(t) + GraphOf(u);
  }

  // ---------------------------------------------------------------- creating a position

  /** Where a new position between two neighbours hangs. */
  ghost predicate HangsLeft(t: Tree, left: Option<Id>, right: Option<Id>)
    requires ValidTree(t)
    requires (left.Some? ==> left.value in t) && (right.Some? ==> right.value in t)
  {
    right.Some? && (left.None? || InSubtree(t, left.value, right.value))
  }

  ghost function Created(t: Tree, id: Id, left: Option<Id>, right: Option<Id>): Tree
    requires ValidTree(t)
    requires (left.Some? ==> left.value in t) && (right.Some? ==> right.value in t)
  {
    t[id := if HangsLeft(t, left, right) then Position(id, right, true) else Position(id, left, false)]
  }

  /** The neighbours exist and are in order. */
  ghost predicate Gap(t: Tree, left: Option<Id>, right: Option<Id>) {
    && ValidTree(t)
    && (left.Some? ==> left.value in t) && (right.Some? ==> right.value in t)
    && (left.Some? && right.Some? ==> Precedes(t, left.value, right.value))
  }

  lemma AddLeaf(t: Tree, id: Id, parent: Option<Id>, side: bool)
    requires ValidTree(t) && id !in t && (parent.Some? ==> parent.value in t)
    ensures var u := t[id := Position(id, parent, side)];
            && ValidTree(u) && SubGraph(t, u)
            && RootPath(u, id) == (if parent.Some? then RootPath(t, parent.value) else []) + [Turn(side, id)]
  {
    var p := Position(id, parent, side);
    var u := t[id := p];
    InsertIsValid(GraphOf(t), Revision(id, side, ParentSet(p)));
    assert GraphOf(u) == GraphOf(t)[id := Revision(id, side, ParentSet(p))];
    if parent.Some? { PathsStable(t, u, parent.value); }
  }

  lemma BetweenAsLeftChild(l: seq<Turn>, r: seq<Turn>, n: seq<Turn>, turn: Turn)
    requires n == r + [turn] && turn.left
    ensures Before(n, r)
    ensures l <= r && Before(l, r) ==> Before(l, n)
  {
    assert r == n[..|r|];
    BeforePrefix(r, n);
    if l <= r && Before(l, r) {
      if l == r { BeforeIsTotal(l, r); }
      assert l == r[..|l|] == n[..|l|];
      BeforePrefix(l, r);
      BeforePrefix(l, n);
    }
  }

  lemma BetweenAsRightChild(l: seq<Turn>, r: seq<Turn>, n: seq<Turn>, turn: Turn)
    requires n == l + [turn] && !turn.left
    ensures Before(l, n)
    ensures !(l <= r) && Before(l, r) ==> Before(n, r)
  {
    assert l == n[..|l|];
    BeforePrefix(l, n);
    if !(l <= r) && Before(l, r) {
      if r <= l {
        assert r == l[..|r|] == n[..|r|];
        BeforePrefix(r, l);
        BeforePrefix(r, n);
      } else {
        BeforeExtends(l, r, n, r);
      }
    }
  }

  /** For any neighbours in order, adjacent or not, the new forest is valid and the new
      position lies strictly between them. */
  lemma CreatedIsBetween(t: Tree, id: Id, left: Option<Id>, right: Option<Id>)
    requires Gap(t, left, right) && id !in t
    ensures var u := Created(t, id, left, right);
            && ValidTree(u) && SubGraph(t, u) && u.Keys == t.Keys + {id}
            && (left.Some? ==> Precedes(u, left.value, id))
            && (right.Some? ==> Precedes(u, id, right.value))
  {
    var u := Created(t, id, left, right);
    if HangsLeft(t, left, right) {
      AddLeaf(t, id, right, true);
      var r := RootPath(t, right.value);
      var l := if left.Some? then RootPath(t, left.value) else [];
      BetweenAsLeftChild(l, r, r + [Turn(true, id)], Turn(true, id));
    } else {
      AddLeaf(t, id, left, false);
      if left.Some? {
        var l := RootPath(t, left.value);
        var r := if right.Some? then RootPath(t, right.value) else [];
        BetweenAsRightChild(l, r, l + [Turn(false, id)], Turn(false, id));
      }
    }
    if left.Some? { PathsStable(t, u, left.value); }
    if right.Some? { PathsStable(t, u, right.value); }
  }

  // ---------------------------------------------------------------- typing forwards

  ghost predicate FreshIds(t: Tree, ids: seq<Id>) {
    && (forall i :: 0 <= i < |ids| ==> ids[i] !in t)
    && (forall i, j :: 0 <= i < j < |ids| ==> ids[i] != ids[j])
  }

  lemma NextGap(t: Tree, id: Id, left: Option<Id>, right: Option<Id>)
    requires Gap(t, left, right) && id !in t
    ensures Gap(Created(t, id, left, right), Some(id), right)
    ensures !HangsLeft(Created(t, id, left, right), Some(id), right)
  {
    CreatedIsBetween(t, id, left, right);
    if right.Some? { NewIsNotAbove(t, Created(t, id, left, right), id, right.value); }
  }

  /** What was there before does not lie below a newcomer. */
  lemma NewIsNotAbove(t: Tree, u: Tree, x: Id, y: Id)
    requires ValidTree(t) && ValidTree(u) && SubGraph(t, u) && x in u && x !in t && y in t
    ensures !InSubtree(u, x, y)
  {
    SubtreeIsAncestry(u, x, y);
    AncestryIsLocal(GraphOf(t), GraphOf(u), x, y);
    if Ancestor(GraphOf(t), x, y) { AncestorIsKnown(GraphOf(t), x, y); }
  }

  /** Each next position goes between the one just typed and the same right neighbour. */
  ghost function TypeForward(t: Tree, ids: seq<Id>, left: Option<Id>, right: Option<Id>): Tree
    requires Gap(t, left, right) && FreshIds(t, ids)
    decreases |ids|
  {
    if ids == [] then t
    else
      NextGap(t, ids[0], left, right);
      TypeForward(Created(t, ids[0], left, right), ids[1..], Some(ids[0]), right)
  }

  /** A typed run is in document order, and all of it lies below its first position. */
  ghost predicate TypedBelow(u: Tree, top: Id, ids: seq<Id>)
    requires ValidTree(u)
  {
    && top in u && (forall i :: 0 <= i < |ids| ==> ids[i] in u)
    && (forall i :: 0 <= i < |ids| ==> InSubtree(u, top, ids[i]))
    && (forall i, j :: 0 <= i < j < |ids| ==> Precedes(u, ids[i], ids[j]))
  }

  lemma CreatedBelowLeft(t: Tree, id: Id, left: Id, right: Option<Id>)
    requires Gap(t, Some(left), right) && id !in t && !HangsLeft(t, Some(left), right)
    ensures var u := Created(t, id, Some(left), right);
            ValidTree(u) && SubGraph(t, u) && InSubtree(u, left, id) && Precedes(u, left, id)
  {
    CreatedIsBetween(t, id, Some(left), right);
    AddLeaf(t, id, Some(left), false);
    PathsStable(t, Created(t, id, Some(left), right), left);
  }

  lemma {:induction false} TypedRunBelow(t: Tree, ids: seq<Id>, left: Id, right: Option<Id>)
    requires Gap(t, Some(left), right) && FreshIds(t, ids) && !HangsLeft(t, Some(left), right)
    ensures var u := TypeForward(t, ids, Some(left), right);
            && ValidTree(u) && SubGraph(t, u) && u.Keys == t.Keys + (set x | x in ids)
            && TypedBelow(u, left, [left] + ids)
    decreases |ids|
  {
    if ids == [] {
      assert TypedBelow(t, left, [left]);
    } else {
      var v := Created(t, ids[0], Some(left), right);
      NextGap(t, ids[0], Some(left), right);
      CreatedBelowLeft(t, ids[0], left, right);
      TypedRunBelow(v, ids[1..], ids[0], right);
      var u := TypeForward(t, ids, Some(left), right);
      PathsStable(v, u, left);
      PathsStable(v, u, ids[0]);
      assert [ids[0]] + ids[1..] == ids;
      ExtendTyped(u, left, ids);
    }
  }

  lemma ExtendTyped(u: Tree, top: Id, ids: seq<Id>)
    requires ValidTree(u) && ids != [] && TypedBelow(u, ids[0], ids)
    requires top in u && InSubtree(u, top, ids[0]) && Precedes(u, top, ids[0])
    ensures TypedBelow(u, top, [top] + ids)
  {
    var all := [top] + ids;
    forall i | 0 <= i < |all| ensures all[i] in u && InSubtree(u, top, all[i]) {
      if i > 0 { assert all[i] == ids[i - 1]; }
    }
    forall i, j | 0 <= i < j < |all| ensures Precedes(u, all[i], all[j]) {
      assert all[j] == ids[j - 1];
      if i > 0 { assert all[i] == ids[i - 1]; }
      else if j > 1 { PrecedesIsStrictTotalOrder(u, top, ids[0], ids[j - 1]); }
    }
  }

  lemma TypedRun(t: Tree, ids: seq<Id>, left: Option<Id>, right: Option<Id>)
    requires Gap(t, left, right) && FreshIds(t, ids) && ids != []
    ensures var u := TypeForward(t, ids, left, right);
            ValidTree(u) && SubGraph(t, u) && u.Keys == t.Keys + (set x | x in ids) && TypedBelow(u, ids[0], ids)
  {
    hide Created, TypedBelow, Precedes, InSubtree, HangsLeft, RootPath;
    var v, rest := Created(t, ids[0], left, right), ids[1..];
    NextGap(t, ids[0], left, right);
    TypedFirst(t, ids[0], left, right);
    RestIsFresh(t, v, ids);
    TypedRunBelow(v, rest, ids[0], right);
    assert TypeForward(t, ids, left, right) == TypeForward(v, rest, Some(ids[0]), right);
    assert [ids[0]] + rest == ids;
  }

  lemma RestIsFresh(t: Tree, v: Tree, ids: seq<Id>)
    requires FreshIds(t, ids) && ids != [] && v.Keys == t.Keys + {ids[0]}
    ensures FreshIds(v, ids[1..])
    ensures (set x | x in ids) == {ids[0]} + set x | x in ids[1..]
  {
    assert ids == [ids[0]] + ids[1..];
  }

  lemma TypedFirst(t: Tree, id: Id, left: Option<Id>, right: Option<Id>)
    requires Gap(t, left, right) && id !in t
    ensures SubGraph(t, Created(t, id, left, right)) && Created(t, id, left, right).Keys == t.Keys + {id}
  {
    CreatedIsBetween(t, id, left, right);
  }

  /** Two runs typed forward on any two forests never interleave in any forest that holds
      both: one run comes wholly before the other. */
  lemma RunsDoNotInterleave(t: Tree, ids: seq<Id>, left: Option<Id>, right: Option<Id>,
                            t': Tree, others: seq<Id>, left': Option<Id>, right': Option<Id>, m: Tree)
    requires Gap(t, left, right) && FreshIds(t, ids) && FreshIds(t', ids) && ids != []
    requires Gap(t', left', right') && FreshIds(t', others) && FreshIds(t, others) && others != []
    requires forall i, j :: 0 <= i < |ids| && 0 <= j < |others| ==> ids[i] != others[j]
    requires ValidTree(m)
    requires SubGraph(TypeForward(t, ids, left, right), m) && SubGraph(TypeForward(t', others, left', right'), m)
    ensures forall x :: x in ids || x in others ==> x in m
    ensures (forall x, y :: x in ids && y in others ==> Precedes(m, x, y)) ||
            (forall x, y :: x in ids && y in others ==> Precedes(m, y, x))
  {
    var u, v := TypeForward(t, ids, left, right), TypeForward(t', others, left', right');
    TypedRun(t, ids, left, right);
    TypedRun(t', others, left', right');
    NewIsNotAbove(v, m, ids[0], others[0]);
    NewIsNotAbove(u, m, others[0], ids[0]);
    var p, q := RootPath(m, ids[0]), RootPath(m, others[0]);
    forall x, y | x in ids && y in others
      ensures x in m && y in m && (Precedes(m, x, y) <==> Before(p, q)) && (Precedes(m, y, x) <==> Before(q, p))
    {
      PathsStable(u, m, x);
      PathsStable(u, m, ids[0]);
      PathsStable(v, m, y);
      PathsStable(v, m, others[0]);
      BeforeExtends(p, q, RootPath(m, x), RootPath(m, y));
      BeforeExtends(q, p, RootPath(m, y), RootPath(m, x));
    }
    BeforeIsTotal(p, q);
  }

  /** In particular after merging, which succeeds whenever the forests agreed before. */
  lemma MergedRunsDoNotInterleave(t: Tree, ids: seq<Id>, left: Option<Id>, right: Option<Id>,
                                  t': Tree, others: seq<Id>, left': Option<Id>, right': Option<Id>)
    requires Gap(t, left, right) && FreshIds(t, ids) && FreshIds(t', ids) && ids != []
    requires Gap(t', left', right') && FreshIds(t', others) && FreshIds(t, others) && others != []
    requires forall i, j :: 0 <= i < |ids| && 0 <= j < |others| ==> ids[i] != others[j]
    requires forall k :: k in t && k in t' ==> t[k] == t'[k]
    ensures var u := TypeForward(t, ids, left, right); var v := TypeForward(t', others, left', right'); var m := u + v;
            && ValidTree(m) && (forall x :: x in ids || x in others ==> x in m)
            && ((forall x, y :: x in ids && y in others ==> Precedes(m, x, y)) ||
                (forall x, y :: x in ids && y in others ==> Precedes(m, y, x)))
  {
    hide Precedes, ValidTree, TypedBelow;
    var u, v := TypeForward(t, ids, left, right), TypeForward(t', others, left', right');
    TypedRun(t, ids, left, right);
    TypedRun(t', others, left', right');
    TypedAgree(t, ids, t', others, u, v);
    TreesUnite(u, v);
    RunsDoNotInterleave(t, ids, left, right, t', others, left', right', u + v);
  }

  lemma TypedAgree(t: Tree, ids: seq<Id>, t': Tree, others: seq<Id>, u: Tree, v: Tree)
    requires forall k :: k in t && k in t' ==> t[k] == t'[k]
    requires SubGraph(t, u) && u.Keys == t.Keys + (set x | x in ids) && FreshIds(t', ids)
    requires SubGraph(t', v) && v.Keys == t'.Keys + (set x | x in others) && FreshIds(t, others)
    requires forall i, j :: 0 <= i < |ids| && 0 <= j < |others| ==> ids[i] != others[j]
    ensures forall k :: k in u && k in v ==> u[k] == v[k]
  {
  }

  // ---------------------------------------------------------------- the algorithms

  method Depth(t: Tree, x: Id) returns (depth: nat)
    requires ValidTree(t) && x in t
    ensures depth == |RootPath(t, x)|
  {
    depth := 1;
    var current := x;
    while t[current].parent.Some?
      invariant current in t && depth + |RootPath(t, current)| == |RootPath(t, x)| + 1
      decreases |RootPath(t, current)|
    {
      ParentKnown(t, current);
      depth := depth + 1;
      current := t[current].parent.value;
    }
  }

  /** Walks up from `descendant`; a position counts as its own ancestor here. */
  method IsAncestorOrSelf(t: Tree, ancestor: Id, descendant: Id) returns (r: bool)
    requires ValidTree(t) && ancestor in t && descendant in t
    ensures r == InSubtree(t, ancestor, descendant)
  {
    var current := Some(descendant);
    while current.Some?
      invariant current.Some? ==> current.value in t
      invariant current.Some? ==> (InSubtree(t, ancestor, current.value) <==> InSubtree(t, ancestor, descendant))
      invariant current.None? ==> !InSubtree(t, ancestor, descendant)
      decreases if current.Some? && current.value in t then |RootPath(t, current.value)| else 0
    {
      if current.value == ancestor { return true; }
      ParentSubtree(t, ancestor, current.value);
      if t[current.value].parent.Some? { ParentKnown(t, current.value); }
      current := t[current.value].parent;
    }
    r := false;
  }

  lemma ParentSubtree(t: Tree, x: Id, y: Id)
    requires ValidTree(t) && x in t && y in t && x != y
    ensures match t[y].parent
            case None => !InSubtree(t, x, y)
            case Some(q) => q in t && (InSubtree(t, x, y) <==> InSubtree(t, x, q))
  {
    if t[y].parent.Some? { ParentKnown(t, y); }
    var px, py := RootPath(t, x), RootPath(t, y);
    PathInjective(t, x, y);
    assert px <= py && |px| == |py| ==> px == py;
  }

  /** Climbs from depth `from` to depth `to`, remembering the side of the last position left. */
  method ClimbTo(t: Tree, x: Id, from: nat, to: nat) returns (y: Id, last: Option<bool>, error: Option<PositionError>)
    requires ValidTree(t) && x in t && from == |RootPath(t, x)| && to > 0
    ensures error.None? && y in t
    ensures from <= to ==> y == x && last.None?
    ensures from > to ==> RootPath(t, y) == RootPath(t, x)[..to] && last == Some(RootPath(t, x)[to].left)
  {
    ghost var p := RootPath(t, x);
    y, last, error := x, None, None;
    var depth := from;
    while depth > to
      invariant y in t && 0 < depth <= |p| && RootPath(t, y) == p[..depth]
      invariant depth < from ==> to <= depth && last == Some(p[depth].left)
      invariant depth == from ==> last.None? && y == x
    {
      assert p[..depth][depth - 1] == p[depth - 1];
      last := Some(t[y].left);
      if t[y].parent.None? { return y, last, Some(InvalidDepth); }
      ParentKnown(t, y);
      ghost var path := RootPath(t, y);
      y := t[y].parent.value;
      depth := depth - 1;
      assert RootPath(t, y) == path[..depth] == p[..depth];
    }
  }

  /** From two different positions at one depth up to the siblings on the two chains. */
  method ClimbToSiblings(t: Tree, x: Id, y: Id) returns (a: Id, b: Id, error: Option<PositionError>)
    requires ValidTree(t) && x in t && y in t && x != y && |RootPath(t, x)| == |RootPath(t, y)|
    ensures error.None? && a in t && b in t && a != b && t[a].parent == t[b].parent
    ensures InSubtree(t, a, x) && InSubtree(t, b, y) && |RootPath(t, a)| == |RootPath(t, b)|
  {
    ghost var p, q := RootPath(t, x), RootPath(t, y);
    a, b, error := x, y, None;
    ghost var k := |p|;
    while t[a].parent != t[b].parent
      invariant a in t && b in t && a != b && 0 < k <= |p| && k <= |q|
      invariant RootPath(t, a) == p[..k] && RootPath(t, b) == q[..k]
      decreases k
    {
      if t[a].parent.None? || t[b].parent.None? { return a, b, Some(NoCommonRoot); }
      ParentKnown(t, a);
      ParentKnown(t, b);
      ghost var pa, pb := RootPath(t, a), RootPath(t, b);
      a, b := t[a].parent.value, t[b].parent.value;
      k := k - 1;
      assert RootPath(t, a) == pa[..k] == p[..k] && RootPath(t, b) == pb[..k] == q[..k];
    }
  }

  /** Climbs both parent chains; on a valid forest none of its internal errors can occur. */
  method Compare(t: Tree, left: Id, right: Id) returns (r: Result<int, PositionError>)
    requires ValidTree(t)
    ensures r.Err? <==> left != right && (left !in t || right !in t)
    ensures r.Err? ==> r.error == UnknownPosition
    ensures r.Ok? && left == right ==> r.value == 0
    ensures r.Ok? && left != right ==> r.value == (if Precedes(t, left, right) then -1 else 1)
  {
    if left == right { return Ok(0); }
    if left !in t || right !in t { return Err(UnknownPosition); }
    ghost var p, q := RootPath(t, left), RootPath(t, right);
    PathInjective(t, left, right);
    BeforeIsTotal(p, q);
    var aDepth := Depth(t, left);
    var bDepth := Depth(t, right);
    var a, lastA, errorA := ClimbTo(t, left, aDepth, bDepth);
    match errorA { case Some(e) => return Err(e); case None => }
    var b, lastB, errorB := ClimbTo(t, right, bDepth, aDepth);
    match errorB { case Some(e) => return Err(e); case None => }
    if a == b {
      if lastA.Some? {
        BeforePrefix(q, p);
        return Ok(if lastA.value then -1 else 1);
      }
      if lastB.Some? {
        BeforePrefix(p, q);
        return Ok(if lastB.value then 1 else -1);
      }
      return Err(InvalidAncestorComparison);
    }
    var x, y, error := ClimbToSiblings(t, a, b);
    match error { case Some(e) => return Err(e); case None => }
    PartHere(t, p, q, x, y, |RootPath(t, x)|);
    if t[x].left != t[y].left { return Ok(if t[x].left then -1 else 1); }
    r := Ok(if t[x].id < t[y].id then -1 else 1);
  }

  /** Siblings on the two chains: the comparison of their turns is the whole comparison. */
  lemma PartHere(t: Tree, p: seq<Turn>, q: seq<Turn>, a: Id, b: Id, k: nat)
    requires ValidTree(t) && a in t && b in t && a != b && t[a].parent == t[b].parent
    requires 0 < k <= |p| && k <= |q| && RootPath(t, a) == p[..k] && RootPath(t, b) == q[..k]
    ensures t[a].id == a && t[b].id == b
    ensures Before(p, q) <==> TurnBefore(Turn(t[a].left, a), Turn(t[b].left, b))
  {
    var pa, pb := RootPath(t, a), RootPath(t, b);
    assert pa[..k - 1] == pb[..k - 1] by {
      if t[a].parent.Some? { ParentKnown(t, a); }
    }
    assert p[..k - 1] == pa[..k - 1] && q[..k - 1] == pb[..k - 1];
    assert p[k - 1] == pa[k - 1] && q[k - 1] == pb[k - 1];
    assert GraphOf(t)[a].id == a && GraphOf(t)[b].id == b;
    BeforeAt(p, q, k - 1);
  }

  /** Creation fails only for a used identity, an unknown neighbour or neighbours out of
      order; its two checks on the finished forest never fire. */
  method CreateBetween(t: Tree, id: Id, left: Option<Id>, right: Option<Id>) returns (r: Result<Tree, PositionError>)
    requires ValidTree(t)
    ensures r.Ok? <==> id !in t && Gap(t, left, right)
    ensures r.Ok? ==> r.value == Created(t, id, left, right) && ValidTree(r.value) && SubGraph(t, r.value)
    ensures r.Ok? && left.Some? ==> Precedes(r.value, left.value, id)
    ensures r.Ok? && right.Some? ==> Precedes(r.value, id, right.value)
    ensures r.Err? ==> r.error == (if id in t then PositionExists
                                   else if (left.Some? && left.value !in t) || (right.Some? && right.value !in t) then UnknownNeighbor
                                   else LeftNotBeforeRight)
  {
    if id in t { return Err(PositionExists); }
    if (left.Some? && left.value !in t) || (right.Some? && right.value !in t) { return Err(UnknownNeighbor); }
    if left.Some? && right.Some? {
      var c := Compare(t, left.value, right.value);
      PrecedesIsStrictTotalOrder(t, left.value, right.value, right.value);
      match c { case Err(e) => return Err(e); case Ok(v) => if v >= 0 { return Err(LeftNotBeforeRight); } }
    }
    var leftIsAncestor := false;
    if right.Some? {
      leftIsAncestor := true;
      if left.Some? { leftIsAncestor := IsAncestorOrSelf(t, left.value, right.value); }
    }
    var result := t[id := if leftIsAncestor then Position(id, right, true) else Position(id, left, false)];
    CreatedIsBetween(t, id, left, right);
    ValidIsKeyed(result);
    var valid := ValidateTree(result);
    if !valid { return Err(InvalidTree); }
    if left.Some? {
      var c := Compare(result, left.value, id);
      match c { case Err(e) => return Err(e); case Ok(v) => if v >= 0 { return Err(NotAfterLeft); } }
    }
    if right.Some? {
      var c := Compare(result, id, right.value);
      match c { case Err(e) => return Err(e); case Ok(v) => if v >= 0 { return Err(NotBeforeRight); } }
    }
    r := Ok(result);
  }

  /** Parents present and no cycle, by depth-first search. */
  method ValidateTree(t: Tree) returns (ok: bool)
    requires forall k :: k in t ==> t[k].id == k
    ensures ok <==> ValidTree(t)
  {
    var register := new ScalarRegister.FromGraph(GraphOf(t));
    var checked := register.Validate();
    ok := checked.Ok?;
  }

  method MergeTrees(t: Tree, u: Tree) returns (r: Result<Tree, PositionError>)
    requires ValidTree(t) && ValidTree(u)
    ensures r.Ok? <==> forall k :: k in t && k in u ==> t[k] == u[k]
    ensures r.Ok? ==> r.value == t + u && ValidTree(r.value) && SubGraph(t, r.value) && SubGraph(u, r.value)
    ensures r.Ok? ==> forall x, y :: x in t && y in t ==> (Precedes(r.value, x, y) <==> Precedes(t, x, y))
    ensures r.Err? ==> r.error == PositionCollision
  {
    var merged := t;
    var todo := u.Keys;
    while todo != {}
      invariant todo <= u.Keys && merged.Keys == t.Keys + (u.Keys - todo)
      invariant forall k :: k in t ==> merged[k] == t[k]
      invariant forall k :: k in u && k !in todo ==> merged[k] == u[k]
    {
      var k :| k in todo;
      if k in merged && merged[k] != u[k] { return Err(PositionCollision); }
      merged := merged[k := u[k]];
      todo := todo - {k};
    }
    assert merged == t + u;
    TreesUnite(t, u);
    forall x, y | x in t && y in t ensures Precedes(merged, x, y) <==> Precedes(t, x, y) { OrderIsStable(t, merged, x, y); }
    ValidIsKeyed(merged);
    var valid := ValidateTree(merged);
    if !valid { return Err(InvalidTree); }
    r := Ok(merged);
  }
}
