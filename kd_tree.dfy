/** The kd-tree finder (src/DriverMatching/KdTreeFinder.cs): the same two
    dictionaries as the brute-force finder, plus a 2-d tree over the
    entries that is rebuilt lazily, by median splits alternating between
    the axes, and searched by branch and bound. */
module KdTree {
  import opened Models
  import opened Utils
  import opened Ranking
  import opened DriverFinder

  /** One (id, point) pair of the list Build works on. */
  datatype Entry = Entry(id: int, p: Point)

  /** A tree node: its entry, the axis it splits on (0 = x, otherwise y)
      and its subtrees. The source's mutable Node objects are only written
      while Build creates them, so they are values here. */
  datatype Tree =
    | Nil
    | Node(id: int, p: Point, axis: int, left: Tree, right: Tree)

  ghost function Elems(t: Tree): multiset<Entry> {
    match t
    case Nil => multiset{}
    case Node(id, p, _, l, r) => Elems(l) + multiset{Entry(id, p)} + Elems(r)
  }

  /** The comparer Build sorts with: by the axis coordinate, ties broken
      by the other coordinate. */
  predicate AxisLeq(a: Point, b: Point, axis: int) {
    if axis == 0 then a.x < b.x || (a.x == b.x && a.y <= b.y)
    else a.y < b.y || (a.y == b.y && a.x <= b.x)
  }

  /** The comparer is a total order on points. */
  lemma AxisLeqTotalOrder(a: Point, b: Point, c: Point, axis: int)
    ensures AxisLeq(a, b, axis) || AxisLeq(b, a, axis)
    ensures AxisLeq(a, b, axis) && AxisLeq(b, a, axis) ==> a == b
    ensures AxisLeq(a, b, axis) && AxisLeq(b, c, axis) ==> AxisLeq(a, c, axis)
  {
  }

  predicate SortedBy(s: seq<Entry>, axis: int) {
    forall i, j :: 0 <= i < j < |s| ==> AxisLeq(s[i].p, s[j].p, axis)
  }

  function InsertByAxis(s: seq<Entry>, e: Entry, axis: int): (r: seq<Entry>)
    requires SortedBy(s, axis)
    ensures SortedBy(r, axis)
    ensures multiset(r) == multiset(s) + multiset{e}
    ensures |r| == |s| + 1
  {
    if s == [] then [e]
    else if AxisLeq(e.p, s[0].p, axis) then
      assert forall j :: 0 <= j < |s| ==> AxisLeq(e.p, s[j].p, axis);
      [e] + s
    else
      var rest := InsertByAxis(s[1..], e, axis);
      InsertAfterHead(s, e, axis, rest);
      [s[0]] + rest
  }

  /** Putting the head back in front of the insertion into the tail. */
  lemma InsertAfterHead(s: seq<Entry>, e: Entry, axis: int, rest: seq<Entry>)
    requires SortedBy(s, axis) && s != [] && !AxisLeq(e.p, s[0].p, axis)
    requires SortedBy(rest, axis) && multiset(rest) == multiset(s[1..]) + multiset{e}
    ensures SortedBy([s[0]] + rest, axis)
    ensures multiset([s[0]] + rest) == multiset(s) + multiset{e}
  {
    assert s == [s[0]] + s[1..];
    forall j | 0 <= j < |rest| ensures AxisLeq(s[0].p, rest[j].p, axis) {
      assert rest[j] in multiset(s[1..]) + multiset{e};
      if rest[j] != e {
        assert rest[j] in s[1..];
      }
    }
    var t := [s[0]] + rest;
    forall i, j | 0 <= i < j < |t| ensures AxisLeq(t[i].p, t[j].p, axis) {
      if i > 0 {
        assert t[i] == rest[i - 1] && t[j] == rest[j - 1];
      }
    }
  }

  /** `pts.Sort(comparer)`: a sorted permutation. */
  function SortByAxis(s: seq<Entry>, axis: int): (r: seq<Entry>)
    ensures SortedBy(r, axis)
    ensures multiset(r) == multiset(s)
    ensures |r| == |s|
  {
    if s == [] then []
    else
      assert s == [s[0]] + s[1..];
      InsertByAxis(SortByAxis(s[1..], axis), s[0], axis)
  }

  /** Every left descendant is <= its node and every right descendant
      >= it, in the node's own axis order. */
  ghost predicate KdOrdered(t: Tree) {
    match t
    case Nil => true
    case Node(id, p, axis, l, r) =>
      && (forall e :: e in Elems(l) ==> AxisLeq(e.p, p, axis))
      && (forall e :: e in Elems(r) ==> AxisLeq(p, e.p, axis))
      && KdOrdered(l) && KdOrdered(r)
  }

  /** A node at depth d splits on axis d % 2. */
  predicate AxesFrom(t: Tree, depth: nat) {
    match t
    case Nil => true
    case Node(_, _, axis, l, r) => axis == depth % 2 && AxesFrom(l, depth + 1) && AxesFrom(r, depth + 1)
  }

  /** The sorted list around its middle element `mid`. */
  lemma SplitAround(s: seq<Entry>, mid: nat, axis: int)
    requires SortedBy(s, axis) && mid < |s|
    ensures forall e :: e in multiset(s[..mid]) ==> AxisLeq(e.p, s[mid].p, axis)
    ensures forall e :: e in multiset(s[mid + 1..]) ==> AxisLeq(s[mid].p, e.p, axis)
  {
    forall e | e in multiset(s[..mid]) ensures AxisLeq(e.p, s[mid].p, axis) {
      assert e in s[..mid];
    }
    forall e | e in multiset(s[mid + 1..]) ensures AxisLeq(s[mid].p, e.p, axis) {
      assert e in s[mid + 1..];
    }
  }

  /** `Build(pts, depth)`: sort on axis depth % 2, put the median entry
      (index count/2) at the root, and build the two halves one level
      deeper. The tree holds exactly the input entries and splits them
      count/2 to the left and count - count/2 - 1 to the right of the
      root. */
  function Build(pts: seq<Entry>, depth: nat): (t: Tree)
    ensures Elems(t) == multiset(pts)
    ensures t.Nil? <==> pts == []
    ensures t.Node? ==> |Elems(t.left)| == |pts| / 2 && |Elems(t.right)| == |pts| - |pts| / 2 - 1
    decreases |pts|
  {
    if |pts| == 0 then Nil
    else
      var axis := depth % 2;
      var sorted := SortByAxis(pts, axis);
      var mid := |sorted| / 2;
      var l := if mid > 0 then Build(sorted[..mid], depth + 1) else Nil;
      var r := if mid + 1 < |sorted| then Build(sorted[mid + 1..], depth + 1) else Nil;
      SplitSizes(sorted, mid);
      Node(sorted[mid].id, sorted[mid].p, axis, l, r)
  }

  /** Cutting a list around index `mid`. */
  lemma SplitSizes(s: seq<Entry>, mid: nat)
    requires mid < |s|
    ensures multiset(s) == multiset(s[..mid]) + multiset{s[mid]} + multiset(s[mid + 1..])
    ensures |multiset(s[..mid])| == mid && |multiset(s[mid + 1..])| == |s| - mid - 1
  {
    assert s[mid..] == [s[mid]] + s[mid + 1..];
    assert s == s[..mid] + s[mid..];
  }

  /** One step of Build on a non-empty list. */
  lemma BuildStep(pts: seq<Entry>, depth: nat)
    requires |pts| > 0
    ensures var sorted := SortByAxis(pts, depth % 2);
      var mid := |sorted| / 2;
      Build(pts, depth) == Node(sorted[mid].id, sorted[mid].p, depth % 2,
        if mid > 0 then Build(sorted[..mid], depth + 1) else Nil,
        if mid + 1 < |sorted| then Build(sorted[mid + 1..], depth + 1) else Nil)
  {
  }

  /** Build makes a kd-tree whose axes alternate from `depth` down. */
  lemma {:induction false} BuildIsKdTree(pts: seq<Entry>, depth: nat)
    ensures KdOrdered(Build(pts, depth)) && AxesFrom(Build(pts, depth), depth)
    decreases |pts|
  {
    if |pts| > 0 {
      var axis := depth % 2;
      var sorted := SortByAxis(pts, axis);
      var mid := |sorted| / 2;
      var l := if mid > 0 then Build(sorted[..mid], depth + 1) else Nil;
      var r := if mid + 1 < |sorted| then Build(sorted[mid + 1..], depth + 1) else Nil;
      BuildStep(pts, depth);
      if mid > 0 {
        BuildIsKdTree(sorted[..mid], depth + 1);
      }
      if mid + 1 < |sorted| {
        BuildIsKdTree(sorted[mid + 1..], depth + 1);
      }
      KdNode(sorted, mid, axis, l, r);
    }
  }

  /** A node over the median of a sorted list, whose subtrees hold the two
      halves and are kd-trees themselves, is a kd-tree. */
  lemma KdNode(sorted: seq<Entry>, mid: nat, axis: int, l: Tree, r: Tree)
    requires SortedBy(sorted, axis) && mid < |sorted|
    requires Elems(l) == multiset(sorted[..mid]) && Elems(r) == multiset(sorted[mid + 1..])
    requires KdOrdered(l) && KdOrdered(r)
    ensures KdOrdered(Node(sorted[mid].id, sorted[mid].p, axis, l, r))
  {
    SplitAround(sorted, mid, axis);
  }

  /** No two entries share a point, and none occurs twice. */
  ghost predicate DistinctPoints(ms: multiset<Entry>) {
    && (forall a, b :: a in ms && b in ms && a.p == b.p ==> a == b)
    && (forall e :: ms[e] <= 1)
  }

  /** An entry at two positions of a list is counted twice. */
  lemma CountedTwice(s: seq<Entry>, i: int, j: int)
    requires 0 <= i < j < |s| && s[i] == s[j]
    ensures multiset(s)[s[i]] >= 2
  {
    assert s == s[..j] + s[j..];
    assert s[i] in s[..j] && s[j] in s[j..];
  }

  /** The positions of a list of distinct points hold distinct points. */
  lemma DistinctAt(s: seq<Entry>)
    requires DistinctPoints(multiset(s))
    ensures forall i, j :: 0 <= i < j < |s| ==> s[i].p != s[j].p
  {
    forall i, j | 0 <= i < j < |s| ensures s[i].p != s[j].p {
      if s[i].p == s[j].p {
        assert s[i] in multiset(s) && s[j] in multiset(s);
        CountedTwice(s, i, j);
      }
    }
  }

  /** The head of a sorted list comes before every one of its entries. */
  lemma HeadIsLeast(s: seq<Entry>, e: Entry, axis: int)
    requires SortedBy(s, axis) && e in multiset(s)
    ensures AxisLeq(s[0].p, e.p, axis)
  {
    var j :| 0 <= j < |s| && s[j] == e;
    if j == 0 {
      AxisLeqTotalOrder(e.p, e.p, e.p, axis);
    }
  }

  /** With distinct points the comparer is a total order on entries, so a
      sorted arrangement is unique: any sort, stable or not, returns the
      same list. */
  lemma {:induction false} SortedUnique(a: seq<Entry>, b: seq<Entry>, axis: int)
    requires SortedBy(a, axis) && SortedBy(b, axis) && multiset(a) == multiset(b)
    requires forall i, j :: 0 <= i < j < |a| ==> a[i].p != a[j].p
    ensures a == b
    decreases |a|
  {
    if a != [] {
      assert |b| == |multiset(b)| == |a|;
      assert a[0] in multiset(b) && b[0] in multiset(a);
      HeadIsLeast(a, b[0], axis);
      HeadIsLeast(b, a[0], axis);
      AxisLeqTotalOrder(a[0].p, b[0].p, b[0].p, axis);
      var j :| 0 <= j < |a| && a[j] == b[0];
      assert j == 0;
      assert a == [a[0]] + a[1..] && b == [b[0]] + b[1..];
      assert multiset(a) == multiset{a[0]} + multiset(a[1..]);
      assert multiset(b) == multiset{a[0]} + multiset(b[1..]);
      forall e ensures multiset(a[1..])[e] == multiset(b[1..])[e] {
        assert multiset(a)[e] == multiset{a[0]}[e] + multiset(a[1..])[e];
        assert multiset(b)[e] == multiset{a[0]}[e] + multiset(b[1..])[e];
      }
      assert multiset(a[1..]) == multiset(b[1..]);
      SortedUnique(a[1..], b[1..], axis);
    }
  }

  /** The tree Build makes depends only on the entries it is given, not on
      the order they arrive in. */
  lemma BuildOrderIrrelevant(pts1: seq<Entry>, pts2: seq<Entry>, depth: nat)
    requires multiset(pts1) == multiset(pts2) && DistinctPoints(multiset(pts1))
    ensures Build(pts1, depth) == Build(pts2, depth)
  {
    if |pts1| > 0 {
      var axis := depth % 2;
      var s1, s2 := SortByAxis(pts1, axis), SortByAxis(pts2, axis);
      DistinctAt(s1);
      SortedUnique(s1, s2, axis);
      BuildStep(pts1, depth);
      BuildStep(pts2, depth);
    }
  }

  /** No id occurs twice among the entries. */
  ghost predicate UniqueIds(ms: multiset<Entry>) {
    forall a, b :: a in ms && b in ms && a.id == b.id ==> a == b && ms[a] == 1
  }

  /** Unique ids split over a node: its own id is in neither subtree, and
      the subtrees share no id. */
  lemma UniqueIdsSplit(t: Tree)
    requires t.Node? && UniqueIds(Elems(t))
    ensures UniqueIds(Elems(t.left)) && UniqueIds(Elems(t.right))
    ensures forall x :: x in Elems(t.left) ==> x.id != t.id
    ensures forall x :: x in Elems(t.right) ==> x.id != t.id
    ensures forall x, y :: x in Elems(t.left) && y in Elems(t.right) ==> x.id != y.id
  {
    var ms := Elems(t);
    var root := Entry(t.id, t.p);
    assert forall x :: x in Elems(t.left) ==> x in ms && ms[x] >= Elems(t.left)[x];
    assert forall x :: x in Elems(t.right) ==> x in ms && ms[x] >= Elems(t.right)[x];
    assert root in ms;
    forall x | x in Elems(t.left) ensures x.id != t.id {
      assert ms[x] >= Elems(t.left)[x] + (if x == root then 1 else 0);
    }
    forall x | x in Elems(t.right) ensures x.id != t.id {
      assert ms[x] >= Elems(t.right)[x] + (if x == root then 1 else 0);
    }
    forall x, y | x in Elems(t.left) && y in Elems(t.right) ensures x.id != y.id {
      assert ms[x] >= Elems(t.left)[x] + Elems(t.right)[x];
    }
  }

  /** The answers for the entries of a tree. */
  ghost function TreeItems(t: Tree, q: Point): set<DriverResult> {
    match t
    case Nil => {}
    case Node(id, p, _, l, r) => TreeItems(l, q) + {MakeResult(q, id, p)} + TreeItems(r, q)
  }

  /** The items of a tree are exactly the answers for its entries. */
  lemma {:induction false} TreeItemsSpec(t: Tree, q: Point)
    ensures forall x :: x in Elems(t) ==> MakeResult(q, x.id, x.p) in TreeItems(t, q)
    ensures forall e :: e in TreeItems(t, q) ==>
      Entry(e.id, Point(e.x, e.y)) in Elems(t) && e == MakeResult(q, e.id, Point(e.x, e.y))
  {
    if t.Node? {
      TreeItemsSpec(t.left, q);
      TreeItemsSpec(t.right, q);
    }
  }

  /** The coordinate a node of axis `axis` splits on. */
  function Coord(p: Point, axis: int): int {
    if axis == 0 then p.x else p.y
  }

  /** A point on the far side of the line Coord = nv, seen from q, is at
      squared distance at least (Coord(q) - nv)^2. */
  lemma PlaneBound(q: Point, p: Point, axis: int, nv: int)
    requires Coord(q, axis) <= nv <= Coord(p, axis) || Coord(p, axis) <= nv < Coord(q, axis)
    ensures Dist2(q.x, q.y, p.x, p.y) >= (Coord(q, axis) - nv) * (Coord(q, axis) - nv)
  {
    var qv, pv := Coord(q, axis), Coord(p, axis);
    if qv <= nv {
      SquareAtLeast(qv - pv, nv - qv);
      assert (nv - qv) * (nv - qv) == (qv - nv) * (qv - nv);
    } else {
      SquareAtLeast(qv - pv, qv - nv);
    }
  }

  /** The squared distance from the query to a node's splitting line. */
  function PlaneD2(qv: int, nv: int): int {
    (qv - nv) * (qv - nv)
  }

  /** The subtree on the other side of the splitting line from `q`. */
  function FarSide(t: Tree, q: Point): Tree
    requires t.Node?
  {
    if Coord(q, t.axis) <= Coord(t.p, t.axis) then t.right else t.left
  }

  /** Every entry of a kd-ordered node's far side lies on the far side of
      its splitting line. */
  lemma FarEntryBound(t: Tree, q: Point, x: Entry)
    requires t.Node? && KdOrdered(t) && x in Elems(FarSide(t, q))
    ensures Dist2(q.x, q.y, x.p.x, x.p.y) >= (Coord(q, t.axis) - Coord(t.p, t.axis)) * (Coord(q, t.axis) - Coord(t.p, t.axis))
  {
    var qv, nv := Coord(q, t.axis), Coord(t.p, t.axis);
    if qv <= nv {
      assert AxisLeq(t.p, x.p, t.axis);
    } else {
      assert AxisLeq(x.p, t.p, t.axis);
    }
    PlaneBound(q, x.p, t.axis, nv);
  }

  /** The pruning bound: every answer from a node's far side is at squared
      distance at least (qv - nv)^2 from the query. */
  lemma FarSideBound(t: Tree, q: Point, planeD2: int)
    requires t.Node? && KdOrdered(t)
    requires planeD2 == PlaneD2(Coord(q, t.axis), Coord(t.p, t.axis))
    ensures forall e :: e in TreeItems(FarSide(t, q), q) ==> e.dist2 >= planeD2
  {
    TreeItemsSpec(FarSide(t, q), q);
    forall e | e in TreeItems(FarSide(t, q), q) ensures e.dist2 >= planeD2 {
      FarEntryBound(t, q, Entry(e.id, Point(e.x, e.y)));
    }
  }

  /** The subtree on the same side of the splitting line as `q`. */
  function NearSide(t: Tree, q: Point): Tree
    requires t.Node?
  {
    if Coord(q, t.axis) <= Coord(t.p, t.axis) then t.left else t.right
  }

  /** A node's answer, its near side and its far side make up its items. */
  lemma NodeItems(t: Tree, q: Point, S: set<DriverResult>)
    requires t.Node?
    ensures S + {MakeResult(q, t.id, t.p)} + TreeItems(NearSide(t, q), q) + TreeItems(FarSide(t, q), q) == S + TreeItems(t, q)
  {
    var a, l, r := {MakeResult(q, t.id, t.p)}, TreeItems(t.left, q), TreeItems(t.right, q);
    assert TreeItems(t, q) == l + a + r;
    if Coord(q, t.axis) <= Coord(t.p, t.axis) {
      assert S + a + l + r == S + (l + a + r);
    } else {
      assert S + a + r + l == S + (l + a + r);
    }
  }

  /** No answer gathered in `S` shares an id with an entry of `ms`. */
  ghost predicate IdsFresh(S: set<DriverResult>, ms: multiset<Entry>) {
    forall e, x :: e in S && x in ms ==> e.id != x.id
  }

  /** Each part of a node has ids new to what was gathered before it. */
  lemma NodeParts(t: Tree, q: Point, S: set<DriverResult>, near: Tree, far: Tree)
    requires t.Node? && UniqueIds(Elems(t))
    requires (near, far) == (t.left, t.right) || (near, far) == (t.right, t.left)
    requires IdsFresh(S, Elems(t))
    ensures UniqueIds(Elems(near)) && UniqueIds(Elems(far))
    ensures forall e :: e in S ==> e.id != t.id
    ensures IdsFresh(S + {MakeResult(q, t.id, t.p)}, Elems(near))
    ensures IdsFresh(S + {MakeResult(q, t.id, t.p)} + TreeItems(near, q), Elems(far))
  {
    UniqueIdsSplit(t);
    var item := MakeResult(q, t.id, t.p);
    assert Entry(t.id, t.p) in Elems(t);
    ChildFresh(t, q, S, near);
    ChildFresh(t, q, S, far);
    FarPartFresh(t, q, S + {item}, near, far);
  }

  /** A child's ids are new to the node and to whatever came before it. */
  lemma ChildFresh(t: Tree, q: Point, S: set<DriverResult>, c: Tree)
    requires t.Node? && UniqueIds(Elems(t))
    requires c == t.left || c == t.right
    requires IdsFresh(S, Elems(t))
    ensures IdsFresh(S + {MakeResult(q, t.id, t.p)}, Elems(c))
  {
    UniqueIdsSplit(t);
    var item := MakeResult(q, t.id, t.p);
    forall e, x | e in S + {item} && x in Elems(c) ensures e.id != x.id {
      if e != item {
        assert Elems(t) == Elems(t.left) + multiset{Entry(t.id, t.p)} + Elems(t.right);
        assert x in Elems(t);
      }
    }
  }

  /** The far part's ids are new to the node, the near part's answers and
      whatever came before. */
  lemma FarPartFresh(t: Tree, q: Point, S1: set<DriverResult>, near: Tree, far: Tree)
    requires t.Node? && UniqueIds(Elems(t))
    requires (near, far) == (t.left, t.right) || (near, far) == (t.right, t.left)
    requires IdsFresh(S1, Elems(far))
    ensures IdsFresh(S1 + TreeItems(near, q), Elems(far))
  {
    UniqueIdsSplit(t);
    TreeItemsSpec(near, q);
    assert forall x, y :: x in Elems(near) && y in Elems(far) ==> x.id != y.id;
    forall e, x | e in S1 + TreeItems(near, q) && x in Elems(far) ensures e.id != x.id {
      if e in TreeItems(near, q) {
        assert Entry(e.id, Point(e.x, e.y)) in Elems(near);
      }
    }
  }

  /** Pruning is sound: when the list is full and its k-th answer is
      nearer than the splitting line, the far side adds nothing. */
  lemma PruneFar(t: Tree, q: Point, res: seq<DriverResult>, S: set<DriverResult>, k: nat, planeD2: int)
    requires t.Node? && KdOrdered(t) && k > 0
    requires IsTopK(res, S, k)
    requires planeD2 == PlaneD2(Coord(q, t.axis), Coord(t.p, t.axis))
    requires WorstDist2(res, k).Some? && WorstDist2(res, k).value < planeD2
    ensures IsTopK(res, S + TreeItems(FarSide(t, q), q), k)
  {
    FarSideBound(t, q, planeD2);
    ExtendBeyondWorst(res, S, TreeItems(FarSide(t, q), q), k);
  }

  /** Branch and bound: visit the node, search the near side, and search
      the far side only when its splitting line is no farther than the
      current k-th answer (or the list is not yet full). Starting from a
      top k of `S`, the list ends as the top k of `S` and the tree. */
  method Search(t: Tree, qx: int, qy: int, k: int, res: seq<DriverResult>, ghost S: set<DriverResult>)
    returns (res': seq<DriverResult>)
    requires k > 0 && KdOrdered(t) && UniqueIds(Elems(t))
    requires IsTopK(res, S, k)
    requires IdsFresh(S, Elems(t))
    ensures IsTopK(res', S + TreeItems(t, Point(qx, qy)), k)
    decreases t
  {
    var q := Point(qx, qy);
    if t.Nil? {
      assert S + TreeItems(t, q) == S;
      return res;
    }
    var d2 := Dist2(qx, qy, t.p.x, t.p.y);
    var item := DriverResult(t.id, t.p.x, t.p.y, d2);
    assert item == MakeResult(q, t.id, t.p);
    ghost var S1 := S + {item};

    var axis := t.axis;
    var qv := if axis == 0 then qx else qy;
    var nv := if axis == 0 then t.p.x else t.p.y;
    var near := if qv <= nv then t.left else t.right;
    var far := if qv <= nv then t.right else t.left;
    assert qv == Coord(q, axis) && nv == Coord(t.p, axis);
    assert near == NearSide(t, q) && far == FarSide(t, q);
    NodeParts(t, q, S, near, far);

    AddTopKStep(res, S, item, k);
    var res1 := AddTopK(res, item, k);

    var res2 := Search(near, qx, qy, k, res1, S1);
    ghost var S2 := S1 + TreeItems(near, q);

    var worst := WorstDist2(res2, k);
    var planeD2 := PlaneD2(qv, nv);
    if worst.None? || planeD2 <= worst.value {
      res' := Search(far, qx, qy, k, res2, S2);
    } else {
      PruneFar(t, q, res2, S2, k, planeD2);
      res' := res2;
    }
    assert S2 + TreeItems(far, q) == S + TreeItems(t, q) by {
      NodeItems(t, q, S);
    }
  }

  /** The multiset `ms` holds exactly the entries of `byId`, once each. */
  ghost predicate HoldsExactly(ms: multiset<Entry>, byId: map<int, Point>) {
    && (forall e :: e in ms <==> e.id in byId && byId[e.id] == e.p)
    && (forall e :: ms[e] <= 1)
  }

  /** Two lists holding exactly the entries of one well-formed state build
      the same tree: the dictionary's enumeration order does not matter. */
  lemma RebuildOrderIrrelevant(n: int, m: int, byId: map<int, Point>, pts1: seq<Entry>, pts2: seq<Entry>)
    requires WellFormed(n, m, byId)
    requires HoldsExactly(multiset(pts1), byId) && HoldsExactly(multiset(pts2), byId)
    ensures Build(pts1, 0) == Build(pts2, 0)
  {
    forall e ensures multiset(pts1)[e] == multiset(pts2)[e] {
      if e in multiset(pts1) {
        assert e in multiset(pts2);
      } else {
        assert e !in multiset(pts2);
      }
    }
    assert multiset(pts1) == multiset(pts2);
    BuildOrderIrrelevant(pts1, pts2, 0);
  }

  /** One listing of the entries of `byId`, each exactly once. */
  ghost function Listing(byId: map<int, Point>): (r: seq<Entry>)
    ensures HoldsExactly(multiset(r), byId)
    decreases byId.Keys
  {
    if exists id :: id in byId then
      var id :| id in byId;
      var rest := byId - {id};
      assert rest.Keys < byId.Keys;
      var l := Listing(rest);
      assert multiset(l)[Entry(id, byId[id])] == 0;
      l + [Entry(id, byId[id])]
    else
      []
  }

  /** The tree a rebuild makes of `byId`: Build over a listing of its
      entries. By RebuildOrderIrrelevant every listing gives this tree. */
  ghost function TreeOf(byId: map<int, Point>): Tree {
    Build(Listing(byId), 0)
  }

  /** A tree holding exactly the entries of `byId` has their answers as
      its items, and unique ids. */
  lemma HoldsExactlyItems(t: Tree, byId: map<int, Point>, q: Point)
    requires HoldsExactly(Elems(t), byId)
    ensures TreeItems(t, q) == Items(byId, q)
    ensures UniqueIds(Elems(t))
  {
    TreeItemsSpec(t, q);
    forall e | e in Items(byId, q) ensures e in TreeItems(t, q) {
      var id :| id in byId && e == MakeResult(q, id, byId[id]);
      assert Entry(id, byId[id]) in Elems(t);
    }
  }

  class KdTreeFinder {
    const n: int
    const m: int
    var byId: map<int, Point>
    var byCell: map<Point, int>
    var root: Tree
    var dirty: bool

    /** The dictionaries are inverse to each other, and a tree that is not
        marked dirty holds exactly their entries and is a kd-tree. */
    ghost predicate Valid()
      reads this
    {
      && n > 0 && m > 0
      && WellFormed(n, m, byId)
      && Inverse(byId, byCell)
      && (!dirty ==> HoldsExactly(Elems(root), byId) && KdOrdered(root) && AxesFrom(root, 0))
    }

    constructor (n0: int, m0: int)
      requires CheckGrid(n0, m0) == Pass
      ensures Valid() && n == n0 && m == m0 && byId == map[]
      ensures dirty && root == Nil
    {
      n := n0;
      m := m0;
      byId := map[];
      byCell := map[];
      root := Nil;
      dirty := true;
    }

    /** `new KdTreeFinder(n, m)`, with the constructor's exceptions as an
        error value. */
    static method Create(n0: int, m0: int) returns (r: Result<KdTreeFinder>)
      ensures r.Err? <==> CheckGrid(n0, m0).Fail?
      ensures r.Err? ==> r.error == CheckGrid(n0, m0).error
      ensures r.Ok? ==> fresh(r.value) && r.value.Valid() && r.value.dirty
      ensures r.Ok? ==> r.value.n == n0 && r.value.m == m0 && r.value.byId == map[]
    {
      if n0 <= 0 {
        return Err(ArgumentOutOfRange("n"));
      }
      if m0 <= 0 {
        return Err(ArgumentOutOfRange("m"));
      }
      var f := new KdTreeFinder(n0, m0);
      return Ok(f);
    }

    /** As the brute-force Upsert; every change of the state also marks
        the tree dirty. */
    method Upsert(id: int, x: int, y: int) returns (r: Outcome)
      requires Valid()
      modifies this
      ensures Valid()
      ensures var s := AfterUpsert(n, m, old(byId), id, x, y);
        && (s.Ok? ==> r == Pass && byId == s.value)
        && (s.Err? ==> r == Fail(s.error) && byId == old(byId) && byCell == old(byCell))
      ensures dirty == (old(dirty) || byId != old(byId))
      ensures root == old(root)
    {
      if id < 0 {
        return Fail(ArgumentOutOfRange("id"));
      }
      var chk := CheckPoint(n, m, x, y);
      if chk.Fail? {
        return chk;
      }
      var cell := Point(x, y);
      if id in byId {
        var oldCell := byId[id];
        if oldCell == cell {
          return Pass;
        }
        InverseHeldByOther(byId, byCell, id, cell);
        if cell in byCell && byCell[cell] != id {
          return Fail(CellOccupied);
        }
        UpsertSpec(n, m, byId, id, x, y);
        InverseMove(byId, byCell, id, cell);
        byCell := (byCell - {oldCell})[cell := id];
        byId := byId[id := cell];
        dirty := true;
        assert byId[id] != old(byId)[id];
        return Pass;
      }
      InverseHeldByOther(byId, byCell, id, cell);
      if cell in byCell {
        return Fail(CellOccupied);
      }
      UpsertSpec(n, m, byId, id, x, y);
      InverseAdd(byId, byCell, id, cell);
      byId := byId[id := cell];
      byCell := byCell[cell := id];
      dirty := true;
      return Pass;
    }

    /** As the brute-force Remove; a removal also marks the tree dirty. */
    method Remove(id: int) returns (found: bool)
      requires Valid()
      modifies this
      ensures Valid()
      ensures (found, byId) == AfterRemove(old(byId), id)
      ensures !found ==> byCell == old(byCell)
      ensures dirty == (old(dirty) || found)
      ensures root == old(root)
    {
      if id !in byId {
        assert byId - {id} == byId;
        return false;
      }
      var p := byId[id];
      RemoveSpec(n, m, byId, id);
      InverseRemove(byId, byCell, id);
      byId := byId - {id};
      byCell := byCell - {p};
      dirty := true;
      return true;
    }

    /** The entries of `byId`, in the dictionary's own (unspecified)
        order: each exactly once. */
    method CollectEntries() returns (pts: seq<Entry>)
      requires Valid()
      ensures HoldsExactly(multiset(pts), byId)
    {
      pts := [];
      var todo := byId.Keys;
      while exists id :: id in todo
        invariant todo <= byId.Keys
        invariant forall e :: e in multiset(pts) <==> e.id in byId && e.id !in todo && byId[e.id] == e.p
        invariant forall e :: multiset(pts)[e] <= 1
        decreases todo
      {
        var id :| id in todo;
        var e := Entry(id, byId[id]);
        assert multiset(pts)[e] == 0;
        pts := pts + [e];
        todo := todo - {id};
      }
    }

    /** `_root = Build(pts, 0); _dirty = false;` over the collected entries:
        the new tree is the state's own tree, whatever order the entries
        were collected in. */
    method Rebuild()
      requires Valid()
      modifies this
      ensures Valid() && !dirty
      ensures byId == old(byId) && byCell == old(byCell)
      ensures root == TreeOf(byId)
    {
      var entries := CollectEntries();
      var t := Build(entries, 0);
      BuildIsKdTree(entries, 0);
      assert HoldsExactly(Elems(t), byId) && KdOrdered(t) && AxesFrom(t, 0);
      RebuildOrderIrrelevant(n, m, byId, entries, Listing(byId));
      root := t;
      dirty := false;
    }

    /** `Search(_root, x, y, k, res)` from an empty list, on a clean tree:
        the answer is TopK of the finder's entries. */
    method SearchRoot(x: int, y: int, k: int) returns (res: seq<DriverResult>)
      requires Valid() && !dirty && k > 0
      ensures res == TopK(byId, Point(x, y), k)
    {
      var q := Point(x, y);
      HoldsExactlyItems(root, byId, q);
      assert IsTopK([], {}, k) && IdsFresh({}, Elems(root));
      res := Search(root, x, y, k, [], {});
      assert {} + TreeItems(root, q) == Items(byId, q);
      EqualsTopK(res, byId, q, k);
    }

    /** Rebuilds the tree first when it is dirty, then searches it. The
        answer is TopK. Afterwards the tree is clean: a clean tree is kept
        as it was, and a dirty one is replaced by the state's tree. */
    method FindNearest(x: int, y: int, k: int) returns (result: Result<seq<DriverResult>>)
      requires Valid()
      modifies this
      ensures Valid()
      ensures byId == old(byId) && byCell == old(byCell)
      ensures result == FindNearestSpec(n, m, byId, x, y, k)
      ensures result.Ok? ==> !dirty && HoldsExactly(Elems(root), byId)
      ensures !old(dirty) ==> !dirty && root == old(root)
      ensures result.Ok? && old(dirty) ==> root == TreeOf(byId)
      ensures result.Err? ==> dirty == old(dirty) && root == old(root)
    {
      var chk := CheckPoint(n, m, x, y);
      if chk.Fail? {
        return Err(chk.error);
      }
      if k <= 0 {
        return Err(ArgumentOutOfRange("k"));
      }
      if dirty {
        Rebuild();
      }
      var res := SearchRoot(x, y, k);
      return Ok(res);
    }
  }
}
