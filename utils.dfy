/** The helpers all three finders share (src/DriverMatching/Utils.cs):
    the squared distance, the bounds check, and the bounded top-k list
    kept sorted by (dist2, id). */
module Utils {
  import opened Models

  /** Squares of integers are non-negative and vanish only at zero. */
  lemma SquareFacts(a: int)
    ensures a * a >= 0
    ensures a * a == 0 <==> a == 0
  {
    if a > 0 {
      assert a * a >= a;
    } else if a < 0 {
      assert a * a >= -a;
    }
  }

  /** Integer squared Euclidean distance between (x1, y1) and (x2, y2). */
  function Dist2(x1: int, y1: int, x2: int, y2: int): (d: int)
    ensures d >= 0
    ensures d == 0 <==> x1 == x2 && y1 == y2
    ensures d >= (x1 - x2) * (x1 - x2) && d >= (y1 - y2) * (y1 - y2)
  {
    var dx := x1 - x2;
    var dy := y1 - y2;
    SquareFacts(dx);
    SquareFacts(dy);
    dx * dx + dy * dy
  }

  function Abs(a: int): int {
    if a < 0 then -a else a
  }

  lemma SquareAtLeast(a: int, b: int)
    requires 0 <= b <= Abs(a)
    ensures a * a >= b * b
  {
    var c := Abs(a);
    assert a * a == c * c;
    assert c * c >= b * c >= b * b;
  }

  /** 0x7fff_ffff is int.MaxValue and 0x7fff_ffff_ffff_ffff long.MaxValue. */
  const IntMax: int := 0x7fff_ffff
  const LongMax: int := 0x7fff_ffff_ffff_ffff

  lemma SquareBound(a: int, b: int)
    requires -b <= a <= b
    ensures a * a <= b * b
  {
    if a >= 0 {
      assert a * a <= a * b <= b * b;
    } else {
      assert a * a == (-a) * (-a) <= (-a) * b <= b * b;
    }
  }

  /** For two cells of a grid no larger than int.MaxValue in each
      dimension, the squared distance fits in a long, so the source's
      64-bit arithmetic never wraps. */
  lemma Dist2FitsLong(n: int, m: int, p: Point, q: Point)
    requires 0 < n <= IntMax && 0 < m <= IntMax
    requires InGrid(n, m, p) && InGrid(n, m, q)
    ensures Dist2(p.x, p.y, q.x, q.y) <= LongMax
  {
    SquareBound(p.x - q.x, IntMax);
    SquareBound(p.y - q.y, IntMax);
  }

  lemma Dist2Symmetric(x1: int, y1: int, x2: int, y2: int)
    ensures Dist2(x1, y1, x2, y2) == Dist2(x2, y2, x1, y1)
  {
    assert (x1 - x2) * (x1 - x2) == (x2 - x1) * (x2 - x1);
    assert (y1 - y2) * (y1 - y2) == (y2 - y1) * (y2 - y1);
  }

  /** The bounds validator: passes exactly for cells of the n x m grid,
      and reports `x` before `y`. */
  function CheckPoint(n: int, m: int, x: int, y: int): (r: Outcome)
    ensures r == Pass <==> InGrid(n, m, Point(x, y))
    ensures !(0 <= x < n) ==> r == Fail(ArgumentOutOfRange("x"))
    ensures 0 <= x < n && !(0 <= y < m) ==> r == Fail(ArgumentOutOfRange("y"))
  {
    if x < 0 || x >= n then Fail(ArgumentOutOfRange("x"))
    else if y < 0 || y >= m then Fail(ArgumentOutOfRange("y"))
    else Pass
  }

  /** `a` comes strictly before `b` in the (dist2, id) order: this is the
      test that stops the insertion scan of AddTopK. */
  predicate Before(a: DriverResult, b: DriverResult) {
    a.dist2 < b.dist2 || (a.dist2 == b.dist2 && a.id < b.id)
  }

  /** Ascending by (dist2, id); equal keys are allowed. */
  predicate Sorted(s: seq<DriverResult>) {
    forall i, j :: 0 <= i < j < |s| ==> !Before(s[j], s[i])
  }

  /** Ascending by (dist2, id) with no two equal keys. */
  predicate StrictlySorted(s: seq<DriverResult>) {
    forall i, j :: 0 <= i < j < |s| ==> Before(s[i], s[j])
  }

  /** Where AddTopK inserts `item`: before the first element that is
      strictly greater, so after every element with an equal key. */
  function InsertPos(list: seq<DriverResult>, item: DriverResult): (p: nat)
    ensures p <= |list|
    ensures forall j :: 0 <= j < p ==> !Before(item, list[j])
    ensures p < |list| ==> Before(item, list[p])
  {
    if list == [] || Before(item, list[0]) then 0
    else 1 + InsertPos(list[1..], item)
  }

  /** The list after `list.Insert(i, item)`. */
  function Insert(list: seq<DriverResult>, item: DriverResult): (r: seq<DriverResult>)
    ensures |r| == |list| + 1
    ensures multiset(r) == multiset(list) + multiset{item}
  {
    var p := InsertPos(list, item);
    assert list == list[..p] + list[p..];
    list[..p] + [item] + list[p..]
  }

  /** The list AddTopK leaves: the insertion, trimmed to `k` entries. */
  function InsertBounded(list: seq<DriverResult>, item: DriverResult, k: int): seq<DriverResult>
  {
    var full := Insert(list, item);
    if |full| > k then full[..|full| - 1] else full
  }

  /** Ordered insertion followed by eviction of the last element. */
  method AddTopK(list: seq<DriverResult>, item: DriverResult, k: int) returns (r: seq<DriverResult>)
    ensures r == InsertBounded(list, item, k)
  {
    var i := 0;
    while i < |list|
      invariant 0 <= i <= |list|
      invariant forall j :: 0 <= j < i ==> !Before(item, list[j])
    {
      var cur := list[i];
      if item.dist2 < cur.dist2 {
        break;
      }
      if item.dist2 == cur.dist2 && item.id < cur.id {
        break;
      }
      i := i + 1;
    }
    assert i == InsertPos(list, item);
    r := list[..i] + [item] + list[i..];
    if |r| > k {
      r := r[..|r| - 1];
    }
  }

  /** Inserting into a sorted list keeps it sorted. */
  lemma InsertKeepsSorted(list: seq<DriverResult>, item: DriverResult)
    requires Sorted(list)
    ensures Sorted(Insert(list, item))
  {
    var p := InsertPos(list, item);
    var r := Insert(list, item);
    assert r == list[..p] + [item] + list[p..];
    forall i, j | 0 <= i < j < |r|
      ensures !Before(r[j], r[i])
    {
      if j < p {
        assert r[i] == list[i] && r[j] == list[j];
      } else if j == p {
        assert r[i] == list[i] && r[j] == item;
      } else if i < p {
        assert r[i] == list[i] && r[j] == list[j - 1];
      } else if i == p {
        assert r[i] == item && r[j] == list[j - 1];
        assert Before(item, list[p]);
        assert p == j - 1 || !Before(list[j - 1], list[p]);
      } else {
        assert r[i] == list[i - 1] && r[j] == list[j - 1];
      }
    }
  }

  /** The invariant AddTopK keeps: sorted by (dist2, id), at most k long. */
  lemma AddTopKKeepsInvariant(list: seq<DriverResult>, item: DriverResult, k: int)
    requires Sorted(list) && |list| <= k
    ensures Sorted(InsertBounded(list, item, k))
    ensures |InsertBounded(list, item, k)| <= k
  {
    InsertKeepsSorted(list, item);
  }

  /** Below capacity AddTopK only inserts; at capacity it keeps the length
      and drops a maximum of the old list plus the item. */
  lemma AddTopKGrowsOrEvicts(list: seq<DriverResult>, item: DriverResult, k: int)
    requires Sorted(list) && |list| <= k
    ensures |list| < k ==> InsertBounded(list, item, k) == Insert(list, item)
    ensures |list| < k ==> |InsertBounded(list, item, k)| == |list| + 1
    ensures |list| == k ==>
      var full := Insert(list, item);
      && |InsertBounded(list, item, k)| == k
      && InsertBounded(list, item, k) + [full[k]] == full
      && multiset(InsertBounded(list, item, k)) + multiset{full[k]} == multiset(list) + multiset{item}
      && forall e :: e in multiset(list) + multiset{item} ==> !Before(full[k], e)
  {
    InsertKeepsSorted(list, item);
    if |list| == k {
      var full := Insert(list, item);
      var r := InsertBounded(list, item, k);
      assert r + [full[k]] == full;
      assert multiset(r) + multiset{full[k]} == multiset(full);
      forall e | e in multiset(list) + multiset{item}
        ensures !Before(full[k], e)
      {
        assert e in multiset(full);
        assert e in full;
        var j :| 0 <= j < |full| && full[j] == e;
        assert j == k || !Before(full[k], full[j]);
      }
    }
  }

  /** The pruning bound: None stands for the "unbounded" sentinel, which
      the source writes as long.MaxValue. With k <= 0 the source reads
      the last element, so an empty list is then out of its domain. */
  function WorstDist2(list: seq<DriverResult>, k: int): (w: Option<int>)
    requires k > 0 || |list| > 0
    ensures w.None? <==> |list| < k
    ensures w.Some? ==> w.value == list[|list| - 1].dist2
  {
    if |list| < k then None
    else Some(list[|list| - 1].dist2)
  }

  /** On a sorted list the bound is the largest distance in it. */
  lemma WorstIsLargest(list: seq<DriverResult>, k: int)
    requires k > 0 || |list| > 0
    requires Sorted(list) && WorstDist2(list, k).Some?
    ensures forall e :: e in list ==> e.dist2 <= WorstDist2(list, k).value
  {
    forall e | e in list ensures e.dist2 <= list[|list| - 1].dist2 {
      var i :| 0 <= i < |list| && list[i] == e;
      if i < |list| - 1 {
        assert !Before(list[|list| - 1], list[i]);
      }
    }
  }
}
