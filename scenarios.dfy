/** The cases of tests/DriverMatching.Tests/FinderTests.cs, stated as
    lemmas and methods about the model: the same three placements, put
    into each finder, are accepted and give the same two nearest answers;
    a grid without rows is refused; an empty finder answers with an empty
    list. */
module Scenarios {
  import opened Models
  import opened Utils
  import opened Ranking
  import opened DriverFinder
  import opened BruteForce
  import opened RingGrid
  import opened KdTree

  /** The state after Upsert(1, 10, 10), Upsert(2, 11, 10), Upsert(3, 0, 0). */
  function ThreeDrivers(): map<int, Point> {
    map[1 := Point(10, 10), 2 := Point(11, 10), 3 := Point(0, 0)]
  }

  /** The two answers the simple case expects: ids 1 and 2, at squared
      distances 0 and 1 from (10, 10). */
  function SimpleAnswer(): seq<DriverResult> {
    [DriverResult(1, 10, 10, 0), DriverResult(2, 11, 10, 1)]
  }

  /** The top two of the three drivers around (10, 10) are ids 1 and 2. */
  lemma SimpleCaseTopK()
    ensures TopK(ThreeDrivers(), Point(10, 10), 2) == SimpleAnswer()
  {
    var q, byId := Point(10, 10), ThreeDrivers();
    var a, b, c := DriverResult(1, 10, 10, 0), DriverResult(2, 11, 10, 1), DriverResult(3, 0, 0, 200);
    assert MakeResult(q, 1, byId[1]) == a;
    assert MakeResult(q, 2, byId[2]) == b;
    assert MakeResult(q, 3, byId[3]) == c;
    assert Items(byId, q) == {a, b, c};
    assert IsTopK(SimpleAnswer(), Items(byId, q), 2);
    EqualsTopK(SimpleAnswer(), byId, q, 2);
  }

  /** Upserting the three drivers one after the other, starting empty on a
      20 x 20 grid, succeeds each time and reaches ThreeDrivers. */
  lemma ThreeUpserts()
    ensures AfterUpsert(20, 20, map[], 1, 10, 10) == Ok(map[1 := Point(10, 10)])
    ensures AfterUpsert(20, 20, map[1 := Point(10, 10)], 2, 11, 10) == Ok(map[1 := Point(10, 10), 2 := Point(11, 10)])
    ensures AfterUpsert(20, 20, map[1 := Point(10, 10), 2 := Point(11, 10)], 3, 0, 0) == Ok(ThreeDrivers())
  {
    assert !HeldByOther(map[], 1, Point(10, 10));
    var m1 := map[1 := Point(10, 10)];
    assert !HeldByOther(m1, 2, Point(11, 10)) by {
      assert forall j :: j in m1 ==> m1[j] == Point(10, 10);
    }
    var m2 := map[1 := Point(10, 10), 2 := Point(11, 10)];
    assert !HeldByOther(m2, 3, Point(0, 0)) by {
      assert forall j :: j in m2 ==> m2[j].x >= 10;
    }
  }

  /** Simple_case on the brute-force finder. */
  method SimpleCaseBruteForce() returns (ups: seq<Outcome>, res: Result<seq<DriverResult>>)
    ensures ups == [Pass, Pass, Pass]
    ensures res == Ok(SimpleAnswer())
  {
    var f := new BruteForceFinder(20, 20);
    ThreeUpserts();
    var r1 := f.Upsert(1, 10, 10);
    var r2 := f.Upsert(2, 11, 10);
    var r3 := f.Upsert(3, 0, 0);
    ups := [r1, r2, r3];
    assert f.byId == ThreeDrivers();
    res := f.FindNearest(10, 10, 2);
    SimpleCaseTopK();
  }

  /** Simple_case on the ring-grid finder. */
  method SimpleCaseRingGrid() returns (ups: seq<Outcome>, res: Result<seq<DriverResult>>)
    ensures ups == [Pass, Pass, Pass]
    ensures res == Ok(SimpleAnswer())
  {
    var f := new RingGridFinder(20, 20);
    ThreeUpserts();
    var r1 := f.Upsert(1, 10, 10);
    var r2 := f.Upsert(2, 11, 10);
    var r3 := f.Upsert(3, 0, 0);
    ups := [r1, r2, r3];
    assert f.byId == ThreeDrivers();
    res := f.FindNearest(10, 10, 2);
    SimpleCaseTopK();
  }

  /** Simple_case on the kd-tree finder. */
  method SimpleCaseKdTree() returns (ups: seq<Outcome>, res: Result<seq<DriverResult>>)
    ensures ups == [Pass, Pass, Pass]
    ensures res == Ok(SimpleAnswer())
  {
    var f := new KdTreeFinder(20, 20);
    ThreeUpserts();
    var r1 := f.Upsert(1, 10, 10);
    var r2 := f.Upsert(2, 11, 10);
    var r3 := f.Upsert(3, 0, 0);
    ups := [r1, r2, r3];
    assert f.byId == ThreeDrivers();
    res := f.FindNearest(10, 10, 2);
    SimpleCaseTopK();
  }

  /** A grid without rows is refused by every constructor, naming `n`. */
  method ZeroRowsRefused() returns (a: Result<BruteForceFinder>, b: Result<RingGridFinder>, c: Result<KdTreeFinder>)
    ensures a == Err(ArgumentOutOfRange("n"))
    ensures b == Err(ArgumentOutOfRange("n"))
    ensures c == Err(ArgumentOutOfRange("n"))
  {
    a := BruteForceFinder.Create(0, 20);
    b := RingGridFinder.Create(0, 20);
    c := KdTreeFinder.Create(0, 20);
  }

  /** A fresh finder of each kind answers a valid query with an empty
      list, and an invalid k with the error naming `k`. */
  method EmptyFinder() returns (ok: seq<Result<seq<DriverResult>>>, bad: seq<Result<seq<DriverResult>>>)
    ensures ok == [Ok([]), Ok([]), Ok([])]
    ensures bad == [Err(ArgumentOutOfRange("k")), Err(ArgumentOutOfRange("k")), Err(ArgumentOutOfRange("k"))]
  {
    var b := new BruteForceFinder(20, 20);
    var r := new RingGridFinder(20, 20);
    var t := new KdTreeFinder(20, 20);
    TopKOfEmpty(Point(5, 5), 3);
    var b1 := b.FindNearest(5, 5, 3);
    var r1 := r.FindNearest(5, 5, 3);
    var t1 := t.FindNearest(5, 5, 3);
    var b2 := b.FindNearest(5, 5, 0);
    var r2 := r.FindNearest(5, 5, 0);
    var t2 := t.FindNearest(5, 5, 0);
    ok := [b1, r1, t1];
    bad := [b2, r2, t2];
  }

  /** Random_same_as_bruteforce, for every state rather than one seeded
      sequence: three finders over the same grid holding the same entries
      give the same answer to every query. */
  method SameAsBruteForce(b: BruteForceFinder, r: RingGridFinder, t: KdTreeFinder, x: int, y: int, k: int)
    returns (a: Result<seq<DriverResult>>, c: Result<seq<DriverResult>>, d: Result<seq<DriverResult>>)
    requires b.Valid() && r.Valid() && t.Valid()
    requires b.n == r.n == t.n && b.m == r.m == t.m
    requires b.byId == r.byId == t.byId
    modifies t
    ensures c == a && d == a
  {
    a := b.FindNearest(x, y, k);
    c := r.FindNearest(x, y, k);
    d := t.FindNearest(x, y, k);
  }
}
