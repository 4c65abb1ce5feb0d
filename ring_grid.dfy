/** The dense-grid finder (src/DriverMatching/RingGridFinder.cs): an
    `int[n*m]` array holding the id on each cell or -1, the id-to-cell
    dictionary, and a query that scans square rings of growing Chebyshev
    radius around the query cell and stops once no unscanned cell can
    enter the result. */
module RingGrid {
  import opened Models
  import opened Utils
  import opened Ranking
  import opened DriverFinder

  /** The marker of an empty grid cell. */
  const Empty: int := -1

  function Max(a: int, b: int): int {
    if a < b then b else a
  }

  /** Chebyshev distance: the ring number of `p` around `q`. */
  function Cheb(q: Point, p: Point): (c: int)
    ensures c >= 0
    ensures c == Abs(q.x - p.x) || c == Abs(q.y - p.y)
    ensures c >= Abs(q.x - p.x) && c >= Abs(q.y - p.y)
  {
    Max(Abs(q.x - p.x), Abs(q.y - p.y))
  }

  /** The last ring FindNearest scans when it does not stop early. */
  function MaxRadius(n: int, m: int, q: Point): int {
    Max(Max(q.x, n - 1 - q.x), Max(q.y, m - 1 - q.y))
  }

  /** The C# `int` range. */
  predicate IsInt32(v: int) {
    -0x8000_0000 <= v <= IntMax
  }

  /** Unchecked C# `int` arithmetic: the value reduced into the 32-bit
      two's-complement range. */
  function Wrap32(v: int): (w: int)
    ensures IsInt32(w)
    ensures IsInt32(v) ==> w == v
    ensures v == IntMax + 1 ==> w == -0x8000_0000
  {
    (v + 0x8000_0000) % 0x1_0000_0000 - 0x8000_0000
  }

  /** ScanRing's row loop `for (int xx = x0; xx <= x1; xx++)` as written,
      with `xx++` wrapping: does it leave within `steps` iterations? */
  predicate RowLoopExitsAsWritten(xx: int, x1: int, steps: nat)
    decreases steps
  {
    if !(xx <= x1) then true
    else if steps == 0 then false
    else RowLoopExitsAsWritten(Wrap32(xx + 1), x1, steps - 1)
  }

  /** With `x1 == int.MaxValue` every `int` passes the guard, so the row
      loop as written never leaves. */
  lemma {:induction false} RowLoopNeverExits(xx: int, steps: nat)
    requires IsInt32(xx)
    ensures !RowLoopExitsAsWritten(xx, IntMax, steps)
    decreases steps
  {
    if steps > 0 {
      RowLoopNeverExits(Wrap32(xx + 1), steps - 1);
    }
  }

  /** A grid the constructor accepts (n = 2^30 + 1, m = 1) and a query cell
      on it (2^30, 0) whose ring 2^30 - 1, which an empty finder reaches,
      has `x1 = cx + r == int.MaxValue`: the row loop of that ring, as
      written, does not stop within any number of steps. */
  lemma RingScanHangsAsWritten()
    ensures CheckRingGrid(0x4000_0001, 1) == Pass
    ensures InGrid(0x4000_0001, 1, Point(0x4000_0000, 0))
    ensures 0 < 0x3FFF_FFFF <= MaxRadius(0x4000_0001, 1, Point(0x4000_0000, 0))
    ensures Wrap32(0x4000_0000 - 0x3FFF_FFFF) == 1
    ensures Wrap32(0x4000_0000 + 0x3FFF_FFFF) == IntMax
    ensures forall steps: nat :: !RowLoopExitsAsWritten(1, IntMax, steps)
  {
    forall steps: nat
      ensures !RowLoopExitsAsWritten(1, IntMax, steps)
    {
      RowLoopNeverExits(1, steps);
    }
  }

  /** The column loop `for (int yy = y0 + 1; yy <= y1 - 1; yy++)` has the
      same shape. On the accepted grid n = 1, m = 2^30 + 1, at the query
      cell (0, 2^30), the last ring r = 2^30 (which an empty finder
      reaches) has `y1 = cy + r` wrapping to int.MinValue, so `y1 - 1`
      wraps to int.MaxValue and that loop, as written, never ends. */
  lemma ColumnScanHangsAsWritten()
    ensures CheckRingGrid(1, 0x4000_0001) == Pass
    ensures InGrid(1, 0x4000_0001, Point(0, 0x4000_0000))
    ensures MaxRadius(1, 0x4000_0001, Point(0, 0x4000_0000)) == 0x4000_0000
    ensures Wrap32(0x4000_0000 - 0x4000_0000 + 1) == 1
    ensures Wrap32(0x4000_0000 + 0x4000_0000) == -0x8000_0000
    ensures Wrap32(-0x8000_0000 - 1) == IntMax
    ensures forall steps: nat :: !RowLoopExitsAsWritten(1, IntMax, steps)
  {
    forall steps: nat
      ensures !RowLoopExitsAsWritten(1, IntMax, steps)
    {
      RowLoopNeverExits(1, steps);
    }
  }

  /** Ring MaxRadius(q) reaches every cell of the grid. */
  lemma MaxRadiusCovers(n: int, m: int, q: Point, p: Point)
    requires InGrid(n, m, q) && InGrid(n, m, p)
    ensures Cheb(q, p) <= MaxRadius(n, m, q)
  {
  }

  lemma MulAtLeast(m: int, d: int)
    requires m > 0 && d != 0
    ensures m * d >= m || m * d <= -m
  {
    if d > 0 {
      assert m * d >= m * 1;
    } else {
      assert m * d <= m * -1;
    }
  }

  /** A cell outside the first r+1 rings is at squared distance at least
      (r+1)^2: the bound behind the early stop. */
  lemma OutsideRingsIsFar(q: Point, p: Point, r: int)
    requires r >= 0 && Cheb(q, p) >= r + 1
    ensures Dist2(q.x, q.y, p.x, p.y) >= (r + 1) * (r + 1)
  {
    if Abs(q.x - p.x) >= r + 1 {
      SquareAtLeast(q.x - p.x, r + 1);
    } else {
      SquareAtLeast(q.y - p.y, r + 1);
    }
  }

  /** The in-grid cells whose ring number around `q` is below `r`. */
  ghost predicate IsDisk(n: int, m: int, q: Point, r: int, cells: set<Point>) {
    forall p :: p in cells <==> InGrid(n, m, p) && Cheb(q, p) < r
  }

  /** The ids whose cell is in `cells`. */
  ghost function IdsIn(byId: map<int, Point>, cells: set<Point>): set<int> {
    set id | id in byId && byId[id] in cells
  }

  /** The answers for the entries standing on `cells`. */
  ghost function ItemsAt(byId: map<int, Point>, q: Point, cells: set<Point>): set<DriverResult> {
    ItemsOf(byId, q, IdsIn(byId, cells))
  }

  /** Scanning one more cell adds its occupant's answer, if it has one, and
      that occupant is new. */
  lemma ItemsAtAdd(n: int, m: int, byId: map<int, Point>, q: Point, cells: set<Point>, p: Point, id: int)
    requires WellFormed(n, m, byId) && p !in cells
    requires id in byId && byId[id] == p
    ensures ItemsAt(byId, q, cells + {p}) == ItemsAt(byId, q, cells) + {MakeResult(q, id, p)}
    ensures forall e :: e in ItemsAt(byId, q, cells) ==> e.id != id
  {
    forall j | j in byId ensures (byId[j] in cells + {p}) <==> (byId[j] in cells || j == id) {
      if byId[j] == p {
        assert j == id;
      }
    }
    assert IdsIn(byId, cells + {p}) == IdsIn(byId, cells) + {id};
    ItemsOfAdd(byId, q, IdsIn(byId, cells), id);
  }

  lemma ItemsAtAddEmpty(byId: map<int, Point>, q: Point, cells: set<Point>, p: Point)
    requires forall id :: id in byId ==> byId[id] != p
    ensures ItemsAt(byId, q, cells + {p}) == ItemsAt(byId, q, cells)
  {
    forall j | j in byId ensures (byId[j] in cells + {p}) <==> byId[j] in cells {
      assert byId[j] != p;
    }
    assert IdsIn(byId, cells + {p}) == IdsIn(byId, cells);
  }

  /** The early stop is sound: once the first r+1 rings are scanned and
      the k-th answer is nearer than (r+1)^2, the list is already TopK. */
  lemma EarlyStopSound(n: int, m: int, byId: map<int, Point>, q: Point, cells: set<Point>,
                       res: seq<DriverResult>, k: nat, r: int)
    requires WellFormed(n, m, byId) && r >= 0
    requires IsDisk(n, m, q, r + 1, cells)
    requires IsTopK(res, ItemsAt(byId, q, cells), k)
    requires 0 < k <= |res| && res[|res| - 1].dist2 < (r + 1) * (r + 1)
    ensures res == TopK(byId, q, k)
  {
    var S := ItemsAt(byId, q, cells);
    var F := ItemsOf(byId, q, byId.Keys - IdsIn(byId, cells));
    forall e | e in F ensures res[k - 1].dist2 < e.dist2 {
      var id :| id in byId.Keys - IdsIn(byId, cells) && e == MakeResult(q, id, byId[id]);
      OutsideRingsIsFar(q, byId[id], r);
    }
    ExtendBeyondWorst(res, S, F, k);
    assert S + F == Items(byId, q);
    EqualsTopK(res, byId, q, k);
  }

  /** Once every ring up to MaxRadius is scanned, the list is TopK. */
  lemma AllRingsScanned(n: int, m: int, byId: map<int, Point>, q: Point, cells: set<Point>,
                        res: seq<DriverResult>, k: nat)
    requires WellFormed(n, m, byId) && InGrid(n, m, q)
    requires IsDisk(n, m, q, MaxRadius(n, m, q) + 1, cells)
    requires IsTopK(res, ItemsAt(byId, q, cells), k)
    ensures res == TopK(byId, q, k)
  {
    forall id | id in byId ensures byId[id] in cells {
      MaxRadiusCovers(n, m, q, byId[id]);
    }
    assert IdsIn(byId, cells) == byId.Keys;
    EqualsTopK(res, byId, q, k);
  }

  /** The two rows of ring r: y = q.y - r and y = q.y + r, full width. */
  predicate InRows(q: Point, r: int, p: Point) {
    q.x - r <= p.x <= q.x + r && (p.y == q.y - r || p.y == q.y + r)
  }

  /** The two columns of ring r: x = q.x - r and x = q.x + r, corners
      excluded. */
  predicate InColumns(q: Point, r: int, p: Point) {
    q.y - r < p.y < q.y + r && (p.x == q.x - r || p.x == q.x + r)
  }

  /** For r >= 1 the rows and the columns are disjoint and together are
      exactly the cells at Chebyshev distance r. */
  lemma RingShape(q: Point, p: Point, r: int)
    requires r >= 1
    ensures Cheb(q, p) == r <==> InRows(q, r, p) || InColumns(q, r, p)
    ensures !(InRows(q, r, p) && InColumns(q, r, p))
  {
  }

  /** `x*M + y`: a bijection from the grid's cells onto [0, n*m), whose
      inverse is (i / m, i % m). */
  function Idx(n: int, m: int, x: int, y: int): (i: int)
    requires InGrid(n, m, Point(x, y))
    ensures 0 <= i < n * m
    ensures i / m == x && i % m == y
  {
    IdxBounds(n, m, x, y);
    DivModOfIndex(m, x, y);
    x * m + y
  }

  lemma IdxBounds(n: int, m: int, x: int, y: int)
    requires InGrid(n, m, Point(x, y))
    ensures 0 <= x * m + y < n * m
  {
    MulNonNeg(n - 1 - x, m);
    MulNonNeg(x, m);
    MulSplit(n, x, m);
  }

  lemma MulNonNeg(a: int, b: int)
    requires a >= 0 && b >= 0
    ensures a * b >= 0
  {
  }

  lemma MulSplit(n: int, x: int, m: int)
    ensures n * m == (n - 1 - x) * m + x * m + m
  {
  }

  lemma DivModOfIndex(m: int, x: int, y: int)
    requires m > 0 && 0 <= y < m
    ensures (x * m + y) / m == x && (x * m + y) % m == y
  {
    var i := x * m + y;
    DivModUnique(i, m, i / m, i % m, x, y);
  }

  /** Two ways of writing i as q*m + r with 0 <= r < m coincide. */
  lemma DivModUnique(i: int, m: int, q: int, r: int, q': int, r': int)
    requires m > 0 && 0 <= r < m && 0 <= r' < m
    requires i == m * q + r && i == q' * m + r'
    ensures q == q' && r == r'
  {
    MulSub(m, q, q');
    if q != q' {
      MulAtLeast(m, q - q');
    }
  }

  lemma MulSub(m: int, a: int, b: int)
    ensures m * (a - b) == m * a - b * m
  {
  }

  /** Distinct cells have distinct indices. */
  lemma IdxInjective(n: int, m: int, p: Point, p': Point)
    requires InGrid(n, m, p) && InGrid(n, m, p')
    ensures Idx(n, m, p.x, p.y) == Idx(n, m, p'.x, p'.y) <==> p == p'
  {
  }

  /** The array `g` mirrors the dictionary: each id's cell holds the id,
      and every other cell holds -1. */
  ghost predicate Mirrors(n: int, m: int, g: seq<int>, byId: map<int, Point>) {
    && |g| == n * m
    && WellFormed(n, m, byId)
    && (forall id :: id in byId ==> g[Idx(n, m, byId[id].x, byId[id].y)] == id)
    && (forall x, y :: 0 <= x < n && 0 <= y < m ==>
          g[Idx(n, m, x, y)] == Empty || (g[Idx(n, m, x, y)] in byId && byId[g[Idx(n, m, x, y)]] == Point(x, y)))
  }

  /** Placing a new id on an empty cell keeps the mirror. */
  lemma MirrorsPlace(n: int, m: int, g: seq<int>, byId: map<int, Point>, id: int, p: Point)
    requires Mirrors(n, m, g, byId) && id !in byId && id >= 0 && InGrid(n, m, p)
    requires g[Idx(n, m, p.x, p.y)] == Empty
    ensures Mirrors(n, m, g[Idx(n, m, p.x, p.y) := id], byId[id := p])
  {
    var g' := g[Idx(n, m, p.x, p.y) := id];
    var b := byId[id := p];
    assert forall j :: j in byId ==> byId[j] != p;
    forall a, c | a in b && c in b && b[a] == b[c] && a != id && c != id ensures a == c {
      assert byId[a] == byId[c];
    }
    forall j | j in b ensures g'[Idx(n, m, b[j].x, b[j].y)] == j {
      if j != id {
        IdxInjective(n, m, b[j], p);
      }
    }
  }

  /** Moving an id to an empty cell keeps the mirror. */
  lemma MirrorsMove(n: int, m: int, g: seq<int>, byId: map<int, Point>, id: int, p: Point)
    requires Mirrors(n, m, g, byId) && id in byId && InGrid(n, m, p) && byId[id] != p
    requires g[Idx(n, m, p.x, p.y)] == Empty
    ensures var o := byId[id];
      Mirrors(n, m, g[Idx(n, m, o.x, o.y) := Empty][Idx(n, m, p.x, p.y) := id], byId[id := p])
  {
    var o := byId[id];
    var g' := g[Idx(n, m, o.x, o.y) := Empty][Idx(n, m, p.x, p.y) := id];
    var b := byId[id := p];
    assert forall j :: j in byId ==> byId[j] != p;
    forall a, c | a in b && c in b && b[a] == b[c] && a != id && c != id ensures a == c {
      assert byId[a] == byId[c];
    }
    forall j | j in b ensures g'[Idx(n, m, b[j].x, b[j].y)] == j {
      if j != id {
        IdxInjective(n, m, b[j], p);
        IdxInjective(n, m, b[j], o);
      }
    }
    forall x, y | 0 <= x < n && 0 <= y < m
      ensures g'[Idx(n, m, x, y)] == Empty || (g'[Idx(n, m, x, y)] in b && b[g'[Idx(n, m, x, y)]] == Point(x, y))
    {
      IdxInjective(n, m, Point(x, y), p);
      IdxInjective(n, m, Point(x, y), o);
    }
  }

  /** Clearing a removed id's cell keeps the mirror. */
  lemma MirrorsRemove(n: int, m: int, g: seq<int>, byId: map<int, Point>, id: int)
    requires Mirrors(n, m, g, byId) && id in byId
    ensures var o := byId[id];
      Mirrors(n, m, g[Idx(n, m, o.x, o.y) := Empty], byId - {id})
  {
    var o := byId[id];
    var g' := g[Idx(n, m, o.x, o.y) := Empty];
    var b := byId - {id};
    forall j | j in b ensures g'[Idx(n, m, b[j].x, b[j].y)] == j {
      IdxInjective(n, m, b[j], o);
    }
    forall x, y | 0 <= x < n && 0 <= y < m
      ensures g'[Idx(n, m, x, y)] == Empty || (g'[Idx(n, m, x, y)] in b && b[g'[Idx(n, m, x, y)]] == Point(x, y))
    {
      IdxInjective(n, m, Point(x, y), o);
    }
  }

  class RingGridFinder {
    const n: int
    const m: int
    const grid: array<int>
    var byId: map<int, Point>

    ghost predicate Valid()
      reads this, grid
    {
      && n > 0 && m > 0 && n * m <= IntMax
      && Mirrors(n, m, grid[..], byId)
    }

    constructor (n0: int, m0: int)
      requires CheckRingGrid(n0, m0) == Pass
      ensures Valid() && n == n0 && m == m0 && byId == map[]
      ensures fresh(grid) && forall i :: 0 <= i < grid.Length ==> grid[i] == Empty
    {
      n := n0;
      m := m0;
      byId := map[];
      grid := new int[n0 * m0](_ => Empty);
    }

    /** `new RingGridFinder(n, m)`, with the constructor's exceptions as
        an error value. */
    static method Create(n0: int, m0: int) returns (r: Result<RingGridFinder>)
      ensures r.Err? <==> CheckRingGrid(n0, m0).Fail?
      ensures r.Err? ==> r.error == CheckRingGrid(n0, m0).error
      ensures r.Ok? ==> fresh(r.value) && fresh(r.value.grid) && r.value.Valid()
      ensures r.Ok? ==> r.value.n == n0 && r.value.m == m0 && r.value.byId == map[]
    {
      if n0 <= 0 {
        return Err(ArgumentOutOfRange("n"));
      }
      if m0 <= 0 {
        return Err(ArgumentOutOfRange("m"));
      }
      if n0 * m0 > IntMax {
        return Err(ArgumentOutOfRange("n"));
      }
      var f := new RingGridFinder(n0, m0);
      return Ok(f);
    }

    method Upsert(id: int, x: int, y: int) returns (r: Outcome)
      requires Valid()
      modifies this, grid
      ensures Valid()
      ensures var s := AfterUpsert(n, m, old(byId), id, x, y);
        && (s.Ok? ==> r == Pass && byId == s.value)
        && (s.Err? ==> r == Fail(s.error) && byId == old(byId) && grid[..] == old(grid[..]))
    {
      if id < 0 {
        return Fail(ArgumentOutOfRange("id"));
      }
      var chk := CheckPoint(n, m, x, y);
      if chk.Fail? {
        return chk;
      }
      var cell := Point(x, y);
      var idx := Idx(n, m, x, y);
      var occ := grid[idx];
      if occ != Empty && occ != id {
        assert HeldByOther(byId, id, cell) by {
          assert occ in byId && occ != id && byId[occ] == cell;
        }
        return Fail(CellOccupied);
      }
      assert forall j :: j in byId && j != id ==> byId[j] != cell;
      UpsertSpec(n, m, byId, id, x, y);
      if id in byId {
        var oldCell := byId[id];
        var oldIdx := Idx(n, m, oldCell.x, oldCell.y);
        if oldIdx == idx {
          IdxInjective(n, m, oldCell, cell);
          return Pass;
        }
        assert occ == Empty;
        MirrorsMove(n, m, grid[..], byId, id, cell);
        grid[oldIdx] := Empty;
        grid[idx] := id;
        byId := byId[id := cell];
        return Pass;
      }
      MirrorsPlace(n, m, grid[..], byId, id, cell);
      grid[idx] := id;
      byId := byId[id := cell];
      return Pass;
    }

    method Remove(id: int) returns (found: bool)
      requires Valid()
      modifies this, grid
      ensures Valid()
      ensures (found, byId) == AfterRemove(old(byId), id)
      ensures !found ==> grid[..] == old(grid[..])
    {
      if id !in byId {
        assert byId - {id} == byId;
        return false;
      }
      var p := byId[id];
      MirrorsRemove(n, m, grid[..], byId, id);
      byId := byId - {id};
      grid[Idx(n, m, p.x, p.y)] := Empty;
      return true;
    }

    /** Scans rings 0, 1, ... around the query cell; after ring r it stops
        when the list is full and its k-th answer is nearer than any cell
        outside the scanned rings can be. */
    method FindNearest(x: int, y: int, k: int) returns (result: Result<seq<DriverResult>>)
      requires Valid()
      ensures result == FindNearestSpec(n, m, byId, x, y, k)
    {
      var chk := CheckPoint(n, m, x, y);
      if chk.Fail? {
        return Err(chk.error);
      }
      if k <= 0 {
        return Err(ArgumentOutOfRange("k"));
      }
      var q := Point(x, y);
      var res: seq<DriverResult> := [];
      var maxR := Max(Max(x, n - 1 - x), Max(y, m - 1 - y));
      ghost var seen: set<Point> := {};
      var r := 0;
      while r <= maxR
        invariant 0 <= r <= maxR + 1
        invariant IsDisk(n, m, q, r, seen)
        invariant IsTopK(res, ItemsAt(byId, q, seen), k)
      {
        res, seen := ScanRing(x, y, r, res, k, seen);
        var worst := WorstDist2(res, k);
        var nextMin := (r + 1) * (r + 1);
        if |res| >= k && worst.value < nextMin {
          EarlyStopSound(n, m, byId, q, seen, res, k, r);
          return Ok(res);
        }
        r := r + 1;
      }
      AllRingsScanned(n, m, byId, q, seen, res, k);
      return Ok(res);
    }

    /** Adds the cells of ring r to the scan: the query cell alone for
        r = 0, otherwise the two rows over the full width and then the two
        columns without the corners. Each ring cell is tried exactly once
        (TryCell demands a cell not yet scanned), and no other cell. */
    method ScanRing(cx: int, cy: int, r: int, res: seq<DriverResult>, k: int, ghost seen: set<Point>)
      returns (res': seq<DriverResult>, ghost seen': set<Point>)
      requires Valid() && InGrid(n, m, Point(cx, cy)) && r >= 0 && k > 0
      requires IsDisk(n, m, Point(cx, cy), r, seen)
      requires IsTopK(res, ItemsAt(byId, Point(cx, cy), seen), k)
      ensures IsDisk(n, m, Point(cx, cy), r + 1, seen')
      ensures IsTopK(res', ItemsAt(byId, Point(cx, cy), seen'), k)
    {
      var q := Point(cx, cy);
      if r == 0 {
        res', seen' := TryCell(cx, cy, cx, cy, res, k, seen);
        return;
      }
      ghost var rows;
      res', rows := ScanRows(cx, cy, r, res, k, seen);
      res', seen' := ScanColumns(cx, cy, r, res', k, seen, rows);
      forall p ensures p in seen' <==> InGrid(n, m, p) && Cheb(q, p) < r + 1 {
        RingShape(q, p, r);
      }
    }

    /** ScanRing's first loop: rows cy - r and cy + r, for x from cx - r to
        cx + r, skipping cells outside the grid. */
    method ScanRows(cx: int, cy: int, r: int, res: seq<DriverResult>, k: int, ghost seen: set<Point>)
      returns (res': seq<DriverResult>, ghost seen': set<Point>)
      requires Valid() && r >= 1 && k > 0
      requires IsDisk(n, m, Point(cx, cy), r, seen)
      requires IsTopK(res, ItemsAt(byId, Point(cx, cy), seen), k)
      ensures forall p :: p in seen' <==> (p in seen || (InGrid(n, m, p) && InRows(Point(cx, cy), r, p)))
      ensures IsTopK(res', ItemsAt(byId, Point(cx, cy), seen'), k)
    {
      var q := Point(cx, cy);
      var x0, x1 := cx - r, cx + r;
      var y0, y1 := cy - r, cy + r;
      res', seen' := res, seen;
      var xx := x0;
      while xx <= x1
        invariant x0 <= xx <= x1 + 1
        invariant forall p :: p in seen' <==>
          (p in seen || (InGrid(n, m, p) && x0 <= p.x < xx && (p.y == y0 || p.y == y1)))
        invariant IsTopK(res', ItemsAt(byId, q, seen'), k)
      {
        if 0 <= xx < n {
          if 0 <= y0 < m {
            assert Cheb(q, Point(xx, y0)) == r;
            res', seen' := TryCell(xx, y0, cx, cy, res', k, seen');
          }
          if 0 <= y1 < m {
            assert Cheb(q, Point(xx, y1)) == r;
            res', seen' := TryCell(xx, y1, cx, cy, res', k, seen');
          }
        }
        xx := xx + 1;
      }
    }

    /** ScanRing's second loop: columns cx - r and cx + r, for y strictly
        between cy - r and cy + r (the corners were scanned with the rows),
        skipping cells outside the grid. */
    method ScanColumns(cx: int, cy: int, r: int, res: seq<DriverResult>, k: int, ghost seen: set<Point>, ghost rows: set<Point>)
      returns (res': seq<DriverResult>, ghost seen': set<Point>)
      requires Valid() && r >= 1 && k > 0
      requires IsDisk(n, m, Point(cx, cy), r, seen)
      requires forall p :: p in rows <==> (p in seen || (InGrid(n, m, p) && InRows(Point(cx, cy), r, p)))
      requires IsTopK(res, ItemsAt(byId, Point(cx, cy), rows), k)
      ensures forall p :: p in seen' <==>
        (|| p in seen
         || (InGrid(n, m, p) && InRows(Point(cx, cy), r, p))
         || (InGrid(n, m, p) && InColumns(Point(cx, cy), r, p)))
      ensures IsTopK(res', ItemsAt(byId, Point(cx, cy), seen'), k)
    {
      var q := Point(cx, cy);
      var x0, x1 := cx - r, cx + r;
      var y0, y1 := cy - r, cy + r;
      res', seen' := res, rows;
      var yy := y0 + 1;
      while yy <= y1 - 1
        invariant y0 + 1 <= yy <= y1
        invariant forall p :: p in seen' <==>
          (p in rows || (InGrid(n, m, p) && y0 < p.y < yy && (p.x == x0 || p.x == x1)))
        invariant IsTopK(res', ItemsAt(byId, q, seen'), k)
      {
        if 0 <= yy < m {
          if 0 <= x0 < n {
            assert Cheb(q, Point(x0, yy)) == r;
            res', seen' := TryCell(x0, yy, cx, cy, res', k, seen');
          }
          if 0 <= x1 < n {
            assert Cheb(q, Point(x1, yy)) == r;
            res', seen' := TryCell(x1, yy, cx, cy, res', k, seen');
          }
        }
        yy := yy + 1;
      }
    }

    /** Feeds the occupant of cell (x, y), if any, through AddTopK with its
        distance from (cx, cy). */
    method TryCell(x: int, y: int, cx: int, cy: int, res: seq<DriverResult>, k: int, ghost seen: set<Point>)
      returns (res': seq<DriverResult>, ghost seen': set<Point>)
      requires Valid() && InGrid(n, m, Point(x, y)) && k > 0
      requires Point(x, y) !in seen
      requires IsTopK(res, ItemsAt(byId, Point(cx, cy), seen), k)
      ensures seen' == seen + {Point(x, y)}
      ensures IsTopK(res', ItemsAt(byId, Point(cx, cy), seen'), k)
    {
      var p := Point(x, y);
      var q := Point(cx, cy);
      seen' := seen + {p};
      var id := grid[Idx(n, m, x, y)];
      if id == Empty {
        assert forall j :: j in byId ==> byId[j] != p;
        ItemsAtAddEmpty(byId, q, seen, p);
        return res, seen';
      }
      var d2 := Dist2(cx, cy, x, y);
      var item := DriverResult(id, x, y, d2);
      ItemsAtAdd(n, m, byId, q, seen, p, id);
      AddTopKStep(res, ItemsAt(byId, q, seen), item, k);
      res' := AddTopK(res, item, k);
    }
  }
}
