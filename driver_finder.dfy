/** The contract the three finders share (the IDriverFinder interface of
    src/DriverMatching/Models.cs): one abstract state, the map from id to
    cell, and what the constructor, Upsert, Remove and FindNearest do to
    it. Each finder class proves that its own representation follows
    these functions. */
module DriverFinder {
  import opened Models
  import opened Utils
  import opened Ranking

  /** The abstract state: ids are non-negative, every id sits on a cell of
      the grid, and no two ids share a cell. */
  ghost predicate WellFormed(n: int, m: int, byId: map<int, Point>) {
    && (forall id :: id in byId ==> id >= 0 && InGrid(n, m, byId[id]))
    && (forall a, b :: a in byId && b in byId && byId[a] == byId[b] ==> a == b)
  }

  /** The constructor's validation: `n` is reported before `m`. */
  function CheckGrid(n: int, m: int): (r: Outcome)
    ensures r == Pass <==> n > 0 && m > 0
    ensures n <= 0 ==> r == Fail(ArgumentOutOfRange("n"))
    ensures n > 0 && m <= 0 ==> r == Fail(ArgumentOutOfRange("m"))
  {
    if n <= 0 then Fail(ArgumentOutOfRange("n"))
    else if m <= 0 then Fail(ArgumentOutOfRange("m"))
    else Pass
  }

  /** The ring-grid constructor also refuses a grid of more than
      int.MaxValue cells, reporting it against `n`. */
  function CheckRingGrid(n: int, m: int): (r: Outcome)
    ensures r == Pass <==> n > 0 && m > 0 && n * m <= IntMax
    ensures CheckGrid(n, m).Fail? ==> r == CheckGrid(n, m)
    ensures CheckGrid(n, m) == Pass && n * m > IntMax ==> r == Fail(ArgumentOutOfRange("n"))
  {
    var c := CheckGrid(n, m);
    if c.Fail? then c
    else if n * m > IntMax then Fail(ArgumentOutOfRange("n"))
    else Pass
  }

  /** FindNearest's validation: the query cell first, then `k`. */
  function CheckQuery(n: int, m: int, x: int, y: int, k: int): (r: Outcome)
    ensures r == Pass <==> InGrid(n, m, Point(x, y)) && k > 0
    ensures CheckPoint(n, m, x, y).Fail? ==> r == CheckPoint(n, m, x, y)
    ensures InGrid(n, m, Point(x, y)) && k <= 0 ==> r == Fail(ArgumentOutOfRange("k"))
  {
    var c := CheckPoint(n, m, x, y);
    if c.Fail? then c
    else if k <= 0 then Fail(ArgumentOutOfRange("k"))
    else Pass
  }

  /** Some id other than `id` holds cell `p`. */
  ghost predicate HeldByOther(byId: map<int, Point>, id: int, p: Point) {
    exists j :: j in byId && j != id && byId[j] == p
  }

  /** The two dictionaries of the brute-force and kd-tree finders describe
      the same placement: `byCell[p] == id` exactly when `byId[id] == p`. */
  ghost predicate Inverse(byId: map<int, Point>, byCell: map<Point, int>) {
    && (forall id :: id in byId ==> byId[id] in byCell && byCell[byId[id]] == id)
    && (forall c :: c in byCell ==> byCell[c] in byId && byId[byCell[c]] == c)
  }

  /** With inverse dictionaries, the cell lookup answers HeldByOther. */
  lemma InverseHeldByOther(byId: map<int, Point>, byCell: map<Point, int>, id: int, p: Point)
    requires Inverse(byId, byCell)
    ensures HeldByOther(byId, id, p) <==> p in byCell && byCell[p] != id
  {
    if p in byCell && byCell[p] != id {
      assert byId[byCell[p]] == p;
    }
  }

  /** Moving a present id to a free cell keeps the dictionaries inverse. */
  lemma InverseMove(byId: map<int, Point>, byCell: map<Point, int>, id: int, p: Point)
    requires Inverse(byId, byCell) && id in byId && byId[id] != p
    requires !(p in byCell && byCell[p] != id)
    ensures Inverse(byId[id := p], (byCell - {byId[id]})[p := id])
  {
    var b, c := byId[id := p], (byCell - {byId[id]})[p := id];
    forall j | j in b ensures b[j] in c && c[b[j]] == j {
      if j != id {
        assert byId[j] != byId[id];
      }
    }
  }

  /** Placing a new id on a free cell keeps the dictionaries inverse. */
  lemma InverseAdd(byId: map<int, Point>, byCell: map<Point, int>, id: int, p: Point)
    requires Inverse(byId, byCell) && id !in byId && p !in byCell
    ensures Inverse(byId[id := p], byCell[p := id])
  {
  }

  /** Deleting a present id and its cell keeps the dictionaries inverse. */
  lemma InverseRemove(byId: map<int, Point>, byCell: map<Point, int>, id: int)
    requires Inverse(byId, byCell) && id in byId
    ensures Inverse(byId - {id}, byCell - {byId[id]})
  {
  }

  /** The state after Upsert(id, x, y), or the error it reports; on an
      error the state is unchanged. */
  ghost function AfterUpsert(n: int, m: int, byId: map<int, Point>, id: int, x: int, y: int): Result<map<int, Point>> {
    var p := Point(x, y);
    if id < 0 then Err(ArgumentOutOfRange("id"))
    else if CheckPoint(n, m, x, y).Fail? then Err(CheckPoint(n, m, x, y).error)
    else if id in byId && byId[id] == p then Ok(byId)
    else if HeldByOther(byId, id, p) then Err(CellOccupied)
    else Ok(byId[id := p])
  }

  /** Upsert succeeds exactly for a valid id on a grid cell that no other
      id holds; it then places `id` there, keeps the state well formed and
      leaves every other id where it was. */
  lemma UpsertSpec(n: int, m: int, byId: map<int, Point>, id: int, x: int, y: int)
    requires WellFormed(n, m, byId)
    ensures var r := AfterUpsert(n, m, byId, id, x, y);
      && (r.Ok? <==> id >= 0 && InGrid(n, m, Point(x, y)) && !HeldByOther(byId, id, Point(x, y)))
      && (r.Ok? ==> WellFormed(n, m, r.value))
      && (r.Ok? ==> id in r.value && r.value[id] == Point(x, y))
      && (r.Ok? ==> r.value.Keys == byId.Keys + {id})
      && (r.Ok? ==> forall j :: j in byId && j != id ==> r.value[j] == byId[j])
  {
    var p := Point(x, y);
    var r := AfterUpsert(n, m, byId, id, x, y);
    if id in byId && byId[id] == p {
      assert !HeldByOther(byId, id, p);
    }
    if r.Ok? && !(id in byId && byId[id] == p) {
      var b := r.value;
      assert b == byId[id := p];
      assert forall j :: j in byId && j != id ==> byId[j] != p;
      forall a, c | a in b && c in b && b[a] == b[c] && a != id && c != id ensures a == c {
        assert byId[a] == byId[c];
      }
    }
  }

  /** Upserting the same id at the same cell twice is the same as once. */
  lemma UpsertIdempotent(n: int, m: int, byId: map<int, Point>, id: int, x: int, y: int)
    requires WellFormed(n, m, byId)
    requires AfterUpsert(n, m, byId, id, x, y).Ok?
    ensures var b := AfterUpsert(n, m, byId, id, x, y).value;
      AfterUpsert(n, m, b, id, x, y) == Ok(b)
  {
    UpsertSpec(n, m, byId, id, x, y);
  }

  /** `Remove(id)`: whether `id` was present, and the state after it. */
  ghost function AfterRemove(byId: map<int, Point>, id: int): (bool, map<int, Point>) {
    (id in byId, byId - {id})
  }

  /** Remove reports presence, deletes exactly that id, keeps the state
      well formed, and changes nothing when the id is absent. */
  lemma RemoveSpec(n: int, m: int, byId: map<int, Point>, id: int)
    requires WellFormed(n, m, byId)
    ensures var (found, b) := AfterRemove(byId, id);
      && (found <==> id in byId)
      && WellFormed(n, m, b)
      && id !in b
      && b.Keys == byId.Keys - {id}
      && (forall j :: j in b ==> b[j] == byId[j])
      && (!found ==> b == byId)
  {
  }

  /** Removing an id that an Upsert just added restores the old state. */
  lemma RemoveUndoesInsert(n: int, m: int, byId: map<int, Point>, id: int, x: int, y: int)
    requires WellFormed(n, m, byId) && id !in byId
    requires AfterUpsert(n, m, byId, id, x, y).Ok?
    ensures AfterRemove(AfterUpsert(n, m, byId, id, x, y).value, id) == (true, byId)
  {
    var b := AfterUpsert(n, m, byId, id, x, y).value;
    assert b == byId[id := Point(x, y)];
    assert b - {id} == byId;
  }

  /** What FindNearest returns: the validation error, or TopK. */
  ghost function FindNearestSpec(n: int, m: int, byId: map<int, Point>, x: int, y: int, k: int): Result<seq<DriverResult>> {
    if CheckQuery(n, m, x, y, k).Fail? then Err(CheckQuery(n, m, x, y, k).error)
    else TopKOk(byId, Point(x, y), k)
  }

  ghost function TopKOk(byId: map<int, Point>, q: Point, k: int): Result<seq<DriverResult>>
    requires k > 0
  {
    Ok(TopK(byId, q, k))
  }

  /** Every answer of a successful query names a present id at its cell
      with the distance from the query; they ascend by (dist2, id); fewer
      than k come back only when every id is among them; and an empty
      state gives an empty list. */
  lemma FindNearestSpecFacts(n: int, m: int, byId: map<int, Point>, x: int, y: int, k: int)
    requires WellFormed(n, m, byId)
    ensures var r := FindNearestSpec(n, m, byId, x, y, k);
      && (r.Ok? <==> InGrid(n, m, Point(x, y)) && k > 0)
      && (r.Ok? ==> StrictlySorted(r.value) && |r.value| <= k)
      && (r.Ok? ==> forall e :: e in r.value ==>
            e.id in byId && Point(e.x, e.y) == byId[e.id] && e.dist2 == Dist2(x, y, e.x, e.y))
      && (r.Ok? && |r.value| < k ==> forall id :: id in byId ==> MakeResult(Point(x, y), id, byId[id]) in r.value)
      && (r.Ok? && byId == map[] ==> r.value == [])
  {
    var r := FindNearestSpec(n, m, byId, x, y, k);
    if r.Ok? {
      var q := Point(x, y);
      ItemsHaveDistinctIds(byId, q, byId.Keys);
      if byId == map[] {
        TopKOfEmpty(q, k);
      }
    }
  }
}
