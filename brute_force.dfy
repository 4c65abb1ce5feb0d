/** The reference finder (src/DriverMatching/BruteForceFinder.cs): two
    dictionaries kept inverse to each other, and a query that feeds every
    entry through AddTopK. */
module BruteForce {
  import opened Models
  import opened Utils
  import opened Ranking
  import opened DriverFinder

  class BruteForceFinder {
    const n: int
    const m: int
    var byId: map<int, Point>
    var byCell: map<Point, int>

    /** The two dictionaries describe the same placement: `byCell[p] == id`
        exactly when `byId[id] == p`. */
    ghost predicate Valid()
      reads this
    {
      && n > 0 && m > 0
      && WellFormed(n, m, byId)
      && Inverse(byId, byCell)
    }

    constructor (n0: int, m0: int)
      requires CheckGrid(n0, m0) == Pass
      ensures Valid() && n == n0 && m == m0 && byId == map[]
    {
      n := n0;
      m := m0;
      byId := map[];
      byCell := map[];
    }

    /** `new BruteForceFinder(n, m)`, with the constructor's exceptions as
        an error value. */
    static method Create(n0: int, m0: int) returns (r: Result<BruteForceFinder>)
      ensures r.Err? <==> CheckGrid(n0, m0).Fail?
      ensures r.Err? ==> r.error == CheckGrid(n0, m0).error
      ensures r.Ok? ==> fresh(r.value) && r.value.Valid()
      ensures r.Ok? ==> r.value.n == n0 && r.value.m == m0 && r.value.byId == map[]
    {
      if n0 <= 0 {
        return Err(ArgumentOutOfRange("n"));
      }
      if m0 <= 0 {
        return Err(ArgumentOutOfRange("m"));
      }
      var f := new BruteForceFinder(n0, m0);
      return Ok(f);
    }

    method Upsert(id: int, x: int, y: int) returns (r: Outcome)
      requires Valid()
      modifies this
      ensures Valid()
      ensures var s := AfterUpsert(n, m, old(byId), id, x, y);
        && (s.Ok? ==> r == Pass && byId == s.value)
        && (s.Err? ==> r == Fail(s.error) && byId == old(byId) && byCell == old(byCell))
    {
      if id < 0 {
        return Fail(ArgumentOutOfRange("id"));
      }
      var chk := CheckPoint(n, m, x, y);
      if chk.Fail? {
        return chk;
      }
      var cell := Point(x, y);
      if id in byId {
        var oldCell := byId[id];
        if oldCell == cell {
          return Pass;
        }
        InverseHeldByOther(byId, byCell, id, cell);
        if cell in byCell && byCell[cell] != id {
          return Fail(CellOccupied);
        }
        UpsertSpec(n, m, byId, id, x, y);
        InverseMove(byId, byCell, id, cell);
        byCell := (byCell - {oldCell})[cell := id];
        byId := byId[id := cell];
        return Pass;
      }
      InverseHeldByOther(byId, byCell, id, cell);
      if cell in byCell {
        return Fail(CellOccupied);
      }
      UpsertSpec(n, m, byId, id, x, y);
      InverseAdd(byId, byCell, id, cell);
      byId := byId[id := cell];
      byCell := byCell[cell := id];
      return Pass;
    }

    method Remove(id: int) returns (found: bool)
      requires Valid()
      modifies this
      ensures Valid()
      ensures (found, byId) == AfterRemove(old(byId), id)
      ensures !found ==> byCell == old(byCell)
    {
      if id !in byId {
        assert byId - {id} == byId;
        return false;
      }
      var p := byId[id];
      RemoveSpec(n, m, byId, id);
      InverseRemove(byId, byCell, id);
      byId := byId - {id};
      byCell := byCell - {p};
      return true;
    }

    /** The linear scan: each entry, in the dictionary's own (unspecified)
        order, goes through AddTopK; the result is TopK whatever that
        order is. */
    method FindNearest(x: int, y: int, k: int) returns (r: Result<seq<DriverResult>>)
      requires Valid()
      ensures r == FindNearestSpec(n, m, byId, x, y, k)
    {
      var chk := CheckPoint(n, m, x, y);
      if chk.Fail? {
        return Err(chk.error);
      }
      if k <= 0 {
        return Err(ArgumentOutOfRange("k"));
      }
      var q := Point(x, y);
      var res: seq<DriverResult> := [];
      var todo := byId.Keys;
      ghost var done: set<int> := {};
      while exists id :: id in todo
        invariant todo <= byId.Keys && done == byId.Keys - todo
        invariant IsTopK(res, ItemsOf(byId, q, done), k)
        decreases todo
      {
        var id :| id in todo;
        var p := byId[id];
        var d2 := Dist2(x, y, p.x, p.y);
        var item := DriverResult(id, p.x, p.y, d2);
        ItemsOfAdd(byId, q, done, id);
        AddTopKStep(res, ItemsOf(byId, q, done), item, k);
        res := AddTopK(res, item, k);
        done := done + {id};
        todo := todo - {id};
      }
      assert done == byId.Keys;
      EqualsTopK(res, byId, q, k);
      return Ok(res);
    }
  }
}
