/** Value types shared by every finder: grid cells, query answers and the
    failures the finders report instead of throwing. */
module Models {

  /** A grid cell; `x` indexes the first grid dimension, `y` the second. */
  datatype Point = Point(x: int, y: int)

  /** One answer of a nearest-neighbour query: the id, its cell, and the
      squared Euclidean distance from the query cell. */
  datatype DriverResult = DriverResult(id: int, x: int, y: int, dist2: int)

  /** What the finders throw: an argument outside its range (named after
      the parameter, as `nameof` does), or a cell held by another id. */
  datatype Error =
    | ArgumentOutOfRange(param: string)
    | CellOccupied

  /** The outcome of a call that returns nothing when it succeeds. */
  datatype Outcome = Pass | Fail(error: Error)

  /** The outcome of a call that returns a value when it succeeds. */
  datatype Result<T> = Ok(value: T) | Err(error: Error)

  datatype Option<T> = None | Some(value: T)

  predicate InGrid(n: int, m: int, p: Point) {
    0 <= p.x < n && 0 <= p.y < m
  }
}
