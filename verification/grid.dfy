/** The collaborators the orchestration layer calls but does not define:
    `GridFunc` (loading, smoothing, the three point finders) and `Flooder`. */
module Grid {
  import opened Errors

  /** One positional argument of `g_minimize`: either `None` (the whole axis)
      or a pair `[lower, upper]` whose ends may each be `None` (open side). */
  datatype AxisRange = Unbounded | Between(lower: Option<real>, upper: Option<real>)

  /** The `sigma` of a smoothing spec: one width, or one width per axis. */
  datatype Sigma = Scalar(width: real) | PerAxis(widths: seq<real>)

  /** A grid coordinate, as the point finders return it. */
  type Coord

  /** A grid function: values sampled on a regular grid. */
  type GridFunc

  /** The operations on grid functions, as uninterpreted total functions:
      - `fromFile(path)`            is `GridFunc.from_file(path)`;
      - `minimize(g, coords)`       is `g.minimize(coords)` (local descent);
      - `mapNearest(g, coords)`     is `g.map_nearest(coords)` (snap to the grid);
      - `gMinimize(g, ranges)`      is `g.g_minimize(*ranges)` (global minimum in a box);
      - `smooth(g, sigma, cval)`    is `g.smooth(sigma, cval, copy=True)`, a new grid;
      - `flood(g, start, end)`      is `Flooder(g).flood(start, end)`, a list of coordinates. */
  datatype GridOps = GridOps(
    fromFile: string -> GridFunc,
    minimize: (GridFunc, seq<real>) -> Coord,
    mapNearest: (GridFunc, seq<real>) -> Coord,
    gMinimize: (GridFunc, seq<AxisRange>) -> Coord,
    smooth: (GridFunc, Sigma, real) -> GridFunc,
    flood: (GridFunc, Coord, Coord) -> seq<Coord>)
}
