/** Waypoint dispatch: turning one point spec into a coordinate on a grid function. */
module Waypoints {
  import opened Errors
  import opened Grid

  /** A configuration value found under a key such as `min` or `save`:
      the Python booleans, or any other value (a number, a string, a list). */
  datatype Literal = Bool(b: bool) | NonBool

  /** A point-spec mapping; each field is `None` when its key is absent. */
  datatype PointSpec = PointSpec(
    coords: Option<seq<real>>,
    min: Option<Literal>,
    range: Option<seq<AxisRange>>)

  /** A spec the dispatch knows what to do with: it has `coords` or `range`. */
  predicate Recognised(spec: PointSpec) {
    spec.coords.Some? || spec.range.Some?
  }

  /** `min` is present and is the boolean `True` itself (Python `is True`). */
  predicate MinIsTrue(spec: PointSpec) {
    spec.min.Some? && spec.min.value == Bool(true)
  }

  /** `_point_callback(gf, point_spec)`: `coords` is looked at before `range`,
      `min` must be exactly `True` to select local minimisation, and a spec
      with neither key raises. */
  function PointCallback(ops: GridOps, gf: GridFunc, spec: PointSpec): (r: Result<Coord>)
    ensures r.Err? ==> r.error == UnknownPointSpec
    ensures spec.coords.Some? && MinIsTrue(spec) ==> r == Ok(ops.minimize(gf, spec.coords.value))
    ensures spec.coords.Some? && !MinIsTrue(spec) ==> r == Ok(ops.mapNearest(gf, spec.coords.value))
    ensures spec.coords.None? && spec.range.Some? ==> r == Ok(ops.gMinimize(gf, spec.range.value))
    ensures !Recognised(spec) ==> r == Err(UnknownPointSpec)
  {
    if spec.coords.Some? then
      if MinIsTrue(spec) then Ok(ops.minimize(gf, spec.coords.value))
      else Ok(ops.mapNearest(gf, spec.coords.value))
    else if spec.range.Some? then
      Ok(ops.gMinimize(gf, spec.range.value))
    else
      Err(UnknownPointSpec)
  }

  /** `partial(_point_callback, point_spec=spec)`: a deferred resolver that
      captures the spec and nothing else, and is later called with a grid. */
  datatype Resolver = Partial(spec: PointSpec) {
    function Call(ops: GridOps, gf: GridFunc): (r: Result<Coord>)
      ensures r == PointCallback(ops, gf, spec)
      ensures r.Ok? <==> Recognised(spec)
      ensures r.Err? ==> r.error == UnknownPointSpec
    {
      PointCallback(ops, gf, spec)
    }
  }

  /** Calls every resolver on `gf` in order, stopping at the first that raises. */
  function ResolveAll(ops: GridOps, gf: GridFunc, points: seq<Resolver>): (r: Result<seq<Coord>>)
    ensures r.Ok? <==> forall i :: 0 <= i < |points| ==> Recognised(points[i].spec)
    ensures r.Ok? ==> |r.value| == |points|
    ensures r.Ok? ==> forall i :: 0 <= i < |points| ==> points[i].Call(ops, gf) == Ok(r.value[i])
    ensures r.Err? ==> r.error == UnknownPointSpec
  {
    if |points| == 0 then Ok([])
    else
      match points[0].Call(ops, gf)
      case Err(e) => Err(e)
      case Ok(c) =>
        match ResolveAll(ops, gf, points[1..])
        case Err(e) => Err(e)
        case Ok(cs) => Ok([c] + cs)
  }

  /** The index of the first resolver whose spec is not recognised, or the
      length of the list when every spec is. */
  function FirstUnknown(points: seq<Resolver>): (u: nat)
    ensures u <= |points|
    ensures forall i :: 0 <= i < u ==> Recognised(points[i].spec)
    ensures u < |points| ==> !Recognised(points[u].spec)
  {
    if |points| == 0 || !Recognised(points[0].spec) then 0
    else 1 + FirstUnknown(points[1..])
  }
}
