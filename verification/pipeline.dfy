/** The variant pipeline: load the base grid, build one resolver per point
    spec, one smoothed copy of the base per smoothing spec, and stitch one
    path on every surface. */
module Pipeline {
  import opened Errors
  import opened Grid
  import opened Waypoints
  import opened Stitching

  /** A smoothing-spec mapping: `sigma` is required, `cval` and `save` are
      `None` when their key is absent. */
  datatype SmoothSpec = SmoothSpec(sigma: Sigma, cval: Option<real>, save: Option<Literal>)

  /** The configuration mapping with its three keys. */
  datatype Config = Config(surface: string, points: seq<PointSpec>, smooth: seq<SmoothSpec>)

  /** The boundary fill value of a smoothing spec, `0.` when absent. */
  function Cval(spec: SmoothSpec): (c: real)
    ensures spec.cval.None? ==> c == 0.0
    ensures spec.cval.Some? ==> c == spec.cval.value
  {
    if spec.cval.Some? then spec.cval.value else 0.0
  }

  /** The base grid smoothed as one smoothing spec says; the base is copied. */
  function Smoothed(ops: GridOps, base: GridFunc, spec: SmoothSpec): (g: GridFunc)
    ensures spec.cval.None? ==> g == ops.smooth(base, spec.sigma, 0.0)
    ensures spec.cval.Some? ==> g == ops.smooth(base, spec.sigma, spec.cval.value)
  {
    ops.smooth(base, spec.sigma, Cval(spec))
  }

  /** The surface list: the unsmoothed base first, then one smoothed copy of
      the base per smoothing spec, in spec order. */
  function Variants(ops: GridOps, base: GridFunc, specs: seq<SmoothSpec>): (vs: seq<GridFunc>)
    ensures |vs| == 1 + |specs|
    ensures vs[0] == base
    ensures forall k :: 0 <= k < |specs| ==> vs[k + 1] == Smoothed(ops, base, specs[k])
  {
    [base] + seq(|specs|, k requires 0 <= k < |specs| => Smoothed(ops, base, specs[k]))
  }

  /** The resolver list: one deferred resolver per point spec, in order. */
  function Resolvers(specs: seq<PointSpec>): (points: seq<Resolver>)
    ensures |points| == |specs|
    ensures forall i :: 0 <= i < |specs| ==> points[i].spec == specs[i]
  {
    seq(|specs|, i requires 0 <= i < |specs| => Partial(specs[i]))
  }

  /** The index of the first failed result in a list, or its length when
      every result is a value. */
  function FirstErr<T>(rs: seq<Result<T>>): (k: nat)
    ensures k <= |rs|
    ensures forall j :: 0 <= j < k ==> rs[j].Ok?
    ensures k < |rs| ==> rs[k].Err?
  {
    if |rs| == 0 || rs[0].Err? then 0 else 1 + FirstErr(rs[1..])
  }

  /** A list built element by element, where the first failing element
      raises: all the values in order, or that element's error. */
  function Collect<T>(rs: seq<Result<T>>): (r: Result<seq<T>>)
    ensures r.Ok? <==> forall k :: 0 <= k < |rs| ==> rs[k].Ok?
    ensures r.Ok? ==> |r.value| == |rs| && forall k :: 0 <= k < |rs| ==> rs[k] == Ok(r.value[k])
  {
    if |rs| == 0 then Ok([])
    else
      match rs[0]
      case Err(e) => Err(e)
      case Ok(p) =>
        match Collect(rs[1..])
        case Err(e) => Err(e)
        case Ok(ps) => Ok([p] + ps)
  }

  /** A failed collection carries the error of the first failed element. */
  lemma {:induction false} CollectFirstError<T>(rs: seq<Result<T>>)
    requires Collect(rs).Err?
    ensures FirstErr(rs) < |rs| && Collect(rs) == Err(rs[FirstErr(rs)].error)
  {
    if rs[0].Ok? {
      CollectFirstError(rs[1..]);
    }
  }

  /** What evaluating the resolver list on each surface gives, in surface order. */
  function Outcomes(ops: GridOps, surfaces: seq<GridFunc>, points: seq<Resolver>)
    : (rs: seq<Result<seq<Coord>>>)
    ensures |rs| == |surfaces|
    ensures forall k :: 0 <= k < |surfaces| ==> rs[k] == Evaluate(ops, surfaces[k], points)
  {
    seq(|surfaces|, k requires 0 <= k < |surfaces| => Evaluate(ops, surfaces[k], points))
  }

  /** The index of the first surface on which evaluation raises, or the
      number of surfaces when none does. */
  function FirstFailing(ops: GridOps, surfaces: seq<GridFunc>, points: seq<Resolver>): (k: nat)
    ensures k <= |surfaces|
    ensures forall j :: 0 <= j < k ==> Evaluate(ops, surfaces[j], points).Ok?
    ensures k < |surfaces| ==> Evaluate(ops, surfaces[k], points).Err?
  {
    FirstErr(Outcomes(ops, surfaces, points))
  }

  /** The list comprehension `[_evaluate_path(s, points) for s in surfaces]`:
      one path per surface at the same index, or the exception of the first
      surface whose evaluation raises. */
  function EvaluateAll(ops: GridOps, surfaces: seq<GridFunc>, points: seq<Resolver>)
    : (r: Result<seq<seq<Coord>>>)
    ensures r.Ok? <==> forall k :: 0 <= k < |surfaces| ==> Evaluate(ops, surfaces[k], points).Ok?
    ensures r.Ok? ==> |r.value| == |surfaces|
    ensures r.Ok? ==> forall k :: 0 <= k < |surfaces| ==> Evaluate(ops, surfaces[k], points) == Ok(r.value[k])
  {
    Collect(Outcomes(ops, surfaces, points))
  }

  /** When the comprehension raises, it raises the exception of the first
      surface that fails. */
  lemma EvaluateAllFirstError(ops: GridOps, surfaces: seq<GridFunc>, points: seq<Resolver>)
    requires EvaluateAll(ops, surfaces, points).Err?
    ensures FirstFailing(ops, surfaces, points) < |surfaces|
    ensures EvaluateAll(ops, surfaces, points)
            == Err(Evaluate(ops, surfaces[FirstFailing(ops, surfaces, points)], points).error)
  {
    CollectFirstError(Outcomes(ops, surfaces, points));
  }

  /** `main(config)`: loads the base grid, appends one resolver per point
      spec, appends one smoothed copy per smoothing spec, then evaluates the
      resolver list on every surface in order. An unknown point spec raises
      only there, after loading and smoothing. */
  method Run(ops: GridOps, config: Config) returns (r: Result<seq<seq<Coord>>>)
    ensures r == EvaluateAll(ops, Variants(ops, ops.fromFile(config.surface), config.smooth),
                             Resolvers(config.points))
    ensures r.Ok? ==> |r.value| == 1 + |config.smooth|
    ensures r.Ok? ==> Evaluate(ops, ops.fromFile(config.surface), Resolvers(config.points)) == Ok(r.value[0])
    ensures r.Ok? ==> forall k :: 0 <= k < |config.smooth| ==>
              Evaluate(ops, Smoothed(ops, ops.fromFile(config.surface), config.smooth[k]),
                       Resolvers(config.points)) == Ok(r.value[k + 1])
  {
    var points: seq<Resolver> := [];
    var unsmoothed := ops.fromFile(config.surface);
    var surfaces := [unsmoothed];
    for i := 0 to |config.points|
      invariant |points| == i
      invariant forall j :: 0 <= j < i ==> points[j] == Partial(config.points[j])
    {
      points := points + [Partial(config.points[i])];
    }
    for k := 0 to |config.smooth|
      invariant |surfaces| == 1 + k && surfaces[0] == unsmoothed
      invariant forall j :: 0 <= j < k ==> surfaces[j + 1] == Smoothed(ops, unsmoothed, config.smooth[j])
    {
      var spec := config.smooth[k];
      var cval := if spec.cval.Some? then spec.cval.value else 0.0;
      var smoothed := ops.smooth(unsmoothed, spec.sigma, cval);
      surfaces := surfaces + [smoothed];
    }
    assert points == Resolvers(config.points);
    assert surfaces == Variants(ops, unsmoothed, config.smooth);
    r := EvaluateSurfaces(ops, surfaces, points);
  }

  /** `[_evaluate_path(surface, points) for surface in surfaces]`: evaluates
      the same resolver list on each surface in order; the first exception
      ends the comprehension. */
  method EvaluateSurfaces(ops: GridOps, surfaces: seq<GridFunc>, points: seq<Resolver>)
    returns (r: Result<seq<seq<Coord>>>)
    ensures r == EvaluateAll(ops, surfaces, points)
  {
    var paths: seq<seq<Coord>> := [];
    for k := 0 to |surfaces|
      invariant |paths| == k
      invariant forall j :: 0 <= j < k ==> Evaluate(ops, surfaces[j], points) == Ok(paths[j])
    {
      var path, _, _ := EvaluatePath(ops, surfaces[k], points);
      if path.Err? {
        FirstFailure(ops, surfaces, points, k);
        return Err(path.error);
      }
      paths := paths + [path.value];
    }
    AllSucceed(ops, surfaces, points, paths);
    r := Ok(paths);
  }

  /** The comprehension raises the exception of the first surface that fails. */
  lemma FirstFailure(ops: GridOps, surfaces: seq<GridFunc>, points: seq<Resolver>, k: nat)
    requires k < |surfaces| && Evaluate(ops, surfaces[k], points).Err?
    requires forall j :: 0 <= j < k ==> Evaluate(ops, surfaces[j], points).Ok?
    ensures EvaluateAll(ops, surfaces, points) == Err(Evaluate(ops, surfaces[k], points).error)
  {
    EvaluateAllFirstError(ops, surfaces, points);
    assert FirstFailing(ops, surfaces, points) == k;
  }

  /** Every surface evaluated: the comprehension returns the paths in order. */
  lemma AllSucceed(ops: GridOps, surfaces: seq<GridFunc>, points: seq<Resolver>, paths: seq<seq<Coord>>)
    requires |paths| == |surfaces|
    requires forall j :: 0 <= j < |surfaces| ==> Evaluate(ops, surfaces[j], points) == Ok(paths[j])
    ensures EvaluateAll(ops, surfaces, points) == Ok(paths)
  {
    var r := EvaluateAll(ops, surfaces, points);
    assert r.Ok?;
    assert r.value == paths;
  }

  /** An unknown point spec anywhere in the config makes the whole run fail,
      and the exception is the one raised on the unsmoothed base, the first
      surface evaluated. */
  lemma UnknownSpecFailsRun(ops: GridOps, config: Config, k: nat)
    requires k < |config.points| && !Recognised(config.points[k])
    ensures var base := ops.fromFile(config.surface);
            var points := Resolvers(config.points);
            Evaluate(ops, base, points).Err? &&
            EvaluateAll(ops, Variants(ops, base, config.smooth), points)
              == Err(Evaluate(ops, base, points).error)
  {
    var base := ops.fromFile(config.surface);
    var points := Resolvers(config.points);
    EvaluateFailsOnUnknown(ops, base, points, k);
    FirstFailure(ops, Variants(ops, base, config.smooth), points, 0);
  }

  /** The `save` flag of a smoothing spec changes no surface. */
  lemma SaveIgnored(ops: GridOps, base: GridFunc, specs: seq<SmoothSpec>, specs': seq<SmoothSpec>)
    requires |specs| == |specs'|
    requires forall k :: 0 <= k < |specs| ==> specs'[k] == specs[k].(save := specs'[k].save)
    ensures Variants(ops, base, specs) == Variants(ops, base, specs')
  {
  }
}
