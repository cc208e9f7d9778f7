# mepfinder orchestration, modelled in Dafny

This project models the orchestration layer of the MinEnergyPath finder
(`mepfinder/main.py`). The layer computes a minimum-energy path through a list of
configured waypoints on a grid function. It does this once on the original surface
and once on each smoothed copy of it. It has three parts:

- **waypoint dispatch** (`_point_callback`): a point spec becomes a grid coordinate,
  through `minimize`, `map_nearest` or `g_minimize`;
- **path stitching** (`_evaluate_path`): the loop floods between consecutive
  resolved waypoints, deletes the last coordinate of the accumulated path and
  extends it with the next segment;
- **the variant pipeline** (`main`): it builds one deferred resolver per point
  spec, a surface list (the base, then one smoothed copy per smoothing spec),
  and one stitched path per surface.

`GridFunc` and `Flooder` are outside this model. They are opaque total functions
held in a `Grid.GridOps` record over two abstract types, `Grid.Coord` (a grid
coordinate) and `Grid.GridFunc` (a grid function). A spec mapping is a record of optional keys (`Waypoints.PointSpec`,
`Pipeline.SmoothSpec`). The two exceptions the layer raises itself are results
(`Errors.Result`):

- `IndexError` when `points[0]` or `points[1]` is missing, or when `del path[-1]`
  hits an empty path;
- `RuntimeError('Unknown point_spec')`.

Files:

- `errors.dfy`: the error and wrapper types;
- `grid.dfy`: the collaborator record;
- `waypoints.dfy`: dispatch and resolvers;
- `stitching.dfy`: the stitching loop, its specification `Evaluate`, and the lemmas
  about segments;
- `pipeline.dfy`: `main`, named `Run` here.

The model follows the code's own behaviour:

- Dispatch tests for the presence of keys (`coords` before `range`). It does not
  match on a tagged union.
- `min` must be the boolean `True` itself. Any other value, even a truthy one,
  selects `map_nearest`.
- An unknown point spec does not fail before the surface is loaded. The run
  fails on the first path evaluation, on the base surface, after the base has
  been loaded and every smoothed copy built. The error raised there is not always
  the unknown-spec error: an empty flood before the unknown resolver is reached
  makes `del path[-1]` raise `IndexError` first, and then that resolver is never
  called.

## Model

| member | source | states |
|---|---|---|
| `Waypoints.PointCallback` | mepfinder/main.py:7-16 | `coords` with `min` exactly `True` gives `minimize(coords)`. `coords` with any other or absent `min` gives `map_nearest(coords)`. No `coords` but `range` gives `g_minimize` with the per-axis range entries unchanged. Neither key gives the unknown-spec error. The result is a coordinate iff one of the two keys is present, and with `coords` present `range` is never looked at. |
| `Waypoints.Resolver.Call` | mepfinder/main.py:21-25 | Calling a resolver (`points[i](gf)`) is `PointCallback` on the spec captured by `partial` and on the grid given at the call. It yields a coordinate iff the captured spec is recognised, and otherwise raises the unknown-spec error. |
| `Waypoints.ResolveAll` | mepfinder/main.py:21-25 | Calling the resolvers in order succeeds iff every spec is recognised. It then yields one coordinate per resolver, each the value that resolver gives. Otherwise it raises the unknown-spec error. |
| `Stitching.Evaluate` | mepfinder/main.py:19-28 | `_evaluate_path` as a function. A success needs at least two resolvers and every spec recognised. An unknown first spec raises the unknown-spec error. A list of fewer than two resolvers, all of them recognised, raises `IndexError` (at `points[0]` when empty, at `points[1]` when it has one). |
| `Stitching.EvaluatePath` | mepfinder/main.py:19-28 | The loop returns exactly `Evaluate`. On success it called each resolver once, in index order. It flooded exactly `n-1` times, and call `i` ran from waypoint `i` to waypoint `i+1`, so the end of one call is the start of the next. |
| `Stitching.Stitch` | mepfinder/main.py:22-27 | The drop-last-then-extend fold of the loop, with `None` where a `del path[-1]` meets an empty path. It has no contract of its own. `StitchIsJoin` states its result when every segment but the last is non-empty. `StitchFailsFromPrefix` states that one failed deletion fails the whole stitch. No lemma describes the result when a middle segment is empty but no deletion fails: the empty segment adds nothing, so the next round's deletion removes a coordinate of an earlier segment. |
| `Stitching.StitchIsJoin` | mepfinder/main.py:22-27 | When every segment but the last is non-empty, the drop-last-then-extend accumulation never deletes from an empty path. It yields `s[0][:-1] + ... + s[n-2][:-1] + s[n-1]`. |
| `Stitching.JoinSnoc` | mepfinder/main.py:26-27 | After a non-empty last segment, one more round (delete the last coordinate, extend by `t`) gives the concatenation formula extended by `t`. |
| `Stitching.StitchFailsFromPrefix` | mepfinder/main.py:26 | Once a `del path[-1]` has met an empty path, the whole stitch fails. |
| `Stitching.JoinLength` | mepfinder/main.py:26-27 | The stitched length is the sum of the segment lengths minus one per junction, when every segment but the last is non-empty. |
| `Stitching.JoinContainsLeg` | mepfinder/main.py:24-27 | When each segment runs from its waypoint to the next, segment `i` appears whole at its offset. Segment `i+1` starts on its last position: consecutive segments share exactly one position, so the junction is not doubled. |
| `Stitching.JoinEndpoints` | mepfinder/main.py:22-27 | Under the same assumption, the stitched path starts at the first waypoint and ends at the last. |
| `Stitching.EvaluateJoinsLegs` | mepfinder/main.py:21-27 | With all specs recognised and non-empty segments before the last, evaluation returns the concatenation formula over the flood results between consecutive resolved waypoints. Its length is the total minus `n-2`. |
| `Stitching.EvaluateTwoPoints` | mepfinder/main.py:21-23 | With exactly two recognised resolvers, the result is the single `flood(p0, p1)` unchanged. |
| `Stitching.EvaluateFailsOnUnknown` | mepfinder/main.py:21-25 | An unknown spec at any index makes evaluation fail. |
| `Stitching.EvaluateThreadsWaypoints` | mepfinder/main.py:21-27 | When floods run from start to end, the evaluated path starts at the first waypoint and ends at the last. Every flood result sits whole at its offset. |
| `Stitching.PathEmptyFails` | mepfinder/main.py:25-26 | If the accumulated path is empty when the next point has resolved, evaluation raises `IndexError`. |
| `Pipeline.Cval` | mepfinder/main.py:51 | A missing `cval` defaults to `0.`, and a given one is used as is. |
| `Pipeline.Smoothed` | mepfinder/main.py:50-52 | `unsmoothed_gf.smooth(sigma, cval, copy=True)` for one smoothing spec: the spec's `sigma`, and its `cval` or `0.` when absent. |
| `Pipeline.Variants` | mepfinder/main.py:46-53 | The surface list has `1 + len(smooth)` entries. Entry 0 is the unsmoothed base. Entry `k+1` is the base smoothed with `sigma` and `cval` of `smooth[k]`, in spec order. |
| `Pipeline.Resolvers` | mepfinder/main.py:47-48 | One resolver per point spec, in config order. Each captures only its spec. |
| `Pipeline.EvaluateAll` | mepfinder/main.py:56 | The comprehension succeeds iff every surface evaluates. It then returns one path per surface at the same index. |
| `Pipeline.FirstFailing` | mepfinder/main.py:56 | The index of the first surface whose evaluation raises: every earlier surface evaluates and that one does not, or it is the surface count when all evaluate. |
| `Pipeline.EvaluateAllFirstError` | mepfinder/main.py:56 | When the comprehension raises, it raises the error of the surface at `FirstFailing`. |
| `Pipeline.EvaluateSurfaces` | mepfinder/main.py:56 | The comprehension's loop over the surfaces returns exactly `EvaluateAll`. |
| `Pipeline.FirstFailure` | mepfinder/main.py:56 | The comprehension raises exactly the error of the first surface that fails. |
| `Pipeline.Run` | mepfinder/main.py:43-57 | `main` returns the comprehension over the surface list with the single resolver list. On success it returns `1 + len(smooth)` paths. Path 0 is evaluated on the unsmoothed base, and path `k+1` on the copy smoothed with `smooth[k]`. |
| `Pipeline.UnknownSpecFailsRun` | mepfinder/main.py:45-56 | An unknown point spec anywhere makes `main` fail. The error is the one raised on the base surface, the first surface evaluated. (That this happens after loading and smoothing is only the statement order of `Run`; with total collaborators it cannot be observed.) |
| `Pipeline.SaveIgnored` | mepfinder/main.py:54-55 | The `save` flag changes no surface. |

## Left out

- `GridFunc` internals are modelled only as opaque functions: `from_file` parsing,
  the Gaussian `smooth`, `minimize`, `g_minimize` and `map_nearest`. They are
  floating-point numerics and file I/O in a module that is not part of this model.
- `Flooder.flood`, the path search itself, is likewise an opaque function returning
  a sequence of coordinates. `grid_func.py` and `flooder.py` are not part of this
  model.
- The single `Flooder(gf)` built per evaluation is assumed stateless between its `n-1` calls: `flood` is a pure function of grid, start and end, which is what lets segment `i` be named `flood(gf, w[i], w[i+1])`. The flood result's `del`/`extend` are treated as list operations, and any further state of the result object (such as the `coords_idx` attribute read by the test block) is not represented.
- Failures raised inside the collaborators are not modelled, because they are
  total functions here. This covers a missing or malformed surface file, an empty
  `g_minimize` region and a disconnected flood.
- Missing required config keys (`surface`, `points`, `smooth`, `sigma`) are not
  modelled. They would raise `KeyError`, but the configuration is a typed record
  here.
- The `save` branch is a `pass` with a TODO and no behaviour. It is not modelled;
  `SaveIgnored` states that it changes nothing.
- The `__main__` test block is left out. It reads a file, prints, and uses an
  attribute of the external path object.
- In-place list identity is not modelled: the path list returned by `flood` is
  mutated by `del`/`extend`. The model works on sequence values, so no aliasing
  with a list the flooder might keep is represented.
- `copy=True` object distinctness is not modelled either. Surfaces are values, so
  "distinct objects" is not observable.
- Keys present with a `null` value are not represented: `Option` stands only for key presence. In the code, `range: null` raises `TypeError` at the `g_minimize(*...)` call (the model gives the unknown-spec error for an absent `range` only), and `coords: null` or `cval: null` pass `None` on to the collaborators.
- Concurrency is left out: the code is strictly sequential.
