/** Path stitching: resolving consecutive waypoints on one grid, flooding
    between each pair and concatenating the segments, dropping the duplicate
    junction coordinate each time. */
module Stitching {
  import opened Errors
  import opened Grid
  import opened Waypoints

  /** Python's `s[:-1]`: everything but the last element; empty stays empty. */
  function ButLast(s: seq<Coord>): seq<Coord> {
    if |s| == 0 then [] else s[..|s| - 1]
  }

  /** The flood results between consecutive waypoints: segment `i` runs from
      `w[i]` to `w[i + 1]`. */
  function Legs(ops: GridOps, gf: GridFunc, w: seq<Coord>): seq<seq<Coord>>
    requires |w| >= 1
  {
    seq(|w| - 1, i requires 0 <= i < |w| - 1 => ops.flood(gf, w[i], w[i + 1]))
  }

  /** Every segment but the last has at least one coordinate. */
  ghost predicate NonEmptyBeforeLast(segs: seq<seq<Coord>>) {
    forall i :: 0 <= i < |segs| - 1 ==> |segs[i]| > 0
  }

  /** The segments accumulated the way the stitching loop does it: start from
      the first segment, then for each further one delete the last element of
      the accumulated path and extend it with the segment. `None` when a
      deletion meets an empty path. */
  function Stitch(segs: seq<seq<Coord>>): Option<seq<Coord>>
    requires |segs| >= 1
  {
    if |segs| == 1 then Some(segs[0])
    else
      match Stitch(segs[..|segs| - 1])
      case None => None
      case Some(p) => if |p| == 0 then None else Some(p[..|p| - 1] + segs[|segs| - 1])
  }

  /** The stitched path written as one concatenation:
      `s[0][:-1] + s[1][:-1] + ... + s[n-2][:-1] + s[n-1]`. */
  function Join(segs: seq<seq<Coord>>): seq<Coord>
    requires |segs| >= 1
  {
    if |segs| == 1 then segs[0] else ButLast(segs[0]) + Join(segs[1..])
  }

  /** The sum of the segment lengths. */
  function TotalLength(segs: seq<seq<Coord>>): nat {
    if |segs| == 0 then 0 else |segs[0]| + TotalLength(segs[1..])
  }

  /** Where segment `i` starts inside the joined path: every earlier segment
      contributes all its coordinates but the last. */
  function Offset(segs: seq<seq<Coord>>, i: nat): int
    requires i <= |segs|
  {
    if i == 0 then 0 else |segs[0]| - 1 + Offset(segs[1..], i - 1)
  }

  /** Each segment is non-empty, starts at its waypoint and ends at the next:
      what a flood between two points is expected to return. */
  ghost predicate Connects(segs: seq<seq<Coord>>, w: seq<Coord>) {
    |w| == |segs| + 1 &&
    forall i :: 0 <= i < |segs| ==>
      |segs[i]| > 0 && segs[i][0] == w[i] && segs[i][|segs[i]| - 1] == w[i + 1]
  }

  lemma {:induction false} JoinEndsWithLast(segs: seq<seq<Coord>>)
    requires |segs| >= 1
    ensures |Join(segs)| >= |segs[|segs| - 1]|
    ensures Join(segs)[|Join(segs)| - |segs[|segs| - 1]|..] == segs[|segs| - 1]
  {
    if |segs| > 1 {
      JoinEndsWithLast(segs[1..]);
      assert segs[1..][|segs[1..]| - 1] == segs[|segs| - 1];
      var a, b := ButLast(segs[0]), Join(segs[1..]);
      assert (a + b)[|a + b| - |segs[|segs| - 1]|..] == b[|b| - |segs[|segs| - 1]|..];
    }
  }

  /** Appending one more segment to a join whose last segment is non-empty
      deletes exactly that segment's last coordinate before the new one. */
  lemma {:induction false} JoinSnoc(segs: seq<seq<Coord>>, t: seq<Coord>)
    requires |segs| >= 1 && |segs[|segs| - 1]| > 0
    ensures |Join(segs)| > 0
    ensures Join(segs + [t]) == ButLast(Join(segs)) + t
  {
    JoinEndsWithLast(segs);
    if |segs| == 1 {
      assert (segs + [t])[1..] == [t];
      assert Join(segs + [t]) == ButLast(segs[0]) + Join([t]);
    } else {
      var rest := segs[1..];
      assert (segs + [t])[1..] == rest + [t];
      assert Join(segs + [t]) == ButLast(segs[0]) + Join(rest + [t]);
      assert rest[|rest| - 1] == segs[|segs| - 1];
      JoinSnoc(rest, t);
      ButLastAppend(ButLast(segs[0]), Join(rest));
    }
  }

  /** Python's `(a + b)[:-1]` is `a + b[:-1]` when `b` is non-empty. */
  lemma ButLastAppend(a: seq<Coord>, b: seq<Coord>)
    requires |b| > 0
    ensures ButLast(a + b) == a + ButLast(b)
  {
    assert (a + b)[..|a + b| - 1] == a + b[..|b| - 1];
  }

  /** The loop's drop-last-then-extend accumulation never meets an empty path
      and yields the concatenation formula, when every segment but the last
      is non-empty. */
  lemma {:induction false} StitchIsJoin(segs: seq<seq<Coord>>)
    requires |segs| >= 1 && NonEmptyBeforeLast(segs)
    ensures Stitch(segs) == Some(Join(segs))
  {
    if |segs| > 1 {
      var init := segs[..|segs| - 1];
      StitchIsJoin(init);
      JoinSnoc(init, segs[|segs| - 1]);
      assert init + [segs[|segs| - 1]] == segs;
    }
  }

  /** Once a deletion has met an empty path, stitching further segments
      cannot recover: the whole stitch fails. */
  lemma {:induction false} StitchFailsFromPrefix(segs: seq<seq<Coord>>, k: nat)
    requires 1 <= k <= |segs|
    requires Stitch(segs[..k]).None?
    ensures Stitch(segs).None?
  {
    if k < |segs| {
      var init := segs[..|segs| - 1];
      assert init[..k] == segs[..k];
      StitchFailsFromPrefix(init, k);
    } else {
      assert segs[..k] == segs;
    }
  }

  /** The joined path is one coordinate shorter than the segments together
      at each of the `|segs| - 1` junctions. */
  lemma {:induction false} JoinLength(segs: seq<seq<Coord>>)
    requires |segs| >= 1 && NonEmptyBeforeLast(segs)
    ensures |Join(segs)| == TotalLength(segs) - (|segs| - 1)
  {
    if |segs| > 1 {
      JoinLength(segs[1..]);
    } else {
      assert TotalLength(segs[1..]) == 0;
    }
  }

  /** Dropping the first segment and the first waypoint keeps `Connects`. */
  lemma ConnectsTail(segs: seq<seq<Coord>>, w: seq<Coord>)
    requires |segs| >= 1 && Connects(segs, w)
    ensures Connects(segs[1..], w[1..])
  {
    var rest := segs[1..];
    forall j | 0 <= j < |rest|
      ensures |rest[j]| > 0 && rest[j][0] == w[1..][j] && rest[j][|rest[j]| - 1] == w[1..][j + 1]
    {
      assert rest[j] == segs[j + 1];
    }
  }

  /** The first segment is whole at the front of the joined path: its last
      coordinate, dropped by `ButLast`, comes back as the first of the rest. */
  lemma JoinStartsWithFirst(segs: seq<seq<Coord>>, w: seq<Coord>)
    requires |segs| >= 1 && Connects(segs, w)
    ensures |segs[0]| <= |Join(segs)| && Join(segs)[..|segs[0]|] == segs[0]
  {
    if |segs| > 1 {
      var rest := segs[1..];
      ConnectsTail(segs, w);
      JoinStartsWithFirst(rest, w[1..]);
      var a, b := ButLast(segs[0]), Join(rest);
      assert b[0] == rest[0][0] == segs[0][|segs[0]| - 1];
      assert (a + b)[..|segs[0]|] == a + [b[0]];
      assert a + [segs[0][|segs[0]| - 1]] == segs[0];
    }
  }

  /** When each segment runs from its waypoint to the next, every segment
      appears whole and in place in the joined path: segment `i` occupies
      positions `Offset(segs, i)` to `Offset(segs, i) + |segs[i]| - 1`, and
      segment `i + 1` begins on its last position: consecutive segments
      share exactly one position, so the junction is not doubled. */
  lemma {:induction false} JoinContainsLeg(segs: seq<seq<Coord>>, w: seq<Coord>, i: nat)
    requires |segs| >= 1 && Connects(segs, w) && i < |segs|
    ensures 0 <= Offset(segs, i) && Offset(segs, i) + |segs[i]| <= |Join(segs)|
    ensures Join(segs)[Offset(segs, i)..Offset(segs, i) + |segs[i]|] == segs[i]
    ensures i + 1 < |segs| ==> Offset(segs, i + 1) == Offset(segs, i) + |segs[i]| - 1
  {
    if i == 0 {
      JoinStartsWithFirst(segs, w);
      assert Offset(segs, 1) == |segs[0]| - 1 + Offset(segs[1..], 0);
    } else {
      var rest := segs[1..];
      ConnectsTail(segs, w);
      JoinContainsLeg(rest, w[1..], i - 1);
      var a, b := ButLast(segs[0]), Join(rest);
      var o, m := Offset(rest, i - 1), |segs[i]|;
      assert rest[i - 1] == segs[i];
      assert Offset(segs, i) == |a| + o;
      assert (a + b)[|a| + o..|a| + o + m] == b[o..o + m];
      assert Offset(segs, i + 1) == |segs[0]| - 1 + Offset(rest, i);
    }
  }

  /** `_evaluate_path(gf, points)` as a function of its inputs: the first
      failure in the order the code meets them, or the stitched path.
      The code resolves `points[0]`, indexes `points[1]` and resolves it,
      then for each later point resolves it before deleting from the path;
      `u` is the index of the first unknown spec. */
  function Evaluate(ops: GridOps, gf: GridFunc, points: seq<Resolver>): (r: Result<seq<Coord>>)
    ensures r.Ok? ==> |points| >= 2 && forall i :: 0 <= i < |points| ==> Recognised(points[i].spec)
    ensures |points| >= 1 && !Recognised(points[0].spec) ==> r == Err(UnknownPointSpec)
    ensures |points| < 2 && (forall i :: 0 <= i < |points| ==> Recognised(points[i].spec))
            ==> r == Err(IndexOutOfRange)
  {
    var u := FirstUnknown(points);
    if |points| == 0 then Err(IndexOutOfRange)
    else if u == 0 then Err(UnknownPointSpec)
    else if |points| == 1 then Err(IndexOutOfRange)
    else if u == 1 then Err(UnknownPointSpec)
    else
      var w := ResolveAll(ops, gf, points[..u]).value;
      match Stitch(Legs(ops, gf, w))
      case None => Err(IndexOutOfRange)
      case Some(p) => if u < |points| then Err(UnknownPointSpec) else Ok(p)
  }

  /** The resolved waypoints when every spec is recognised. */
  function Resolved(ops: GridOps, gf: GridFunc, points: seq<Resolver>): seq<Coord>
    requires forall i :: 0 <= i < |points| ==> Recognised(points[i].spec)
  {
    ResolveAll(ops, gf, points).value
  }

  /** With every spec recognised and every segment but the last non-empty,
      evaluation succeeds with `s[0][:-1] + ... + s[n-3][:-1] + s[n-2]` for
      the flood results `s`, whose length is their total length minus `n - 2`. */
  lemma EvaluateJoinsLegs(ops: GridOps, gf: GridFunc, points: seq<Resolver>)
    requires |points| >= 2 && forall i :: 0 <= i < |points| ==> Recognised(points[i].spec)
    requires NonEmptyBeforeLast(Legs(ops, gf, Resolved(ops, gf, points)))
    ensures Evaluate(ops, gf, points) == Ok(Join(Legs(ops, gf, Resolved(ops, gf, points))))
    ensures |Evaluate(ops, gf, points).value|
            == TotalLength(Legs(ops, gf, Resolved(ops, gf, points))) - (|points| - 2)
  {
    var legs := Legs(ops, gf, Resolved(ops, gf, points));
    EvaluateStitchesLegs(ops, gf, points);
    StitchIsJoin(legs);
    JoinLength(legs);
  }

  /** With every spec recognised, evaluation is the stitch of the floods
      between the resolved waypoints, failing only where the stitch does. */
  lemma EvaluateStitchesLegs(ops: GridOps, gf: GridFunc, points: seq<Resolver>)
    requires |points| >= 2 && forall i :: 0 <= i < |points| ==> Recognised(points[i].spec)
    ensures var s := Stitch(Legs(ops, gf, Resolved(ops, gf, points)));
            Evaluate(ops, gf, points) == if s.Some? then Ok(s.value) else Err(IndexOutOfRange)
  {
    var u := FirstUnknown(points);
    assert u == |points|;
    assert points[..u] == points;
  }

  /** Two resolvers: the single flood result between them, unchanged. */
  lemma EvaluateTwoPoints(ops: GridOps, gf: GridFunc, points: seq<Resolver>)
    requires |points| == 2 && Recognised(points[0].spec) && Recognised(points[1].spec)
    ensures Evaluate(ops, gf, points)
            == Ok(ops.flood(gf, points[0].Call(ops, gf).value, points[1].Call(ops, gf).value))
  {
    assert points[..2] == points;
  }

  /** An unknown spec anywhere in the list makes evaluation fail. */
  lemma EvaluateFailsOnUnknown(ops: GridOps, gf: GridFunc, points: seq<Resolver>, k: nat)
    requires k < |points| && !Recognised(points[k].spec)
    ensures Evaluate(ops, gf, points).Err?
  {
  }

  /** When each segment runs from its waypoint to the next, the joined path
      runs from the first waypoint to the last. */
  lemma JoinEndpoints(segs: seq<seq<Coord>>, w: seq<Coord>)
    requires |segs| >= 1 && Connects(segs, w)
    ensures |Join(segs)| > 0
    ensures Join(segs)[0] == w[0] && Join(segs)[|Join(segs)| - 1] == w[|w| - 1]
  {
    JoinStartsWithFirst(segs, w);
    JoinEndsWithLast(segs);
    var p, last := Join(segs), segs[|segs| - 1];
    assert p[0] == p[..|segs[0]|][0];
    assert p[|p| - 1] == p[|p| - |last|..][|last| - 1];
  }

  /** When every flood runs from its start to its end, the result begins at
      the first waypoint, ends at the last, and holds every flood result
      whole at its offset, consecutive ones sharing exactly their junction. */
  lemma EvaluateThreadsWaypoints(ops: GridOps, gf: GridFunc, points: seq<Resolver>, i: nat)
    requires |points| >= 2 && forall j :: 0 <= j < |points| ==> Recognised(points[j].spec)
    requires Connects(Legs(ops, gf, Resolved(ops, gf, points)), Resolved(ops, gf, points))
    requires i < |points| - 1
    ensures Evaluate(ops, gf, points).Ok?
    ensures Threads(Evaluate(ops, gf, points).value, Resolved(ops, gf, points),
                    Legs(ops, gf, Resolved(ops, gf, points)), i)
  {
    var w := Resolved(ops, gf, points);
    var legs := Legs(ops, gf, w);
    assert NonEmptyBeforeLast(legs);
    EvaluateJoinsLegs(ops, gf, points);
    JoinThreads(legs, w, Evaluate(ops, gf, points).value, i);
  }

  /** `p` runs from the first waypoint to the last and holds segment `i`
      whole at its offset. */
  ghost predicate Threads(p: seq<Coord>, w: seq<Coord>, segs: seq<seq<Coord>>, i: nat)
    requires |w| >= 1 && i < |segs|
  {
    |p| > 0 && p[0] == w[0] && p[|p| - 1] == w[|w| - 1] &&
    0 <= Offset(segs, i) && Offset(segs, i) + |segs[i]| <= |p| &&
    p[Offset(segs, i)..Offset(segs, i) + |segs[i]|] == segs[i]
  }

  /** The joined path of segments that connect the waypoints threads them. */
  lemma JoinThreads(segs: seq<seq<Coord>>, w: seq<Coord>, p: seq<Coord>, i: nat)
    requires |segs| >= 1 && Connects(segs, w) && p == Join(segs) && i < |segs|
    ensures Threads(p, w, segs, i)
  {
    JoinContainsLeg(segs, w, i);
    JoinEndpoints(segs, w);
  }

  /** `_evaluate_path(gf, points)`: resolves `points[0]` and `points[1]`,
      floods between them, then for each further point moves the end to the
      start, resolves the new end, deletes the last coordinate of the path
      and extends the path with the next flood result. `resolved` logs the
      indices of the resolvers called, `floods` the endpoints of each flood. */
  method EvaluatePath(ops: GridOps, gf: GridFunc, points: seq<Resolver>)
    returns (r: Result<seq<Coord>>, ghost resolved: seq<int>, ghost floods: seq<(Coord, Coord)>)
    ensures r == Evaluate(ops, gf, points)
    ensures r.Ok? ==> resolved == Upto(|points|)
    ensures r.Ok? ==> floods == Hops(Resolved(ops, gf, points))
  {
    resolved, floods := [], [];
    if |points| == 0 {
      return Err(IndexOutOfRange), resolved, floods;
    }
    var first := points[0].Call(ops, gf);
    resolved := [0];
    if first.Err? {
      return Err(first.error), resolved, floods;
    }
    if |points| == 1 {
      return Err(IndexOutOfRange), resolved, floods;
    }
    var second := points[1].Call(ops, gf);
    resolved := resolved + [1];
    if second.Err? {
      assert FirstUnknown(points) == 1;
      return Err(second.error), resolved, floods;
    }
    var pstart, pend := first.value, second.value;
    var path := ops.flood(gf, pstart, pend);
    floods := [(pstart, pend)];
    ghost var w := [pstart, pend];
    StartStitch(ops, gf, pstart, pend);
    assert resolved == Upto(2);
    for i := 2 to |points|
      invariant |w| == i && pend == w[|w| - 1]
      invariant ResolvesTo(ops, gf, points, w)
      invariant Stitch(Legs(ops, gf, w)) == Some(path)
      invariant resolved == Upto(i)
      invariant floods == Hops(w)
    {
      pstart := pend;
      var next := points[i].Call(ops, gf);
      assert Upto(i + 1) == resolved + [i];
      resolved := resolved + [i];
      if next.Err? {
        UnknownAfterPrefix(ops, gf, points, w, path);
        return Err(next.error), resolved, floods;
      }
      pend := next.value;
      if |path| == 0 {
        PathEmptyFails(ops, gf, points, w, pend);
        return Err(IndexOutOfRange), resolved, floods;
      }
      ghost var before := path;
      path := path[..|path| - 1];
      path := path + ops.flood(gf, pstart, pend);
      floods := floods + [(pstart, pend)];
      HopsSnoc(w, pend);
      StitchStep(ops, gf, w, pstart, pend, before);
      w := w + [pend];
    }
    AllResolved(ops, gf, points, w, path);
    r := Ok(path);
  }

  /** The state before the loop: one flood between the first two waypoints. */
  lemma StartStitch(ops: GridOps, gf: GridFunc, pstart: Coord, pend: Coord)
    ensures Stitch(Legs(ops, gf, [pstart, pend])) == Some(ops.flood(gf, pstart, pend))
    ensures Hops([pstart, pend]) == [(pstart, pend)]
  {
    assert Legs(ops, gf, [pstart, pend]) == [ops.flood(gf, pstart, pend)];
  }

  /** The indices `0, 1, ..., n - 1` in order. */
  ghost function Upto(n: nat): seq<int> {
    seq(n, i => i)
  }

  /** The endpoints of the floods between consecutive waypoints. */
  ghost function Hops(w: seq<Coord>): seq<(Coord, Coord)> {
    seq(if |w| == 0 then 0 else |w| - 1, i requires 0 <= i < |w| - 1 => (w[i], w[i + 1]))
  }

  /** One more waypoint adds one hop from the previous last waypoint. */
  lemma HopsSnoc(w: seq<Coord>, x: Coord)
    requires |w| >= 1
    ensures Hops(w + [x]) == Hops(w) + [(w[|w| - 1], x)]
  {
    assert Hops(w + [x])[..|w| - 1] == Hops(w);
  }

  /** Legs of one more waypoint: the earlier legs plus one flood. */
  lemma LegsSnoc(ops: GridOps, gf: GridFunc, w: seq<Coord>, x: Coord)
    requires |w| >= 1
    ensures |Legs(ops, gf, w + [x])| >= 1
    ensures Legs(ops, gf, w + [x])[..|w| - 1] == Legs(ops, gf, w)
    ensures Legs(ops, gf, w + [x])[|w| - 1] == ops.flood(gf, w[|w| - 1], x)
  {
  }

  /** `w` is what the first `|w|` resolvers give, one coordinate each. */
  ghost predicate ResolvesTo(ops: GridOps, gf: GridFunc, points: seq<Resolver>, w: seq<Coord>) {
    |w| <= |points| && forall j :: 0 <= j < |w| ==> points[j].Call(ops, gf) == Ok(w[j])
  }

  /** A resolved prefix is the value `ResolveAll` gives for that prefix. */
  lemma PrefixResolves(ops: GridOps, gf: GridFunc, points: seq<Resolver>, w: seq<Coord>)
    requires |w| <= |points|
    requires ResolvesTo(ops, gf, points, w)
    ensures ResolveAll(ops, gf, points[..|w|]) == Ok(w)
  {
    var r := ResolveAll(ops, gf, points[..|w|]);
    assert forall j :: 0 <= j < |w| ==> points[..|w|][j] == points[j];
    assert r.Ok?;
    assert r.value == w;
  }

  /** The legs of a prefix of the waypoints are a prefix of the legs. */
  lemma LegsPrefix(ops: GridOps, gf: GridFunc, v: seq<Coord>, m: nat)
    requires 1 <= m <= |v|
    ensures Legs(ops, gf, v)[..m - 1] == Legs(ops, gf, v[..m])
  {
  }

  /** Deleting from an empty stitched path fails the next round. */
  lemma StitchEmptyFails(ops: GridOps, gf: GridFunc, w: seq<Coord>, x: Coord)
    requires |w| >= 2 && Stitch(Legs(ops, gf, w)) == Some([])
    ensures Stitch(Legs(ops, gf, w + [x])).None?
  {
    LegsSnoc(ops, gf, w, x);
  }

  /** The case where the loop deletes from an empty path. */
  lemma PathEmptyFails(ops: GridOps, gf: GridFunc, points: seq<Resolver>, w: seq<Coord>, x: Coord)
    requires 2 <= |w| < |points|
    requires ResolvesTo(ops, gf, points, w)
    requires points[|w|].Call(ops, gf) == Ok(x)
    requires Stitch(Legs(ops, gf, w)) == Some([])
    ensures Evaluate(ops, gf, points) == Err(IndexOutOfRange)
  {
    var w' := w + [x];
    StitchEmptyFails(ops, gf, w, x);
    var u := FirstUnknown(points);
    assert u > |w|;
    ResolvePrefixAgrees(ops, gf, points, w', u);
    var v := ResolveAll(ops, gf, points[..u]).value;
    LegsPrefix(ops, gf, v, |w'|);
    StitchFailsFromPrefix(Legs(ops, gf, v), |w'| - 1);
  }

  /** Resolving a longer run of recognised specs agrees with the waypoints
      already resolved. */
  lemma ResolvePrefixAgrees(ops: GridOps, gf: GridFunc, points: seq<Resolver>, w: seq<Coord>, u: nat)
    requires |w| <= u <= |points|
    requires forall j :: 0 <= j < u ==> Recognised(points[j].spec)
    requires ResolvesTo(ops, gf, points, w)
    ensures ResolveAll(ops, gf, points[..u]).Ok?
    ensures ResolveAll(ops, gf, points[..u]).value[..|w|] == w
  {
    var v := ResolveAll(ops, gf, points[..u]).value;
    forall j | 0 <= j < |w| ensures v[j] == w[j] {
      assert points[..u][j] == points[j];
    }
  }

  /** One round of the loop on the specification side: a further waypoint
      deletes the last coordinate and appends one more flood. */
  lemma StitchStep(ops: GridOps, gf: GridFunc, w: seq<Coord>, a: Coord, x: Coord, path: seq<Coord>)
    requires |w| >= 2 && a == w[|w| - 1]
    requires Stitch(Legs(ops, gf, w)) == Some(path) && |path| > 0
    ensures Stitch(Legs(ops, gf, w + [x])) == Some(path[..|path| - 1] + ops.flood(gf, a, x))
  {
    LegsSnoc(ops, gf, w, x);
  }

  /** The loop meets an unknown spec after resolving a prefix without a
      failed deletion. */
  lemma UnknownAfterPrefix(ops: GridOps, gf: GridFunc, points: seq<Resolver>, w: seq<Coord>, path: seq<Coord>)
    requires 2 <= |w| < |points|
    requires ResolvesTo(ops, gf, points, w)
    requires !Recognised(points[|w|].spec)
    requires Stitch(Legs(ops, gf, w)) == Some(path)
    ensures Evaluate(ops, gf, points) == Err(UnknownPointSpec)
  {
    assert FirstUnknown(points) == |w|;
    PrefixResolves(ops, gf, points, w);
  }

  /** The loop ran to the end: every spec resolved and no deletion failed. */
  lemma AllResolved(ops: GridOps, gf: GridFunc, points: seq<Resolver>, w: seq<Coord>, path: seq<Coord>)
    requires 2 <= |w| == |points|
    requires ResolvesTo(ops, gf, points, w)
    requires Stitch(Legs(ops, gf, w)) == Some(path)
    ensures Evaluate(ops, gf, points) == Ok(path)
    ensures Resolved(ops, gf, points) == w
  {
    assert FirstUnknown(points) == |w|;
    PrefixResolves(ops, gf, points, w);
    assert points[..|w|] == points;
  }
}
