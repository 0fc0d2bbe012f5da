/** The custom split plan, and the choice of the split mode with its fallback. */
module TlsModes {
  import opened Common
  import opened TlsSplit

  datatype Plan = Plan(fromSNI: bool, at: int, isLazy: bool, noise: int)

  datatype Point = Point(at: nat, isLazy: bool)

  function Clamp(at: int, length: nat): nat {
    Max(0, Min(at, length))
  }

  /** The random draws a list of plans makes: one from 0 to twice the noise where there is noise. */
  ghost predicate ValidDraws(plans: seq<Plan>, draws: seq<int>) {
    |draws| == |plans| &&
    forall i :: 0 <= i < |plans| && plans[i].noise > 0 ==> 0 <= draws[i] <= 2 * plans[i].noise
  }

  /** Where a plan cuts: its offset from the start or from the name, moved by the draw, kept inside the message. */
  function PointOf(plan: Plan, draw: int, sniStart: int, length: nat): Point {
    var base := if plan.fromSNI then sniStart else 0;
    Point(Clamp(base + plan.at + if plan.noise > 0 then draw - plan.noise else 0, length), plan.isLazy)
  }

  ghost function PointsOf(plans: seq<Plan>, draws: seq<int>, sniStart: int, length: nat): (points: seq<Point>)
    requires |draws| == |plans|
    ensures |points| == |plans|
    ensures forall i :: 0 <= i < |plans| ==> points[i] == PointOf(plans[i], draws[i], sniStart, length)
  {
    seq(|plans|, i requires 0 <= i < |plans| => PointOf(plans[i], draws[i], sniStart, length))
  }

  /** Without noise a plan cuts where it says, or at the end of the message that is nearer. */
  lemma PlainPlanCutsThere(plan: Plan, draw: int, sniStart: int, length: nat)
    requires plan.noise <= 0
    ensures
      var p := PointOf(plan, draw, sniStart, length);
      && p.isLazy == plan.isLazy
      && (plan.fromSNI && 0 <= sniStart + plan.at <= length ==> p.at == sniStart + plan.at)
      && (!plan.fromSNI && 0 <= plan.at <= length ==> p.at == plan.at)
      && (plan.at > length && (plan.fromSNI ==> sniStart >= 0) ==> p.at == length)
      && (plan.at < 0 && (plan.fromSNI ==> sniStart <= 0) ==> p.at == 0)
  {
  }

  /** Noise moves the cut by the draw, at most by the noise either way, and leaves it in the message. */
  lemma NoiseMovesTheCut(plan: Plan, draw: int, sniStart: int, length: nat)
    requires plan.noise > 0 && 0 <= draw <= 2 * plan.noise
    ensures
      var plain, noisy := PointOf(plan.(noise := 0), 0, sniStart, length), PointOf(plan, draw, sniStart, length);
      && noisy.at <= length && noisy.isLazy == plan.isLazy
      && plain.at - plan.noise <= noisy.at <= plain.at + plan.noise
      && noisy == PointOf(plan.(noise := 0, at := plan.at - plan.noise + draw), 0, sniStart, length)
  {
  }

  method CutPoints(plans: seq<Plan>, sniStart: int, draws: seq<int>, length: nat) returns (points: seq<Point>)
    requires ValidDraws(plans, draws)
    ensures points == PointsOf(plans, draws, sniStart, length)
  {
    points := [];
    for i := 0 to |plans|
      invariant |points| == i
      invariant forall j :: 0 <= j < i ==> points[j] == PointOf(plans[j], draws[j], sniStart, length)
    {
      var base := 0;
      if plans[i].fromSNI {
        base := sniStart;
      }
      var at := base + plans[i].at;
      if plans[i].noise > 0 {
        at := at + draws[i] - plans[i].noise;
      }
      points := points + [Point(Clamp(at, length), plans[i].isLazy)];
    }
  }

  ghost predicate Sorted(points: seq<Point>) {
    forall i, j :: 0 <= i < j < |points| ==> points[i].at <= points[j].at
  }

  /** Sorting by position, in no particular order among equal positions. */
  method SortPoints(points: seq<Point>) returns (sorted: seq<Point>)
    ensures Sorted(sorted) && multiset(sorted) == multiset(points)
  {
    sorted := [];
    for i := 0 to |points|
      invariant Sorted(sorted) && multiset(sorted) == multiset(points[..i])
    {
      sorted := InsertPoint(sorted, points[i]);
      assert points[..i + 1] == points[..i] + [points[i]];
    }
    assert points[..|points|] == points;
  }

  method InsertPoint(sorted: seq<Point>, p: Point) returns (r: seq<Point>)
    requires Sorted(sorted)
    ensures Sorted(r) && multiset(r) == multiset(sorted) + multiset{p}
  {
    var i := 0;
    while i < |sorted| && sorted[i].at < p.at
      invariant i <= |sorted| && forall j :: 0 <= j < i ==> sorted[j].at < p.at
    {
      i := i + 1;
    }
    r := sorted[..i] + [p] + sorted[i..];
    assert sorted == sorted[..i] + sorted[i..];
  }

  /** The offsets at which segments end. */
  ghost function Ends(segments: seq<Segment>): set<nat> {
    if segments == [] then {} else Ends(segments[..|segments| - 1]) + {|Wire(segments)|}
  }

  /** Every segment ends at a point and is delayed as the point says; one that ends the message needs no point. */
  ghost predicate CutAtPoints(raw: Bytes, points: multiset<Point>, segments: seq<Segment>) {
    if segments == [] then true
    else
      && CutAtPoints(raw, points, segments[..|segments| - 1])
      && (var end, isLazy := |Wire(segments)|, segments[|segments| - 1].isLazy;
          || Point(end, isLazy) in points
          || (end == |raw| && !isLazy && Point(end, true) !in points))
  }

  ghost predicate Planned(raw: Bytes, points: multiset<Point>, segments: seq<Segment>, pos: nat) {
    && pos <= |raw| && Wire(segments) == raw[..pos]
    && NoneEmpty(segments) && CutAtPoints(raw, points, segments)
  }

  /** Every point of the first `k` with a byte before it ends a segment. */
  ghost predicate Reached(points: seq<Point>, k: nat, segments: seq<Segment>)
    requires k <= |points|
  {
    forall i :: 0 <= i < k && points[i].at != 0 ==> points[i].at in Ends(segments)
  }

  lemma PlannedAppend(raw: Bytes, points: multiset<Point>, segments: seq<Segment>, pos: nat, next: nat, s: Segment)
    requires Planned(raw, points, segments, pos) && pos < next <= |raw| && s.packet == raw[pos..next]
    requires Point(next, s.isLazy) in points || (next == |raw| && !s.isLazy && Point(next, true) !in points)
    ensures Planned(raw, points, segments + [s], next)
    ensures Ends(segments + [s]) == Ends(segments) + {next}
  {
  }

  /** The state of the loop after `k` points. */
  ghost predicate PlanLoop(raw: Bytes, points: seq<Point>, segments: seq<Segment>, k: nat, pos: nat)
    requires k <= |points|
  {
    && Planned(raw, multiset(points), segments, pos) && Reached(points, k, segments)
    && (pos == 0 || pos in Ends(segments)) && forall i :: k <= i < |points| ==> pos <= points[i].at <= |raw|
  }

  /** One step: nothing for a point where the last segment ended, a segment up to any other. */
  method CutAtPoint(raw: Bytes, points: seq<Point>, segments: seq<Segment>, k: nat, prvAt: nat)
    returns (after: seq<Segment>, at: nat)
    requires Sorted(points) && k < |points| && PlanLoop(raw, points, segments, k, prvAt)
    ensures PlanLoop(raw, points, after, k + 1, at)
  {
    var p := points[k];
    if p.at == prvAt {
      return segments, prvAt;
    }
    var segment := Segment(raw[prvAt..p.at], p.isLazy);
    PlannedAppend(raw, multiset(points), segments, prvAt, p.at, segment);
    return segments + [segment], p.at;
  }

  /** The message is cut at exactly the points that have a byte before them. */
  ghost predicate CutAtExactly(raw: Bytes, points: multiset<Point>, segments: seq<Segment>) {
    && Planned(raw, points, segments, |raw|)
    && forall p :: p in points && p.at != 0 ==> p.at in Ends(segments)
  }

  lemma {:induction false} EndsAreReached(segments: seq<Segment>)
    ensures forall end :: end in Ends(segments) ==> end <= |Wire(segments)|
  {
    if segments == [] {
    } else {
      EndsAreReached(segments[..|segments| - 1]);
    }
  }

  /** What is left after the last point, not delayed. */
  method CutRest(raw: Bytes, points: seq<Point>, segments: seq<Segment>, prvAt: nat) returns (after: seq<Segment>)
    requires PlanLoop(raw, points, segments, |points|, prvAt) && prvAt < |raw|
    ensures CutAtExactly(raw, multiset(points), after)
  {
    var segment := Segment(raw[prvAt..], false);
    EndsAreReached(segments);
    assert forall i :: 0 <= i < |points| ==> points[i].at != |raw|;
    PlannedAppend(raw, multiset(points), segments, prvAt, |raw|, segment);
    return segments + [segment];
  }

  method CutAtAll(raw: Bytes, points: seq<Point>) returns (segments: seq<Segment>)
    requires Sorted(points) && forall i :: 0 <= i < |points| ==> points[i].at <= |raw|
    ensures CutAtExactly(raw, multiset(points), segments)
  {
    segments := [];
    var prvAt: nat := 0;
    for k := 0 to |points|
      invariant PlanLoop(raw, points, segments, k, prvAt)
    {
      segments, prvAt := CutAtPoint(raw, points, segments, k, prvAt);
    }
    if prvAt < |raw| {
      segments := CutRest(raw, points, segments, prvAt);
    }
  }

  /** The cuts a list of plans asks for, with these draws: the message is cut at exactly their points. */
  ghost predicate FollowsPlans(raw: Bytes, sniStart: int, plans: seq<Plan>, draws: seq<int>, segments: seq<Segment>) {
    |draws| == |plans| && CutAtExactly(raw, multiset(PointsOf(plans, draws, sniStart, |raw|)), segments)
  }

  method ApplySegmentPlans(raw: Bytes, sni: Option<(int, int)>, plans: seq<Plan>, draws: seq<int>) returns (r: Split)
    requires ValidDraws(plans, draws)
    ensures r.Ok? <==> sni.Some?
    ensures r.Ok? ==> FollowsPlans(raw, sni.value.0, plans, draws, r.value)
  {
    if sni.None? {
      return Err(NoSNI);
    }
    var points := CutPoints(plans, sni.value.0, draws, |raw|);
    var sorted := SortPoints(points);
    forall i | 0 <= i < |sorted|
      ensures sorted[i].at <= |raw|
    {
      assert sorted[i] in multiset(sorted);
    }
    var segments := CutAtAll(raw, sorted);
    return Ok(segments);
  }

  /** The split mode with what it needs; `NoSplit` is also every unknown mode. */
  datatype Mode =
    | ServerName
    | Random(random: bv64)
    | Chunk(size: nat)
    | FirstByte
    | Custom(plans: seq<Plan>, draws: seq<int>)
    | NoSplit

  /** The server name is at the very start of the message, so that nothing comes before it. */
  predicate NameAtStart(mode: Mode, raw: Bytes, sni: Option<(int, int)>) {
    mode.ServerName? && sni.Some? && sni.value.0 == 0 && 0 <= sni.value.1 < |raw|
  }

  /** The mode can be applied; otherwise the message goes out whole. */
  predicate Applies(mode: Mode, raw: Bytes, sni: Option<(int, int)>) {
    match mode
    case ServerName => sni.Some? && 0 <= sni.value.0 <= sni.value.1 < |raw|
    case Random(_) => raw != []
    case Chunk(size) => raw != [] && size != 0
    case FirstByte => |raw| >= 2
    case Custom(_, _) => sni.Some?
    case NoSplit => true
  }

  ghost predicate FollowsSomeMask(raw: Bytes, disorder: bool, segments: seq<Segment>) {
    exists mask, bits :: IsPattern(mask, bits) && Masked(raw, mask, disorder, segments, |raw|)
  }

  /** The cut each mode stands for. */
  ghost predicate Follows(mode: Mode, raw: Bytes, sni: Option<(int, int)>, disorder: bool, segments: seq<Segment>)
    requires Applies(mode, raw, sni)
  {
    match mode
    case ServerName => SplitAround(raw, sni.value.0, sni.value.1, disorder, segments)
    case Random(_) => FollowsSomeMask(raw, disorder, segments)
    case Chunk(size) => Chunked(raw, size, disorder, segments, |raw|)
    case FirstByte => segments == [Segment(raw[..1], disorder), Segment(raw[1..], false)]
    case Custom(plans, draws) => FollowsPlans(raw, sni.value.0, plans, draws, segments)
    case NoSplit => segments == [Segment(raw, false)]
  }

  method Attempt(raw: Bytes, sni: Option<(int, int)>, mode: Mode, disorder: bool) returns (r: Split)
    requires mode.Custom? ==> ValidDraws(mode.plans, mode.draws)
    ensures r.Ok? <==> Applies(mode, raw, sni)
    ensures r.Ok? ==> Follows(mode, raw, sni, disorder, r.value)
  {
    match mode {
      case ServerName =>
        if sni.None? {
          return Err(NoSNI);
        }
        r := SplitSNI(raw, sni.value.0, sni.value.1, disorder);
      case Random(random) =>
        var mask := GenPatternMask(random);
        r := SplitMask(raw, mask, disorder);
      case Chunk(size) =>
        r := SplitChunks(raw, size, disorder);
      case FirstByte =>
        r := SplitFirstByte(raw, disorder);
      case Custom(plans, draws) =>
        r := ApplySegmentPlans(raw, sni, plans, draws);
      case NoSplit =>
        r := Ok([Segment(raw, false)]);
    }
  }

  /** The split, or the whole message after an error. */
  method SplitMessage(raw: Bytes, sni: Option<(int, int)>, mode: Mode, disorder: bool) returns (segments: seq<Segment>)
    requires mode.Custom? ==> ValidDraws(mode.plans, mode.draws)
    ensures
      if Applies(mode, raw, sni) then Follows(mode, raw, sni, disorder, segments)
      else segments == [Segment(raw, false)]
    ensures Wire(segments) == raw
    ensures raw != [] ==> (NoneEmpty(segments) <==> !NameAtStart(mode, raw, sni))
    ensures mode.Random? && raw != [] ==> ShortSegments(segments)
  {
    var r := Attempt(raw, sni, mode, disorder);
    match r {
      case Ok(value) =>
        segments := value;
        NothingIsLost(mode, raw, sni, disorder, segments);
      case Err(_) =>
        segments := [Segment(raw, false)];
        WholeMessage(raw);
    }
  }

  ghost predicate ShortSegments(segments: seq<Segment>) {
    && segments != [] && |segments[0].packet| == 1
    && forall i :: 0 <= i < |segments| ==> |segments[i].packet| <= 14
  }

  lemma WholeMessage(raw: Bytes)
    ensures Wire([Segment(raw, false)]) == raw
  {
  }

  /** Whatever the mode, its segments joined are the message, and none is empty but before a name at offset 0. */
  lemma NothingIsLost(mode: Mode, raw: Bytes, sni: Option<(int, int)>, disorder: bool, segments: seq<Segment>)
    requires Applies(mode, raw, sni) && Follows(mode, raw, sni, disorder, segments)
    ensures Wire(segments) == raw
    ensures raw != [] ==> (NoneEmpty(segments) <==> !NameAtStart(mode, raw, sni))
    ensures mode.Random? ==> ShortSegments(segments)
  {
    match mode {
      case ServerName =>
        NameParts(raw, sni.value.0, sni.value.1, disorder, segments);
      case Random(_) =>
        MaskedParts(raw, disorder, segments);
      case Chunk(size) =>
        assert raw[..|raw|] == raw;
      case FirstByte =>
        assert SplitFirstByte(raw, disorder).value == segments;
      case Custom(plans, draws) =>
        PlannedParts(raw, sni.value.0, plans, draws, segments);
      case NoSplit =>
        WholeMessage(raw);
    }
  }

  lemma MaskedParts(raw: Bytes, disorder: bool, segments: seq<Segment>)
    requires FollowsSomeMask(raw, disorder, segments) && raw != []
    ensures Wire(segments) == raw && NoneEmpty(segments) && ShortSegments(segments)
  {
    var mask, bits :| IsPattern(mask, bits) && Masked(raw, mask, disorder, segments, |raw|);
    PatternIsDense(mask, bits);
    assert raw[..|raw|] == raw;
    DenseSegmentsAreShort(mask, segments);
  }

  lemma PlannedParts(raw: Bytes, sniStart: int, plans: seq<Plan>, draws: seq<int>, segments: seq<Segment>)
    requires FollowsPlans(raw, sniStart, plans, draws, segments)
    ensures Wire(segments) == raw && NoneEmpty(segments)
  {
  }

  lemma NameParts(raw: Bytes, start: nat, end: nat, disorder: bool, segments: seq<Segment>)
    requires start <= end < |raw| && SplitAround(raw, start, end, disorder, segments)
    ensures NoneEmpty(segments) <==> start > 0
  {
  }

}
