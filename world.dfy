/** Constant world data of the lane-dodging game: the corridor geometry,
    the difficulty curve and the table of obstacle rows. */
module World {

  const LaneCount: int := 7
  const WorldHalf: real := 3.5
  /** Width of one lane: the corridor (2 * WorldHalf) split into LaneCount lanes. */
  const LaneWidth: real := (2.0 * WorldHalf) / (LaneCount as real)
  const CubeSize: real := 0.85
  const PlayerDepth: real := 1.2
  const PlayerWidth: real := 0.7
  const SpawnZ: real := -45.0
  const BaseSpeed: real := 16.0
  const SpawnEvery: real := 1.35

  /** Score gained per second at multiplier 1. */
  const ScoreRate: real := 40.0
  /** Obstacles whose depth exceeds this are pruned. */
  const RemoveZ: real := 15.0
  /** The difficulty multiplier grows by this much per second ... */
  const MultiplierGrowth: real := 0.015
  /** ... up to this cap. */
  const MaxMultiplier: real := 1.5
  /** Longest frame the simulation accepts, in seconds. */
  const MaxFrame: real := 0.05

  /** Lanes blocked by each kind of spawned row. */
  const Patterns: seq<seq<int>> := [
    [2, 4],
    [1, 3, 5],
    [3],
    [1, 4],
    [2, 5],
    [1, 5],
    [2, 3, 4],
    [4],
    [1, 2],
    [3, 5],
    [1, 3],
    [2],
    [4, 5],
    [1, 2, 4],
    [3, 4]
  ]

  /** Lateral position of the centre of lane `lane`. */
  function LaneCenterX(lane: int): (x: real)
    ensures x == lane as real - 3.0
    ensures -WorldHalf + lane as real * LaneWidth < x < -WorldHalf + (lane as real + 1.0) * LaneWidth
    ensures 0 <= lane < LaneCount ==> -WorldHalf < x < WorldHalf
  {
    -WorldHalf + (lane as real + 0.5) * LaneWidth
  }

  /** Lanes further right have their centres further right. */
  lemma LaneCenterStrictlyIncreasing(a: int, b: int)
    requires a < b
    ensures LaneCenterX(a) + LaneWidth <= LaneCenterX(b)
  {
  }

  /** Difficulty multiplier after `elapsed` seconds of play. */
  function SpeedMultiplier(elapsed: real): (m: real)
    ensures m <= MaxMultiplier
    ensures 0.0 <= elapsed ==> 1.0 <= m
    ensures m == MaxMultiplier || m == 1.0 + elapsed * MultiplierGrowth
  {
    Min(MaxMultiplier, 1.0 + elapsed * MultiplierGrowth)
  }

  /** The multiplier never decreases as time goes on. */
  lemma SpeedMultiplierMonotone(e1: real, e2: real)
    requires e1 <= e2
    ensures SpeedMultiplier(e1) <= SpeedMultiplier(e2)
  {
  }

  /** Score earned by a frame of `dt` seconds ending at `elapsed`: at least
      the base rate and at most the capped rate. */
  function ScoreGain(dt: real, elapsed: real): (g: real)
    ensures 0.0 <= dt && 0.0 <= elapsed ==> dt * ScoreRate <= g <= dt * ScoreRate * MaxMultiplier
  {
    var base, m := dt * ScoreRate, SpeedMultiplier(elapsed);
    if 0.0 <= dt && 0.0 <= elapsed then
      ProductNonNegative(base, m - 1.0);
      ProductNonNegative(base, MaxMultiplier - m);
      base * m
    else
      base * m
  }

  lemma ProductNonNegative(a: real, b: real)
    requires 0.0 <= a && 0.0 <= b
    ensures 0.0 <= a * b
  {
  }

  /** Once 100/3 seconds have passed the multiplier sits at its cap. */
  lemma SpeedMultiplierSaturates(elapsed: real)
    requires elapsed * MultiplierGrowth >= MaxMultiplier - 1.0
    ensures SpeedMultiplier(elapsed) == MaxMultiplier
  {
  }

  /** JavaScript's `Math.min` on two numbers. */
  function Min(a: real, b: real): (r: real)
    ensures r <= a && r <= b
    ensures r == a || r == b
  {
    if a <= b then a else b
  }

  /** A row of blocked lanes as the table's comment promises it: one to three
      distinct lanes, listed left to right, never an edge lane. */
  predicate WellFormedRow(lanes: seq<int>)
  {
    1 <= |lanes| <= 3 &&
    (forall k :: 0 <= k < |lanes| ==> 1 <= lanes[k] <= LaneCount - 2) &&
    (forall j, k :: 0 <= j < k < |lanes| ==> lanes[j] < lanes[k])
  }

  /** Every entry of the pattern table is a well-formed row. */
  lemma PatternTableWellFormed()
    ensures forall i :: 0 <= i < |Patterns| ==> WellFormedRow(Patterns[i])
  {
  }

  /** Every lane a pattern blocks is an inner lane: its centre lies strictly
      inside the corridor, and lanes 0 and 6 are never blocked. */
  lemma PatternLanesInside(i: int, k: int)
    requires 0 <= i < |Patterns| && 0 <= k < |Patterns[i]|
    ensures Patterns[i][k] != 0 && Patterns[i][k] != LaneCount - 1
    ensures -WorldHalf + LaneWidth < LaneCenterX(Patterns[i][k]) < WorldHalf - LaneWidth
  {
    PatternTableWellFormed();
    assert WellFormedRow(Patterns[i]);
  }
}
