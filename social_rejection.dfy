/**
 * Construction and layout of the "Social Rejection" foraging scenario:
 * the configuration record, the check that exactly one way of sizing the
 * clutter is given, the column of the dividing wall, the safe-zone
 * predicate, and which rows of the dividing wall the grid generator asks for.
 */
module SocialRejection {
  import opened Wrappers

  /** The configuration record handed to the scenario's constructor. */
  datatype Config = Config(
    width: int,
    height: int,
    rewardDecay: real,                  // passed through to the grid engine
    flashingTimePoisonedBerries: int,   // passed through to the grid engine
    maxSteps: int,
    nClutter: Option<int>,
    clutterDensity: Option<real>,
    nGoodBerries: int,
    nBadBerries: int,
    goodBerryReward: real,
    poisonedBerryReward: real)

  /** The fields a constructed scenario keeps; none of them changes after construction. */
  datatype Env = Env(
    width: int,
    height: int,
    maxSteps: int,
    nClutter: int,
    nGoodBerries: int,
    nBadBerries: int,
    goodBerryReward: real,
    poisonedBerryReward: real,
    wallXPos: int)

  /** The one error construction can raise. */
  datatype ConfigError = ClutterCountXorDensity

  /** A grid position (column, row). */
  datatype Pos = Pos(x: int, y: int)

  /** Python's `int()` on a number: truncation toward zero. */
  function TruncToInt(v: real): (i: int)
    ensures 0.0 <= v ==> i as real <= v < i as real + 1.0
    ensures v < 0.0 ==> i as real - 1.0 < v <= i as real
  {
    if 0.0 <= v then v.Floor else -((-v).Floor)
  }

  /** The column of the dividing wall: `width // 5` (floor division). */
  function WallXPos(width: int): (w: int)
    ensures 5 * w <= width < 5 * w + 5
  {
    width / 5
  }

  /** The scenario's constructor: fails unless exactly one of the clutter count and the clutter density is given. */
  function Construct(c: Config): (r: Result<Env, ConfigError>)
    ensures r.Failure? <==> (c.nClutter.None? <==> c.clutterDensity.None?)
    ensures r.Success? && c.nClutter.Some? ==> r.value.nClutter == c.nClutter.value
    ensures r.Success? && c.clutterDensity.Some? ==>
      var cells := c.clutterDensity.value * ((c.width - 2) * (c.height - 2)) as real;
      && (0.0 <= cells ==> 0 <= r.value.nClutter && r.value.nClutter as real <= cells < r.value.nClutter as real + 1.0)
      && (cells < 0.0 ==> r.value.nClutter <= 0 && r.value.nClutter as real - 1.0 < cells <= r.value.nClutter as real)
    ensures r.Success? ==>
      && r.value.width == c.width && r.value.height == c.height && r.value.maxSteps == c.maxSteps
      && r.value.nGoodBerries == c.nGoodBerries && r.value.nBadBerries == c.nBadBerries
      && r.value.goodBerryReward == c.goodBerryReward
      && r.value.poisonedBerryReward == c.poisonedBerryReward
      && 5 * r.value.wallXPos <= c.width < 5 * r.value.wallXPos + 5
  {
    if c.nClutter.None? == c.clutterDensity.None? then
      Failure(ClutterCountXorDensity)
    else
      var nClutter :=
        if c.clutterDensity.Some? then
          TruncToInt(c.clutterDensity.value * ((c.width - 2) * (c.height - 2)) as real)
        else
          c.nClutter.value;
      Success(Env(c.width, c.height, c.maxSteps, nClutter, c.nGoodBerries, c.nBadBerries,
                  c.goodBerryReward, c.poisonedBerryReward, WallXPos(c.width)))
  }

  /** A position is in the safe zone when it lies on or left of the dividing wall's column. */
  predicate SafeZone(env: Env, p: Pos)
  {
    p.x <= env.wallXPos
  }

  /** For a constructed scenario, a position is safe exactly when five times its column is at most the width. */
  lemma SafeZoneWithinFifth(c: Config, p: Pos)
    requires Construct(c).Success?
    ensures SafeZone(Construct(c).value, p) <==> 5 * p.x <= c.width
  {
  }

  /** Is row `iy` one of the two rows left open in the dividing wall? */
  predicate IsGapRow(height: int, iy: int)
  {
    iy == height / 2 || iy == height / 2 + 1
  }

  /** The rows, in loop order, among the first `n` rows for which the generator requests a wall block. */
  function WallRowsBelow(height: int, n: nat): (rows: seq<int>)
    ensures forall iy :: iy in rows <==> 0 <= iy < n && !IsGapRow(height, iy)
    ensures forall i, j :: 0 <= i < j < |rows| ==> rows[i] < rows[j]
  {
    if n == 0 then []
    else
      var before := WallRowsBelow(height, n - 1);
      assert forall i :: 0 <= i < |before| ==> before[i] in before;
      if IsGapRow(height, n - 1) then before else before + [n - 1]
  }

  /** The rows of the dividing wall requested by the grid generator, top to bottom: every row of the
      grid except the two gap rows. */
  function WallRows(height: int): (rows: seq<int>)
    ensures forall iy :: iy in rows <==> 0 <= iy < height && !IsGapRow(height, iy)
    ensures forall i, j :: 0 <= i < j < |rows| ==> rows[i] < rows[j]
  {
    if height <= 0 then [] else WallRowsBelow(height, height)
  }

  /** The cells at which the grid generator tries to place a dividing-wall block, in order: one per
      requested row, all on the wall column and hence all inside the safe zone, rows increasing. */
  function WallRequests(env: Env): (cells: seq<Pos>)
    ensures |cells| == |WallRows(env.height)|
    ensures forall p :: p in cells ==> p.x == env.wallXPos && SafeZone(env, p)
    ensures forall i, j :: 0 <= i < j < |cells| ==> cells[i].y < cells[j].y
  {
    seq(|WallRows(env.height)|, i requires 0 <= i < |WallRows(env.height)| => Pos(env.wallXPos, WallRows(env.height)[i]))
  }

  /** A wall block is requested at a cell exactly when it is on the wall column, on a row of the grid, and not on a gap row. */
  lemma WallRequestedIff(env: Env, p: Pos)
    ensures p in WallRequests(env) <==>
      p.x == env.wallXPos && 0 <= p.y < env.height && !IsGapRow(env.height, p.y)
  {
    var rows := WallRows(env.height);
    var cells := WallRequests(env);
    if p in cells {
      var i :| 0 <= i < |cells| && cells[i] == p;
      assert rows[i] in rows;
    }
    if p.x == env.wallXPos && 0 <= p.y < env.height && !IsGapRow(env.height, p.y) {
      assert p.y in rows;
      var i :| 0 <= i < |rows| && rows[i] == p.y;
      assert cells[i] == p;
    }
  }

  /** The number of rows with `0 <= iy < n` that are gap rows. */
  function GapRowsBelow(height: int, n: nat): nat
  {
    if n == 0 then 0 else GapRowsBelow(height, n - 1) + (if IsGapRow(height, n - 1) then 1 else 0)
  }

  lemma {:induction false} WallRowsBelowCount(height: int, n: nat)
    ensures |WallRowsBelow(height, n)| == n - GapRowsBelow(height, n)
  {
    if n > 0 {
      WallRowsBelowCount(height, n - 1);
    }
  }

  lemma {:induction false} GapRowsBelowAllOpen(height: int, n: nat)
    requires 3 <= height && height / 2 + 2 <= n
    ensures GapRowsBelow(height, n) == 2
  {
    if n > height / 2 + 2 {
      GapRowsBelowAllOpen(height, n - 1);
    } else {
      GapRowsBelowNone(height, height / 2);
    }
  }

  lemma {:induction false} GapRowsBelowNone(height: int, n: nat)
    requires n <= height / 2
    ensures GapRowsBelow(height, n) == 0
  {
    if n > 0 {
      GapRowsBelowNone(height, n - 1);
    }
  }

  /** On a grid of height at least 3, every row but the two gap rows is requested: height - 2 requests. */
  lemma WallHasTwoGaps(height: int)
    requires 3 <= height
    ensures |WallRows(height)| == height - 2
  {
    WallRowsBelowCount(height, height);
    GapRowsBelowAllOpen(height, height);
  }

  /** Width 10 puts the wall at column 2: (1, 5) is safe and (5, 5) is not. */
  lemma SafeZoneExample(c: Config)
    requires c.width == 10 && Construct(c).Success?
    ensures Construct(c).value.wallXPos == 2
    ensures SafeZone(Construct(c).value, Pos(1, 5)) && !SafeZone(Construct(c).value, Pos(5, 5))
  {
  }
}
