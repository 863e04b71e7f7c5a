/** Per-frame motion of the player and the obstacles, and the hit test
    between them, as functions of values. */
module Motion {
  import opened World

  /** Leftmost and rightmost positions the player may occupy. */
  const MinX: real := -WorldHalf + PlayerWidth
  const MaxX: real := WorldHalf - PlayerWidth

  /** `Math.max(lo, Math.min(hi, x))`. */
  function Clamp(lo: real, hi: real, x: real): (r: real)
    requires lo <= hi
    ensures lo <= r <= hi
    ensures lo <= x <= hi ==> r == x
    ensures x < lo ==> r == lo
    ensures hi < x ==> r == hi
  {
    if hi <= x then hi else if x <= lo then lo else x
  }

  /** Player position after one frame: move left and/or right by
      `speed * dt` as the key flags say, then keep inside the corridor. */
  function PlayerStep(x: real, speed: real, left: bool, right: bool, dt: real): (r: real)
    ensures MinX <= r <= MaxX
    // Holding neither key leaves an in-range player where it is.
    ensures !left && !right && MinX <= x <= MaxX ==> r == x
    // Holding both keys cancels out.
    ensures left && right ==> r == Clamp(MinX, MaxX, x)
    // One key moves the player that way and never the other way.
    ensures left && !right && 0.0 <= speed * dt && MinX <= x <= MaxX ==> r <= x
    ensures right && !left && 0.0 <= speed * dt && MinX <= x <= MaxX ==> x <= r
    ensures left && !right && MinX <= x - speed * dt <= MaxX ==> r == x - speed * dt
    ensures right && !left && MinX <= x + speed * dt <= MaxX ==> r == x + speed * dt
  {
    var afterLeft := if left then x - speed * dt else x;
    var afterRight := if right then afterLeft + speed * dt else afterLeft;
    Clamp(MinX, MaxX, afterRight)
  }

  /** The rendered cube of an obstacle; only its identity matters here. */
  class Mesh {
    constructor ()
    {
    }
  }

  /** One obstacle cube: lateral position, depth and its mesh. */
  datatype Obstacle = Obstacle(x: real, z: real, mesh: Mesh)

  /** The obstacle list and the mesh list are the same length and entry `k`
      of one belongs to entry `k` of the other. */
  predicate Aligned(obstacles: seq<Obstacle>, meshes: seq<Mesh>)
  {
    |obstacles| == |meshes| &&
    forall k :: 0 <= k < |obstacles| ==> obstacles[k].mesh == meshes[k]
  }

  /** The obstacles after each moved `speed * dt` towards the player. */
  function Advance(obstacles: seq<Obstacle>, speed: real, dt: real): (r: seq<Obstacle>)
    ensures |r| == |obstacles|
    ensures forall k :: 0 <= k < |r| ==>
      r[k].x == obstacles[k].x && r[k].mesh == obstacles[k].mesh && r[k].z == obstacles[k].z + speed * dt
  {
    seq(|obstacles|, k requires 0 <= k < |obstacles| => obstacles[k].(z := obstacles[k].z + speed * dt))
  }

  /** The obstacles that have not passed the removal depth, in their order. */
  function Survivors(obstacles: seq<Obstacle>): (r: seq<Obstacle>)
    ensures |r| <= |obstacles|
    ensures forall k :: 0 <= k < |r| ==> r[k].z <= RemoveZ
  {
    if obstacles == [] then []
    else if obstacles[0].z > RemoveZ then Survivors(obstacles[1..])
    else [obstacles[0]] + Survivors(obstacles[1..])
  }

  /** Filtering a concatenation filters each part and keeps them in order:
      survivors keep their relative order. */
  lemma {:induction false} SurvivorsAppend(a: seq<Obstacle>, b: seq<Obstacle>)
    ensures Survivors(a + b) == Survivors(a) + Survivors(b)
  {
    if a == [] {
      assert a + b == b;
    } else {
      assert (a + b)[1..] == a[1..] + b;
      SurvivorsAppend(a[1..], b);
    }
  }

  /** When nothing has passed the removal depth nothing is removed. */
  lemma {:induction false} SurvivorsAllKept(obstacles: seq<Obstacle>)
    requires forall k :: 0 <= k < |obstacles| ==> obstacles[k].z <= RemoveZ
    ensures Survivors(obstacles) == obstacles
  {
    if obstacles != [] {
      SurvivorsAllKept(obstacles[1..]);
    }
  }

  /** Exactly the obstacles past the removal depth are removed: each
      remaining one occurs as often as before, each passed one not at all. */
  lemma {:induction false} SurvivorsExactly(obstacles: seq<Obstacle>, o: Obstacle)
    ensures multiset(Survivors(obstacles))[o] ==
            if o.z <= RemoveZ then multiset(obstacles)[o] else 0
  {
    if obstacles != [] {
      SurvivorsExactly(obstacles[1..], o);
      assert obstacles == [obstacles[0]] + obstacles[1..];
    }
  }

  /** Membership form of SurvivorsExactly. */
  lemma SurvivorsMembership(obstacles: seq<Obstacle>, o: Obstacle)
    ensures o in Survivors(obstacles) <==> o in obstacles && o.z <= RemoveZ
  {
    SurvivorsExactly(obstacles, o);
    assert o in Survivors(obstacles) <==> multiset(Survivors(obstacles))[o] > 0;
    assert o in obstacles <==> multiset(obstacles)[o] > 0;
  }

  /** `s.splice(idx, 1)`: drop entry `idx`, closing the gap. */
  function Splice<T>(s: seq<T>, idx: int): (r: seq<T>)
    requires 0 <= idx < |s|
    ensures |r| == |s| - 1
    ensures forall k :: 0 <= k < idx ==> r[k] == s[k]
    ensures forall k :: idx <= k < |r| ==> r[k] == s[k + 1]
  {
    s[..idx] + s[idx + 1..]
  }

  /** Splicing the same index out of two aligned lists keeps them aligned. */
  lemma SpliceAligned(obstacles: seq<Obstacle>, meshes: seq<Mesh>, idx: int)
    requires Aligned(obstacles, meshes) && 0 <= idx < |obstacles|
    ensures Aligned(Splice(obstacles, idx), Splice(meshes, idx))
  {
  }

  /** One step of the back-to-front removal: with `s[..hi]` not yet filtered,
      `s[idx]` passed and nothing between `idx` and `hi` passed, splicing out
      `idx` extends the filtered tail down to `idx`. */
  lemma {:induction false} SpliceStep(s: seq<Obstacle>, idx: int, hi: int)
    requires 0 <= idx < hi <= |s|
    requires s[idx].z > RemoveZ
    requires forall k :: idx < k < hi ==> s[k].z <= RemoveZ
    ensures Splice(s[..hi] + Survivors(s[hi..]), idx) == s[..idx] + Survivors(s[idx..])
  {
    var mid := s[idx + 1..hi];
    var tail := Survivors(s[hi..]);
    var before := s[..hi] + tail;
    assert s[..hi] == s[..idx] + [s[idx]] + mid;
    assert before == s[..idx] + ([s[idx]] + (mid + tail));
    assert before[..idx] == s[..idx];
    assert before[idx + 1..] == mid + tail;
    assert s[idx..] == [s[idx]] + (mid + s[hi..]);
    SurvivorsAppend([s[idx]], mid + s[hi..]);
    SurvivorsAppend(mid, s[hi..]);
    SurvivorsAllKept(mid);
    assert Survivors([s[idx]]) == [];
  }

  /** With nothing before `lo` passed, filtering from `lo` on filters everything. */
  lemma SurvivorsFrom(s: seq<Obstacle>, lo: int)
    requires 0 <= lo <= |s|
    requires forall k :: 0 <= k < lo ==> s[k].z <= RemoveZ
    ensures s[..lo] + Survivors(s[lo..]) == Survivors(s)
  {
    assert s == s[..lo] + s[lo..];
    SurvivorsAppend(s[..lo], s[lo..]);
    SurvivorsAllKept(s[..lo]);
  }

  /** `Math.abs`. */
  function Abs(r: real): (a: real)
    ensures 0.0 <= a && (a == r || a == -r)
  {
    if r < 0.0 then -r else r
  }

  /** The obstacle overlaps the player's hitbox: its depth is within the
      player's band widened by half a cube, and its lateral distance is less
      than the player's half-width plus half a cube. The second ensures is
      the test the collision loop performs: not skipped for depth, and
      `Math.abs` of the offset below the combined half-widths. */
  function Hits(ob: Obstacle, playerX: real): (hit: bool)
    ensures hit <==>
      !(ob.z < -PlayerDepth - CubeSize / 2.0 || ob.z > PlayerDepth + CubeSize / 2.0) &&
      Abs(ob.x - playerX) < PlayerWidth + CubeSize / 2.0
  {
    -PlayerDepth - CubeSize / 2.0 <= ob.z <= PlayerDepth + CubeSize / 2.0 &&
    -(PlayerWidth + CubeSize / 2.0) < ob.x - playerX < PlayerWidth + CubeSize / 2.0
  }

  /** Some obstacle overlaps the player. */
  ghost function Collides(obstacles: seq<Obstacle>, playerX: real): (c: bool)
    ensures c <==> exists ob :: ob in obstacles && Hits(ob, playerX)
  {
    exists k :: 0 <= k < |obstacles| && Hits(obstacles[k], playerX)
  }

  /** An obstacle in the depth band exactly in line with the player is a hit. */
  lemma InLineCollides(obstacles: seq<Obstacle>, k: int, playerX: real)
    requires 0 <= k < |obstacles| && obstacles[k].x == playerX
    requires -PlayerDepth - CubeSize / 2.0 <= obstacles[k].z <= PlayerDepth + CubeSize / 2.0
    ensures Collides(obstacles, playerX)
  {
  }

  /** The row [1, 3, 5] cannot be dodged: wherever the player stands inside
      the corridor, one of its three cubes overlaps the player while the row
      crosses the player's depth band. */
  lemma RowOneThreeFiveUnavoidable(row: seq<Obstacle>, playerX: real)
    requires |row| == 3
    requires forall k :: 0 <= k < 3 ==> row[k].x == LaneCenterX(Patterns[1][k])
    requires forall k :: 0 <= k < 3 ==> -PlayerDepth - CubeSize / 2.0 <= row[k].z <= PlayerDepth + CubeSize / 2.0
    requires MinX <= playerX <= MaxX
    ensures Collides(row, playerX)
  {
    assert Patterns[1] == [1, 3, 5];
    if playerX <= -1.0 {
      assert Hits(row[0], playerX);
    } else if playerX <= 1.0 {
      assert Hits(row[1], playerX);
    } else {
      assert Hits(row[2], playerX);
    }
  }
}
