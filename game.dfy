/** The mutable game state and the per-frame simulation that updates it. */
module Game {
  import opened World
  import opened Motion

  /** Lateral positions obstacles may have: centres of the inner lanes. */
  ghost predicate OnInnerLane(x: real)
  {
    exists lane :: 1 <= lane <= LaneCount - 2 && x == LaneCenterX(lane)
  }

  /** `row` is what spawning a row that blocks `lanes` appends: one cube per
      lane, in lane order, at the lane's centre and at the spawn depth. */
  ghost predicate SpawnedRow(row: seq<Obstacle>, lanes: seq<int>)
  {
    |row| == |lanes| &&
    forall k :: 0 <= k < |row| ==> row[k].x == LaneCenterX(lanes[k]) && row[k].z == SpawnZ
  }

  /** A spawned row has one to three cubes, each on an inner lane and so
      strictly inside the corridor. */
  lemma SpawnedRowInside(row: seq<Obstacle>, pick: int)
    requires 0 <= pick < |Patterns| && SpawnedRow(row, Patterns[pick])
    ensures 1 <= |row| <= 3
    ensures forall k :: 0 <= k < |row| ==> OnInnerLane(row[k].x) && -WorldHalf < row[k].x < WorldHalf
  {
    PatternTableWellFormed();
    assert WellFormedRow(Patterns[pick]);
    forall k | 0 <= k < |row|
      ensures OnInnerLane(row[k].x) && -WorldHalf < row[k].x < WorldHalf
    {
      PatternLanesInside(pick, k);
      assert 1 <= Patterns[pick][k] <= LaneCount - 2;
    }
  }

  /** Moving and pruning keeps every obstacle on an inner lane. */
  lemma SurvivorsStayOnLanes(s: seq<Obstacle>, speed: real, dt: real)
    requires forall k :: 0 <= k < |s| ==> OnInnerLane(s[k].x)
    ensures forall k :: 0 <= k < |Survivors(Advance(s, speed, dt))| ==>
      OnInnerLane(Survivors(Advance(s, speed, dt))[k].x)
  {
    var moved := Advance(s, speed, dt);
    forall k | 0 <= k < |Survivors(moved)|
      ensures OnInnerLane(Survivors(moved)[k].x)
    {
      var o := Survivors(moved)[k];
      SurvivorsMembership(moved, o);
      var j :| 0 <= j < |moved| && moved[j] == o;
      assert o.x == s[j].x;
    }
  }

  /** The indices below `n` of the obstacles past the removal depth, in
      increasing order: what the first loop of the update collects. */
  function PassedIndices(moved: seq<Obstacle>, n: int): (r: seq<int>)
    requires 0 <= n <= |moved|
    ensures |r| <= n
  {
    if n == 0 then []
    else PassedIndices(moved, n - 1) + (if moved[n - 1].z > RemoveZ then [n - 1] else [])
  }

  /** An index is listed exactly when it is below `n` and its obstacle passed. */
  lemma {:induction false} PassedIndicesMembership(moved: seq<Obstacle>, n: int, k: int)
    requires 0 <= n <= |moved|
    ensures k in PassedIndices(moved, n) <==> 0 <= k < n && moved[k].z > RemoveZ
  {
    if n > 0 {
      PassedIndicesMembership(moved, n - 1, k);
    }
  }

  /** The listed indices are strictly increasing and below `n`. */
  lemma {:induction false} PassedIndicesIncreasing(moved: seq<Obstacle>, n: int)
    requires 0 <= n <= |moved|
    ensures forall a :: 0 <= a < |PassedIndices(moved, n)| ==> 0 <= PassedIndices(moved, n)[a] < n
    ensures forall a, b :: 0 <= a < b < |PassedIndices(moved, n)| ==>
      PassedIndices(moved, n)[a] < PassedIndices(moved, n)[b]
  {
    if n > 0 {
      PassedIndicesIncreasing(moved, n - 1);
    }
  }

  /** The last listed index below `hi` passed, nothing after it below `hi`
      passed, and the indices listed before it are those below it. */
  lemma {:induction false} LastPassed(moved: seq<Obstacle>, hi: int)
    requires 0 <= hi <= |moved| && PassedIndices(moved, hi) != []
    ensures var p := PassedIndices(moved, hi);
      var idx := p[|p| - 1];
      0 <= idx < hi && moved[idx].z > RemoveZ &&
      (forall k :: idx < k < hi ==> moved[k].z <= RemoveZ) &&
      PassedIndices(moved, idx) == p[..|p| - 1]
  {
    var p := PassedIndices(moved, hi);
    if moved[hi - 1].z > RemoveZ {
      assert p == PassedIndices(moved, hi - 1) + [hi - 1];
      assert p[..|p| - 1] == PassedIndices(moved, hi - 1);
    } else {
      assert p == PassedIndices(moved, hi - 1);
      LastPassed(moved, hi - 1);
    }
  }

  /** Nothing listed below `hi` means nothing below `hi` passed. */
  lemma {:induction false} NonePassed(moved: seq<Obstacle>, hi: int)
    requires 0 <= hi <= |moved| && PassedIndices(moved, hi) == []
    ensures forall k :: 0 <= k < hi ==> moved[k].z <= RemoveZ
  {
    if hi > 0 {
      assert PassedIndices(moved, hi - 1) == [];
      NonePassed(moved, hi - 1);
    }
  }

  /** One iteration of the back-to-front removal: splicing out the last
      remaining listed index `toRemove[i]` extends the filtered tail down to
      it, leaves the earlier entries listing what passed below it, and keeps
      the two lists aligned. */
  lemma SpliceOutStep(moved: seq<Obstacle>, toRemove: seq<int>, i: int, cut: int,
                      obstacles: seq<Obstacle>, meshes: seq<Mesh>)
    requires 0 <= i < |toRemove| && 0 <= cut <= |moved|
    requires toRemove[..i + 1] == PassedIndices(moved, cut)
    requires obstacles == moved[..cut] + Survivors(moved[cut..])
    requires Aligned(obstacles, meshes)
    ensures 0 <= toRemove[i] < cut && toRemove[i] < |obstacles|
    ensures toRemove[..i] == PassedIndices(moved, toRemove[i])
    ensures Splice(obstacles, toRemove[i]) == moved[..toRemove[i]] + Survivors(moved[toRemove[i]..])
    ensures Aligned(Splice(obstacles, toRemove[i]), Splice(meshes, toRemove[i]))
  {
    var idx := toRemove[i];
    LastPassed(moved, cut);
    assert toRemove[..i + 1][i] == idx;
    assert toRemove[..i] == toRemove[..i + 1][..i];
    SpliceStep(moved, idx, cut);
    SpliceAligned(obstacles, meshes, idx);
  }

  /** The one `state` record of the game. */
  class GameState {
    var running: bool
    var over: bool
    var score: real
    var elapsed: real
    var spawnTimer: real
    var moveLeft: bool
    var moveRight: bool
    var playerX: real
    var playerSpeed: real
    var obstacles: seq<Obstacle>
    var obstacleMeshes: seq<Mesh>

    /** What holds between frames: the game runs exactly when it is not lost,
        the player is inside the corridor, the clocks and score are not
        negative, the spawn timer is below one interval, both obstacle lists
        line up, and every obstacle sits on an inner lane and has not passed
        the removal depth. */
    ghost predicate Valid()
      reads this
    {
      running == !over &&
      MinX <= playerX <= MaxX &&
      0.0 <= elapsed && 0.0 <= score &&
      0.0 <= spawnTimer < SpawnEvery &&
      Aligned(obstacles, obstacleMeshes) &&
      forall k :: 0 <= k < |obstacles| ==> obstacles[k].z <= RemoveZ && OnInnerLane(obstacles[k].x)
    }

    /** The fresh game that a restart produces. */
    ghost predicate Restarted()
      reads this
    {
      running && !over && score == 0.0 && elapsed == 0.0 && spawnTimer == 0.0 &&
      playerX == 0.0 && obstacles == [] && obstacleMeshes == []
    }

    /** The game as loaded: the initial record, then a reset. */
    constructor ()
      ensures Valid() && Restarted()
      ensures !moveLeft && !moveRight && playerSpeed == 5.0
    {
      running, over := true, false;
      score, elapsed, spawnTimer := 0.0, 0.0, 0.0;
      moveLeft, moveRight := false, false;
      playerX, playerSpeed := 0.0, 5.0;
      obstacles, obstacleMeshes := [], [];
      new;
      Reset();
    }

    /** Start a fresh game; the key flags and the player speed are kept. */
    method Reset()
      modifies this
      ensures Valid() && Restarted()
      ensures moveLeft == old(moveLeft) && moveRight == old(moveRight)
      ensures playerSpeed == old(playerSpeed)
    {
      running := true;
      over := false;
      score := 0.0;
      elapsed := 0.0;
      spawnTimer := 0.0;
      playerX := 0.0;
      obstacles := [];
      obstacleMeshes := [];
    }

    /** Append one cube per lane of pattern `pick`, each with a new mesh. */
    method SpawnPatternRow(pick: int) returns (ghost row: seq<Obstacle>)
      requires 0 <= pick < |Patterns|
      requires Aligned(obstacles, obstacleMeshes)
      modifies this`obstacles, this`obstacleMeshes
      ensures obstacles == old(obstacles) + row
      ensures Aligned(obstacles, obstacleMeshes)
      ensures SpawnedRow(row, Patterns[pick])
      ensures forall k :: 0 <= k < |row| ==> fresh(row[k].mesh)
      ensures forall a, b :: 0 <= a < b < |row| ==> row[a].mesh != row[b].mesh
    {
      var blockedLanes := Patterns[pick];
      row := [];
      for k := 0 to |blockedLanes|
        invariant obstacles == old(obstacles) + row
        invariant Aligned(obstacles, obstacleMeshes)
        invariant SpawnedRow(row, blockedLanes[..k])
        invariant forall j :: 0 <= j < |row| ==> fresh(row[j].mesh)
        invariant forall a, b :: 0 <= a < b < |row| ==> row[a].mesh != row[b].mesh
      {
        var lane := blockedLanes[k];
        var x := LaneCenterX(lane);
        var mesh := new Mesh();
        obstacleMeshes := obstacleMeshes + [mesh];
        obstacles := obstacles + [Obstacle(x, SpawnZ, mesh)];
        row := row + [Obstacle(x, SpawnZ, mesh)];
      }
      assert blockedLanes[..|blockedLanes|] == blockedLanes;
    }

    /** Move the player for one frame from the held keys. */
    method UpdatePlayer(dt: real)
      modifies this`playerX
      ensures playerX == PlayerStep(old(playerX), playerSpeed, moveLeft, moveRight, dt)
    {
      if moveLeft {
        playerX := playerX - playerSpeed * dt;
      }
      if moveRight {
        playerX := playerX + playerSpeed * dt;
      }
      playerX := Clamp(MinX, MaxX, playerX);
    }

    /** Move every obstacle towards the player and splice out, from both
        lists, the ones that passed the removal depth. */
    method UpdateObstacles(dt: real)
      requires Aligned(obstacles, obstacleMeshes)
      modifies this`obstacles, this`obstacleMeshes
      ensures obstacles == Survivors(Advance(old(obstacles), BaseSpeed * SpeedMultiplier(elapsed), dt))
      ensures Aligned(obstacles, obstacleMeshes)
    {
      var speed := BaseSpeed * SpeedMultiplier(elapsed);
      var toRemove := MoveObstacles(speed, dt);
      SpliceOut(toRemove);
    }

    /** The first loop of the update: move each obstacle by `speed * dt` and
        list, in increasing order, the indices of those past the removal depth. */
    method MoveObstacles(speed: real, dt: real) returns (toRemove: seq<int>)
      requires Aligned(obstacles, obstacleMeshes)
      modifies this`obstacles
      ensures obstacles == Advance(old(obstacles), speed, dt)
      ensures Aligned(obstacles, obstacleMeshes)
      ensures toRemove == PassedIndices(obstacles, |obstacles|)
    {
      ghost var moved := Advance(obstacles, speed, dt);
      toRemove := [];
      for i := 0 to |obstacles|
        invariant |obstacles| == |moved|
        invariant forall k :: 0 <= k < i ==> obstacles[k] == moved[k]
        invariant forall k :: i <= k < |obstacles| ==> obstacles[k] == old(obstacles)[k]
        invariant Aligned(obstacles, obstacleMeshes)
        invariant toRemove == PassedIndices(moved, i)
      {
        var ob := obstacles[i];
        ob := ob.(z := ob.z + speed * dt);
        obstacles := obstacles[i := ob];
        if ob.z > RemoveZ {
          toRemove := toRemove + [i];
        }
      }
      assert obstacles == moved;
    }

    /** The second loop of the update: splice the listed indices out of both
        lists, last one first, so that earlier indices stay valid. The result
        is the filtered list. */
    method SpliceOut(toRemove: seq<int>)
      requires Aligned(obstacles, obstacleMeshes)
      requires toRemove == PassedIndices(obstacles, |obstacles|)
      modifies this`obstacles, this`obstacleMeshes
      ensures obstacles == Survivors(old(obstacles))
      ensures Aligned(obstacles, obstacleMeshes)
    {
      ghost var moved := obstacles;
      var i := |toRemove| - 1;
      ghost var cut := |moved|;
      while i >= 0
        invariant -1 <= i < |toRemove|
        invariant 0 <= cut <= |moved|
        invariant toRemove[..i + 1] == PassedIndices(moved, cut)
        invariant obstacles == moved[..cut] + Survivors(moved[cut..])
        invariant Aligned(obstacles, obstacleMeshes)
      {
        var idx := toRemove[i];
        SpliceOutStep(moved, toRemove, i, cut, obstacles, obstacleMeshes);
        obstacles := Splice(obstacles, idx);
        obstacleMeshes := Splice(obstacleMeshes, idx);
        i, cut := i - 1, idx;
      }
      NonePassed(moved, cut);
      SurvivorsFrom(moved, cut);
    }

    /** End the game if some obstacle overlaps the player; otherwise change
        nothing. */
    method CheckCollisions()
      modifies this`over, this`running
      ensures Collides(obstacles, playerX) ==> over && !running
      ensures !Collides(obstacles, playerX) ==> over == old(over) && running == old(running)
    {
      var half := PlayerWidth;
      var zMin := -PlayerDepth;
      var zMax := PlayerDepth;
      var cubeHalf := CubeSize / 2.0;
      for k := 0 to |obstacles|
        invariant forall j :: 0 <= j < k ==> !Hits(obstacles[j], playerX)
        invariant over == old(over) && running == old(running)
      {
        var ob := obstacles[k];
        if ob.z < zMin - cubeHalf || ob.z > zMax + cubeHalf {
          continue;
        }
        var dx := Abs(ob.x - playerX);
        if dx < half + cubeHalf {
          over := true;
          running := false;
          return;
        }
      }
    }

    /** What one running frame of `dt` seconds does, relative to the state
        before it: the clocks and score advance with the multiplier of the
        new elapsed time, a row of pattern `pick` spawns when the spawn timer
        reaches one interval (`row` is that row, or empty), the player moves,
        obstacles move with the same multiplier and are pruned, and the game
        is over exactly when an obstacle then overlaps the player. */
    twostate predicate RanFrame(dt: real, pick: int, new row: seq<Obstacle>)
      reads this
      requires 0 <= pick < |Patterns|
    {
      var timer := old(spawnTimer) + dt;
      elapsed == old(elapsed) + dt &&
      score == old(score) + ScoreGain(dt, elapsed) &&
      spawnTimer == (if timer >= SpawnEvery then timer - SpawnEvery else timer) &&
      SpawnedRow(row, if timer >= SpawnEvery then Patterns[pick] else []) &&
      playerX == PlayerStep(old(playerX), playerSpeed, moveLeft, moveRight, dt) &&
      obstacles == Survivors(Advance(old(obstacles) + row, BaseSpeed * SpeedMultiplier(elapsed), dt)) &&
      over == Collides(obstacles, playerX) && running == !over &&
      moveLeft == old(moveLeft) && moveRight == old(moveRight) && playerSpeed == old(playerSpeed)
    }

    /** One animation frame of `frameSeconds` wall-clock seconds: clamp the
        frame to MaxFrame and, while the game runs, advance it. `pick` is the
        pattern the frame would spawn, in place of a random draw. */
    method Tick(frameSeconds: real, pick: int) returns (ghost row: seq<Obstacle>)
      requires Valid()
      requires 0.0 <= frameSeconds && 0 <= pick < |Patterns|
      modifies this
      ensures Valid()
      ensures !old(running) ==> unchanged(this) && row == []
      ensures old(running) ==> RanFrame(Min(MaxFrame, frameSeconds), pick, row)
      ensures old(score) <= score && old(elapsed) <= elapsed
    {
      var dt := Min(MaxFrame, frameSeconds);
      row := [];
      if running {
        row := RunFrame(dt, pick);
      }
    }

    /** The running branch of a frame. */
    method RunFrame(dt: real, pick: int) returns (ghost row: seq<Obstacle>)
      requires Valid() && running
      requires 0.0 <= dt <= MaxFrame && 0 <= pick < |Patterns|
      modifies this
      ensures Valid()
      ensures RanFrame(dt, pick, row)
      ensures old(score) <= score && old(elapsed) <= elapsed
    {
      row := AdvanceClocks(dt, pick);
      StepWorld(dt);
    }

    /** The first half of a running frame: advance the clock and the score
        with the multiplier of the new elapsed time, and spawn a row of
        pattern `pick` when the spawn timer reaches one interval. */
    method AdvanceClocks(dt: real, pick: int) returns (ghost row: seq<Obstacle>)
      requires Valid()
      requires 0.0 <= dt <= MaxFrame && 0 <= pick < |Patterns|
      modifies this`elapsed, this`score, this`spawnTimer, this`obstacles, this`obstacleMeshes
      ensures elapsed == old(elapsed) + dt
      ensures score == old(score) + ScoreGain(dt, elapsed)
      ensures var timer := old(spawnTimer) + dt;
        spawnTimer == (if timer >= SpawnEvery then timer - SpawnEvery else timer) &&
        SpawnedRow(row, if timer >= SpawnEvery then Patterns[pick] else [])
      ensures 0.0 <= spawnTimer < SpawnEvery && 0.0 <= elapsed && old(score) <= score
      ensures obstacles == old(obstacles) + row
      ensures Aligned(obstacles, obstacleMeshes)
      ensures forall k :: 0 <= k < |obstacles| ==> OnInnerLane(obstacles[k].x)
    {
      elapsed := elapsed + dt;
      score := score + dt * ScoreRate * SpeedMultiplier(elapsed);
      assert score == old(score) + ScoreGain(dt, elapsed);
      spawnTimer := spawnTimer + dt;
      row := [];
      if spawnTimer >= SpawnEvery {
        spawnTimer := spawnTimer - SpawnEvery;
        row := SpawnPatternRow(pick);
        SpawnedRowInside(row, pick);
      } else {
        assert old(obstacles) + row == old(obstacles);
      }
    }

    /** The second half of a running frame: move the player, move and prune
        the obstacles with the current multiplier, and end the game exactly
        when an obstacle then overlaps the player. */
    method StepWorld(dt: real)
      requires running && !over
      requires Aligned(obstacles, obstacleMeshes)
      requires forall k :: 0 <= k < |obstacles| ==> OnInnerLane(obstacles[k].x)
      modifies this`playerX, this`obstacles, this`obstacleMeshes, this`over, this`running
      ensures playerX == PlayerStep(old(playerX), playerSpeed, moveLeft, moveRight, dt)
      ensures obstacles == Survivors(Advance(old(obstacles), BaseSpeed * SpeedMultiplier(elapsed), dt))
      ensures Aligned(obstacles, obstacleMeshes)
      ensures forall k :: 0 <= k < |obstacles| ==> obstacles[k].z <= RemoveZ && OnInnerLane(obstacles[k].x)
      ensures over == Collides(obstacles, playerX) && running == !over
    {
      ghost var before := obstacles;
      UpdatePlayer(dt);
      UpdateObstacles(dt);
      SurvivorsStayOnLanes(before, BaseSpeed * SpeedMultiplier(elapsed), dt);
      CheckCollisions();
    }

    /** A key going down: arrows or A/D hold a direction; R restarts a lost game. */
    method KeyDown(code: string)
      requires Valid()
      modifies this
      ensures Valid()
      ensures moveLeft == (IsLeftKey(code) || old(moveLeft))
      ensures moveRight == (IsRightKey(code) || old(moveRight))
      ensures playerSpeed == old(playerSpeed)
      ensures code == "KeyR" && old(over) ==> Restarted()
      ensures !(code == "KeyR" && old(over)) ==>
        running == old(running) && over == old(over) && score == old(score) &&
        elapsed == old(elapsed) && spawnTimer == old(spawnTimer) && playerX == old(playerX) &&
        obstacles == old(obstacles) && obstacleMeshes == old(obstacleMeshes)
    {
      if IsLeftKey(code) {
        moveLeft := true;
      }
      if IsRightKey(code) {
        moveRight := true;
      }
      if code == "KeyR" && over {
        Reset();
      }
    }

    /** A key coming up releases its direction. */
    method KeyUp(code: string)
      modifies this`moveLeft, this`moveRight
      ensures moveLeft == (!IsLeftKey(code) && old(moveLeft))
      ensures moveRight == (!IsRightKey(code) && old(moveRight))
    {
      if IsLeftKey(code) {
        moveLeft := false;
      }
      if IsRightKey(code) {
        moveRight := false;
      }
    }
  }

  /** The codes that hold the left direction: the left arrow and A. */
  function IsLeftKey(code: string): (left: bool)
    ensures left ==> !IsRightKey(code) && code != "KeyR"
  {
    code == "ArrowLeft" || code == "KeyA"
  }

  /** The codes that hold the right direction: the right arrow and D. */
  function IsRightKey(code: string): (right: bool)
    ensures right ==> code != "ArrowLeft" && code != "KeyA" && code != "KeyR"
  {
    code == "ArrowRight" || code == "KeyD"
  }
}
