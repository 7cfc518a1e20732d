/** What one call of `CCollision::MoveBox` (src/game/collision.cpp) does, case by case, and that it treats both axes
    alike. */
module MoveCases {
  import opened Collision
  import opened MoveBox

  // One sub-step, by the three boxes that are tested.

  lemma CasesAt(s: Scene, b: Body)
    requires s.m.Valid()
    ensures var t := Target(s, b);
            SubStep(s, b) ==
            AfterTests(s.elasticity, b, t, TestBox(s.m, t, s.size), TestBox(s.m, Vec(t.x, b.pos.y), s.size),
                       TestBox(s.m, Vec(b.pos.x, t.y), s.size))
  {
    hide TestBox, Bounced;
    BouncesBack(b.vel.x, s.elasticity.x);
    BouncesBack(b.vel.y, s.elasticity.y);
    var t := Target(s, b);
    var hit, alongX, alongY := s.Hit(t), s.Hit(Vec(t.x, b.pos.y)), s.Hit(Vec(b.pos.x, t.y));
    assert BlockedX(s, b) <==> hit && (alongX || !alongY);
    assert BlockedY(s, b) <==> hit && (alongY || !alongX);
    assert Vec(b.pos.x, b.pos.y) == b.pos && Vec(t.x, t.y) == t;
    assert Vec(b.vel.x, b.vel.y) == b.vel;
    hide BlockedX, BlockedY, Target;
  }

  /** The body goes on along an axis exactly if nothing is in its way there: at a corner, where only the move along both
      axes is blocked, it stops along both. It bounces along the axes it stops along, and lands when it stops on its way
      down and the ground bounces. */
  lemma SubStepCases(s: Scene, b: Body, dx: real, dy: real)
    requires s.m.Valid() && dx == b.vel.x * s.fraction && dy == b.vel.y * s.fraction
    ensures var t := Vec(b.pos.x + dx, b.pos.y + dy);
            SubStep(s, b) ==
            AfterTests(s.elasticity, b, t, TestBox(s.m, t, s.size), TestBox(s.m, Vec(t.x, b.pos.y), s.size),
                       TestBox(s.m, Vec(b.pos.x, t.y), s.size))
  {
    TargetIs(s, b, dx, dy);
    hide TestBox, SubStep, AfterTests, Target;
    CasesAt(s, b);
  }

  lemma BouncesBack(v: real, e: real)
    ensures Bounced(v, e) == -(e * v)
  {
  }

  /** `t` is the target; `hit` says that it is blocked, `alongX` and `alongY` that the moves along one axis are. */
  function AfterTests(e: Vec, b: Body, t: Vec, hit: bool, alongX: bool, alongY: bool): Body {
    var lands := e.y > 0.0 && b.vel.y > 0.0;
    if !hit then Body(t, b.vel, b.grounded)
    else if alongX && !alongY then Body(Vec(b.pos.x, t.y), Vec(-(e.x * b.vel.x), b.vel.y), b.grounded)
    else if alongY && !alongX then Body(Vec(t.x, b.pos.y), Vec(b.vel.x, -(e.y * b.vel.y)), b.grounded || lands)
    else Body(b.pos, Vec(-(e.x * b.vel.x), -(e.y * b.vel.y)), b.grounded || lands)
  }

  // A call with one sub-step.

  function Limited(e: real): real {
    if e < -1.0 then -1.0 else if e > 1.0 then 1.0 else e
  }

  /** A move by less than one unit is one such step, with the elasticity limited to one; a move by next to nothing does
      not happen. */
  lemma ShortMove(m: GameMap, size: Vec, elasticity: Vec, b: Body)
    requires m.Valid() && b.vel.x * b.vel.x + b.vel.y * b.vel.y < 1.0
    ensures var t := Vec(b.pos.x + b.vel.x, b.pos.y + b.vel.y);
            Result(m, size, elasticity, b) ==
            if b.vel.x * b.vel.x + b.vel.y * b.vel.y <= 0.0000000001 then b
            else AfterTests(Vec(Limited(elasticity.x), Limited(elasticity.y)), b, t, TestBox(m, t, size),
                            TestBox(m, Vec(t.x, b.pos.y), size), TestBox(m, Vec(b.pos.x, t.y), size))
  {
    hide TestBox, SubStep, AfterTests, Max;
    if !IsSlow(b.vel) {
      NoWholeUnit(b.vel);
      var s := SceneOf(m, size, elasticity, b.vel);
      OneStep(m, size, elasticity, b.vel);
      SubStepCases(s, b, b.vel.x, b.vel.y);
      EarlyExitChangesNothing(s, b, 1);
      assert AllSubSteps(s, b, 1) == SubStep(s, AllSubSteps(s, b, 0));
    }
  }

  lemma NoWholeUnit(vel: Vec)
    requires Dot(vel, vel) < 1.0
    ensures Max(vel) == 0
  {
    var max := Max(vel) as real;
    assert max >= 1.0 ==> max * max >= 1.0;
  }

  lemma OneStep(m: GameMap, size: Vec, elasticity: Vec, vel: Vec)
    requires m.Valid() && Max(vel) == 0
    ensures SceneOf(m, size, elasticity, vel) ==
            Scene(m, size, Vec(Limited(elasticity.x), Limited(elasticity.y)), 1.0)
  {
    hide Max;
  }

  // Both axes alike: on the map turned over its diagonal, everything is turned over.

  function Swap(v: Vec): Vec {
    Vec(v.y, v.x)
  }

  lemma InTiles(i: nat, width: nat, height: nat)
    requires width > 0 && height > 0 && i < height * width
    ensures i / height < width && i % height * width + i / height < width * height
  {
    var (row, column) := (i % height, i / height);
    if column >= width {
      Rows(width, column, height);
    }
    CellInMap(row, column, width, height);
  }

  lemma Rows(a: nat, b: nat, n: nat)
    requires a <= b
    ensures a * n <= b * n
  {
  }

  /** The map with columns and rows exchanged. */
  function Turned(m: GameMap): (t: GameMap)
    requires m.Valid()
    ensures t.Valid()
  {
    match m
    case Unloaded => m
    case GameMap(width, height, tiles) =>
      GameMap.GameMap(height, width, seq(height * width, i requires 0 <= i < height * width =>
        (InTiles(i, width, height);
         tiles[i % height * width + i / height])))
  }

  lemma TurnedTile(m: GameMap, x: int, y: int)
    requires m.Valid()
    ensures GetTile(Turned(m), y, x) == GetTile(m, x, y)
  {
    if m.GameMap? {
      var (column, row) := (Cell(x, m.width), Cell(y, m.height));
      hide Cell;
      CellInMap(row, column, m.width, m.height);
      CellInMap(column, row, m.height, m.width);
      ColumnAndRow(row, column, m.height);
      assert Turned(m).tiles[column * m.height + row] == m.tiles[row * m.width + column];
    }
  }

  lemma TurnedPoint(m: GameMap, p: Vec)
    requires m.Valid()
    ensures CheckPoint(Turned(m), Swap(p)) <==> CheckPoint(m, p)
  {
    hide RoundToInt, GetTile, Turned;
    TurnedTile(m, RoundToInt(p.x), RoundToInt(p.y));
  }

  lemma TurnedBox(m: GameMap, pos: Vec, size: Vec)
    requires m.Valid()
    ensures TestBox(Turned(m), Swap(pos), Swap(size)) <==> TestBox(m, pos, size)
  {
    hide CheckPoint, Turned;
    forall p: Vec
      ensures CheckPoint(Turned(m), Swap(p)) <==> CheckPoint(m, p)
    {
      TurnedPoint(m, p);
    }
    var half := Vec(size.x * 0.5, size.y * 0.5);
    assert Swap(Vec(pos.x - half.x, pos.y - half.y)) == Vec(pos.y - half.y, pos.x - half.x);
    assert Swap(Vec(pos.x + half.x, pos.y - half.y)) == Vec(pos.y - half.y, pos.x + half.x);
    assert Swap(Vec(pos.x - half.x, pos.y + half.y)) == Vec(pos.y + half.y, pos.x - half.x);
    assert Swap(Vec(pos.x + half.x, pos.y + half.y)) == Vec(pos.y + half.y, pos.x + half.x);
  }

  function TurnedScene(s: Scene): Scene
    requires s.m.Valid()
    ensures TurnedScene(s).m.Valid()
  {
    Scene(Turned(s.m), Swap(s.size), Swap(s.elasticity), s.fraction)
  }

  predicate IsTurned(b: Body, d: Body) {
    d.pos == Swap(b.pos) && d.vel == Swap(b.vel)
  }

  lemma TurnedAfterTests(e: Vec, b: Body, d: Body, t: Vec, hit: bool, alongX: bool, alongY: bool)
    requires IsTurned(b, d)
    ensures IsTurned(AfterTests(e, b, t, hit, alongX, alongY), AfterTests(Swap(e), d, Swap(t), hit, alongY, alongX))
  {
  }

  lemma TurnedTarget(s: Scene, b: Body, d: Body)
    requires s.m.Valid() && IsTurned(b, d)
    ensures Target(TurnedScene(s), d) == Swap(Target(s, b))
  {
    hide Turned;
    SameProduct(d.vel.x, b.vel.y, s.fraction, TurnedScene(s).fraction);
    SameProduct(d.vel.y, b.vel.x, s.fraction, TurnedScene(s).fraction);
  }

  lemma SameProduct(v: real, w: real, f: real, g: real)
    requires v == w && f == g
    ensures v * g == w * f
  {
  }

  lemma TurnedTests(m: GameMap, size: Vec, p: Vec, t: Vec)
    requires m.Valid()
    ensures TestBox(Turned(m), Swap(t), Swap(size)) <==> TestBox(m, t, size)
    ensures TestBox(Turned(m), Vec(t.y, p.x), Swap(size)) <==> TestBox(m, Vec(p.x, t.y), size)
    ensures TestBox(Turned(m), Vec(p.y, t.x), Swap(size)) <==> TestBox(m, Vec(t.x, p.y), size)
  {
    hide TestBox, Turned;
    TurnedBox(m, t, size);
    TurnedBox(m, Vec(p.x, t.y), size);
    TurnedBox(m, Vec(t.x, p.y), size);
  }

  lemma TurnedSubStep(s: Scene, b: Body, d: Body)
    requires s.m.Valid() && IsTurned(b, d)
    ensures IsTurned(SubStep(s, b), SubStep(TurnedScene(s), d))
  {
    hide TestBox, Turned, SubStep, AfterTests, Target;
    CasesAt(s, b);
    CasesAt(TurnedScene(s), d);
    TurnedTarget(s, b, d);
    var t := Target(s, b);
    TurnedTests(s.m, s.size, b.pos, t);
    TurnedAfterTests(s.elasticity, b, d, t, TestBox(s.m, t, s.size), TestBox(s.m, Vec(t.x, b.pos.y), s.size),
                     TestBox(s.m, Vec(b.pos.x, t.y), s.size));
  }

  lemma {:induction false} TurnedSubSteps(s: Scene, b: Body, d: Body, n: nat)
    requires s.m.Valid() && IsTurned(b, d)
    ensures IsTurned(AllSubSteps(s, b, n), AllSubSteps(TurnedScene(s), d, n))
  {
    hide SubStep, TurnedScene, IsTurned;
    if n > 0 {
      TurnedSubSteps(s, b, d, n - 1);
      TurnedSubStep(s, AllSubSteps(s, b, n - 1), AllSubSteps(TurnedScene(s), d, n - 1));
    }
  }

  lemma TurnedVel(v: Vec)
    ensures Dot(Swap(v), Swap(v)) == Dot(v, v)
    ensures Max(Swap(v)) == Max(v) && (IsSlow(Swap(v)) <==> IsSlow(v))
  {
    hide IntRoot;
    assert v.y * v.y + v.x * v.x == v.x * v.x + v.y * v.y;
  }

  lemma TurnedSceneIs(m: GameMap, size: Vec, elasticity: Vec, vel: Vec)
    requires m.Valid()
    ensures SceneOf(Turned(m), Swap(size), Swap(elasticity), Swap(vel)) ==
            TurnedScene(SceneOf(m, size, elasticity, vel))
  {
    hide Max, Fraction, Turned;
    TurnedVel(vel);
  }

  /** Whatever the map, the box, the velocity and the elasticity: turned over, the box ends where it would, turned
      over. */
  lemma BothAxesAlike(m: GameMap, size: Vec, elasticity: Vec, b: Body, grounded: bool)
    requires m.Valid()
    ensures IsTurned(Result(m, size, elasticity, b),
                     Result(Turned(m), Swap(size), Swap(elasticity), Body(Swap(b.pos), Swap(b.vel), grounded)))
  {
    hide Max, IsSlow, Turned, Moved, SceneOf, TurnedScene;
    var d := Body(Swap(b.pos), Swap(b.vel), grounded);
    TurnedVel(b.vel);
    TurnedSceneIs(m, size, elasticity, b.vel);
    var s, n := SceneOf(m, size, elasticity, b.vel), Max(b.vel) + 1;
    TurnedSubSteps(s, b, d, n);
    EarlyExitChangesNothing(s, b, n);
    TurnedIsValid(s);
    EarlyExitChangesNothing(TurnedScene(s), d, n);
  }

  lemma TurnedIsValid(s: Scene)
    requires s.Valid()
    ensures TurnedScene(s).Valid()
  {
    hide Turned;
  }
}
