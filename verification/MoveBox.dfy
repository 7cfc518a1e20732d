/** Swept movement: `CCollision::MoveBox` of src/game/collision.cpp over real numbers. */
module MoveBox {
  import opened Collision

  function Plus(a: Vec, b: Vec): Vec {
    Vec(a.x + b.x, a.y + b.y)
  }

  function Times(a: Vec, k: real): Vec {
    Vec(a.x * k, a.y * k)
  }

  function Dot(a: Vec, b: Vec): real {
    a.x * b.x + a.y * b.y
  }

  function Abs(x: real): real {
    if x < 0.0 then -x else x
  }

  function ClampReal(x: real, lo: real, hi: real): real {
    if x < lo then lo else if x > hi then hi else x
  }

  /** `(int)sqrt(v)`: the largest number whose square is at most `v`. */
  function IntRoot(v: real, n: nat): (max: nat)
    requires n as real * n as real <= v
    ensures max as real * max as real <= v < (max + 1) as real * (max + 1) as real
    decreases v.Floor - n
  {
    if v < (n + 1) as real * (n + 1) as real then n
    else
      RootIsBelow(v, n + 1);
      IntRoot(v, n + 1)
  }

  lemma RootIsBelow(v: real, n: nat)
    requires n as real * n as real <= v
    ensures n <= v.Floor
  {
    if n > 0 {
      assert n as real * n as real >= n as real;
    }
  }

  /** What a sub-step works on. */
  datatype Body = Body(pos: Vec, vel: Vec, grounded: bool)

  /** The parameters that stay the same during one call: map, box and the clamped elasticity. */
  datatype Scene = Scene(m: GameMap, size: Vec, elasticity: Vec, fraction: real) {
    predicate Valid() {
      m.Valid() && Abs(elasticity.x) <= 1.0 && Abs(elasticity.y) <= 1.0 && 0.0 < fraction <= 1.0
    }

    predicate Hit(pos: Vec)
      requires m.Valid()
    {
      TestBox(m, pos, size)
    }
  }

  function Target(s: Scene, b: Body): Vec {
    Plus(b.pos, Times(b.vel, s.fraction))
  }

  /** The loop ends early when a step would change nothing. */
  predicate Rests(s: Scene, b: Body) {
    b.vel == Vec(0.0, 0.0) || Target(s, b) == b.pos
  }

  /** An axis is blocked when the move along it alone is; both are when only the move along both is. */
  predicate BlockedX(s: Scene, b: Body)
    requires s.m.Valid()
  {
    var t := Target(s, b);
    s.Hit(t) && (s.Hit(Vec(t.x, b.pos.y)) || !s.Hit(Vec(b.pos.x, t.y)))
  }

  predicate BlockedY(s: Scene, b: Body)
    requires s.m.Valid()
  {
    var t := Target(s, b);
    s.Hit(t) && (s.Hit(Vec(b.pos.x, t.y)) || !s.Hit(Vec(t.x, b.pos.y)))
  }

  /** Landing: something is in the way down, and the ground bounces. */
  predicate Lands(s: Scene, b: Body)
    requires s.m.Valid()
  {
    BlockedY(s, b) && s.elasticity.y > 0.0 && b.vel.y > 0.0
  }

  function Bounced(v: real, elasticity: real): real {
    v * -elasticity
  }

  /** A sub-step goes the whole way along every axis that is not blocked, and turns the velocity around along those
      that are. */
  function SubStep(s: Scene, b: Body): Body
    requires s.m.Valid()
  {
    var t := Target(s, b);
    Body(
      Vec(if BlockedX(s, b) then b.pos.x else t.x, if BlockedY(s, b) then b.pos.y else t.y),
      Vec(if BlockedX(s, b) then Bounced(b.vel.x, s.elasticity.x) else b.vel.x,
          if BlockedY(s, b) then Bounced(b.vel.y, s.elasticity.y) else b.vel.y),
      b.grounded || Lands(s, b))
  }

  /** The body after up to `n` sub-steps. */
  function Moved(s: Scene, b: Body, n: nat): Body
    requires s.m.Valid()
  {
    if n == 0 then b
    else
      var c := Moved(s, b, n - 1);
      if Rests(s, c) then c else SubStep(s, c)
  }

  // What a sub-step keeps.

  lemma SubStepStaysFree(s: Scene, b: Body)
    requires s.m.Valid() && !s.Hit(b.pos)
    ensures !s.Hit(SubStep(s, b).pos)
  {
    var t := Target(s, b);
    hide TestBox;
    assert Vec(b.pos.x, b.pos.y) == b.pos && Vec(t.x, t.y) == t;
  }

  lemma Damped(v: real, e: real)
    requires Abs(e) <= 1.0
    ensures Abs(Bounced(v, e)) <= Abs(v)
  {
    var (a, f) := (Abs(v), Abs(e));
    Shrinks(a, f);
    Signs(v, e);
    assert v * -e == a * f || v * -e == -(a * f) by {
      if v >= 0.0 {
        if e >= 0.0 {
          assert a == v && f == e;
        } else {
          assert a == v && f == -e;
        }
      } else {
        if e >= 0.0 {
          assert a == -v && f == e;
        } else {
          assert a == -v && f == -e;
        }
      }
    }
  }

  lemma Signs(a: real, b: real)
    ensures -a * b == -(a * b) == a * -b && -a * -b == a * b
  {
  }

  lemma Shrinks(a: real, b: real)
    requires a >= 0.0 && 0.0 <= b <= 1.0
    ensures 0.0 <= a * b <= a
  {
    var c := 1.0 - b;
    assert a * c >= 0.0;
    assert a * b + a * c == a;
  }

  lemma SubStepSlows(s: Scene, b: Body)
    requires s.Valid()
    ensures Abs(SubStep(s, b).vel.x) <= Abs(b.vel.x) && Abs(SubStep(s, b).vel.y) <= Abs(b.vel.y)
  {
    hide BlockedX, BlockedY, Lands, Abs, Bounced, Target;
    Damped(b.vel.x, s.elasticity.x);
    Damped(b.vel.y, s.elasticity.y);
  }

  /** How far a sub-step goes along an axis. */
  lemma SubStepGoes(s: Scene, b: Body)
    requires s.Valid()
    ensures Abs(SubStep(s, b).pos.x - b.pos.x) <= Abs(b.vel.x) * s.fraction
    ensures Abs(SubStep(s, b).pos.y - b.pos.y) <= Abs(b.vel.y) * s.fraction
  {
    hide BlockedX, BlockedY, Lands;
    AbsTimes(b.vel.x, s.fraction);
    AbsTimes(b.vel.y, s.fraction);
  }

  lemma AbsTimes(v: real, f: real)
    requires f > 0.0
    ensures Abs(v * f) == Abs(v) * f && 0.0 <= Abs(v) * f
  {
    if v < 0.0 {
      assert v * f < 0.0 && -(v * f) == -v * f;
    } else {
      assert v * f >= 0.0;
    }
  }

  lemma FactorMonotone(a: real, b: real, f: real)
    requires f > 0.0 && a <= b
    ensures a * f <= b * f
  {
  }

  lemma {:induction false} MovedStaysFree(s: Scene, b: Body, n: nat)
    requires s.m.Valid() && !s.Hit(b.pos)
    ensures !s.Hit(Moved(s, b, n).pos)
  {
    hide Scene.Hit, Rests, SubStep;
    if n > 0 {
      MovedStaysFree(s, b, n - 1);
      SubStepStaysFree(s, Moved(s, b, n - 1));
    }
  }

  lemma {:induction false} MovedSlows(s: Scene, b: Body, n: nat)
    requires s.Valid()
    ensures Abs(Moved(s, b, n).vel.x) <= Abs(b.vel.x) && Abs(Moved(s, b, n).vel.y) <= Abs(b.vel.y)
  {
    hide Rests, SubStep;
    if n > 0 {
      MovedSlows(s, b, n - 1);
      SubStepSlows(s, Moved(s, b, n - 1));
    }
  }

  /** How far `n` sub-steps at the initial velocity along an axis go. */
  function Reach(n: nat, v: real, f: real): real {
    n as real * (Abs(v) * f)
  }

  /** Along no axis does the body get further than its initial velocity allows. */
  lemma {:induction false} MovedGoes(s: Scene, b: Body, n: nat)
    requires s.Valid()
    ensures var c := Moved(s, b, n);
            && Abs(c.pos.x - b.pos.x) <= Reach(n, b.vel.x, s.fraction)
            && Abs(c.pos.y - b.pos.y) <= Reach(n, b.vel.y, s.fraction)
  {
    hide Rests, SubStep, Abs, Bounced, Reach;
    if n == 0 {
      NoReach(b.pos.x, b.vel.x, s.fraction);
      NoReach(b.pos.y, b.vel.y, s.fraction);
    } else {
      var c := Moved(s, b, n - 1);
      MovedGoes(s, b, n - 1);
      MovedSlows(s, b, n - 1);
      SubStepGoes(s, c);
      if Rests(s, c) {
        OneStepMore(n, b.pos.x, c.pos.x, c.pos.x, b.vel.x, c.vel.x, s.fraction);
        OneStepMore(n, b.pos.y, c.pos.y, c.pos.y, b.vel.y, c.vel.y, s.fraction);
      } else {
        var d := SubStep(s, c);
        OneStepMore(n, b.pos.x, c.pos.x, d.pos.x, b.vel.x, c.vel.x, s.fraction);
        OneStepMore(n, b.pos.y, c.pos.y, d.pos.y, b.vel.y, c.vel.y, s.fraction);
      }
    }
  }

  lemma NoReach(p: real, v: real, f: real)
    ensures Abs(p - p) <= Reach(0, v, f)
  {
  }

  lemma AbsZero(p: Vec)
    ensures Abs(p.x - p.x) == 0.0 && Abs(p.y - p.y) == 0.0
  {
  }

  lemma AbsPositive(p: Vec)
    ensures Abs(p.x) >= 0.0 && Abs(p.y) >= 0.0
  {
  }

  lemma OneStepMore(n: nat, p: real, q: real, r: real, v: real, w: real, f: real)
    requires n > 0 && f > 0.0 && Abs(w) <= Abs(v)
    requires Abs(q - p) <= Reach(n - 1, v, f)
    requires q == r || Abs(r - q) <= Abs(w) * f
    ensures Abs(r - p) <= Reach(n, v, f)
  {
    hide Abs;
    FactorMonotone(Abs(w), Abs(v), f);
    OneMore(n, Abs(v) * f);
    AbsTimes(v, f);
    Triangle(p, q, r, (n - 1) as real * (Abs(v) * f), Abs(v) * f);
  }

  lemma Triangle(p: real, q: real, r: real, k: real, d: real)
    requires Abs(q - p) <= k && d >= 0.0 && (q == r || Abs(r - q) <= d)
    ensures Abs(r - p) <= k + d
  {
  }

  lemma OneMore(n: nat, d: real)
    requires n > 0
    ensures n as real * d == (n - 1) as real * d + d
  {
    assert n as real == (n - 1) as real + 1.0;
  }

  // The whole call.

  /** One over the number of sub-steps. */
  function Fraction(max: nat): (f: real)
    ensures 0.0 < f <= 1.0 && f * (max + 1) as real == 1.0
  {
    1.0 / (max + 1) as real
  }

  function SceneOf(m: GameMap, size: Vec, elasticity: Vec, vel: Vec): (s: Scene)
    requires m.Valid()
    ensures s.Valid()
  {
    hide Fraction;
    var e := Vec(ClampReal(elasticity.x, -1.0, 1.0), ClampReal(elasticity.y, -1.0, 1.0));
    Scene(m, size, e, Fraction(Max(vel)))
  }

  /** `(int)length(vel)` */
  function Max(vel: Vec): (max: nat)
    ensures max as real * max as real <= Dot(vel, vel) < (max + 1) as real * (max + 1) as real
  {
    SquaresAdd(vel);
    IntRoot(Dot(vel, vel), 0)
  }

  lemma SquaresAdd(v: Vec)
    ensures Dot(v, v) >= 0.0
  {
    assert v.x * v.x >= 0.0;
    assert v.y * v.y >= 0.0;
  }

  /** Slower than this the box does not move at all. */
  predicate IsSlow(vel: Vec) {
    Dot(vel, vel) <= 0.00001 * 0.00001
  }

  /** The body after a call. */
  function Result(m: GameMap, size: Vec, elasticity: Vec, b: Body): Body
    requires m.Valid()
  {
    if IsSlow(b.vel) then b else Moved(SceneOf(m, size, elasticity, b.vel), b, Max(b.vel) + 1)
  }

  lemma RestsForGood(s: Scene, b: Body, n: nat, k: nat)
    requires s.m.Valid() && n <= k && Rests(s, Moved(s, b, n))
    ensures Moved(s, b, k) == Moved(s, b, n)
  {
    hide Rests, SubStep;
    if n < k {
      RestsForGood(s, b, n, k - 1);
    }
  }

  /** The loop without its early exit. */
  function AllSubSteps(s: Scene, b: Body, n: nat): Body
    requires s.m.Valid()
  {
    if n == 0 then b else SubStep(s, AllSubSteps(s, b, n - 1))
  }

  lemma RestingSubStep(s: Scene, b: Body)
    requires s.Valid() && Rests(s, b)
    ensures SubStep(s, b) == b
  {
    hide TestBox;
    if b.vel != Vec(0.0, 0.0) {
      ZeroFactor(b.vel.x, s.fraction);
      ZeroFactor(b.vel.y, s.fraction);
    }
    assert b.vel == Vec(0.0, 0.0);
  }

  lemma ZeroFactor(v: real, f: real)
    requires f > 0.0 && v * f == 0.0
    ensures v == 0.0
  {
  }

  /** Leaving the loop early changes nothing: it is only an optimization. */
  lemma {:induction false} EarlyExitChangesNothing(s: Scene, b: Body, n: nat)
    requires s.Valid()
    ensures Moved(s, b, n) == AllSubSteps(s, b, n)
  {
    hide Rests, SubStep;
    if n > 0 {
      EarlyExitChangesNothing(s, b, n - 1);
      if Rests(s, Moved(s, b, n - 1)) {
        RestingSubStep(s, Moved(s, b, n - 1));
      }
    }
  }

  /** `MoveBox` */
  method MoveBox(m: GameMap, inPos: Vec, inVel: Vec, size: Vec, elasticity: Vec, wasGrounded: bool)
    returns (pos: Vec, vel: Vec, grounded: bool)
    requires m.Valid()
    ensures Body(pos, vel, grounded) == Result(m, size, elasticity, Body(inPos, inVel, wasGrounded))
  {
    hide TestBox, Rests, Max, Fraction, SubStep, SceneOf, IsSlow;
    ghost var b := Body(inPos, inVel, wasGrounded);
    pos, vel, grounded := inPos, inVel, wasGrounded;
    var max := Max(vel);
    if !IsSlow(vel) {
      var s := SceneOf(m, size, elasticity, vel);
      for i := 0 to max + 1
        invariant s == SceneOf(m, size, elasticity, inVel) && max == Max(inVel)
        invariant Body(pos, vel, grounded) == Moved(s, b, i)
      {
        if Rests(s, Body(pos, vel, grounded)) {
          RestsForGood(s, b, i, max + 1);
          return;
        }
        pos, vel, grounded := Advance(s, pos, vel, grounded);
      }
    }
  }

  /** One round of the loop. */
  method Advance(s: Scene, inPos: Vec, inVel: Vec, wasGrounded: bool) returns (pos: Vec, vel: Vec, grounded: bool)
    requires s.m.Valid()
    ensures Body(pos, vel, grounded) == SubStep(s, Body(inPos, inVel, wasGrounded))
  {
    hide TestBox, Bounced;
    vel, grounded := inVel, wasGrounded;
    var newPos := Plus(inPos, Times(vel, s.fraction));
    if TestBox(s.m, newPos, s.size) {
      var hits := 0;
      if TestBox(s.m, Vec(inPos.x, newPos.y), s.size) {
        if s.elasticity.y > 0.0 && vel.y > 0.0 {
          grounded := true;
        }
        newPos := newPos.(y := inPos.y);
        vel := vel.(y := Bounced(vel.y, s.elasticity.y));
        hits := hits + 1;
      }
      if TestBox(s.m, Vec(newPos.x, inPos.y), s.size) {
        newPos := newPos.(x := inPos.x);
        vel := vel.(x := Bounced(vel.x, s.elasticity.x));
        hits := hits + 1;
      }
      if hits == 0 {
        if s.elasticity.y > 0.0 && vel.y > 0.0 {
          grounded := true;
        }
        newPos := newPos.(y := inPos.y);
        vel := vel.(y := Bounced(vel.y, s.elasticity.y));
        newPos := newPos.(x := inPos.x);
        vel := vel.(x := Bounced(vel.x, s.elasticity.x));
      }
    }
    pos := newPos;
  }

  // What a call keeps, on every map, for every velocity and elasticity.

  /** After every sub-step, and so at the end, a box that was free is free; up to one tile in size, the whole of it. */
  lemma BoxStaysFree(m: GameMap, size: Vec, elasticity: Vec, b: Body, n: nat)
    requires m.Valid() && !TestBox(m, b.pos, size)
    ensures !TestBox(m, Moved(SceneOf(m, size, elasticity, b.vel), b, n).pos, size)
    ensures !TestBox(m, Result(m, size, elasticity, b).pos, size)
    ensures 0.0 <= size.x <= 32.0 && 0.0 <= size.y <= 32.0 ==> BoxIsFree(m, Result(m, size, elasticity, b).pos, size)
  {
    hide TestBox, BoxIsFree, Moved, Max, IsSlow;
    var s := SceneOf(m, size, elasticity, b.vel);
    MovedStaysFree(s, b, n);
    MovedStaysFree(s, b, Max(b.vel) + 1);
    if 0.0 <= size.x <= 32.0 && 0.0 <= size.y <= 32.0 {
      CornersSuffice(m, Result(m, size, elasticity, b).pos, size);
    }
  }

  lemma Unit(d: real, x: real)
    requires x == 1.0
    ensures d * x == d && x * x == 1.0
  {
  }

  lemma ShareOfOne(k: real, d: real, f: real)
    requires f * k == 1.0
    ensures k * (d * f) == d
  {
    Unit(d, f * k);
  }

  /** The box gets no further along an axis, and no faster, than its initial velocity along it. */
  lemma VelocityBounds(m: GameMap, size: Vec, elasticity: Vec, b: Body)
    requires m.Valid()
    ensures var r := Result(m, size, elasticity, b);
            && Abs(r.pos.x - b.pos.x) <= Abs(b.vel.x) && Abs(r.pos.y - b.pos.y) <= Abs(b.vel.y)
            && Abs(r.vel.x) <= Abs(b.vel.x) && Abs(r.vel.y) <= Abs(b.vel.y)
  {
    hide Moved, Max, Fraction, Scene.Valid, Abs, IsSlow;
    AbsZero(b.pos);
    AbsPositive(b.vel);
    var s, n := SceneOf(m, size, elasticity, b.vel), Max(b.vel) + 1;
    MovedGoes(s, b, n);
    MovedSlows(s, b, n);
    ShareOfOne(n as real, Abs(b.vel.x), s.fraction);
    ShareOfOne(n as real, Abs(b.vel.y), s.fraction);
  }

  lemma SquareMonotone(a: real, b: real)
    requires Abs(a) <= b
    ensures a * a <= b * b
  {
    if a < 0.0 {
      assert a * a == -a * -a;
    }
  }

  /** No sub-step is as long as one unit. */
  lemma SubStepsAreShort(m: GameMap, size: Vec, elasticity: Vec, b: Body, n: nat)
    requires m.Valid()
    ensures var s := SceneOf(m, size, elasticity, b.vel);
            var (p, q) := (Moved(s, b, n).pos, Moved(s, b, n + 1).pos);
            var d := Vec(q.x - p.x, q.y - p.y);
            Dot(d, d) < 1.0
  {
    hide Rests, SubStep, Fraction, Max, Abs;
    var s, max := SceneOf(m, size, elasticity, b.vel), Max(b.vel);
    var c, c' := Moved(s, b, n), Moved(s, b, n + 1);
    if c != c' {
      MovedSlows(s, b, n);
      SubStepGoes(s, c);
      FactorMonotone(Abs(c.vel.x), Abs(b.vel.x), s.fraction);
      FactorMonotone(Abs(c.vel.y), Abs(b.vel.y), s.fraction);
      ShortMove(b.vel, c'.pos.x - c.pos.x, c'.pos.y - c.pos.y, (max + 1) as real, s.fraction);
    }
  }

  lemma ShortMove(v: Vec, dx: real, dy: real, k: real, f: real)
    requires Dot(v, v) < k * k && f > 0.0 && f * k == 1.0
    requires Abs(dx) <= Abs(v.x) * f && Abs(dy) <= Abs(v.y) * f
    ensures Dot(Vec(dx, dy), Vec(dx, dy)) < 1.0
  {
    hide Abs;
    var xx, yy, ff := v.x * v.x, v.y * v.y, f * f;
    ShareSquared(v.x, dx, f, xx, ff);
    ShareSquared(v.y, dy, f, yy, ff);
    var sum := xx + yy;
    ShareOfSquare(sum, k, f, ff);
    SumOfShares(dx * dx, dy * dy, xx, yy, sum, ff);
  }

  // Products have names in what follows: the solver loses sight of nested ones.

  lemma ShareSquared(v: real, d: real, f: real, vv: real, ff: real)
    requires Abs(d) <= Abs(v) * f && vv == v * v && ff == f * f
    ensures d * d <= vv * ff
  {
    var a := Abs(v);
    var af := a * f;
    SquareMonotone(d, af);
    assert a * a == vv;
    SquareOfProduct(a, f);
  }

  lemma SquareOfProduct(a: real, f: real)
    ensures (a * f) * (a * f) == (a * a) * (f * f)
  {
  }

  lemma SumOfShares(p: real, q: real, a: real, b: real, sum: real, g: real)
    requires p <= a * g && q <= b * g && sum == a + b && sum * g < 1.0
    ensures p + q < 1.0
  {
    var ag, bg := a * g, b * g;
    assert sum * g == ag + bg;
  }

  lemma ShareOfSquare(d: real, k: real, f: real, ff: real)
    requires d < k * k && f > 0.0 && f * k == 1.0 && ff == f * f
    ensures d * ff < 1.0
  {
    var kk, fk := k * k, f * k;
    assert ff > 0.0;
    SquareOfProduct(f, k);
    assert fk * fk == 1.0;
    assert kk * ff == 1.0;
    LessTimes(d, kk, ff, 1.0);
  }

  lemma LessTimes(a: real, b: real, g: real, product: real)
    requires a < b && g > 0.0 && b * g == product
    ensures a * g < product
  {
    var ag, bg := a * g, b * g;
    assert ag < bg;
  }

  /** Grounded means: it was grounded before, or landed in some sub-step; `FloorIsNear` says where the floor is. */
  lemma {:induction false} GroundedIff(s: Scene, b: Body, n: nat)
    requires s.m.Valid()
    ensures Moved(s, b, n).grounded <==>
              b.grounded || exists k :: 0 <= k < n && !Rests(s, Moved(s, b, k)) && Lands(s, Moved(s, b, k))
  {
    hide Rests, Lands, BlockedX, BlockedY, Target;
    if n > 0 {
      GroundedIff(s, b, n - 1);
    }
  }

  // Where a box that nothing stops gets to.

  /** The point the body reaches in `k` sub-steps straight ahead. */
  function PathPoint(s: Scene, b: Body, k: nat): Vec {
    Plus(b.pos, Times(b.vel, k as real * s.fraction))
  }

  ghost predicate PathIsClear(s: Scene, b: Body, n: nat)
    requires s.m.Valid()
  {
    forall k :: 1 <= k <= n ==> !s.Hit(PathPoint(s, b, k))
  }

  lemma NextPathPoint(s: Scene, b: Body, k: nat)
    ensures PathPoint(s, b, 0) == b.pos
    ensures Plus(PathPoint(s, b, k), Times(b.vel, s.fraction)) == PathPoint(s, b, k + 1)
  {
    NextOnAxis(b.pos.x, b.vel.x, k, s.fraction);
    NextOnAxis(b.pos.y, b.vel.y, k, s.fraction);
  }

  lemma NextOnAxis(p: real, v: real, k: nat, f: real)
    ensures p + v * (0 as real * f) == p
    ensures p + v * (k as real * f) + v * f == p + v * ((k + 1) as real * f)
  {
    OneMore(k + 1, f);
    var kf := k as real * f;
    Sum(v, kf, f);
  }

  lemma Sum(v: real, a: real, b: real)
    ensures v * (a + b) == v * a + v * b
  {
  }

  lemma {:induction false} StraightAhead(s: Scene, b: Body, n: nat)
    requires s.Valid() && PathIsClear(s, b, n)
    ensures Moved(s, b, n) == Body(PathPoint(s, b, n), b.vel, b.grounded)
  {
    hide TestBox, Rests, PathPoint;
    EarlyExitChangesNothing(s, b, n);
    if n == 0 {
      NextPathPoint(s, b, 0);
    } else {
      StraightAhead(s, b, n - 1);
      EarlyExitChangesNothing(s, b, n - 1);
      NextPathPoint(s, b, n - 1);
      assert !s.Hit(PathPoint(s, b, n));
    }
  }

  lemma {:induction false} FirstHit(s: Scene, b: Body, n: nat) returns (k: nat)
    requires s.m.Valid() && !PathIsClear(s, b, n)
    ensures k < n && PathIsClear(s, b, k) && s.Hit(PathPoint(s, b, k + 1))
  {
    hide Scene.Hit, PathPoint;
    if n > 0 && !PathIsClear(s, b, n - 1) {
      k := FirstHit(s, b, n - 1);
    } else {
      k := n - 1;
    }
  }

  /** What is hit from a free position blocks an axis along which the body was moving. */
  lemma HitStopsAnAxis(s: Scene, c: Body)
    requires s.Valid() && !s.Hit(c.pos) && s.Hit(Target(s, c))
    ensures (BlockedX(s, c) && c.vel.x != 0.0) || (BlockedY(s, c) && c.vel.y != 0.0)
  {
    hide TestBox;
    var t := Target(s, c);
    if c.vel.x == 0.0 {
      assert t == Vec(c.pos.x, t.y);
    }
    if c.vel.y == 0.0 {
      assert t == Vec(t.x, c.pos.y);
    }
    assert Vec(c.pos.x, c.pos.y) == c.pos;
  }

  /** A sub-step lost is not made up for. */
  lemma {:induction false} LagsBehind(s: Scene, b: Body, k: nat, n: nat)
    requires s.Valid() && k < n
    ensures Moved(s, b, k + 1).pos.x == Moved(s, b, k).pos.x ==>
              Abs(Moved(s, b, n).pos.x - b.pos.x) <= Reach(n - 1, b.vel.x, s.fraction)
    ensures Moved(s, b, k + 1).pos.y == Moved(s, b, k).pos.y ==>
              Abs(Moved(s, b, n).pos.y - b.pos.y) <= Reach(n - 1, b.vel.y, s.fraction)
  {
    hide Rests, SubStep, Abs, Reach;
    if n == k + 1 {
      MovedGoes(s, b, k);
    } else {
      var c := Moved(s, b, n - 1);
      var d := if Rests(s, c) then c else SubStep(s, c);
      LagsBehind(s, b, k, n - 1);
      MovedSlows(s, b, n - 1);
      SubStepGoes(s, c);
      if Moved(s, b, k + 1).pos.x == Moved(s, b, k).pos.x {
        OneStepMore(n - 1, b.pos.x, c.pos.x, d.pos.x, b.vel.x, c.vel.x, s.fraction);
      }
      if Moved(s, b, k + 1).pos.y == Moved(s, b, k).pos.y {
        OneStepMore(n - 1, b.pos.y, c.pos.y, d.pos.y, b.vel.y, c.vel.y, s.fraction);
      }
    }
  }

  lemma ReachAll(n: nat, v: real, f: real)
    requires n > 0 && f > 0.0 && f * n as real == 1.0
    ensures Reach(n, v, f) == Abs(v) && Reach(n, v, f) == Reach(n - 1, v, f) + Abs(v) * f
  {
    hide Abs;
    OneMore(n, Abs(v) * f);
    ShareOfOne(n as real, Abs(v), f);
  }

  lemma SomeStep(v: real, f: real)
    requires v != 0.0 && f > 0.0
    ensures Abs(v) * f > 0.0
  {
  }

  /** One sub-step less than all of them falls short. */
  lemma FallsShort(n: nat, p: real, q: real, v: real, f: real)
    requires n > 0 && f > 0.0 && f * n as real == 1.0 && v != 0.0
    requires Abs(q - p) <= Reach(n - 1, v, f)
    ensures q != p + v
  {
    ReachAll(n, v, f);
    SomeStep(v, f);
    var step := Abs(v) * f;
    hide Reach;
    assert Abs(q - p) <= Abs(v) - step;
  }

  lemma EndOfPath(s: Scene, b: Body, n: nat)
    requires s.fraction * n as real == 1.0
    ensures PathPoint(s, b, n) == Plus(b.pos, b.vel)
  {
    Unit(b.vel.x, n as real * s.fraction);
    Unit(b.vel.y, n as real * s.fraction);
  }

  /** In the sub-step that meets the first obstacle the body stays where it is along an axis it moves along. */
  lemma StopsAtHit(s: Scene, b: Body, k: nat)
    requires s.Valid() && !s.Hit(b.pos) && PathIsClear(s, b, k) && s.Hit(PathPoint(s, b, k + 1))
    ensures var c, d := Moved(s, b, k), Moved(s, b, k + 1);
            (b.vel.x != 0.0 && d.pos.x == c.pos.x) || (b.vel.y != 0.0 && d.pos.y == c.pos.y)
  {
    var c := Moved(s, b, k);
    StraightAhead(s, b, k);
    NextPathPoint(s, b, k);
    MovedStaysFree(s, b, k);
    hide TestBox, Moved, PathPoint, BlockedX, BlockedY, Bounced, Lands, PathIsClear;
    assert Target(s, c) == PathPoint(s, b, k + 1);
    HitStopsAnAxis(s, c);
    OneMoreSubStep(s, b, k);
  }

  lemma OneMoreSubStep(s: Scene, b: Body, k: nat)
    requires s.Valid()
    ensures Moved(s, b, k + 1) == SubStep(s, Moved(s, b, k))
  {
    hide Rests, SubStep;
    if Rests(s, Moved(s, b, k)) {
      RestingSubStep(s, Moved(s, b, k));
    }
  }

  lemma NotAtEnd(s: Scene, b: Body, n: nat)
    requires s.Valid() && !s.Hit(b.pos) && !PathIsClear(s, b, n) && n > 0 && s.fraction * n as real == 1.0
    ensures Moved(s, b, n).pos != Plus(b.pos, b.vel)
  {
    hide TestBox, Reach, Abs, Moved, PathPoint, PathIsClear;
    var k := FirstHit(s, b, n);
    StopsAtHit(s, b, k);
    LagsBehind(s, b, k, n);
    var q := Moved(s, b, n).pos;
    if b.vel.x != 0.0 && Moved(s, b, k + 1).pos.x == Moved(s, b, k).pos.x {
      FallsShort(n, b.pos.x, q.x, b.vel.x, s.fraction);
    } else {
      FallsShort(n, b.pos.y, q.y, b.vel.y, s.fraction);
    }
  }

  lemma EndsIff(s: Scene, d: Body, n: nat)
    requires s.Valid() && !s.Hit(d.pos) && n > 0 && s.fraction * n as real == 1.0
    ensures Moved(s, d, n).pos == Plus(d.pos, d.vel) <==> PathIsClear(s, d, n)
    ensures PathIsClear(s, d, n) ==> Moved(s, d, n) == Body(Plus(d.pos, d.vel), d.vel, d.grounded)
  {
    hide TestBox, Moved, PathPoint, PathIsClear, Plus;
    if PathIsClear(s, d, n) {
      StraightAhead(s, d, n);
      EndOfPath(s, d, n);
    } else {
      NotAtEnd(s, d, n);
    }
  }

  /** A box that starts free, and not too slow, gets to where its velocity points if and only if it hits nothing at the
      points in between; then it also keeps its velocity. */
  lemma ArrivesIff(m: GameMap, size: Vec, elasticity: Vec, b: Body)
    requires m.Valid() && !IsSlow(b.vel) && !TestBox(m, b.pos, size)
    ensures var r := Result(m, size, elasticity, b);
            var clear := PathIsClear(SceneOf(m, size, elasticity, b.vel), b, Max(b.vel) + 1);
            && (r.pos == Plus(b.pos, b.vel) <==> clear)
            && (clear ==> r == Body(Plus(b.pos, b.vel), b.vel, b.grounded))
  {
    hide TestBox, Max, Fraction, IsSlow, Moved, PathIsClear, Plus;
    EndsIff(SceneOf(m, size, elasticity, b.vel), b, Max(b.vel) + 1);
  }

  // Sliding along a floor or a wall.

  /** The first sub-step is blocked along the y axis, for the move along it alone and for the whole one. */
  predicate IsOnFloor(s: Scene, b: Body)
    requires s.m.Valid()
  {
    var t := Target(s, b);
    s.elasticity.y == 0.0 && s.Hit(t) && s.Hit(Vec(b.pos.x, t.y))
  }

  predicate IsAtWall(s: Scene, b: Body)
    requires s.m.Valid()
  {
    var t := Target(s, b);
    s.elasticity.x == 0.0 && s.Hit(t) && s.Hit(Vec(t.x, b.pos.y))
  }

  function WithoutY(b: Body): Body {
    b.(vel := Vec(b.vel.x, 0.0))
  }

  function WithoutX(b: Body): Body {
    b.(vel := Vec(0.0, b.vel.y))
  }

  lemma StillAxis(p: real, f: real)
    ensures p + 0.0 * f == p
  {
  }

  lemma NoBounce(v: real)
    ensures Bounced(v, 0.0) == 0.0
  {
  }

  /** Where that is so, the sub-step is the one of a body without a velocity along that axis. */
  lemma DropsY(s: Scene, b: Body)
    requires s.m.Valid() && !s.Hit(b.pos) && IsOnFloor(s, b)
    ensures SubStep(s, b) == SubStep(s, WithoutY(b))
  {
    hide TestBox, Bounced;
    StillAxis(b.pos.y, s.fraction);
    NoBounce(b.vel.y);
    NoBounce(0.0);
    var t, d := Target(s, b), WithoutY(b);
    assert Target(s, d) == Vec(t.x, b.pos.y) && Vec(b.pos.x, b.pos.y) == b.pos;
    assert BlockedY(s, b) && !BlockedY(s, d) && (BlockedX(s, b) <==> BlockedX(s, d));
    hide BlockedX, BlockedY, IsOnFloor;
  }

  lemma DropsX(s: Scene, b: Body)
    requires s.m.Valid() && !s.Hit(b.pos) && IsAtWall(s, b)
    ensures SubStep(s, b) == SubStep(s, WithoutX(b))
  {
    hide TestBox, Bounced;
    StillAxis(b.pos.x, s.fraction);
    NoBounce(b.vel.x);
    NoBounce(0.0);
    var t, d := Target(s, b), WithoutX(b);
    assert Target(s, d) == Vec(b.pos.x, t.y) && Vec(b.pos.x, b.pos.y) == b.pos;
    assert BlockedX(s, b) && !BlockedX(s, d) && (BlockedY(s, b) <==> BlockedY(s, d));
    hide BlockedX, BlockedY, IsAtWall;
  }

  lemma DropsAxisForGood(s: Scene, b: Body, d: Body, n: nat)
    requires s.Valid() && SubStep(s, b) == SubStep(s, d) && n > 0
    ensures Moved(s, b, n) == Moved(s, d, n)
  {
    hide SubStep, Moved;
    EarlyExitChangesNothing(s, b, n);
    EarlyExitChangesNothing(s, d, n);
    SameSubSteps(s, b, d, n);
  }

  lemma {:induction false} SameSubSteps(s: Scene, b: Body, d: Body, n: nat)
    requires s.m.Valid() && SubStep(s, b) == SubStep(s, d) && n > 0
    ensures AllSubSteps(s, b, n) == AllSubSteps(s, d, n)
  {
    hide SubStep;
    if n > 1 {
      SameSubSteps(s, b, d, n - 1);
    }
  }

  /** `r` is where `d` gets to, straight ahead. */
  ghost predicate EndsAs(s: Scene, r: Body, d: Body, n: nat)
    requires s.m.Valid()
  {
    && (r.pos == Plus(d.pos, d.vel) <==> PathIsClear(s, d, n))
    && (PathIsClear(s, d, n) ==> r == Body(Plus(d.pos, d.vel), d.vel, d.grounded))
  }

  lemma SlidesAs(s: Scene, b: Body, d: Body, n: nat)
    requires s.Valid() && !s.Hit(d.pos) && n > 0 && s.fraction * n as real == 1.0
    requires SubStep(s, b) == SubStep(s, d)
    ensures EndsAs(s, Moved(s, b, n), d, n)
  {
    hide TestBox, Moved, PathIsClear, Plus, SubStep;
    DropsAxisForGood(s, b, d, n);
    EndsIff(s, d, n);
  }

  lemma SlidesInScene(s: Scene, b: Body, n: nat)
    requires s.Valid() && !s.Hit(b.pos) && n > 0 && s.fraction * n as real == 1.0
    ensures IsOnFloor(s, b) ==> EndsAs(s, Moved(s, b, n), WithoutY(b), n)
    ensures IsAtWall(s, b) ==> EndsAs(s, Moved(s, b, n), WithoutX(b), n)
  {
    hide TestBox, Moved, EndsAs, SubStep, IsOnFloor, IsAtWall;
    if IsOnFloor(s, b) {
      DropsY(s, b);
      SlidesAs(s, b, WithoutY(b), n);
    }
    if IsAtWall(s, b) {
      DropsX(s, b);
      SlidesAs(s, b, WithoutX(b), n);
    }
  }

  lemma ResultIs(m: GameMap, size: Vec, elasticity: Vec, b: Body)
    requires m.Valid() && !IsSlow(b.vel)
    ensures Result(m, size, elasticity, b) == Moved(SceneOf(m, size, elasticity, b.vel), b, Max(b.vel) + 1)
  {
    hide Max, SceneOf, Moved, IsSlow;
  }

  /** A box that is blocked along one axis at once, and does not bounce there, slides: it gets as far as its velocity
      along the other axis points if and only if it hits nothing at the points in between, and keeps that velocity. */
  lemma SlidesIff(m: GameMap, size: Vec, elasticity: Vec, b: Body)
    requires m.Valid() && !IsSlow(b.vel) && !TestBox(m, b.pos, size)
    ensures var s, r := SceneOf(m, size, elasticity, b.vel), Result(m, size, elasticity, b);
            && (IsOnFloor(s, b) ==> EndsAs(s, r, WithoutY(b), Max(b.vel) + 1))
            && (IsAtWall(s, b) ==> EndsAs(s, r, WithoutX(b), Max(b.vel) + 1))
  {
    hide TestBox, Max, Fraction, IsSlow, Moved, EndsAs, IsOnFloor, IsAtWall, Result, SceneOf, Dot, WithoutX, WithoutY;
    ResultIs(m, size, elasticity, b);
    SceneIs(m, size, elasticity, b.vel);
    SlidesInScene(SceneOf(m, size, elasticity, b.vel), b, Max(b.vel) + 1);
  }

  // What the grounded flag means.

  lemma AbsSquared(a: real)
    ensures Abs(a) * Abs(a) == a * a
  {
  }

  lemma BelowRoot(a: real, aa: real, k: real, kk: real)
    requires aa == a * a && kk == k * k && aa < kk && k > 0.0
    ensures Abs(a) < k
  {
    AbsSquared(a);
    if Abs(a) >= k {
      SquareMonotone(k, Abs(a));
    }
  }

  lemma ShareIsBelowOne(w: real, a: real, aa: real, other: real, k: real, kk: real, f: real, d: real)
    requires aa == a * a && other >= 0.0 && aa + other < kk && kk == k * k && k > 0.0
    requires f > 0.0 && f * k == 1.0 && Abs(w) <= Abs(a) && d == w * f
    ensures Abs(d) < 1.0
  {
    BelowRoot(a, aa, k, kk);
    AbsTimes(w, f);
    hide Abs;
    LessTimes(Abs(w), k, f, 1.0);
  }

  lemma LessThanOne(v: Vec, w: Vec, k: real, f: real, dx: real, dy: real)
    requires Dot(v, v) < k * k && k > 0.0 && f > 0.0 && f * k == 1.0
    requires Abs(w.x) <= Abs(v.x) && Abs(w.y) <= Abs(v.y) && dx == w.x * f && dy == w.y * f
    ensures Abs(dx) < 1.0 && Abs(dy) < 1.0
  {
    hide Abs;
    var xx, yy, kk := v.x * v.x, v.y * v.y, k * k;
    Square(v.x);
    Square(v.y);
    ShareIsBelowOne(w.x, v.x, xx, yy, k, kk, f, dx);
    ShareIsBelowOne(w.y, v.y, yy, xx, k, kk, f, dy);
  }

  lemma Square(x: real)
    ensures x * x >= 0.0
  {
  }

  /** A raised flag means a floor: from where the body was in some sub-step, less than one unit further down an obstacle
      is in the way, straight below or, when both moves along one axis are free, at less than one unit to the side. */
  lemma FloorIsNear(m: GameMap, size: Vec, elasticity: Vec, b: Body) returns (k: nat, dx: real, dy: real)
    requires m.Valid() && !b.grounded && Result(m, size, elasticity, b).grounded
    ensures elasticity.y > 0.0 && k <= Max(b.vel) && Abs(dx) < 1.0 && 0.0 < dy < 1.0
    ensures var pos := Moved(SceneOf(m, size, elasticity, b.vel), b, k).pos;
            || TestBox(m, Vec(pos.x, pos.y + dy), size)
            || (TestBox(m, Vec(pos.x + dx, pos.y + dy), size) && !TestBox(m, Vec(pos.x + dx, pos.y), size) &&
                !TestBox(m, Vec(pos.x, pos.y + dy), size))
  {
    hide TestBox, Max, IsSlow, Moved, Abs, Lands, Result, SceneOf, Dot, Target;
    var s := SceneOf(m, size, elasticity, b.vel);
    SceneIs(m, size, elasticity, b.vel);
    k := SomeSubStepLands(m, size, elasticity, b);
    var c := Moved(s, b, k);
    MovedSlows(s, b, k);
    dx, dy := c.vel.x * s.fraction, c.vel.y * s.fraction;
    LessThanOne(b.vel, c.vel, (Max(b.vel) + 1) as real, s.fraction, dx, dy);
    LandingHits(s, c);
    DownIsDown(c.vel.y, s.fraction, dy);
    TargetIs(s, c, dx, dy);
  }

  lemma TargetIs(s: Scene, c: Body, dx: real, dy: real)
    requires dx == c.vel.x * s.fraction && dy == c.vel.y * s.fraction
    ensures Target(s, c) == Vec(c.pos.x + dx, c.pos.y + dy)
  {
  }

  lemma SceneIs(m: GameMap, size: Vec, elasticity: Vec, vel: Vec)
    requires m.Valid()
    ensures var s := SceneOf(m, size, elasticity, vel);
            && s.m == m && s.size == size && s.fraction * (Max(vel) + 1) as real == 1.0
            && (s.elasticity.y > 0.0 <==> elasticity.y > 0.0)
  {
    hide Max, Fraction;
  }

  lemma SomeSubStepLands(m: GameMap, size: Vec, elasticity: Vec, b: Body) returns (k: nat)
    requires m.Valid() && !b.grounded && Result(m, size, elasticity, b).grounded
    ensures var s := SceneOf(m, size, elasticity, b.vel); k <= Max(b.vel) && Lands(s, Moved(s, b, k))
  {
    hide Max, Fraction, IsSlow, Moved, Rests, Lands;
    var s := SceneOf(m, size, elasticity, b.vel);
    GroundedIff(s, b, Max(b.vel) + 1);
    k :| 0 <= k <= Max(b.vel) && Lands(s, Moved(s, b, k));
  }

  lemma LandingHits(s: Scene, c: Body)
    requires s.Valid() && Lands(s, c)
    ensures s.elasticity.y > 0.0 && c.vel.y > 0.0
    ensures var t := Target(s, c);
            || s.Hit(Vec(c.pos.x, t.y))
            || (s.Hit(t) && !s.Hit(Vec(t.x, c.pos.y)) && !s.Hit(Vec(c.pos.x, t.y)))
  {
    hide TestBox, Target;
  }

  lemma DownIsDown(v: real, f: real, d: real)
    requires v > 0.0 && f > 0.0 && d == v * f
    ensures d > 0.0 && Abs(d) == d
  {
  }
}
