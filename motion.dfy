// The per-tick kinematics shared by src/linalg/SimpleEntity.ts:27-36 and
// src/linalg/Trail.ts:50-61: accelerate, cap the speed, move, then let the
// acceleration fade and damp the speed by a random amount.

module Motion {
  import opened Common
  import opened Vectors

  /** The speed is capped at this length (SimpleEntity.ts:28, Trail.ts:51). */
  const MaxSpeed: real := 3.0
  /** The acceleration loses this much length per tick (SimpleEntity.ts:30, Trail.ts:56). */
  const AccelerationDecay: real := 0.05
  /** The speed loses up to this much length per tick, scaled by a random draw (SimpleEntity.ts:33, Trail.ts:58). */
  const SpeedDamping: real := 0.02

  /** How much speed one tick's damping removes for the draw `r`. */
  function Damping(r: real): (d: real)
    requires 0.0 <= r < 1.0
    ensures 0.0 <= d < SpeedDamping
  {
    SpeedDamping * r
  }

  /** Where a body is, how fast it moves and how it is pushed. */
  datatype Body = Body(position: Vec, speed: Vec, acceleration: Vec)

  /** The speed after `speed.add(acceleration).capLength(3)`. */
  function CappedSpeed(b: Body): (s: Vec)
    ensures s.Len() <= MaxSpeed
    ensures b.speed.Plus(b.acceleration).Len() <= MaxSpeed ==> s == b.speed.Plus(b.acceleration)
  {
    b.speed.Plus(b.acceleration).Capped(MaxSpeed)
  }

  /**
   * One `update()` with the damping draw `r` (the `Math.random()` of the last
   * statement): the speed takes the acceleration and is capped at 3, the
   * position moves by that capped speed, the acceleration's length drops by
   * 0.05 (not below 0), and the speed's length drops by 0.02 r (not below 0).
   * The self-`setHeading` between the last two steps keeps the heading and is
   * not modelled.
   */
  function Step(b: Body, r: real): (n: Body)
    requires 0.0 <= r < 1.0
    ensures n.position == b.position.Plus(CappedSpeed(b))
    ensures n.speed.Len() <= CappedSpeed(b).Len() <= MaxSpeed
    ensures CappedSpeed(b) != ZeroVec ==> n.speed.Len() == Max(0.0, CappedSpeed(b).Len() - Damping(r))
    ensures Parallel(n.speed, CappedSpeed(b))
    ensures n.acceleration.Len() == Max(0.0, b.acceleration.Len() - AccelerationDecay)
    ensures Parallel(n.acceleration, b.acceleration)
  {
    var speed := CappedSpeed(b);
    var acceleration := b.acceleration.WithLength(Max(0.0, b.acceleration.Len() - AccelerationDecay));
    Body(b.position.Plus(speed), speed.WithLength(Max(0.0, speed.Len() - Damping(r))), acceleration)
  }

  /** A body with no speed and no acceleration stays where it is. */
  lemma AtRestStaysAtRest(b: Body, r: real)
    requires 0.0 <= r < 1.0 && b.speed == ZeroVec && b.acceleration == ZeroVec
    ensures Step(b, r) == b
  {
    NoPushNoSpeed(b);
    PlusZero(b.position);
  }

  lemma PlusZero(p: Vec)
    ensures p.Plus(ZeroVec) == p
  {
  }

  lemma NoPushNoSpeed(b: Body)
    requires b.speed == ZeroVec && b.acceleration == ZeroVec
    ensures CappedSpeed(b) == ZeroVec
  {
    assert b.speed.Plus(b.acceleration) == ZeroVec;
    assert ZeroVec.Len() == 0.0;
  }

  /**
   * A body at rest pushed along the x axis moves along that axis only: one
   * tick leaves its y and its vertical speed at zero change, moves it forward
   * (for a forward push) and keeps its speed within the cap.
   */
  lemma PushedAlongX(b: Body, r: real)
    requires 0.0 <= r < 1.0
    requires b.speed == ZeroVec && b.acceleration.y == 0.0
    ensures Step(b, r).position.y == b.position.y
    ensures Step(b, r).speed.y == 0.0 && Step(b, r).speed.Len() <= MaxSpeed
    ensures b.acceleration.x >= 0.0 ==> Step(b, r).position.x >= b.position.x
  {
    CappedAlongX(b);
    var capped := CappedSpeed(b);
    var n := Step(b, r);
    var m: real :| m >= 0.0 && n.speed == capped.Scale(m);
    ScaledAlongX(capped, m);
  }

  /** The capped speed of a body at rest pushed along the x axis lies on that axis, on the push's side. */
  lemma CappedAlongX(b: Body)
    requires b.speed == ZeroVec && b.acceleration.y == 0.0
    ensures CappedSpeed(b).y == 0.0
    ensures b.acceleration.x >= 0.0 ==> CappedSpeed(b).x >= 0.0
  {
    var pushed := b.speed.Plus(b.acceleration);
    assert pushed == Vec(b.acceleration.x, 0.0);
    var k: real :| k >= 0.0 && CappedSpeed(b) == pushed.Scale(k);
    ScaledAlongX(pushed, k);
  }

  /** Scaling a vector on the x axis by a non-negative factor keeps it on that axis and on its side. */
  lemma ScaledAlongX(v: Vec, k: real)
    requires v.y == 0.0 && k >= 0.0
    ensures v.Scale(k).y == 0.0
    ensures v.x >= 0.0 ==> v.Scale(k).x >= 0.0
  {
    if v.x >= 0.0 {
      ProductNonNegative(k, v.x, k * v.x);
    }
  }

  /** A draw in [0, 1) removes less than 0.02 of the capped speed's length. */
  lemma DampingIsSmall(b: Body, r: real)
    requires 0.0 <= r < 1.0
    ensures CappedSpeed(b).Len() - SpeedDamping <= Step(b, r).speed.Len()
  {
  }

  /** Ticks in sequence, one damping draw per tick. */
  function Steps(b: Body, draws: seq<real>): Body
    requires forall k :: 0 <= k < |draws| ==> 0.0 <= draws[k] < 1.0
    decreases |draws|
  {
    if draws == [] then b else Steps(Step(b, draws[0]), draws[1..])
  }

  /** After n ticks the acceleration's length is max(0, initial - 0.05 n): it fades out and never comes back. */
  lemma {:induction false} AccelerationFades(b: Body, draws: seq<real>)
    requires forall k :: 0 <= k < |draws| ==> 0.0 <= draws[k] < 1.0
    ensures Steps(b, draws).acceleration.Len() == Max(0.0, b.acceleration.Len() - AccelerationDecay * |draws| as real)
    decreases |draws|
  {
    if draws != [] {
      AccelerationFades(Step(b, draws[0]), draws[1..]);
    }
  }

  /** A body that starts within the speed cap stays within it on every later tick. */
  lemma {:induction false} SpeedStaysCapped(b: Body, draws: seq<real>)
    requires forall k :: 0 <= k < |draws| ==> 0.0 <= draws[k] < 1.0
    requires b.speed.Len() <= MaxSpeed
    ensures Steps(b, draws).speed.Len() <= MaxSpeed
    decreases |draws|
  {
    if draws != [] {
      SpeedStaysCapped(Step(b, draws[0]), draws[1..]);
    }
  }
}
