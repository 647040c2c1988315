// src/linalg/SimpleEntity.ts: a point that moves by its speed, its speed
// driven by an acceleration that fades out. Its three vectors are separate
// `Vector2` objects that `update()` changes in place.

module Entity {
  import opened Common
  import opened Vectors
  import opened Motion

  class SimpleEntity {
    var position: Vector2
    var speed: Vector2
    var acceleration: Vector2

    /** The three vectors are three different objects, so updating one never moves another. */
    ghost predicate Valid()
      reads this
    {
      position != speed && speed != acceleration && position != acceleration
    }

    /** The values the three objects hold. */
    function State(): Body
      reads this, position, speed, acceleration
    {
      Body(position.vector, speed.vector, acceleration.vector)
    }

    /** Starts at (x, y), at rest and unpushed (SimpleEntity.ts:8-12). */
    constructor (x: real, y: real)
      ensures Valid()
      ensures State() == Body(Vec(x, y), ZeroVec, ZeroVec)
      ensures fresh(position) && fresh(speed) && fresh(acceleration)
    {
      var p := Vector2.Create(x, y);
      var s := Vector2.Zero();
      var a := Vector2.Zero();
      position, speed, acceleration := p, s, a;
    }

    function X(): (x: real)
      reads this, position, speed, acceleration
      ensures x == State().position.x
    {
      position.X()
    }

    function Y(): (y: real)
      reads this, position, speed, acceleration
      ensures y == State().position.y
    {
      position.Y()
    }

    /**
     * Replaces the acceleration by a fresh copy of `a` scaled by the draw `r`
     * (`Math.random()`); `a` itself, the position and the speed are left as
     * they were.
     */
    method SetAcceleration(a: Vector2, r: real) returns (self: SimpleEntity)
      requires Valid()
      requires 0.0 <= r < 1.0
      modifies this
      ensures self == this && Valid()
      ensures fresh(acceleration)
      ensures position == old(position) && speed == old(speed)
      ensures State() == old(State()).(acceleration := old(a.vector).Scale(r))
      ensures a.vector == old(a.vector)
    {
      var copy := a.Copy();
      acceleration := copy.Multiply(r);
      self := this;
    }

    /** One tick with the speed-damping draw `r`: the state moves by `Step`. */
    method Update(r: real) returns (self: SimpleEntity)
      requires Valid()
      requires 0.0 <= r < 1.0
      modifies position, speed, acceleration
      ensures self == this && Valid()
      ensures State() == Step(old(State()), r)
    {
      var s := speed.Add(acceleration);
      s := s.CapLength(MaxSpeed);
      var p := position.Add(speed);
      var a := acceleration.SetLength(Max(0.0, acceleration.Length() - AccelerationDecay));
      s := speed.SetLength(Max(0.0, speed.Length() - Damping(r)));
      self := this;
    }
  }
}
