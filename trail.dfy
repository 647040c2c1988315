// src/linalg/Trail.ts: a moving point meant to leave a trail. It moves like a
// `SimpleEntity`, but its `tail` and `head` are one and the same `Vector2`
// object, and its displacement history never grows past the single zero
// vector it starts with, so it has no sections to draw.

module Trails {
  import opened Common
  import opened Vectors
  import opened Segments
  import opened Motion

  /** A curved piece of a trail: a chord and its two control points. */
  datatype TrailSection = TrailSection(segment: LineSegment, controlPoints: (Vec, Vec))

  class Trail {
    var tail: Vector2
    var head: Vector2
    var speed: Vector2
    var acceleration: Vector2
    var displacements: seq<Vector2>

    /**
     * `tail` and `head` are the same object (Trail.ts:16), distinct from the
     * speed and acceleration objects; the history holds one entry, an object
     * of its own that no tick writes.
     */
    ghost predicate Valid()
      reads this
    {
      tail == head && head != speed && speed != acceleration && head != acceleration
      && |displacements| == 1
      && displacements[0] != head && displacements[0] != speed && displacements[0] != acceleration
    }

    function State(): Body
      reads this, head, speed, acceleration
    {
      Body(head.vector, speed.vector, acceleration.vector)
    }

    /** Starts at (x, y), at rest, with the history [0] (Trail.ts:15-20). */
    constructor (x: real, y: real)
      ensures Valid()
      ensures State() == Body(Vec(x, y), ZeroVec, ZeroVec)
      ensures tail.vector == Vec(x, y)
      ensures displacements[0].vector == ZeroVec
      ensures fresh(head) && fresh(speed) && fresh(acceleration) && fresh(displacements[0])
    {
      var h := Vector2.Create(x, y);
      var s := Vector2.Zero();
      var a := Vector2.Zero();
      var d := Vector2.Zero();
      tail, head, speed, acceleration, displacements := h, h, s, a, [d];
    }

    /** The head's x, which is also the tail's. */
    function X(): (x: real)
      reads this, tail, head, speed, acceleration
      requires Valid()
      ensures x == State().position.x && x == tail.vector.x
    {
      head.X()
    }

    /** The head's y, which is also the tail's. */
    function Y(): (y: real)
      reads this, tail, head, speed, acceleration
      requires Valid()
      ensures y == State().position.y && y == tail.vector.y
    {
      head.Y()
    }

    /**
     * The `sections` getter: it walks the history pairwise, does nothing with
     * a pair, and always answers with no sections.
     */
    method Sections() returns (sections: seq<TrailSection>)
      ensures sections == []
    {
      var i := 0;
      while i < |displacements|
        invariant 0 <= i <= |displacements|
        decreases |displacements| - i
      {
        i := i + 1;
      }
      sections := [];
    }

    /** Same as `SimpleEntity.setAcceleration`: a fresh copy of `a` scaled by the draw `r`. */
    method SetAcceleration(a: Vector2, r: real) returns (self: Trail)
      requires Valid()
      requires 0.0 <= r < 1.0
      modifies this
      ensures self == this && Valid()
      ensures fresh(acceleration)
      ensures State() == old(State()).(acceleration := old(a.vector).Scale(r))
      ensures tail == old(tail) && head == old(head) && speed == old(speed)
      ensures displacements == old(displacements) && displacements[0].vector == old(displacements[0].vector)
      ensures a.vector == old(a.vector)
    {
      var copy := a.Copy();
      acceleration := copy.Multiply(r);
      self := this;
    }

    /** The body of `commitDisplacement` names a threshold of 5 and the head, and does nothing with them. */
    method CommitDisplacement()
      ensures State() == old(State()) && displacements == old(displacements)
    {
    }

    /**
     * One tick with the speed-damping draw `r`: the head moves by `Step`, the
     * tail, being the head, moves with it, and the history stays as it was.
     */
    method Update(r: real) returns (self: Trail)
      requires Valid()
      requires 0.0 <= r < 1.0
      modifies head, speed, acceleration
      ensures self == this && Valid()
      ensures State() == Step(old(State()), r)
      ensures tail.vector == State().position
      ensures displacements == old(displacements)
      ensures displacements[0].vector == old(displacements[0].vector)
    {
      var s := speed.Add(acceleration);
      s := s.CapLength(MaxSpeed);
      var h := head.Add(speed);
      CommitDisplacement();
      var a := acceleration.SetLength(Max(0.0, acceleration.Length() - AccelerationDecay));
      s := speed.SetLength(Max(0.0, speed.Length() - Damping(r)));
      self := this;
    }
  }
}
