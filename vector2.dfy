// src/linalg/Vector2.ts: a two-dimensional vector. The source wraps a p5
// `Vector`; here the wrapped value is the datatype `Vec`, and `Vector2` is a
// class holding one, so that its mutating methods change an object in place
// exactly as the source's do.

module Vectors {
  import opened Common

  /** The value held by a p5 `Vector`. */
  datatype Vec = Vec(x: real, y: real) {

    /** p5's `add`: subtracting either summand from the sum gives back the other. */
    function Plus(o: Vec): (r: Vec)
      ensures r.x - o.x == x && r.y - o.y == y
      ensures r.x - x == o.x && r.y - y == o.y
    {
      Vec(x + o.x, y + o.y)
    }

    /** p5's `sub`: the difference is zero exactly when the two vectors are equal. */
    function Minus(o: Vec): (r: Vec)
      ensures r == Vec(0.0, 0.0) <==> this == o
    {
      Vec(x - o.x, y - o.y)
    }

    /** p5's `mult`: the product is zero exactly when the factor or the vector is, and a factor of 1 changes nothing. */
    function Scale(k: real): (r: Vec)
      ensures r == Vec(0.0, 0.0) <==> k == 0.0 || this == Vec(0.0, 0.0)
      ensures k == 1.0 ==> r == this
    {
      Vec(k * x, k * y)
    }

    /**
     * Stands for p5's `mag()`. The model measures length with the maximum
     * norm max(|x|, |y|): it needs no square root, and it has the facts every
     * contract below relies on (non-negative, zero exactly for the zero vector,
     * and |k v| = |k| |v|).
     */
    function Len(): (r: real)
      ensures r >= 0.0
      ensures r == 0.0 <==> this == Vec(0.0, 0.0)
      ensures Abs(x) <= r && Abs(y) <= r
    {
      Max(Abs(x), Abs(y))
    }

    /**
     * p5's `setMag(l)`: normalize, then multiply by `l`. A zero vector stays
     * zero (p5 does not divide by a zero length); any other vector keeps its
     * heading (turned around when `l` is negative) and gets length |l|.
     */
    function WithLength(l: real): (r: Vec)
      ensures this == Vec(0.0, 0.0) ==> r == this
      ensures this != Vec(0.0, 0.0) ==> r.Len() == Abs(l)
      ensures l >= 0.0 ==> Parallel(r, this)
    {
      if this == Vec(0.0, 0.0) then assert this == Scale(1.0); this
      else
        RescaledLength(this, l);
        Scale(l / Len())
    }

    /**
     * `capLength(max)` (src/linalg/Vector2.ts:35-43): shortens the vector to
     * `max` when it is longer, and otherwise leaves it alone.
     */
    function Capped(max: real): (r: Vec)
      ensures Len() <= max ==> r == this
      ensures max >= 0.0 ==> r.Len() <= max
      ensures max >= 0.0 && Len() > max ==> r.Len() == max
      ensures max >= 0.0 ==> Parallel(r, this)
    {
      if Len() > max then WithLength(max) else assert this == Scale(1.0); this
    }
  }

  const ZeroVec: Vec := Vec(0.0, 0.0)

  /** `r` points the same way as `v` (or is zero): it is `v` scaled by a non-negative factor. */
  ghost predicate Parallel(r: Vec, v: Vec)
  {
    exists k: real :: k >= 0.0 && r == v.Scale(k)
  }

  lemma AbsProduct(a: real, b: real)
    ensures Abs(a * b) == Abs(a) * Abs(b)
  {
    if a >= 0.0 && b >= 0.0 {
      ProductNonNegative(a, b, a * b);
    } else if a >= 0.0 {
      ProductNonNegative(a, -b, a * -b);
    } else if b >= 0.0 {
      ProductNonNegative(-a, b, -a * b);
    } else {
      ProductNonNegative(-a, -b, -a * -b);
    }
  }

  lemma AbsQuotient(l: real, d: real)
    requires d > 0.0
    ensures Abs(l / d) * d == Abs(l)
  {
    var q := l / d;
    assert q * d == l;
    if q >= 0.0 {
      ProductNonNegative(q, d, l);
    } else {
      ProductPositive(-q, d, -l);
    }
  }

  lemma QuotientNonNegative(a: real, b: real)
    requires a >= 0.0 && b > 0.0
    ensures a / b >= 0.0
  {
    var q := a / b;
    assert q * b == a;
    if q < 0.0 {
      ProductPositive(-q, b, -a);
    }
  }

  /** Scaling a non-zero vector by `l / |v|` gives it length |l|, without turning it around when l >= 0. */
  lemma RescaledLength(v: Vec, l: real)
    requires v != Vec(0.0, 0.0)
    ensures v.Scale(l / v.Len()).Len() == Abs(l)
    ensures l >= 0.0 ==> l / v.Len() >= 0.0
  {
    LenPositive(v);
    AbsQuotient(l, v.Len());
    if l >= 0.0 {
      QuotientNonNegative(l, v.Len());
    }
    ScaledToLength(v, l / v.Len(), l);
  }

  /** Scaling by any k with |k| |v| = |l| gives length |l|. */
  lemma ScaledToLength(v: Vec, k: real, l: real)
    requires Abs(k) * v.Len() == Abs(l)
    ensures v.Scale(k).Len() == Abs(l)
  {
    LenScale(v, k);
  }

  lemma LenPositive(v: Vec)
    requires v != Vec(0.0, 0.0)
    ensures v.Len() > 0.0
  {
  }

  /** Length is absolutely homogeneous: |k v| = |k| |v|. */
  lemma LenScale(v: Vec, k: real)
    ensures v.Scale(k).Len() == Abs(k) * v.Len()
  {
    ScaledCoordinates(v, k, v.Scale(k));
  }

  /** Any w whose coordinates are those of v times k has length |k| |v|. */
  lemma ScaledCoordinates(v: Vec, k: real, w: Vec)
    requires w.x == k * v.x && w.y == k * v.y
    ensures w.Len() == Abs(k) * v.Len()
  {
    AbsProduct(k, v.x);
    AbsProduct(k, v.y);
    MaxScale(Abs(v.x), Abs(v.y), Abs(k), Abs(w.x), Abs(w.y), v.Len());
  }

  /** A non-negative factor distributes over `Max`: max(c a, c b) = c m where m = max(a, b). */
  lemma MaxScale(a: real, b: real, c: real, ca: real, cb: real, m: real)
    requires c >= 0.0 && ca == c * a && cb == c * b && m == Max(a, b)
    ensures Max(ca, cb) == c * m
  {
    if a >= b {
      ProductNonNegative(c, a - b, ca - cb);
    } else {
      ProductNonNegative(c, b - a, cb - ca);
    }
  }

  /** Capping twice at the same non-negative bound is capping once. */
  lemma CappedIdempotent(v: Vec, max: real)
    requires max >= 0.0
    ensures v.Capped(max).Capped(max) == v.Capped(max)
  {
  }

  /** Subtracting undoes adding, componentwise. */
  lemma PlusMinusInverse(a: Vec, b: Vec)
    ensures a.Plus(b).Minus(b) == a && a.Minus(b).Plus(b) == a
  {
  }

  /**
   * src/linalg/Vector2.ts: an object wrapping one mutable vector value. The
   * instance methods change `vector` in place and return the receiver, for
   * chaining; the static methods build new objects.
   */
  class Vector2 {
    var vector: Vec

    constructor (x: real, y: real)
      ensures vector == Vec(x, y)
    {
      vector := Vec(x, y);
    }

    static method Create(x: real, y: real) returns (v: Vector2)
      ensures fresh(v) && v.vector == Vec(x, y)
    {
      v := new Vector2(x, y);
    }

    static method Zero() returns (v: Vector2)
      ensures fresh(v) && v.vector == ZeroVec
    {
      v := new Vector2(0.0, 0.0);
    }

    /** A distinct object with equal components. */
    method Copy() returns (c: Vector2)
      ensures fresh(c) && c.vector == vector
    {
      c := Create(vector.x, vector.y);
    }

    function X(): real
      reads this
    {
      vector.x
    }

    function Y(): real
      reads this
    {
      vector.y
    }

    function Length(): real
      reads this
    {
      vector.Len()
    }

    method SetLength(l: real) returns (self: Vector2)
      modifies this
      ensures self == this
      ensures vector == old(vector).WithLength(l)
    {
      vector := vector.WithLength(l);
      self := this;
    }

    method CapLength(max: real) returns (self: Vector2)
      modifies this
      ensures self == this
      ensures vector == old(vector).Capped(max)
    {
      if vector.Len() > max {
        self := SetLength(max);
      }
      self := this;
    }

    method Multiply(k: real) returns (self: Vector2)
      modifies this
      ensures self == this
      ensures vector == old(vector).Scale(k)
    {
      vector := vector.Scale(k);
      self := this;
    }

    /** Adds `other` into this vector; `other` may be this very object. */
    method Add(other: Vector2) returns (self: Vector2)
      modifies this
      ensures self == this
      ensures vector == old(vector).Plus(old(other.vector))
      ensures other != this ==> other.vector == old(other.vector)
    {
      vector := vector.Plus(other.vector);
      self := this;
    }

    method Subtract(other: Vector2) returns (self: Vector2)
      modifies this
      ensures self == this
      ensures vector == old(vector).Minus(old(other.vector))
      ensures other != this ==> other.vector == old(other.vector)
    {
      vector := vector.Minus(other.vector);
      self := this;
    }

    /** Static `Vector2.add`: a fresh vector; neither argument changes. */
    static method Sum(a: Vector2, b: Vector2) returns (r: Vector2)
      ensures fresh(r) && r.vector == a.vector.Plus(b.vector)
    {
      r := Create(a.vector.x + b.vector.x, a.vector.y + b.vector.y);
    }

    /** Static `Vector2.subtract`: a fresh vector; neither argument changes. */
    static method Difference(a: Vector2, b: Vector2) returns (r: Vector2)
      ensures fresh(r) && r.vector == a.vector.Minus(b.vector)
    {
      r := Create(a.vector.x - b.vector.x, a.vector.y - b.vector.y);
    }
  }
}
