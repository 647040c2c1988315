// Helpers shared by the whole model: an Option type, JavaScript numbers that
// may be NaN, the grid options record, real-number helpers and a sequence filter.

module Common {

  datatype Option<+T> = None | Some(value: T)

  /** A JavaScript `number` that may be NaN: `None` stands for NaN. */
  type Num = Option<real>

  /** The `{ width, height, cellSize }` record shared by the field and the app state. */
  datatype GridOptions = GridOptions(width: Num, height: Num, cellSize: Num)

  function Max(a: real, b: real): (m: real)
    ensures m >= a && m >= b && (m == a || m == b)
  {
    if a >= b then a else b
  }

  function Min(a: real, b: real): (m: real)
    ensures m <= a && m <= b && (m == a || m == b)
  {
    if a <= b then a else b
  }

  function Abs(a: real): (r: real)
    ensures r >= 0.0 && (r == a || r == -a)
  {
    if a >= 0.0 then a else -a
  }

  /** `Math.floor`. */
  function Floor(x: real): (r: int)
    ensures r as real <= x < r as real + 1.0
  {
    x.Floor
  }

  /** `Math.ceil`. */
  function Ceil(x: real): (r: int)
    ensures r as real - 1.0 < x <= r as real
  {
    -((-x).Floor)
  }

  // The solver reasons about the sign of a product more readily when the
  // product is named: these state the sign of `c`, given that it is `a * b`.

  lemma ProductNonNegative(a: real, b: real, c: real)
    requires a >= 0.0 && b >= 0.0 && c == a * b
    ensures c >= 0.0
  {
  }

  lemma ProductPositive(a: real, b: real, c: real)
    requires a > 0.0 && b > 0.0 && c == a * b
    ensures c > 0.0
  {
  }

  /** `Array.prototype.filter`: keeps, in order, the elements that satisfy `p`. */
  function Filter<T(!new)>(s: seq<T>, p: T -> bool): (r: seq<T>)
    ensures |r| <= |s|
    ensures forall x :: x in r <==> x in s && p(x)
  {
    if s == [] then []
    else (if p(s[0]) then [s[0]] else []) + Filter(s[1..], p)
  }
}
