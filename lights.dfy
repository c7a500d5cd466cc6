/**
 * `TrafficLight` of simulator.py: a clock `t` that advances by `dt` each tick and a
 * green phase that alternates between horizontal and vertical traffic over a cycle
 * of `green + red` seconds. The clock and the durations are reals, as the source's
 * clock sums the frame times `clock.tick(60) / 1000.0`.
 */
module TrafficLights {
  import opened Geometry

  /** Python's `a // b` on floats: the quotient rounded towards minus infinity. */
  function FloorDiv(a: real, b: real): int
    requires b != 0.0
  {
    (a / b).Floor
  }

  /** Python's `a % b` on floats: the remainder takes the sign of the divisor. */
  function FloorMod(a: real, b: real): (r: real)
    requires b != 0.0
    ensures b > 0.0 ==> 0.0 <= r < b
    ensures b < 0.0 ==> b < r <= 0.0
    ensures a == FloorDiv(a, b) as real * b + r
  {
    FloorModBounds(a, b);
    a - FloorDiv(a, b) as real * b
  }

  /** The remainder is the divisor times the fractional part of the quotient, which lies in `[0, 1)`. */
  lemma FloorModBounds(a: real, b: real)
    requires b != 0.0
    ensures var r := a - FloorDiv(a, b) as real * b;
      (b > 0.0 ==> 0.0 <= r < b) && (b < 0.0 ==> b < r <= 0.0)
  {
    var q := a / b;
    var f := FloorDiv(a, b) as real;
    var d := q - f;
    assert 0.0 <= d < 1.0;
    assert a == q * b;
    assert a - f * b == d * b;
    if b > 0.0 {
      ProductSign(d, b);
      ProductSign(1.0 - d, b);
    } else {
      ProductSign(d, -b);
      ProductSign(1.0 - d, -b);
    }
  }

  /** A product of a non-negative and a positive factor is non-negative, and positive when both are. */
  lemma ProductSign(x: real, y: real)
    requires x >= 0.0 && y > 0.0
    ensures x * y >= 0.0 && (x > 0.0 ==> x * y > 0.0)
  {
  }

  /**
   * For a positive divisor the remainder is unique: any `a == q * b + r` with
   * `0 <= r < b` has `r` for its remainder.
   */
  lemma ModUnique(a: real, b: real, q: int, r: real)
    requires b > 0.0 && 0.0 <= r < b && a == q as real * b + r
    ensures FloorMod(a, b) == r
  {
    var z := r / b;
    assert z * b == r;
    assert a / b == q as real + z;
    if z < 0.0 {
      ProductSign(-z, b);
    } else if z >= 1.0 {
      ProductSign(z - 1.0, b);
    }
    assert FloorDiv(a, b) == q;
  }

  /** FloorMod only depends on `a` up to whole cycles. */
  lemma FloorModPeriodic(a: real, b: real, k: int)
    requires b > 0.0
    ensures FloorMod(a + k as real * b, b) == FloorMod(a, b)
  {
    var q, r := FloorDiv(a, b), FloorMod(a, b);
    assert a + k as real * b == (q + k) as real * b + r;
    ModUnique(a + k as real * b, b, q + k, r);
  }

  /** `abs(dir_vec.x) > abs(dir_vec.y)`: the direction is horizontal (strictly). */
  predicate Horizontal(dir: Point)
  {
    Abs(dir.x) > Abs(dir.y)
  }

  function Abs(x: real): real { if x < 0.0 then -x else x }

  /** `t % (green + red)`. */
  function PhaseOf(t: real, green: real, red: real): real
    requires green + red != 0.0
  {
    FloorMod(t, green + red)
  }

  /** `is_green_for`: horizontal traffic goes in the first `green` units of each cycle. */
  predicate GreenFor(t: real, green: real, red: real, dir: Point)
    requires green + red != 0.0
  {
    if Horizontal(dir) then PhaseOf(t, green, red) < green else PhaseOf(t, green, red) >= green
  }

  /** At any time exactly one axis has green: a horizontal and a vertical direction never agree. */
  lemma OneAxisGreen(t: real, green: real, red: real, h: Point, v: Point)
    requires green + red != 0.0 && Horizontal(h) && !Horizontal(v)
    ensures GreenFor(t, green, red, h) <==> !GreenFor(t, green, red, v)
  {
  }

  /** The lights repeat every `green + red` seconds. */
  lemma GreenPeriodic(t: real, green: real, red: real, dir: Point, k: int)
    requires green + red > 0.0
    ensures GreenFor(t + k as real * (green + red), green, red, dir) == GreenFor(t, green, red, dir)
  {
    var c := green + red;
    FloorModPeriodic(t, c, k);
    assert GreenFor(t + k as real * c, green, red, dir) == GreenFor(t, green, red, dir);
  }

  /**
   * With positive `green` and `red`, within every cycle horizontal traffic has
   * green for the first `green` seconds and vertical traffic for the remaining `red`.
   */
  lemma GreenSchedule(q: int, r: real, green: real, red: real, dir: Point)
    requires green > 0.0 && red > 0.0 && 0.0 <= r < green + red
    ensures GreenFor(q as real * (green + red) + r, green, red, dir) <==> (Horizontal(dir) <==> r < green)
  {
    ModUnique(q as real * (green + red) + r, green + red, q, r);
  }

  class TrafficLight {
    const x: real
    const y: real
    const green: real
    const red: real
    const offset: real
    var t: real

    /** `TrafficLight(data)`: `green` and `red` default to 6 and `offset` to 0 in the map document. */
    constructor(x: real, y: real, green: real, red: real, offset: real)
      ensures this.x == x && this.y == y && this.green == green && this.red == red
      ensures this.offset == offset && t == offset
    {
      this.x, this.y := x, y;
      this.green, this.red, this.offset := green, red, offset;
      t := offset;
    }

    /** `update(dt)`: the clock advances by exactly `dt`. */
    method Update(dt: real)
      modifies this
      ensures t == old(t) + dt
    {
      t := t + dt;
    }

    /** `is_green_for(dir_vec)`. A zero cycle makes the source divide by zero. */
    predicate IsGreenFor(dir: Point)
      reads this
      requires green + red != 0.0
    {
      GreenFor(t, green, red, dir)
    }

    function Position(): Point { Point(x, y) }
  }
}
