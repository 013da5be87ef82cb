/** Exactly which lines the 32-bit arithmetic of window_draw_line can draw. */
module LineOverflow {
  import opened Integers
  import opened Line

  /** No value of one turn leaves the 32-bit range. */
  predicate TurnFits(dx: int, dy: int, e: int) {
    && Int32(e) && Int32(2 * e) && (2 * e > -dy ==> Int32(e - dy))
    && Int32(e - (if 2 * e > -dy then dy else 0) + if 2 * e < dx then dx else 0)
  }

  /** Nor does any value of the whole loop. */
  ghost predicate NoOverflow(dx: int, dy: int) {
    Int32(dx) && Int32(dy) && forall n: nat :: n < Max(dx, dy) ==> TurnFits(dx, dy, After(dx, dy, n).e)
  }

  // ----- divisors -----

  /** Euclid's algorithm. */
  function Gcd(a: nat, b: nat): (g: nat)
    ensures a > 0 || b > 0 ==> g > 0
    ensures b > 0 ==> g <= b
    decreases b
  {
    if b == 0 then a else Gcd(b, a % b)
  }

  /** The greatest common divisor divides both numbers and is a combination of them. */
  lemma {:induction false} Bezout(a: nat, b: nat) returns (p: int, q: int, u: int, v: int)
    ensures a == p * Gcd(a, b) && b == q * Gcd(a, b) && u * a + v * b == Gcd(a, b)
    decreases b
  {
    if b == 0 {
      p, q, u, v := 1, 0, 1, 0;
    } else {
      var p', q', u', v' := Bezout(b, a % b);
      var c := a / b;
      p, q, u, v := c * p' + q', p', v', u' - v' * c;
      Distributes(c * p', q', Gcd(a, b));
      Associates(c, p', Gcd(a, b));
      Associates(v', c, b);
      Distributes(u', -(v' * c), b);
      TimesSum(v', c * b, a % b);
    }
  }

  /** The largest multiple of `g` below half of `d`, a multiple itself, and the least not below it. */
  function BelowHalf(g: nat, d: nat): int
    requires g > 0
  {
    (d / g - 1) / 2 * g
  }

  function FromHalf(g: nat, d: nat): int
    requires g > 0
  {
    (d / g + 1) / 2 * g
  }

  lemma HalvesBound(g: nat, d: nat, p: int)
    requires g > 0 && d == p * g && p > 0
    ensures 2 * BelowHalf(g, d) < d <= 2 * FromHalf(g, d)
    ensures d - 2 * g <= 2 * BelowHalf(g, d) && 2 * FromHalf(g, d) < d + 2 * g
  {
    Quotient(g, d, p);
    DoubleBound((p - 1) / 2, p - 2, p - 1, g);
    DoubleBound((p + 1) / 2, p, p + 1, g);
    Multiples(p, g);
  }

  lemma DoubleBound(k: int, lo: int, hi: int, g: nat)
    requires lo <= 2 * k <= hi
    ensures lo * g <= 2 * (k * g) <= hi * g
  {
    Associates(2, k, g);
    Ordered(lo, 2 * k, g);
    Ordered(2 * k, hi, g);
  }

  lemma Quotient(g: nat, d: nat, p: int)
    requires g > 0 && d == p * g && p > 0
    ensures d / g == p
  {
    var k := d / g;
    assert d == k * g + d % g;
    Ordered(k, p, g);
    Ordered(p, k, g);
  }

  /** No multiple of `g` lies between. */
  lemma HalvesAreClosest(g: nat, d: nat, p: int, c: int)
    requires g > 0 && d == p * g && p > 0
    ensures 2 * (c * g) < d ==> c * g <= BelowHalf(g, d)
    ensures 2 * (c * g) >= d ==> c * g >= FromHalf(g, d)
  {
    Quotient(g, d, p);
    Ordered(p, 2 * c, g);
    Ordered(2 * c + 1, p, g);
    Ordered(c, (p - 1) / 2, g);
    Ordered((p + 1) / 2, c, g);
    Associates(2, c, g);
    Multiples(2 * c, g);
  }

  // ----- the values of the error term -----

  /** The error term is always a multiple of the greatest common divisor of the extents. */
  lemma ErrorIsMultiple(dx: nat, dy: nat, n: nat) returns (c: int)
    requires Max(dx, dy) > 0
    ensures After(dx, dy, n).e == c * Gcd(dx, dy)
  {
    var p, q, u, v := Bezout(dx, dy);
    var w, g := After(dx, dy, n), Gcd(dx, dy);
    ErrorIs(dx, dy, n);
    c := (w.j + 1) * p - (w.i + 1) * q;
    Associates(w.j + 1, p, g);
    Associates(w.i + 1, q, g);
    Distributes((w.j + 1) * p, -((w.i + 1) * q), g);
  }

  /** And along a flat line it takes every multiple within its bounds. */
  lemma EveryMultipleIsReached(dx: nat, dy: nat, c: int) returns (n: nat)
    requires 0 < dy < dx && dx - 2 * dy <= 2 * (c * Gcd(dx, dy)) < 3 * dx - 2 * dy
    ensures n < dx && After(dx, dy, n).e == c * Gcd(dx, dy)
  {
    var p, q, u, v := Bezout(dx, dy);
    n := (-(c * v) - 1) % dx;
    var y := Steps(-(c * v) - 1, dx);
    ErrorIs(dx, dy, n);
    ErrorIsBounded(dx, dy, n);
    var k := WholeTurns(dx, dy, After(dx, dy, n).j + 1, n + 1, c, Gcd(dx, dy), u, v, y);
    hide After;
    NoneBetween(k, dx);
  }

  lemma WholeTurns(dx: int, dy: int, j: int, i: int, c: int, g: int, u: int, v: int, y: int) returns (k: int)
    requires i + c * v == -y * dx && u * dx + v * dy == g
    ensures j * dx - i * dy == c * g + k * dx
  {
    k := j - c * u - -y * dy;
    MultipleApart(dx, dy, j, i, c * u, c * v, -y);
    TimesSum(c, u * dx, v * dy);
    Associates(c, u, dx);
    Associates(c, v, dy);
  }

  lemma Steps(a: int, d: int) returns (y: int)
    requires d > 0
    ensures a == a % d - -y * d
  {
    y := a / d;
  }

  lemma MultipleApart(dx: int, dy: int, j: int, i: int, a: int, b: int, z: int)
    requires i + b == z * dx
    ensures (j * dx - i * dy) - (a * dx + b * dy) == (j - a - z * dy) * dx
  {
    Distributes(i, b, dy);
    Associates(z, dx, dy);
    Associates(z, dy, dx);
    Distributes(j - a, -(z * dy), dx);
    Distributes(j, -a, dx);
  }

  lemma NoneBetween(k: int, d: int)
    requires d > 0 && -d < k * d < d
    ensures k == 0
  {
    Ordered(k, 0, d);
    Ordered(0, k, d);
    Ordered(1, k, d);
    Ordered(k, -1, d);
  }

  /** Exchanging the axes negates the error. */
  lemma {:induction false} Mirrored(dx: int, dy: int, n: nat)
    ensures var w := After(dx, dy, n); After(dy, dx, n) == Walk(w.j, w.i, -w.e)
    decreases n
  {
    if n > 0 {
      Mirrored(dx, dy, n - 1);
    }
  }

  // ----- flat lines -----

  /** The largest and the least error of a line that is flatter than the diagonal. */
  function Highest(dx: nat, dy: nat): int
    requires 0 < dy < dx
  {
    BelowHalf(Gcd(dx, dy), dx) + dx - dy
  }

  function Lowest(dx: nat, dy: nat): int
    requires 0 < dy < dx
  {
    FromHalf(Gcd(dx, dy), dx) - dy
  }

  lemma ErrorRange(dx: nat, dy: nat, n: nat)
    requires 0 < dy < dx
    ensures Lowest(dx, dy) <= After(dx, dy, n).e <= Highest(dx, dy)
  {
    var g := Gcd(dx, dy);
    var p, q, u, v := Bezout(dx, dy);
    var c := ErrorIsMultiple(dx, dy, n);
    ErrorIsBounded(dx, dy, n);
    Multiply(c, p, q, g);
    HalvesAreClosest(g, dx, p, c - p + q);
    HalvesAreClosest(g, dx, p, c + q);
  }

  lemma Multiply(c: int, p: int, q: int, g: int)
    ensures (c - p + q) * g == c * g - p * g + q * g && (c + q) * g == c * g + q * g
  {
  }

  lemma ExtremesAreReached(dx: nat, dy: nat) returns (high: nat, low: nat)
    requires 0 < dy < dx
    ensures high < dx && low < dx
    ensures After(dx, dy, high).e == Highest(dx, dy) && After(dx, dy, low).e == Lowest(dx, dy)
    ensures 2 * Lowest(dx, dy) >= dx - 2 * dy
  {
    var g := Gcd(dx, dy);
    var p, q, u, v := Bezout(dx, dy);
    hide After;
    HalvesBound(g, dx, p);
    ExtremesAreMultiples(dx, dy, p, q, g);
    high := EveryMultipleIsReached(dx, dy, (p - 1) / 2 + (p - q));
    low := EveryMultipleIsReached(dx, dy, (p + 1) / 2 - q);
  }

  lemma ExtremesAreMultiples(dx: nat, dy: nat, p: int, q: int, g: nat)
    requires g > 0 && dx == p * g && dy == q * g && p > 0
    ensures BelowHalf(g, dx) + dx - dy == ((p - 1) / 2 + (p - q)) * g
    ensures FromHalf(g, dx) - dy == ((p + 1) / 2 - q) * g
  {
    Quotient(g, dx, p);
    Distributes((p - 1) / 2, p - q, g);
    Distributes(p, -q, g);
    Distributes((p + 1) / 2, -q, g);
  }

  lemma NextError(dx: int, dy: int, n: nat)
    ensures var e := After(dx, dy, n).e;
      After(dx, dy, n + 1).e == e - (if 2 * e > -dy then dy else 0) + (if 2 * e < dx then dx else 0)
  {
  }

  lemma FlatLineIsSafe(dx: nat, dy: nat)
    requires 0 < dy < dx
    ensures NoOverflow(dx, dy) <==> Int32(dx) && 2 * Highest(dx, dy) < TWO_31 && Lowest(dx, dy) - dy >= -TWO_31
  {
    hide After, Highest, Lowest;
    var high, low := ExtremesAreReached(dx, dy);
    if Int32(dx) && 2 * Highest(dx, dy) < TWO_31 && Lowest(dx, dy) - dy >= -TWO_31 {
      forall n: nat | n < dx
        ensures TurnFits(dx, dy, After(dx, dy, n).e)
      {
        ErrorRange(dx, dy, n);
        ErrorRange(dx, dy, n + 1);
        ErrorIsBounded(dx, dy, n);
        NextError(dx, dy, n);
      }
    }
    if NoOverflow(dx, dy) {
      assert TurnFits(dx, dy, After(dx, dy, high).e) && TurnFits(dx, dy, After(dx, dy, low).e);
    }
  }

  // ----- steep lines -----

  /** The mirrored error, which the code holds negated, has a range that is one longer. */
  lemma SteepLineIsSafe(dx: nat, dy: nat)
    requires 0 < dx < dy
    ensures NoOverflow(dx, dy) <==>
      Int32(dy) && 2 * Highest(dy, dx) <= TWO_31 && BelowHalf(Gcd(dy, dx), dy) + dy <= TWO_31
  {
    hide After, Highest, Lowest, BelowHalf;
    var high, low := ExtremesAreReached(dy, dx);
    var middle := MiddleIsReached(dy, dx);
    if Int32(dy) && 2 * Highest(dy, dx) <= TWO_31 && BelowHalf(Gcd(dy, dx), dy) + dy <= TWO_31 {
      forall n: nat | n < dy
        ensures TurnFits(dx, dy, After(dx, dy, n).e)
      {
        Mirrored(dx, dy, n);
        ErrorRange(dy, dx, n);
        ErrorIsBounded(dy, dx, n);
        if 2 * After(dy, dx, n).e < dy {
          BelowTheMiddle(dy, dx, n);
        }
      }
    }
    if NoOverflow(dx, dy) {
      Mirrored(dx, dy, high);
      Mirrored(dx, dy, middle);
      assert TurnFits(dx, dy, After(dx, dy, high).e) && TurnFits(dx, dy, After(dx, dy, middle).e);
    }
  }

  lemma MiddleIsReached(dx: nat, dy: nat) returns (middle: nat)
    requires 0 < dy < dx
    ensures middle < dx && After(dx, dy, middle).e == BelowHalf(Gcd(dx, dy), dx)
    ensures 2 * BelowHalf(Gcd(dx, dy), dx) < dx
  {
    var g := Gcd(dx, dy);
    var p, q, u, v := Bezout(dx, dy);
    HalvesBound(g, dx, p);
    Quotient(g, dx, p);
    middle := EveryMultipleIsReached(dx, dy, (p - 1) / 2);
  }

  lemma BelowTheMiddle(dx: nat, dy: nat, n: nat)
    requires 0 < dy < dx && 2 * After(dx, dy, n).e < dx
    ensures After(dx, dy, n).e <= BelowHalf(Gcd(dx, dy), dx)
  {
    var p, q, u, v := Bezout(dx, dy);
    var c := ErrorIsMultiple(dx, dy, n);
    HalvesAreClosest(Gcd(dx, dy), dx, p, c);
  }

  // ----- every line -----

  /** The lines that the 32-bit loop draws: with a zero extent those shorter than 2^30, diagonals
      shorter than 2^31, and others by their largest and least error. */
  predicate SafeLine(dx: nat, dy: nat) {
    if dx == 0 || dy == 0 then dx < 0x4000_0000 && dy <= 0x4000_0000
    else if dx == dy then dx < TWO_31
    else if dx > dy then dx < TWO_31 && 2 * Highest(dx, dy) < TWO_31 && Lowest(dx, dy) - dy >= -TWO_31
    else dy < TWO_31 && 2 * Highest(dy, dx) <= TWO_31 && BelowHalf(Gcd(dy, dx), dy) + dy <= TWO_31
  }

  lemma StraightLineIsSafe(dx: nat, dy: nat)
    requires dx == 0 || dy == 0 || dx == dy
    ensures NoOverflow(dx, dy) <==> SafeLine(dx, dy)
  {
    hide After;
    assert After(dx, dy, 0).e == dx - dy by { NoTurnsYet(dx, dy); }
    if Max(dx, dy) > 0 && SafeLine(dx, dy) {
      forall n: nat | n < Max(dx, dy)
        ensures TurnFits(dx, dy, After(dx, dy, n).e)
      {
        ErrorIsBounded(dx, dy, n);
      }
    }
    if Max(dx, dy) > 0 && NoOverflow(dx, dy) {
      assert TurnFits(dx, dy, After(dx, dy, 0).e);
    }
  }

  lemma NoTurnsYet(dx: int, dy: int)
    ensures After(dx, dy, 0) == Walk(0, 0, dx - dy)
  {
  }

  /** No value of the loop overflows if and only if the line is one of these. */
  lemma SafeExactlyWhen(dx: nat, dy: nat)
    ensures NoOverflow(dx, dy) <==> SafeLine(dx, dy)
  {
    hide NoOverflow, After, Highest, Lowest, BelowHalf;
    if dx == 0 || dy == 0 || dx == dy {
      StraightLineIsSafe(dx, dy);
    } else if dx > dy {
      FlatLineIsSafe(dx, dy);
    } else {
      SteepLineIsSafe(dx, dy);
    }
  }

  // ----- one bound for all lines -----

  const SAFE_EXTENT: nat := 715827883

  lemma SafeExtentsFit(dx: int, dy: int)
    requires 0 <= dx <= SAFE_EXTENT && 0 <= dy <= SAFE_EXTENT
    ensures NoOverflow(dx, dy)
  {
    forall n: nat | n < Max(dx, dy)
      ensures TurnFits(dx, dy, After(dx, dy, n).e)
    {
      ErrorIsBounded(dx, dy, n);
    }
  }

  lemma OnePixelMoreOverflows()
    ensures !NoOverflow(SAFE_EXTENT + 1, 1)
  {
    SafeExactlyWhen(SAFE_EXTENT + 1, 1);
    assert Gcd(SAFE_EXTENT + 1, 1) == Gcd(1, 0) == 1;
  }

  /** A bound on the extents keeps every line from overflowing exactly when it is at most
      715827883. */
  lemma SafeExactlyUpTo(bound: nat)
    ensures (forall dx, dy :: 0 <= dx <= bound && 0 <= dy <= bound ==> NoOverflow(dx, dy)) <==> bound <= SAFE_EXTENT
  {
    if bound <= SAFE_EXTENT {
      forall dx, dy | 0 <= dx <= bound && 0 <= dy <= bound
        ensures NoOverflow(dx, dy)
      {
        SafeExtentsFit(dx, dy);
      }
    } else {
      OnePixelMoreOverflows();
      assert SAFE_EXTENT + 1 <= bound && 1 <= bound;
    }
  }
}
