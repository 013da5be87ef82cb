/** The line loop of window_draw_line: the walk it makes, where it ends and how far it strays from
    the ideal line. */
module Line {
  /** How many steps the walk has made in x and in y, and the loop's error term. */
  datatype Walk = Walk(i: int, j: int, e: int)

  function Max(a: int, b: int): int { if a < b then b else a }

  /** One turn of the loop that does not break. */
  function Step(dx: int, dy: int, w: Walk): Walk {
    var alongX, alongY := 2 * w.e > -dy, 2 * w.e < dx;
    Walk(if alongX then w.i + 1 else w.i, if alongY then w.j + 1 else w.j,
         w.e - (if alongX then dy else 0) + if alongY then dx else 0)
  }

  function After(dx: int, dy: int, n: nat): Walk {
    if n == 0 then Walk(0, 0, dx - dy) else Step(dx, dy, After(dx, dy, n - 1))
  }

  // ----- the walk -----

  /** Along a flat line every turn goes one step in x, and y stays within half a step of the ideal
      line; along a steep one the other way round. */
  predicate NearLine(dx: int, dy: int, n: nat, w: Walk) {
    && w.e == (w.j + 1) * dx - (w.i + 1) * dy
    && (dx >= dy ==> w.i == n && -dx <= 2 * (w.j * dx - n * dy) <= dx)
    && (dx < dy ==> w.j == n && -dy <= 2 * (w.i * dy - n * dx) <= dy)
  }

  /** The bounds of the error term; equal extents and straight lines keep it constant. */
  predicate ErrorBounds(dx: int, dy: int, e: int) {
    && (dx > dy ==> dx - 2 * dy <= 2 * e < 3 * dx - 2 * dy)
    && (dx < dy ==> dy - 2 * dx <= -2 * e < 3 * dy - 2 * dx)
    && (dx == dy ==> e == 0)
    && (dx == 0 ==> e == -dy) && (dy == 0 ==> e == dx)
  }

  lemma {:induction false} ErrorIsBounded(dx: int, dy: int, n: nat)
    requires dx >= 0 && dy >= 0 && Max(dx, dy) > 0
    ensures ErrorBounds(dx, dy, After(dx, dy, n).e)
    decreases n
  {
    if n > 0 {
      ErrorIsBounded(dx, dy, n - 1);
    }
  }

  /** What the error bounds mean for one turn. */
  lemma StepsAlong(dx: int, dy: int, w: Walk)
    requires dx >= 0 && dy >= 0 && Max(dx, dy) > 0 && ErrorBounds(dx, dy, w.e)
    ensures dx >= dy ==> Step(dx, dy, w).i == w.i + 1
    ensures dx <= dy ==> Step(dx, dy, w).j == w.j + 1
    ensures w.i <= Step(dx, dy, w).i <= w.i + 1 && w.j <= Step(dx, dy, w).j <= w.j + 1
  {
  }

  lemma OneMore(a: int, d: int)
    ensures (a + 1) * d == a * d + d
  {
  }

  /** The error term in terms of the steps made. */
  predicate ErrorOf(dx: int, dy: int, w: Walk) { w.e == (w.j + 1) * dx - (w.i + 1) * dy }

  lemma StepKeepsError(dx: int, dy: int, w: Walk)
    requires ErrorOf(dx, dy, w)
    ensures ErrorOf(dx, dy, Step(dx, dy, w))
  {
    OneMore(w.j + 1, dx);
    OneMore(w.i + 1, dy);
  }

  lemma {:induction false} ErrorIs(dx: int, dy: int, n: nat)
    requires dx >= 0 && dy >= 0 && Max(dx, dy) > 0
    ensures var w := After(dx, dy, n);
      && ErrorOf(dx, dy, w)
      && (dx >= dy ==> w.i == n) && (dx <= dy ==> w.j == n) && 0 <= w.i <= n && 0 <= w.j <= n
    decreases n
  {
    hide ErrorOf, ErrorBounds, Step;
    if n == 0 {
      FirstError(dx, dy);
    } else {
      ErrorIs(dx, dy, n - 1);
      ErrorIsBounded(dx, dy, n - 1);
      StepKeepsError(dx, dy, After(dx, dy, n - 1));
      StepsAlong(dx, dy, After(dx, dy, n - 1));
    }
  }

  lemma FirstError(dx: int, dy: int)
    ensures ErrorOf(dx, dy, Walk(0, 0, dx - dy))
  {
  }

  lemma WalkIsNearTheLine(dx: int, dy: int, n: nat)
    requires dx >= 0 && dy >= 0 && Max(dx, dy) > 0
    ensures NearLine(dx, dy, n, After(dx, dy, n))
  {
    ErrorIs(dx, dy, n);
    ErrorIsBounded(dx, dy, n);
    var w := After(dx, dy, n);
    OneMore(w.j, dx);
    OneMore(w.i, dy);
    if dx == dy {
      SameProduct(w.j, dx, n, dy);
    }
  }

  lemma SameProduct(a: int, b: int, c: int, d: int)
    requires a == c && b == d
    ensures a * b == c * d
  {
  }

  lemma SmallMultiple(a: int, d: int)
    requires d > 0 && -d <= 2 * (a * d) <= d
    ensures a == 0
  {
    assert a >= 1 ==> a * d >= d;
    assert a <= -1 ==> a * d <= -d;
  }

  lemma Difference(a: int, b: int, d: int)
    ensures a * d - d * b == (a - b) * d
  {
  }

  /** The loop breaks after exactly max(dx, dy) turns: it is at the target then and not before. */
  lemma ReachesTheTarget(dx: int, dy: int, n: nat)
    requires dx >= 0 && dy >= 0 && n <= Max(dx, dy)
    ensures var w := After(dx, dy, n); w.i == dx && w.j == dy <==> n == Max(dx, dy)
    ensures var w := After(dx, dy, n); 0 <= w.i <= dx && 0 <= w.j <= dy
  {
    if Max(dx, dy) > 0 {
      WalkIsNearTheLine(dx, dy, n);
      ErrorIs(dx, dy, n);
      var w := After(dx, dy, n);
      if n == dx >= dy {
        Difference(w.j, dy, dx);
        SmallMultiple(w.j - dy, dx);
      } else if n == dy > dx {
        Difference(w.i, dx, dy);
        SmallMultiple(w.i - dx, dy);
      }
      StaysInside(dx, dy, n, w);
    }
  }

  lemma StaysInside(dx: int, dy: int, n: nat, w: Walk)
    requires dx >= 0 && dy >= 0 && NearLine(dx, dy, n, w) && Max(dx, dy) > 0 && n <= Max(dx, dy) && 0 <= w.i && 0 <= w.j
    ensures w.i <= dx && w.j <= dy
  {
    if dx >= dy {
      NotBeyond(w.j, dx, dy, n);
    } else {
      NotBeyond(w.i, dy, dx, n);
    }
  }

  lemma NotBeyond(a: int, d: int, b: int, n: int)
    requires d > 0 && 0 <= n <= d && 0 <= b && 2 * (a * d - n * b) <= d
    ensures a <= b
  {
    assert n * b <= d * b;
    Difference(a, b, d);
    assert a - b >= 1 ==> (a - b) * d >= d;
  }
}
