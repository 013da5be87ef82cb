/** What holds over every run of the game: no full row, a free falling piece, at most four rows
    cleared at once, and an exact account of the filled cells. */
module TetrisRuns {
  import opened Integers
  import opened Tetris

  // ----- clearing -----

  lemma {:induction false} NotFullIsNotFull(rows: seq<Row>)
    ensures forall i :: 0 <= i < |NotFull(rows)| ==> !Full(NotFull(rows)[i])
    decreases |rows|
  {
    if rows != [] {
      NotFullIsNotFull(rows[1..]);
    }
  }

  /** After clearing no row is full. */
  lemma ClearedHasNoFullRow(b: Board)
    ensures NoFullRow(Clear(b))
  {
    NotFullIsNotFull(b);
    var n := FullCount(b);
    forall y | 0 <= y < BH
      ensures !Full(Clear(b)[y])
    {
      if y < n {
        assert Clear(b)[y] == EmptyRow() && EmptyRow()[0] == 0;
      } else {
        assert Clear(b)[y] == NotFull(b)[y - n];
      }
    }
  }

  // ----- counting filled cells -----

  function FilledUpTo(r: Row, n: nat): nat
    requires n <= BW
  {
    if n == 0 then 0 else FilledUpTo(r, n - 1) + if r[n - 1] != 0 then 1 else 0
  }

  function FilledRow(r: Row): nat { FilledUpTo(r, BW) }

  function Filled(rows: seq<Row>): nat {
    if rows == [] then 0 else FilledRow(rows[0]) + Filled(rows[1..])
  }

  lemma {:induction false} FilledConcat(a: seq<Row>, b: seq<Row>)
    ensures Filled(a + b) == Filled(a) + Filled(b)
    decreases |a|
  {
    if a == [] {
      assert a + b == b;
    } else {
      assert (a + b)[1..] == a[1..] + b;
      FilledConcat(a[1..], b);
    }
  }

  lemma {:induction false} EmptyIsUnfilled(r: Row, n: nat)
    requires n <= BW && r == EmptyRow()
    ensures FilledUpTo(r, n) == 0
    decreases n
  {
    if n > 0 {
      EmptyIsUnfilled(r, n - 1);
    }
  }

  lemma {:induction false} FullIsFilled(r: Row, n: nat)
    requires n <= BW && Full(r)
    ensures FilledUpTo(r, n) == n
    decreases n
  {
    if n > 0 {
      FullIsFilled(r, n - 1);
    }
  }

  lemma {:induction false} PaddingIsUnfilled(n: nat)
    ensures Filled(Padding(n)) == 0
    decreases n
  {
    if n > 0 {
      EmptyIsUnfilled(EmptyRow(), BW);
      assert Padding(n)[1..] == Padding(n - 1);
      PaddingIsUnfilled(n - 1);
    }
  }

  lemma {:induction false} NotFullIsFilled(rows: seq<Row>)
    ensures Filled(NotFull(rows)) == Filled(rows) - BW * FullCount(rows)
    decreases |rows|
  {
    if rows != [] {
      NotFullIsFilled(rows[1..]);
      if Full(rows[0]) {
        FullIsFilled(rows[0], BW);
        assert NotFull(rows) == NotFull(rows[1..]);
      } else {
        assert NotFull(rows)[0] == rows[0] && NotFull(rows)[1..] == NotFull(rows[1..]);
      }
    }
  }

  /** Clearing takes away ten cells for each full row. */
  lemma ClearedIsFilled(b: Board)
    ensures Filled(Clear(b)) == Filled(b) - BW * FullCount(b)
  {
    FilledConcat(Padding(FullCount(b)), NotFull(b));
    PaddingIsUnfilled(FullCount(b));
    NotFullIsFilled(b);
  }

  // ----- counting the piece's cells -----

  /** The piece's cells in row `gy` of its grid, at columns from `lo` up to `hi`. */
  function RowCells(p: nat, r: nat, gy: int, lo: int, hi: int): nat
    requires Shape(p, r)
    decreases hi - lo
  {
    if hi <= lo then 0 else RowCells(p, r, gy, lo, hi - 1) + if Cell(p, r, hi - 1, gy) then 1 else 0
  }

  /** In the columns `left` to `right` of its grid, in rows from `lo` up to `hi`. */
  function Cells(p: nat, r: nat, left: int, right: int, lo: int, hi: int): nat
    requires Shape(p, r)
    decreases hi - lo
  {
    if hi <= lo then 0 else RowCells(p, r, lo, left, right) + Cells(p, r, left, right, lo + 1, hi)
  }

  /** The cells of a piece at height `py` that lie on the board, not above it. */
  function Visible(p: nat, r: nat, py: int): nat
    requires Shape(p, r)
  {
    Cells(p, r, 0, 4, if py < 0 then -py else 0, 4)
  }

  /** Columns with no cell of the row do not matter. */
  lemma {:induction false} RowCellsBetween(p: nat, r: nat, gy: int, lo: int, hi: int)
    requires Shape(p, r) && forall gx :: Cell(p, r, gx, gy) ==> lo <= gx < hi
    ensures RowCells(p, r, gy, lo, hi) == RowCells(p, r, gy, 0, 4)
  {
    RowCellsFrom(p, r, gy, lo, hi, if hi < 4 then 4 else hi);
    RowCellsFrom(p, r, gy, 0, 4, if hi < 4 then 4 else hi);
    RowCellsLow(p, r, gy, lo, 0, if hi < 4 then 4 else hi);
  }

  lemma {:induction false} RowCellsFrom(p: nat, r: nat, gy: int, lo: int, hi: int, top: int)
    requires Shape(p, r) && hi <= top && forall gx :: hi <= gx < top && lo <= gx ==> !Cell(p, r, gx, gy)
    ensures RowCells(p, r, gy, lo, hi) == RowCells(p, r, gy, lo, top)
    decreases top - hi
  {
    if hi < top {
      RowCellsFrom(p, r, gy, lo, hi, top - 1);
    }
  }

  /** Nor does it matter where below the first cell the count starts. */
  lemma {:induction false} RowCellsLow(p: nat, r: nat, gy: int, a: int, b: int, hi: int)
    requires Shape(p, r) && forall gx :: (a <= gx < b || b <= gx < a) && gx < hi ==> !Cell(p, r, gx, gy)
    ensures RowCells(p, r, gy, a, hi) == RowCells(p, r, gy, b, hi)
    decreases (if hi > a then hi - a else 0) + (if hi > b then hi - b else 0)
  {
    if hi > a || hi > b {
      RowCellsLow(p, r, gy, a, b, hi - 1);
    }
  }

  // ----- locking -----

  lemma {:induction false} LockedRowIsFilled(row: Row, p: nat, r: nat, px: int, gy: int, n: nat)
    requires Shape(p, r) && n <= BW
    requires forall x :: 0 <= x < BW && Cell(p, r, x - px, gy) ==> row[x] == 0
    ensures FilledUpTo(LockedRow(row, p, r, px, gy), n) == FilledUpTo(row, n) + RowCells(p, r, gy, -px, n - px)
    decreases n
  {
    hide Cell;
    if n > 0 {
      LockedRowIsFilled(row, p, r, px, gy, n - 1);
    }
  }

  /** A free piece covers empty cells of the board only, and none of it lies outside but above. */
  lemma FreeCell(b: Board, p: nat, r: nat, px: int, py: int, gx: int, gy: int)
    requires Shape(p, r) && !Collides(b, p, r, px, py) && Cell(p, r, gx, gy)
    ensures 0 <= px + gx < BW && py + gy < BH && (py + gy >= 0 ==> b[py + gy][px + gx] == 0)
  {
    assert 0 <= gx < 4 && 0 <= gy < 4;
    assert !Hits(b, gx, gy, px, py);
  }

  lemma LockedRowAdds(b: Board, p: nat, r: nat, px: int, py: int, y: nat)
    requires Shape(p, r) && !Collides(b, p, r, px, py) && y < BH
    ensures FilledRow(Lock(b, p, r, px, py)[y]) == FilledRow(b[y]) + RowCells(p, r, y - py, 0, 4)
  {
    hide Cell, Collides;
    var gy := y - py;
    forall x | 0 <= x < BW && Cell(p, r, x - px, gy)
      ensures b[y][x] == 0
    {
      FreeCell(b, p, r, px, py, x - px, gy);
    }
    LockedRowIsFilled(b[y], p, r, px, gy, BW);
    forall gx | Cell(p, r, gx, gy)
      ensures -px <= gx < BW - px
    {
      FreeCell(b, p, r, px, py, gx, gy);
    }
    RowCellsBetween(p, r, gy, -px, BW - px);
  }

  lemma {:induction false} LockAddsFrom(b: Board, p: nat, r: nat, px: int, py: int, y: nat)
    requires Shape(p, r) && !Collides(b, p, r, px, py) && y <= BH
    ensures Filled(Lock(b, p, r, px, py)[y..]) == Filled(b[y..]) + Cells(p, r, 0, 4, y - py, BH - py)
    decreases BH - y
  {
    hide Collides, Lock, LockedRow, RowCells;
    if y < BH {
      var b' := Lock(b, p, r, px, py);
      LockAddsFrom(b, p, r, px, py, y + 1);
      LockedRowAdds(b, p, r, px, py, y);
      assert b'[y..][1..] == b'[y + 1..] && b[y..][1..] == b[y + 1..];
    }
  }

  lemma {:induction false} CellsBetween(p: nat, r: nat, lo: int, hi: int, from: int, to: int)
    requires Shape(p, r) && from <= lo && hi <= to
    requires forall gy :: (from <= gy < lo || hi <= gy < to) ==> RowCells(p, r, gy, 0, 4) == 0
    requires lo <= hi
    ensures Cells(p, r, 0, 4, lo, hi) == Cells(p, r, 0, 4, from, to)
    decreases (lo - from) + (hi - lo) + (to - hi)
  {
    if from < lo {
      CellsBetween(p, r, lo, hi, from + 1, to);
    } else if lo < hi {
      CellsBetween(p, r, lo + 1, hi, lo + 1, to);
    } else if hi < to {
      CellsBetween(p, r, lo + 1, lo + 1, from + 1, to);
    }
  }

  lemma NoRowCells(p: nat, r: nat, gy: int)
    requires Shape(p, r) && forall gx :: 0 <= gx < 4 ==> !Cell(p, r, gx, gy)
    ensures RowCells(p, r, gy, 0, 4) == 0
  {
    RowCellsFrom(p, r, gy, 0, 0, 4);
  }

  lemma RowOutside(b: Board, p: nat, r: nat, px: int, py: int, gy: int)
    requires Shape(p, r) && !Collides(b, p, r, px, py) && (gy >= 4 || gy < 0 || gy >= BH - py)
    ensures RowCells(p, r, gy, 0, 4) == 0
  {
    hide Collides;
    forall gx | 0 <= gx < 4
      ensures !Cell(p, r, gx, gy)
    {
      if Cell(p, r, gx, gy) {
        FreeCell(b, p, r, px, py, gx, gy);
      }
    }
    NoRowCells(p, r, gy);
  }

  lemma VisibleOfFree(b: Board, p: nat, r: nat, px: int, py: int)
    requires Shape(p, r) && !Collides(b, p, r, px, py)
    ensures Cells(p, r, 0, 4, -py, BH - py) == Visible(p, r, py)
  {
    hide Collides, Visible, Cells, RowCells;
    FreeIsAbove(b, p, r, px, py);
    forall gy | gy >= 4 || gy < 0 || gy >= BH - py
      ensures RowCells(p, r, gy, 0, 4) == 0
    {
      RowOutside(b, p, r, px, py, gy);
    }
    VisibleIs(p, r, py);
  }

  /** Locking a free piece adds its visible cells. */
  lemma LockAdds(b: Board, p: nat, r: nat, px: int, py: int)
    requires Shape(p, r) && !Collides(b, p, r, px, py)
    ensures Filled(Lock(b, p, r, px, py)) == Filled(b) + Visible(p, r, py)
  {
    hide Collides, Lock, Filled, Visible, Cells;
    LockAddsFrom(b, p, r, px, py, 0);
    VisibleOfFree(b, p, r, px, py);
    var b' := Lock(b, p, r, px, py);
    assert b'[0..] == b' && b[0..] == b;
  }

  lemma VisibleIs(p: nat, r: nat, py: int)
    requires Shape(p, r) && py < BH
    requires forall gy :: (gy >= 4 || gy < 0 || gy >= BH - py) ==> RowCells(p, r, gy, 0, 4) == 0
    ensures Cells(p, r, 0, 4, -py, BH - py) == Visible(p, r, py)
  {
    hide RowCells, Cells;
    var lo := if py < 0 then -py else 0;
    var top := if BH - py > 4 then BH - py else 4;
    if lo <= 4 {
      CellsBetween(p, r, lo, 4, -py, top);
    } else {
      CellsBetween(p, r, -py, -py, -py, top);
      NoCellsAt(p, r, -py, top, lo);
    }
    CellsBetween(p, r, -py, BH - py, -py, top);
  }

  lemma NoCellsAt(p: nat, r: nat, a: int, top: int, lo: int)
    requires Shape(p, r) && lo > 4
    ensures Cells(p, r, 0, 4, a, a) == 0 && Cells(p, r, 0, 4, lo, 4) == 0
  {
  }

  // ----- one step -----

  lemma {:induction false} BottomIsFree(b: Board, p: nat, r: nat, px: int, py: int)
    requires Shape(p, r) && !Collides(b, p, r, px, py)
    ensures var y := Bottom(b, p, r, px, py); y >= py && !Collides(b, p, r, px, y) && Collides(b, p, r, px, y + 1)
    decreases BH - py
  {
    if !Collides(b, p, r, px, py + 1) {
      FreeIsAbove(b, p, r, px, py + 1);
      BottomIsFree(b, p, r, px, py + 1);
    }
  }

  /** A key moves the falling piece to a free place and changes nothing else; the space bar takes
      it down as far as it goes. */
  lemma InputKeeps(g: Game, c: char)
    requires Inv(g)
    ensures Inv(Input(g, c))
    ensures var r := Input(g, c); r == g.(cx := r.cx, cy := r.cy, cr := r.cr)
    ensures c == ' ' && !g.over ==> Collides(g.board, g.cp, g.cr, Input(g, c).cx, Input(g, c).cy + 1)
  {
    hide Collides, Bottom;
    if !g.over && c == ' ' {
      BottomIsFree(g.board, g.cp, g.cr, g.cx, g.cy);
    }
  }

  /** The piece lands in this step. */
  predicate Lands(g: Game)
    requires Shapes(g)
  {
    !g.over && g.tick + 1 >= g.dropInterval && Blocked(g, g.cr, g.cx, g.cy + 1)
  }

  /** A step of gravity keeps the invariant; when the piece lands, at most four rows are cleared,
      and the filled cells grow by its visible cells less ten for each of them. */
  lemma GravityKeeps(g: Game)
    requires Inv(g)
    ensures Inv(Gravity(g))
    ensures !Lands(g) ==> Gravity(g).board == g.board && Gravity(g).lines == g.lines
    ensures Lands(g) ==>
      var n := Gravity(g).lines - g.lines;
      && 0 <= n <= 4
      && Filled(Gravity(g).board) == Filled(g.board) + Visible(g.cp, g.cr, g.cy) - BW * n
  {
    hide Collides, Filled, Visible, Full, Lock, Clear, FullCount;
    if Lands(g) {
      var b := Lock(g.board, g.cp, g.cr, g.cx, g.cy);
      AtMostFourFull(g.board, g.cp, g.cr, g.cx, g.cy);
      ClearedHasNoFullRow(b);
      LockAdds(g.board, g.cp, g.cr, g.cx, g.cy);
      ClearedIsFilled(b);
    }
  }

  // ----- the score -----

  /** The level is a tenth of the lines and sets the speed; each line has earned at least 100 points,
      and at most 200 times what the level counts for now. */
  predicate Scored(g: Game) {
    && g.level == g.lines / 10 && g.dropInterval == (if g.level >= 9 then 2 else 20 - 2 * g.level)
    && 100 * g.lines <= g.score <= 200 * (g.lines * (g.level + 1))
  }

  /** award_lines keeps that account. */
  lemma AwardScores(g: Game, n: nat)
    requires Scored(g) && n <= 4
    ensures Scored(Award(g, n))
  {
    PaidBetween(Points(n), n, g.score, g.lines, g.level + 1, Award(g, n).level + 1);
  }

  lemma PaidBetween(points: nat, n: nat, score: nat, lines: nat, factor: nat, next: nat)
    requires 100 * n <= points <= 200 * n && 1 <= factor <= next && 100 * lines <= score <= 200 * (lines * factor)
    ensures 100 * (lines + n) <= score + points * factor <= 200 * ((lines + n) * next)
  {
    var pay := points * factor;
    assert points <= pay by { Ordered(1, factor, points); }
    assert pay <= 200 * (n * factor) by { Ordered(points, 200 * n, factor); Associates(200, n, factor); }
    assert lines * factor + n * factor <= (lines + n) * next by {
      Distributes(lines, n, factor);
      Ordered(factor, next, lines + n);
    }
  }

  lemma GravityScores(g: Game)
    requires Inv(g) && Scored(g)
    ensures Scored(Gravity(g))
  {
    hide Collides, Lock, Clear, FullCount, Scored;
    if Lands(g) {
      AtMostFourFull(g.board, g.cp, g.cr, g.cx, g.cy);
      var b := Lock(g.board, g.cp, g.cr, g.cx, g.cy);
      var g1 := g.(tick := 0, board := Clear(b));
      SameScore(g, g1);
      AwardScores(g1, FullCount(b));
      SameScore(Award(g1, FullCount(b)), Spawn(Award(g1, FullCount(b))));
      SameScore(g1, Spawn(g1));
    } else {
      SameScore(g, Gravity(g));
    }
  }

  lemma SameScore(g: Game, g': Game)
    requires g'.score == g.score && g'.lines == g.lines && g'.level == g.level && g'.dropInterval == g.dropInterval
    ensures Scored(g) ==> Scored(g')
  {
  }

  // ----- runs -----

  /** The start of the program. */
  function Start(seed: nat): (g: Game)
    ensures Inv(g)
  {
    EmptyHasNoFullRow();
    var rng := NextRng(seed);
    Spawn(Game(EmptyBoard(), 0, 0, 0, 0, Random7(rng), 0, 0, 0, false, 20, rng, 0))
  }

  lemma EmptyHasNoFullRow()
    ensures NoFullRow(EmptyBoard())
  {
    assert forall y :: 0 <= y < BH ==> EmptyBoard()[y][0] == 0;
  }

  lemma StepKeeps(g: Game, e: Event)
    requires Inv(g)
    ensures Inv(Step(g, e))
  {
    match e
    case Key(c) => InputKeeps(g, c);
    case Frame => GravityKeeps(g);
  }

  lemma StartIsEmpty(seed: nat)
    ensures Filled(Start(seed).board) == 0 && Start(seed).lines == 0
  {
    assert EmptyBoard() == Padding(BH);
    PaddingIsUnfilled(BH);
  }

  function Run(g: Game, es: seq<Event>): (r: Game)
    requires Inv(g)
    ensures Inv(r)
    decreases |es|
  {
    if es == [] then g
    else
      StepKeeps(g, es[0]);
      Run(Step(g, es[0]), es[1..])
  }

  /** The visible cells of all pieces that have landed. */
  function Landed(g: Game, es: seq<Event>): nat
    requires Inv(g)
    decreases |es|
  {
    if es == [] then 0
    else
      StepKeeps(g, es[0]);
      (if es[0].Frame? && Lands(g) then Visible(g.cp, g.cr, g.cy) else 0) + Landed(Step(g, es[0]), es[1..])
  }

  lemma {:induction false} RunAccounts(g: Game, es: seq<Event>)
    requires Inv(g)
    ensures Filled(Run(g, es).board) + BW * Run(g, es).lines == Filled(g.board) + BW * g.lines + Landed(g, es)
    decreases |es|
  {
    hide Filled, Visible, Inv, Input, Gravity, Lands;
    if es != [] {
      StepKeeps(g, es[0]);
      match es[0] {
        case Key(c) => InputKeeps(g, c);
        case Frame => GravityKeeps(g);
      }
      RunAccounts(Step(g, es[0]), es[1..]);
    }
  }

  /** Over every run of keys and frames: no row is full, the falling piece never overlaps while
      the game lasts, and the filled cells are those of all landed pieces less ten a line. */
  lemma RunsKeepTheBoard(seed: nat, es: seq<Event>)
    ensures var g := Run(Start(seed), es);
      && NoFullRow(g.board)
      && (!g.over ==> !Collides(g.board, g.cp, g.cr, g.cx, g.cy))
      && Filled(g.board) + BW * g.lines == Landed(Start(seed), es)
  {
    StartIsEmpty(seed);
    RunAccounts(Start(seed), es);
  }

  lemma {:induction false} RunScores(g: Game, es: seq<Event>)
    requires Inv(g) && Scored(g)
    ensures Scored(Run(g, es))
    decreases |es|
  {
    hide Input, Gravity, Scored, NoFullRow, Collides;
    if es != [] {
      StepKeeps(g, es[0]);
      match es[0] {
        case Key(c) =>
          InputKeeps(g, c);
          SameScore(g, Input(g, c));
        case Frame => GravityScores(g);
      }
      RunScores(Step(g, es[0]), es[1..]);
    }
  }

  /** Over every run the level and the speed are those of the lines, and the score is between 100
      points a line and 200 points a line times the level's factor. */
  lemma RunsKeepTheScore(seed: nat, es: seq<Event>)
    ensures Scored(Run(Start(seed), es))
  {
    RunScores(Start(seed), es);
  }
}
