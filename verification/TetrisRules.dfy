/** The rules of the game in terms of its squares: what the pieces look like and how they turn, what the
    keys do, where rows fall, what lines pay, and which piece comes next. */
module TetrisRules {
  import opened Integers
  import opened Tetris
  import opened TetrisRuns

  // ----- the pieces -----

  /** The squares (column, row) of each piece in each of its four positions. */
  const SQUARES: seq<seq<seq<(int, int)>>> := [
    [[(0, 1), (1, 1), (2, 1), (3, 1)],
     [(2, 0), (2, 1), (2, 2), (2, 3)],
     [(0, 2), (1, 2), (2, 2), (3, 2)],
     [(1, 0), (1, 1), (1, 2), (1, 3)]],
    [[(1, 0), (2, 0), (1, 1), (2, 1)],
     [(1, 0), (2, 0), (1, 1), (2, 1)],
     [(1, 0), (2, 0), (1, 1), (2, 1)],
     [(1, 0), (2, 0), (1, 1), (2, 1)]],
    [[(0, 1), (1, 1), (2, 1), (1, 2)],
     [(1, 0), (0, 1), (1, 1), (1, 2)],
     [(1, 0), (0, 1), (1, 1), (2, 1)],
     [(1, 0), (1, 1), (2, 1), (1, 2)]],
    [[(1, 1), (2, 1), (0, 2), (1, 2)],
     [(0, 0), (0, 1), (1, 1), (1, 2)],
     [(1, 0), (2, 0), (0, 1), (1, 1)],
     [(1, 0), (1, 1), (2, 1), (2, 2)]],
    [[(0, 1), (1, 1), (1, 2), (2, 2)],
     [(1, 0), (0, 1), (1, 1), (0, 2)],
     [(0, 0), (1, 0), (1, 1), (2, 1)],
     [(2, 0), (1, 1), (2, 1), (1, 2)]],
    [[(0, 1), (1, 1), (2, 1), (0, 2)],
     [(0, 0), (1, 0), (1, 1), (1, 2)],
     [(2, 0), (0, 1), (1, 1), (2, 1)],
     [(1, 0), (1, 1), (0, 2), (1, 2)]],
    [[(0, 1), (1, 1), (2, 1), (2, 2)],
     [(1, 0), (1, 1), (1, 2), (2, 2)],
     [(0, 0), (0, 1), (1, 1), (2, 1)],
     [(0, 0), (1, 0), (0, 1), (0, 2)]]]

  lemma Piece0(r: nat, gx: int, gy: int)
    requires r < 4 && 0 <= gx < 4 && 0 <= gy < 4
    ensures Cell(0, r, gx, gy) <==> (gx, gy) in SQUARES[0][r]
  {
  }

  lemma Piece1(r: nat, gx: int, gy: int)
    requires r < 4 && 0 <= gx < 4 && 0 <= gy < 4
    ensures Cell(1, r, gx, gy) <==> (gx, gy) in SQUARES[1][r]
  {
  }

  lemma Piece2(r: nat, gx: int, gy: int)
    requires r < 4 && 0 <= gx < 4 && 0 <= gy < 4
    ensures Cell(2, r, gx, gy) <==> (gx, gy) in SQUARES[2][r]
  {
  }

  lemma Piece3(r: nat, gx: int, gy: int)
    requires r < 4 && 0 <= gx < 4 && 0 <= gy < 4
    ensures Cell(3, r, gx, gy) <==> (gx, gy) in SQUARES[3][r]
  {
  }

  lemma Piece4(r: nat, gx: int, gy: int)
    requires r < 4 && 0 <= gx < 4 && 0 <= gy < 4
    ensures Cell(4, r, gx, gy) <==> (gx, gy) in SQUARES[4][r]
  {
  }

  lemma Piece5(r: nat, gx: int, gy: int)
    requires r < 4 && 0 <= gx < 4 && 0 <= gy < 4
    ensures Cell(5, r, gx, gy) <==> (gx, gy) in SQUARES[5][r]
  {
  }

  lemma Piece6(r: nat, gx: int, gy: int)
    requires r < 4 && 0 <= gx < 4 && 0 <= gy < 4
    ensures Cell(6, r, gx, gy) <==> (gx, gy) in SQUARES[6][r]
  {
  }

  /** Every piece is these four squares, and nothing outside its grid. */
  lemma PieceIsItsSquares(p: nat, r: nat, gx: int, gy: int)
    requires Shape(p, r)
    ensures |SQUARES[p][r]| == 4 && forall i, j :: 0 <= i < j < 4 ==> SQUARES[p][r][i] != SQUARES[p][r][j]
    ensures Cell(p, r, gx, gy) <==> (gx, gy) in SQUARES[p][r]
  {
    hide Cell;
    if 0 <= gx < 4 && 0 <= gy < 4 {
      match p
      case 0 => Piece0(r, gx, gy);
      case 1 => Piece1(r, gx, gy);
      case 2 => Piece2(r, gx, gy);
      case 3 => Piece3(r, gx, gy);
      case 4 => Piece4(r, gx, gy);
      case 5 => Piece5(r, gx, gy);
      case _ => Piece6(r, gx, gy);
    } else {
      OutsideGrid(p, r, gx, gy);
    }
  }

  lemma OutsideGrid(p: nat, r: nat, gx: int, gy: int)
    requires Shape(p, r) && !(0 <= gx < 4 && 0 <= gy < 4)
    ensures !Cell(p, r, gx, gy) && (gx, gy) !in SQUARES[p][r]
  {
  }

  /** The squares `b` are the squares `a` after a quarter turn clockwise, moved by (s, t). */
  ghost predicate Turned(a: seq<(int, int)>, b: seq<(int, int)>, s: int, t: int) {
    forall x: int, y: int :: (x, y) in b <==> (y - t, s - x) in a
  }

  ghost predicate IsTurn(a: seq<(int, int)>, b: seq<(int, int)>) { exists s: int, t: int :: Turned(a, b, s, t) }

  /** The two positions that the source has exchanged between pieces 5 and 6, which are mirror images. */
  predicate Exchanged(p: nat, r: nat) { (p == 5 && r == 3) || (p == 6 && r == 1) }

  /** 'w' turns a piece clockwise precisely when neither the position it is in nor the next is one of
      these two. */
  lemma TurnsExactlyWhen(p: nat, r: nat)
    requires Shape(p, r)
    ensures IsTurn(SQUARES[p][r], SQUARES[p][(r + 1) % 4]) <==> !Exchanged(p, r) && !Exchanged(p, (r + 1) % 4)
  {
    match p
    case 0 => TurnsIn4(r);
    case 1 => TurnsSquare(r);
    case 2 => Turns2(r);
    case 3 => Turns3(r);
    case 4 => Turns4(r);
    case 5 => Turns5(r);
    case _ => Turns6(r);
  }

  lemma TurnsIn4(r: nat)
    requires r < 4
    ensures IsTurn(SQUARES[0][r], SQUARES[0][(r + 1) % 4])
  {
    assert Turned(SQUARES[0][r], SQUARES[0][(r + 1) % 4], 3, 0);
  }

  lemma TurnsSquare(r: nat)
    requires r < 4
    ensures IsTurn(SQUARES[1][r], SQUARES[1][(r + 1) % 4])
  {
    assert Turned(SQUARES[1][r], SQUARES[1][(r + 1) % 4], 2, -1);
  }

  lemma Turns2(r: nat)
    requires r < 4
    ensures IsTurn(SQUARES[2][r], SQUARES[2][(r + 1) % 4])
  {
    assert Turned(SQUARES[2][r], SQUARES[2][(r + 1) % 4], 2, 0);
  }

  lemma Turns3(r: nat)
    requires r < 4
    ensures IsTurn(SQUARES[3][r], SQUARES[3][(r + 1) % 4])
  {
    assert Turned(SQUARES[3][r], SQUARES[3][(r + 1) % 4], 2, 0);
  }

  lemma Turns4(r: nat)
    requires r < 4
    ensures IsTurn(SQUARES[4][r], SQUARES[4][(r + 1) % 4])
  {
    assert Turned(SQUARES[4][r], SQUARES[4][(r + 1) % 4], 2, 0);
  }

  lemma Turns5(r: nat)
    requires r < 4
    ensures IsTurn(SQUARES[5][r], SQUARES[5][(r + 1) % 4]) <==> r < 2
  {
    assert r < 2 ==> Turned(SQUARES[5][r], SQUARES[5][r + 1], 2, 0);
    hide IsTurn;
    NeverTurns52();
    NeverTurns53();
  }

  lemma Turns6(r: nat)
    requires r < 4
    ensures IsTurn(SQUARES[6][r], SQUARES[6][(r + 1) % 4]) <==> r >= 2
  {
    assert r == 2 ==> Turned(SQUARES[6][2], SQUARES[6][3], 1, 0);
    assert r == 3 ==> Turned(SQUARES[6][3], SQUARES[6][0], 2, 1);
    hide IsTurn;
    NeverTurns60();
    NeverTurns61();
  }

  /** Where a turn takes the four squares. */
  lemma TurnMoves(a: seq<(int, int)>, b: seq<(int, int)>, s: int, t: int)
    requires Turned(a, b, s, t) && |a| == 4
    ensures (s - a[0].1, a[0].0 + t) in b && (s - a[1].1, a[1].0 + t) in b
    ensures (s - a[2].1, a[2].0 + t) in b && (s - a[3].1, a[3].0 + t) in b
  {
    forall i | 0 <= i < 4
      ensures (s - a[i].1, a[i].0 + t) in b
    {
      assert ((a[i].0 + t) - t, s - (s - a[i].1)) == a[i];
    }
  }

  lemma NeverTurns52()
    ensures !IsTurn(SQUARES[5][2], SQUARES[5][3])
  {
    forall s: int, t: int
      ensures !Turned(SQUARES[5][2], SQUARES[5][3], s, t)
    {
      NoTurn52(s, t);
    }
  }

  lemma NoTurn52(s: int, t: int)
    ensures !Turned(SQUARES[5][2], SQUARES[5][3], s, t)
  {
    hide Turned;
    if Turned(SQUARES[5][2], SQUARES[5][3], s, t) {
      TurnMoves(SQUARES[5][2], SQUARES[5][3], s, t);
    }
  }

  lemma NeverTurns53()
    ensures !IsTurn(SQUARES[5][3], SQUARES[5][0])
  {
    forall s: int, t: int
      ensures !Turned(SQUARES[5][3], SQUARES[5][0], s, t)
    {
      NoTurn53(s, t);
    }
  }

  lemma NoTurn53(s: int, t: int)
    ensures !Turned(SQUARES[5][3], SQUARES[5][0], s, t)
  {
    hide Turned;
    if Turned(SQUARES[5][3], SQUARES[5][0], s, t) {
      TurnMoves(SQUARES[5][3], SQUARES[5][0], s, t);
    }
  }

  lemma NeverTurns60()
    ensures !IsTurn(SQUARES[6][0], SQUARES[6][1])
  {
    forall s: int, t: int
      ensures !Turned(SQUARES[6][0], SQUARES[6][1], s, t)
    {
      NoTurn60(s, t);
    }
  }

  lemma NoTurn60(s: int, t: int)
    ensures !Turned(SQUARES[6][0], SQUARES[6][1], s, t)
  {
    hide Turned;
    if Turned(SQUARES[6][0], SQUARES[6][1], s, t) {
      TurnMoves(SQUARES[6][0], SQUARES[6][1], s, t);
    }
  }

  lemma NeverTurns61()
    ensures !IsTurn(SQUARES[6][1], SQUARES[6][2])
  {
    forall s: int, t: int
      ensures !Turned(SQUARES[6][1], SQUARES[6][2], s, t)
    {
      NoTurn61(s, t);
    }
  }

  lemma NoTurn61(s: int, t: int)
    ensures !Turned(SQUARES[6][1], SQUARES[6][2], s, t)
  {
    hide Turned;
    if Turned(SQUARES[6][1], SQUARES[6][2], s, t) {
      TurnMoves(SQUARES[6][1], SQUARES[6][2], s, t);
    }
  }

  // ----- the keys -----

  /** The piece in position `r` at (x, y) has each square on the board or above it, and on no filled cell. */
  ghost predicate Fits(b: Board, p: nat, r: nat, x: int, y: int)
    requires Shape(p, r)
  {
    forall q :: q in SQUARES[p][r] ==>
      0 <= x + q.0 < 10 && y + q.1 < 20 && (y + q.1 >= 0 ==> b[y + q.1][x + q.0] == 0)
  }

  lemma FitsExactlyWhen(b: Board, p: nat, r: nat, x: int, y: int)
    requires Shape(p, r)
    ensures Fits(b, p, r, x, y) <==> !Collides(b, p, r, x, y)
  {
    hide Cell;
    forall gx, gy | Cell(p, r, gx, gy)
      ensures (gx, gy) in SQUARES[p][r] && 0 <= gx < 4 && 0 <= gy < 4
    {
      PieceIsItsSquares(p, r, gx, gy);
      OnGrid(p, r, gx, gy);
    }
    forall q | q in SQUARES[p][r]
      ensures Cell(p, r, q.0, q.1) && 0 <= q.0 < 4 && 0 <= q.1 < 4
    {
      PieceIsItsSquares(p, r, q.0, q.1);
      OnGrid(p, r, q.0, q.1);
    }
  }

  lemma OnGrid(p: nat, r: nat, gx: int, gy: int)
    requires Shape(p, r) && (gx, gy) in SQUARES[p][r]
    ensures 0 <= gx < 4 && 0 <= gy < 4
  {
  }

  /** 'a', 'd' and 's' move the piece one cell left, right or down, precisely when it fits there; keys but
      these, 'w' and the space bar do nothing. */
  lemma KeysMove(g: Game, c: char)
    requires Inv(g) && !g.over
    ensures var r := Step(g, Key(c));
      && (c == 'a' || c == 'A' ==> r == g.(cx := if Fits(g.board, g.cp, g.cr, g.cx - 1, g.cy) then g.cx - 1 else g.cx))
      && (c == 'd' || c == 'D' ==> r == g.(cx := if Fits(g.board, g.cp, g.cr, g.cx + 1, g.cy) then g.cx + 1 else g.cx))
      && (c == 's' || c == 'S' ==> r == g.(cy := if Fits(g.board, g.cp, g.cr, g.cx, g.cy + 1) then g.cy + 1 else g.cy))
      && (c !in "adswADSW " ==> r == g)
  {
    hide Collides, Fits, Bottom;
    FitsExactlyWhen(g.board, g.cp, g.cr, g.cx - 1, g.cy);
    FitsExactlyWhen(g.board, g.cp, g.cr, g.cx + 1, g.cy);
    FitsExactlyWhen(g.board, g.cp, g.cr, g.cx, g.cy + 1);
  }

  /** 'w' puts the piece into its next position: where it is if it fits there, else one cell to the left,
      else one to the right, else not at all. */
  lemma TurnKey(g: Game, c: char)
    requires Inv(g) && !g.over && (c == 'w' || c == 'W')
    ensures var r, n := Step(g, Key(c)), if g.cr == 3 then 0 else g.cr + 1;
      var here, left := Fits(g.board, g.cp, n, g.cx, g.cy), Fits(g.board, g.cp, n, g.cx - 1, g.cy);
      r == if here then g.(cr := n) else if left then g.(cr := n, cx := g.cx - 1)
           else if Fits(g.board, g.cp, n, g.cx + 1, g.cy) then g.(cr := n, cx := g.cx + 1) else g
  {
    hide Collides, Fits, Bottom;
    var n := if g.cr == 3 then 0 else g.cr + 1;
    FitsExactlyWhen(g.board, g.cp, n, g.cx, g.cy);
    FitsExactlyWhen(g.board, g.cp, n, g.cx - 1, g.cy);
    FitsExactlyWhen(g.board, g.cp, n, g.cx + 1, g.cy);
  }

  /** The space bar takes the piece down to the lowest row that it reaches through free ones. */
  lemma SpaceDrops(g: Game, y: int)
    requires Inv(g) && !g.over
    ensures var r := Step(g, Key(' '));
      && r == g.(cy := r.cy) && r.cy >= g.cy && !Fits(g.board, g.cp, g.cr, g.cx, r.cy + 1)
      && (g.cy <= y <= r.cy ==> Fits(g.board, g.cp, g.cr, g.cx, y))
  {
    hide Collides, Fits;
    FreeDown(g.board, g.cp, g.cr, g.cx, g.cy, y);
    FitsExactlyWhen(g.board, g.cp, g.cr, g.cx, y);
    FitsExactlyWhen(g.board, g.cp, g.cr, g.cx, Bottom(g.board, g.cp, g.cr, g.cx, g.cy) + 1);
  }

  lemma {:induction false} FreeDown(b: Board, p: nat, r: nat, x: int, y: int, k: int)
    requires Shape(p, r) && !Collides(b, p, r, x, y)
    ensures Bottom(b, p, r, x, y) >= y && Collides(b, p, r, x, Bottom(b, p, r, x, y) + 1)
    ensures y <= k <= Bottom(b, p, r, x, y) ==> !Collides(b, p, r, x, k)
    decreases BH - y
  {
    hide Collides;
    if !Collides(b, p, r, x, y + 1) {
      FreeIsAbove(b, p, r, x, y + 1);
      FreeDown(b, p, r, x, y + 1, k);
    }
  }

  // ----- landing -----

  /** After locking, the cells under the piece have its colour, and the others theirs. */
  lemma LockedCells(b: Board, p: nat, r: nat, px: int, py: int, x: nat, y: nat)
    requires Shape(p, r) && x < 10 && y < 20
    ensures Lock(b, p, r, px, py)[y][x] == if (x - px, y - py) in SQUARES[p][r] then p + 1 else b[y][x]
  {
    PieceIsItsSquares(p, r, x - px, y - py);
  }

  /** How many of the rows from index `y` on are full. */
  function FullFrom(rows: seq<Row>, y: nat): nat
    requires y <= |rows|
    decreases |rows| - y
  {
    if y == |rows| then 0 else (if Full(rows[y]) then 1 else 0) + FullFrom(rows, y + 1)
  }

  /** A row that is not full falls by the number of full rows below it, and the rows above what is left
      are empty. */
  lemma RowsFall(b: Board, y: nat)
    requires y < 20
    ensures !Full(b[y]) ==> y + FullFrom(b, y) < 20 && Clear(b)[y + FullFrom(b, y)] == b[y]
    ensures y < FullFrom(b, 0) ==> forall x :: 0 <= x < 10 ==> Clear(b)[y][x] == 0
  {
    hide Full;
    CountFrom(b, 0);
    assert b[0..] == b;
    SplitRows(b, y);
    if !Full(b[y]) {
      CountFrom(b, y);
      KeptRow(b, y);
    }
  }

  lemma {:induction false} CountFrom(rows: seq<Row>, y: nat)
    requires y <= |rows|
    ensures FullFrom(rows, y) == FullCount(rows[y..])
    decreases |rows| - y
  {
    hide Full;
    if y < |rows| {
      CountFrom(rows, y + 1);
      assert rows[y..][1..] == rows[y + 1..];
    }
  }

  lemma {:induction false} SplitRows(rows: seq<Row>, y: nat)
    requires y <= |rows|
    ensures NotFull(rows) == NotFull(rows[..y]) + NotFull(rows[y..])
    ensures FullCount(rows) == FullCount(rows[..y]) + FullCount(rows[y..])
    decreases y
  {
    hide Full;
    if y == 0 {
      assert rows[0..] == rows;
    } else {
      SplitRows(rows[1..], y - 1);
      assert rows[..y][1..] == rows[1..][..y - 1] && rows[y..] == rows[1..][y - 1..];
      assert rows[..y][0] == rows[0];
      Regroup(if Full(rows[0]) then [] else [rows[0]], NotFull(rows[1..][..y - 1]), NotFull(rows[y..]));
    }
  }

  lemma Regroup(a: seq<Row>, b: seq<Row>, c: seq<Row>)
    ensures a + (b + c) == (a + b) + c
  {
  }

  /** The row at `y` stands in the cleared board behind the padding and the rows kept above it. */
  lemma KeptRow(b: Board, y: nat)
    requires y < 20 && !Full(b[y])
    requires NotFull(b) == NotFull(b[..y]) + NotFull(b[y..]) && FullCount(b) == FullCount(b[..y]) + FullCount(b[y..])
    ensures y + FullCount(b[y..]) < 20 && Clear(b)[y + FullCount(b[y..])] == b[y]
  {
    hide Full;
    var above, below := NotFull(b[..y]), NotFull(b[y..]);
    assert b[y..][0] == b[y] && below == [b[y]] + NotFull(b[y..][1..]);
    assert |above| == y - FullCount(b[..y]);
    assert Clear(b) == Padding(FullCount(b)) + (above + below);
  }

  /** n lines at once pay nothing, 100, 300, 500 or 800 points times the level plus one; the level is a
      tenth of all lines and quickens the fall down to 2 frames a row. */
  lemma LinesPay(g: Game, n: nat)
    requires n <= 4
    ensures var r := Award(g, n);
      && r.score == g.score + [0, 100, 300, 500, 800][n] * (g.level + 1) && r.lines == g.lines + n
      && 10 * r.level <= r.lines < 10 * (r.level + 1)
      && r.dropInterval == (if r.level >= 9 then 2 else 20 - 2 * r.level)
      && r == g.(score := r.score, lines := r.lines, level := r.level, dropInterval := r.dropInterval)
  {
  }

  /** A piece that cannot fall is locked at its place, pays for its lines at the level it fell at, and the
      next piece, which was known, comes in at the top; the game is over if it does not fit. */
  lemma LandingMeans(g: Game)
    requires Inv(g) && Lands(g)
    ensures var b := Lock(g.board, g.cp, g.cr, g.cx, g.cy);
      var n, r := FullFrom(b, 0), Step(g, Frame);
      && n <= 4 && r.board == Clear(b) && r.lines == g.lines + n && r.tick == 0
      && r.score == g.score + [0, 100, 300, 500, 800][n] * (g.level + 1)
      && r.cp == g.np && r.cr == 0 && r.cx == 3 && r.cy == -1
      && (r.over <==> !Fits(r.board, r.cp, 0, 3, -1))
  {
    hide Collides, Fits, Full, Lock, Clear, FullCount, NextRng, Random7;
    var b := Lock(g.board, g.cp, g.cr, g.cx, g.cy);
    AtMostFourFull(g.board, g.cp, g.cr, g.cx, g.cy);
    CountFrom(b, 0);
    assert b[0..] == b;
    FitsExactlyWhen(Clear(b), g.np, 0, 3, -1);
  }

  /** The piece after the next is drawn from the successor of the generator's state. */
  lemma NextIsDrawn(g: Game)
    requires Inv(g) && Lands(g)
    ensures var r := Step(g, Frame);
      r.rng == (g.rng * 1103515245 + 12345) % 0x1_0000_0000 && r.np == r.rng / 0x1_0000 % 0x8000 % 7
  {
    hide Collides, Full, Lock, Clear, FullCount, Award;
    AtMostFourFull(g.board, g.cp, g.cr, g.cx, g.cy);
    var b := Lock(g.board, g.cp, g.cr, g.cx, g.cy);
    var g1 := g.(tick := 0, board := Clear(b));
    SpawnDraws(g1);
    AwardKeepsRng(g1, FullCount(b));
    SpawnDraws(Award(g1, FullCount(b)));
  }

  lemma SpawnDraws(g: Game)
    requires g.np < 7
    ensures var r := Spawn(g);
      r.rng == (g.rng * 1103515245 + 12345) % 0x1_0000_0000 && r.np == r.rng / 0x1_0000 % 0x8000 % 7
  {
  }

  lemma AwardKeepsRng(g: Game, n: nat)
    requires n <= 4
    ensures Award(g, n).rng == g.rng && Award(g, n).np == g.np
  {
  }

  // ----- falling -----

  function Frames(n: nat): seq<Event> { seq(n, _ => Frame) }

  /** Frames before the next fall only count. */
  lemma {:induction false} WaitingFrames(g: Game, n: nat)
    requires Inv(g) && !g.over && g.tick + n < g.dropInterval
    ensures Run(g, Frames(n)) == g.(tick := g.tick + n)
    decreases n
  {
    hide Collides;
    if n > 0 {
      assert Frames(n)[1..] == Frames(n - 1);
      WaitingFrames(g.(tick := g.tick + 1), n - 1);
    }
  }

  /** A piece that fits one row below falls by one row in every `dropInterval` frames. */
  lemma FallsOnTime(g: Game)
    requires Inv(g) && !g.over && g.tick == 0 && Fits(g.board, g.cp, g.cr, g.cx, g.cy + 1)
    ensures g.dropInterval >= 1 && Run(g, Frames(g.dropInterval)) == g.(cy := g.cy + 1)
  {
    hide Collides, Fits, Land;
    var n := g.dropInterval - 1;
    WaitingFrames(g, n);
    FitsExactlyWhen(g.board, g.cp, g.cr, g.cx, g.cy + 1);
    assert Frames(n + 1) == Frames(n) + [Frame];
    RunsOn(g, Frames(n), Frame);
  }

  lemma {:induction false} RunsOn(g: Game, es: seq<Event>, e: Event)
    requires Inv(g)
    ensures Inv(Run(g, es)) && Run(g, es + [e]) == Step(Run(g, es), e)
    decreases |es|
  {
    hide Step, Inv;
    if es == [] {
      assert es + [e] == [e] && [e][1..] == [];
    } else {
      StepKeeps(g, es[0]);
      assert (es + [e])[1..] == es[1..] + [e];
      RunsOn(Step(g, es[0]), es[1..], e);
    }
  }

  /** Every game begins on an empty board with nothing scored and 20 frames a row; whatever the seed, the
      first piece, drawn from its successor, fits at the top, and the next one is drawn after it. */
  lemma GameStarts(seed: nat)
    ensures var g := Start(seed);
      && (forall x, y :: 0 <= x < 10 && 0 <= y < 20 ==> g.board[y][x] == 0)
      && g.score == 0 && g.lines == 0 && g.level == 0 && g.dropInterval == 20 && g.tick == 0 && !g.over
      && g.cr == 0 && g.cx == 3 && g.cy == -1
      && g.cp == Random7(NextRng(seed)) && g.np == Random7(NextRng(NextRng(seed))) && g.rng == NextRng(NextRng(seed))
  {
    hide Collides, NextRng, Random7;
    var p := Random7(NextRng(seed));
    assert Fits(EmptyBoard(), p, 0, 3, -1);
    FitsExactlyWhen(EmptyBoard(), p, 0, 3, -1);
  }

  /** A game that is over stays as it is, whatever keys and frames follow. */
  lemma {:induction false} OverIsFinal(g: Game, es: seq<Event>)
    requires Inv(g) && g.over
    ensures Run(g, es) == g
    decreases |es|
  {
    hide Collides;
    if es != [] {
      OverIsFinal(g, es[1..]);
    }
  }

  // ----- the next piece -----

  /** The generator is the one of ANSI C: its first values, ... */
  lemma FirstRandoms()
    ensures NextRng(0) == 12345 && NextRng(1) == 1103527590 && NextRng(NextRng(1)) == 2524885223
    ensures Random7(NextRng(1)) == 16838 % 7
  {
  }

  /** ... and that no two states have the same successor, so that it runs through a cycle. */
  lemma GeneratorIsInjective(a: nat, b: nat)
    requires a < 0x1_0000_0000 && b < 0x1_0000_0000 && NextRng(a) == NextRng(b)
    ensures a == b
  {
    Back(a);
    Back(b);
  }

  /** Multiplying by the inverse of the factor modulo 2^32 leads back. */
  lemma Back(a: nat)
    requires a < 0x1_0000_0000
    ensures ((NextRng(a) - 12345) * 4005161829) % 0x1_0000_0000 == a
  {
    hide NextRng, U32;
    var q := Wraps(a);
    ComesBack(a, q, NextRng(a) - 12345, 1103515245, 4005161829, 1029054899);
  }

  lemma Wraps(a: nat) returns (q: int)
    ensures NextRng(a) - 12345 == a * 1103515245 - q * TWO_32
  {
    q := (a * 1103515245 + 12345) / 0x1_0000_0000;
  }

  lemma ComesBack(a: nat, q: int, x: int, factor: int, inverse: int, k: int)
    requires a < 0x1_0000_0000 && factor * inverse == k * TWO_32 + 1 && x == a * factor - q * TWO_32
    ensures (x * inverse) % 0x1_0000_0000 == a
  {
    Undone(a, q, factor, inverse, k, TWO_32);
    U32Is(x * inverse, a * k - q * inverse, a);
  }

  lemma Undone(a: int, q: int, factor: int, inverse: int, k: int, w: int)
    requires factor * inverse == k * w + 1
    ensures (a * factor - q * w) * inverse == (a * k - q * inverse) * w + a
  {
    Distributes(a * factor, -(q * w), inverse);
    Associates(a, factor, inverse);
    TimesSum(a, k * w, 1);
    Associates(a, k, w);
    Associates(q, w, inverse);
    Associates(q, inverse, w);
    Distributes(a * k, -(q * inverse), w);
    assert w * inverse == inverse * w;
    assert (-(q * w)) * inverse == -(q * (w * inverse));
    assert (-(q * inverse)) * w == -(q * (inverse * w));
  }
}
