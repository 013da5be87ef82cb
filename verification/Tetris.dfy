/** The Tetris program on values: the board, the falling piece, and one step of the game
    (tetris.c). */
module Tetris {
  const BW: nat := 10
  const BH: nat := 20

  /** 0 is an empty cell; a cell of piece p holds p + 1. */
  type Row = r: seq<nat> | |r| == BW witness NoCells()
  type Board = b: seq<Row> | |b| == BH witness NoRows()

  function NoCells(): (r: seq<nat>)
    ensures |r| == BW && forall x :: 0 <= x < BW ==> r[x] == 0
  {
    seq(BW, i => 0)
  }

  function NoRows(): (b: seq<Row>)
    ensures |b| == BH
  {
    seq(BH, i => EmptyRow())
  }

  const PIECES: seq<seq<bv16>> := [
    [0x0F00, 0x2222, 0x00F0, 0x4444], [0x6600, 0x6600, 0x6600, 0x6600], [0x0E40, 0x4C40, 0x4E00, 0x4640],
    [0x06C0, 0x8C40, 0x6C00, 0x4620], [0x0C60, 0x4C80, 0xC600, 0x2640], [0x0E80, 0xC440, 0x2E00, 0x44C0],
    [0x0E20, 0x4460, 0x8E00, 0xC880]]

  predicate Shape(p: nat, r: nat) { p < 7 && r < 4 }

  /** pcell; outside the 4 by 4 grid there is nothing. */
  predicate Cell(p: nat, r: nat, gx: int, gy: int)
    requires Shape(p, r)
  {
    0 <= gx < 4 && 0 <= gy < 4 && (PIECES[p][r] >> (15 - gy * 4 - gx)) & 1 == 1
  }

  function EmptyRow(): Row { NoCells() }

  function EmptyBoard(): Board { NoRows() }

  // ----- the piece on the board -----

  /** The cell (gx, gy) of the piece lies beside or below the board, or on a filled cell. */
  predicate Hits(b: Board, gx: int, gy: int, px: int, py: int) {
    var x, y := px + gx, py + gy;
    x < 0 || x >= BW || y >= BH || (y >= 0 && b[y][x] != 0)
  }

  predicate Collides(b: Board, p: nat, r: nat, px: int, py: int)
    requires Shape(p, r)
  {
    exists gx, gy :: 0 <= gx < 4 && 0 <= gy < 4 && Cell(p, r, gx, gy) && Hits(b, gx, gy, px, py)
  }

  function LockedRow(row: Row, p: nat, r: nat, px: int, gy: int): (r': Row)
    requires Shape(p, r)
    ensures forall x :: 0 <= x < BW ==> r'[x] == if Cell(p, r, x - px, gy) then p + 1 else row[x]
  {
    seq(BW, x requires 0 <= x < BW => if Cell(p, r, x - px, gy) then p + 1 else row[x])
  }

  /** lock_piece. */
  function Lock(b: Board, p: nat, r: nat, px: int, py: int): (b': Board)
    requires Shape(p, r)
    ensures forall y :: 0 <= y < BH ==> b'[y] == LockedRow(b[y], p, r, px, y - py)
  {
    seq(BH, y requires 0 <= y < BH => LockedRow(b[y], p, r, px, y - py))
  }

  // ----- clearing rows -----

  predicate Full(r: Row) { forall x :: 0 <= x < BW ==> r[x] != 0 }

  function NotFull(rows: seq<Row>): (r: seq<Row>)
    ensures |r| <= |rows|
  {
    if rows == [] then [] else (if Full(rows[0]) then [] else [rows[0]]) + NotFull(rows[1..])
  }

  function FullCount(rows: seq<Row>): (n: nat)
    ensures n + |NotFull(rows)| == |rows|
  {
    if rows == [] then 0 else (if Full(rows[0]) then 1 else 0) + FullCount(rows[1..])
  }

  function Padding(n: nat): (r: seq<Row>)
    ensures |r| == n && forall i :: 0 <= i < n ==> r[i] == EmptyRow()
  {
    seq(n, i => EmptyRow())
  }

  /** clear_rows: the full rows drop out and as many empty ones come in on top. */
  function Clear(b: Board): Board { Padding(FullCount(b)) + NotFull(b) }

  // ----- the game -----

  datatype Game = Game(board: Board, cp: nat, cr: nat, cx: int, cy: int, np: nat, score: nat, lines: nat,
                       level: nat, over: bool, dropInterval: int, rng: nat, tick: nat)

  /** One step of the generator, in 32 bits. */
  function NextRng(rng: nat): nat { (rng * 1103515245 + 12345) % 0x1_0000_0000 }

  function Random7(rng: nat): (p: nat)
    ensures p < 7
  {
    rng / 0x10000 % 0x8000 % 7
  }

  predicate Shapes(g: Game) { Shape(g.cp, g.cr) && g.np < 7 }

  function Spawn(g: Game): Game
    requires g.np < 7
  {
    var rng := NextRng(g.rng);
    g.(cp := g.np, np := Random7(rng), rng := rng, cr := 0, cx := 3, cy := -1,
       over := g.over || Collides(g.board, g.np, 0, 3, -1))
  }

  /** The score table, which has five entries. */
  function Points(n: nat): nat
    requires n <= 4
  {
    if n == 0 then 0 else if n == 1 then 100 else if n == 2 then 300 else if n == 3 then 500 else 800
  }

  /** award_lines. */
  function Award(g: Game, n: nat): Game
    requires n <= 4
  {
    var level := (g.lines + n) / 10;
    var drop := 20 - level * 2;
    g.(score := g.score + Points(n) * (g.level + 1), lines := g.lines + n, level := level,
       dropInterval := if drop < 2 then 2 else drop)
  }

  predicate Blocked(g: Game, r: nat, x: int, y: int)
    requires Shape(g.cp, r)
  {
    Collides(g.board, g.cp, r, x, y)
  }

  /** Every piece has a cell, so that a free piece is not below the board. */
  lemma HasCell(p: nat, r: nat)
    requires Shape(p, r)
    ensures exists gx, gy :: 0 <= gx < 4 && 0 <= gy < 4 && Cell(p, r, gx, gy)
  {
    var gx, gy := if p == 0 && r == 1 then 2 else if p == 6 && r == 3 then 0 else 1, if p == 0 && r == 2 then 2 else 1;
    assert Cell(p, r, gx, gy);
  }

  lemma FreeIsAbove(b: Board, p: nat, r: nat, px: int, py: int)
    requires Shape(p, r) && !Collides(b, p, r, px, py)
    ensures py < BH
  {
    HasCell(p, r);
    var gx, gy :| 0 <= gx < 4 && 0 <= gy < 4 && Cell(p, r, gx, gy);
    assert !Hits(b, gx, gy, px, py);
  }

  /** Where the loop of the hard drop ends. */
  function Bottom(b: Board, p: nat, r: nat, px: int, py: int): (y: int)
    requires Shape(p, r)
    decreases BH - py
  {
    if Collides(b, p, r, px, py + 1) then py
    else
      FreeIsAbove(b, p, r, px, py + 1);
      Bottom(b, p, r, px, py + 1)
  }

  /** handle_input, but for quitting. */
  function Input(g: Game, c: char): Game
    requires Shapes(g)
  {
    if g.over then g
    else if c == 'a' || c == 'A' then if Blocked(g, g.cr, g.cx - 1, g.cy) then g else g.(cx := g.cx - 1)
    else if c == 'd' || c == 'D' then if Blocked(g, g.cr, g.cx + 1, g.cy) then g else g.(cx := g.cx + 1)
    else if c == 'w' || c == 'W' then
      var nr := (g.cr + 1) % 4;
      if !Blocked(g, nr, g.cx, g.cy) then g.(cr := nr)
      else if !Blocked(g, nr, g.cx - 1, g.cy) then g.(cx := g.cx - 1, cr := nr)
      else if !Blocked(g, nr, g.cx + 1, g.cy) then g.(cx := g.cx + 1, cr := nr)
      else g
    else if c == 's' || c == 'S' then if Blocked(g, g.cr, g.cx, g.cy + 1) then g else g.(cy := g.cy + 1)
    else if c == ' ' then g.(cy := Bottom(g.board, g.cp, g.cr, g.cx, g.cy))
    else g
  }

  /** The piece has landed: it is locked, full rows are cleared and paid for, the next one comes. */
  function Land(g: Game): Game
    requires Shapes(g)
    requires FullCount(Lock(g.board, g.cp, g.cr, g.cx, g.cy)) <= 4
  {
    var b := Lock(g.board, g.cp, g.cr, g.cx, g.cy);
    var n := FullCount(b);
    var g1 := g.(board := Clear(b));
    Spawn(if n > 0 then Award(g1, n) else g1)
  }

  // ----- what holds between steps -----

  predicate NoFullRow(b: Board) { forall y :: 0 <= y < BH ==> !Full(b[y]) }

  /** No row is full, and while the game lasts the falling piece is free. */
  predicate Inv(g: Game) {
    && Shapes(g) && NoFullRow(g.board) && 2 <= g.dropInterval <= 20
    && (!g.over ==> !Collides(g.board, g.cp, g.cr, g.cx, g.cy))
  }

  /** Locking touches four rows, so at most four of them can become full. */
  lemma AtMostFourFull(b: Board, p: nat, r: nat, px: int, py: int)
    requires Shape(p, r) && NoFullRow(b)
    ensures FullCount(Lock(b, p, r, px, py)) <= 4
  {
    var b' := Lock(b, p, r, px, py);
    forall y | 0 <= y < BH && !(py <= y < py + 4)
      ensures !Full(b'[y])
    {
      var x :| 0 <= x < BW && b[y][x] == 0;
      assert b'[y][x] == b[y][x];
    }
    FullBetween(b', py, py + 4);
  }

  lemma {:induction false} FullBetween(rows: seq<Row>, lo: int, hi: int)
    requires lo <= hi && forall y :: 0 <= y < |rows| && !(lo <= y < hi) ==> !Full(rows[y])
    ensures FullCount(rows) <= hi - lo
    ensures hi <= 0 ==> FullCount(rows) == 0
    ensures lo <= 0 <= hi ==> FullCount(rows) <= hi
    decreases |rows|
  {
    if rows != [] {
      FullBetween(rows[1..], lo - 1, hi - 1);
    }
  }

  /** One step of the main loop's gravity. */
  function Gravity(g: Game): Game
    requires Inv(g)
  {
    if g.over then g
    else if g.tick + 1 < g.dropInterval then g.(tick := g.tick + 1)
    else if !Blocked(g, g.cr, g.cx, g.cy + 1) then g.(tick := 0, cy := g.cy + 1)
    else
      AtMostFourFull(g.board, g.cp, g.cr, g.cx, g.cy);
      Land(g.(tick := 0))
  }

  datatype Event = Key(c: char) | Frame

  function Step(g: Game, e: Event): Game
    requires Inv(g)
  {
    match e
    case Key(c) => Input(g, c)
    case Frame => Gravity(g)
  }
}
