/** tetris.c in its own form: the board as an array changed in place, and the loops that read,
    lock and clear it, proved against Tetris. */
module TetrisCode {
  import opened Tetris
  import opened TetrisRuns

  class Play {
    const board: array2<nat>
    var cp: nat
    var cr: nat
    var cx: int
    var cy: int
    var np: nat
    var score: nat
    var lines: nat
    var level: nat
    var over: bool
    var dropInterval: int
    var rng: nat
    var tick: nat

    predicate Valid() { board.Length0 == BH && board.Length1 == BW }

    function RowAt(y: nat): (r: Row)
      requires Valid() && y < BH
      reads board
      ensures forall x :: 0 <= x < BW ==> r[x] == board[y, x]
    {
      seq(BW, x requires 0 <= x < BW reads board => board[y, x])
    }

    function Cells(): (b: Board)
      requires Valid()
      reads board
      ensures forall y :: 0 <= y < BH ==> b[y] == RowAt(y)
    {
      seq(BH, y requires 0 <= y < BH reads board => RowAt(y))
    }

    function View(): Game
      requires Valid()
      reads this, board
    {
      Game(Cells(), cp, cr, cx, cy, np, score, lines, level, over, dropInterval, rng, tick)
    }

    /** The start of main. */
    constructor (seed: nat)
      ensures Valid() && View() == Start(seed) && fresh(board)
    {
      board := new nat[BH, BW]((_, _) => 0);
      rng := NextRng(seed);
      np := Random7(NextRng(seed));
      cp, cr, cx, cy := 0, 0, 0, 0;
      score, lines, level, over, dropInterval, tick := 0, 0, 0, false, 20, 0;
      new;
      BlankIsEmpty();
      SpawnPiece();
    }

    lemma BlankIsEmpty()
      requires Valid() && forall y, x :: 0 <= y < BH && 0 <= x < BW ==> board[y, x] == 0
      ensures Cells() == EmptyBoard()
    {
      forall y | 0 <= y < BH
        ensures Cells()[y] == EmptyBoard()[y]
      {
        assert RowAt(y) == EmptyRow();
      }
    }

    /** collides. */
    method IsBlocked(p: nat, r: nat, px: int, py: int) returns (hit: bool)
      requires Valid() && Shape(p, r)
      ensures hit == Collides(Cells(), p, r, px, py)
    {
      hide Cell;
      for gy := 0 to 4
        invariant forall i, j :: 0 <= i < 4 && 0 <= j < gy && Cell(p, r, i, j) ==> !Hits(Cells(), i, j, px, py)
      {
        for gx := 0 to 4
          invariant forall i, j :: 0 <= i < 4 && 0 <= j < gy && Cell(p, r, i, j) ==> !Hits(Cells(), i, j, px, py)
          invariant forall i :: 0 <= i < gx && Cell(p, r, i, gy) ==> !Hits(Cells(), i, gy, px, py)
        {
          if Cell(p, r, gx, gy) {
            var x := px + gx;
            var y := py + gy;
            if x < 0 || x >= BW || y >= BH {
              return true;
            }
            if y >= 0 && board[y, x] != 0 {
              assert Cells()[y][x] != 0;
              return true;
            }
          }
        }
      }
      hit := false;
    }

    /** What lock_piece has made of each cell when it comes to (gx, gy) of the piece's grid. */
    ghost predicate LockedSoFar(b: Board, gy: int, gx: int)
      requires Valid() && Shape(cp, cr)
      reads this, board
    {
      forall y, x :: 0 <= y < BH && 0 <= x < BW ==> board[y, x] == LockedAt(b, cp, cr, cx, cy, gy, gx, y, x)
    }

    /** lock_piece. */
    method LockPiece()
      requires Valid() && Shape(cp, cr)
      modifies board
      ensures Cells() == Lock(old(Cells()), cp, cr, cx, cy)
    {
      hide Cell, LockedAt, LockedSoFar;
      ghost var b := Cells();
      NothingLocked(b);
      for gy := 0 to 4
        invariant LockedSoFar(b, gy, 0)
      {
        for gx := 0 to 4
          invariant LockedSoFar(b, gy, gx)
        {
          LockCell(b, gy, gx);
        }
        RowLocked(b, gy);
      }
      AllLocked(b);
    }

    method LockCell(ghost b: Board, gy: int, gx: int)
      requires Valid() && Shape(cp, cr) && 0 <= gx < 4 && 0 <= gy < 4 && LockedSoFar(b, gy, gx)
      modifies board
      ensures LockedSoFar(b, gy, gx + 1)
    {
      hide Cell;
      if Cell(cp, cr, gx, gy) {
        var x := cx + gx;
        var y := cy + gy;
        if y >= 0 && y < BH && x >= 0 && x < BW {
          board[y, x] := cp + 1;
        }
      }
    }

    lemma NothingLocked(b: Board)
      requires Valid() && Shape(cp, cr) && b == Cells()
      ensures LockedSoFar(b, 0, 0)
    {
      forall y, x | 0 <= y < BH && 0 <= x < BW
        ensures board[y, x] == LockedAt(b, cp, cr, cx, cy, 0, 0, y, x)
      {
        assert b[y][x] == board[y, x];
      }
    }

    lemma RowLocked(b: Board, gy: int)
      requires Valid() && Shape(cp, cr) && LockedSoFar(b, gy, 4)
      ensures LockedSoFar(b, gy + 1, 0)
    {
    }

    lemma AllLocked(b: Board)
      requires Valid() && Shape(cp, cr) && LockedSoFar(b, 4, 0)
      ensures Cells() == Lock(b, cp, cr, cx, cy)
    {
      forall y | 0 <= y < BH
        ensures Cells()[y] == Lock(b, cp, cr, cx, cy)[y]
      {
        assert forall x :: 0 <= x < BW ==> RowAt(y)[x] == board[y, x] == LockedAt(b, cp, cr, cx, cy, 4, 0, y, x);
        assert RowAt(y) == LockedRow(b[y], cp, cr, cx, y - cy);
      }
    }

    method SpawnPiece()
      requires Valid() && np < 7
      modifies this
      ensures View() == Spawn(old(View()))
    {
      hide Collides, NextRng, Random7, Cells;
      cp := np;
      rng := NextRng(rng);
      np := Random7(rng);
      cr := 0;
      cx := 3;
      cy := -1;
      var hit := IsBlocked(cp, cr, cx, cy);
      if hit {
        over := true;
      }
    }

    // ----- clear_rows -----

    method RowIsFull(y: nat) returns (full: bool)
      requires Valid() && y < BH
      ensures full == Full(Cells()[y])
    {
      full := true;
      for x := 0 to BW
        invariant forall k :: 0 <= k < x ==> board[y, k] != 0
      {
        if board[y, x] == 0 {
          assert Cells()[y][x] == 0;
          return false;
        }
      }
    }

    method CopyRow(from: nat, to: nat)
      requires Valid() && from < BH && to < BH && from != to
      modifies board
      ensures Cells() == old(Cells())[to := old(Cells())[from]]
    {
      ghost var b := Cells();
      for x := 0 to BW
        invariant forall y, k :: 0 <= y < BH && 0 <= k < BW ==>
          board[y, k] == if y == to && k < x then old(board[from, k]) else old(board[y, k])
      {
        board[to, x] := board[from, x];
      }
      SameCells(b[to := b[from]]);
    }

    method ClearRow(to: nat)
      requires Valid() && to < BH
      modifies board
      ensures Cells() == old(Cells())[to := EmptyRow()]
    {
      ghost var b := Cells();
      for x := 0 to BW
        invariant forall y, k :: 0 <= y < BH && 0 <= k < BW ==>
          board[y, k] == if y == to && k < x then 0 else old(board[y, k])
      {
        board[to, x] := 0;
      }
      SameCells(b[to := EmptyRow()]);
    }

    lemma SameCells(b: Board)
      requires Valid() && forall y, x :: 0 <= y < BH && 0 <= x < BW ==> board[y, x] == b[y][x]
      ensures Cells() == b
    {
      forall y | 0 <= y < BH
        ensures Cells()[y] == b[y]
      {
        assert RowAt(y) == b[y];
      }
    }

    /** The rows above row `y` move down by one, and an empty one comes in on top. */
    method DropRow(y: nat)
      requires Valid() && y < BH
      modifies board
      ensures Cells() == [EmptyRow()] + old(Cells())[..y] + old(Cells())[y + 1..]
    {
      ghost var b := Cells();
      var k: nat := y;
      hide Dropped;
      DroppedEnds(b, y);
      while k > 0
        invariant k <= y && Cells() == Dropped(b, y, k)
      {
        DroppedStep(b, y, k);
        CopyRow(k - 1, k);
        k := k - 1;
      }
      ClearRow(0);
    }

    /** clear_rows: a row that has just come down is looked at again. `u` rows of the board `b` it
        started from have not been looked at. */
    method ClearRows() returns (cleared: nat)
      requires Valid()
      modifies board
      ensures Cells() == Clear(old(Cells())) && cleared == FullCount(old(Cells()))
    {
      hide Full, NotFull, FullCount;
      ghost var b, u: nat := Cells(), BH;
      cleared := 0;
      ClearingStarts(b);
      var y := BH - 1;
      while y >= 0
        invariant -1 <= y < BH && Clearing(b, Cells(), u, cleared)
        invariant u > 0 ==> y + 1 == cleared + u
        invariant u == 0 ==> y + 1 <= cleared
        decreases y, BH - cleared
      {
        var full := RowIsFull(y);
        ClearingStep(b, Cells(), u, cleared, y);
        if full {
          cleared := cleared + 1;
          DropRow(y);
          u := u - 1;
        } else {
          u := if u > 0 then u - 1 else 0;
          y := y - 1;
        }
      }
      ClearingEnds(b, Cells(), u, cleared);
    }

    method AwardLines(n: nat)
      requires Valid() && n <= 4
      modifies `score, `lines, `level, `dropInterval
      ensures View() == Award(old(View()), n)
    {
      var pts := [0, 100, 300, 500, 800];
      score := score + pts[n] * (level + 1);
      lines := lines + n;
      level := lines / 10;
      dropInterval := 20 - level * 2;
      if dropInterval < 2 {
        dropInterval := 2;
      }
    }

    /** The three tries of a turn. */
    method Rotate()
      requires Valid() && Inv(View()) && !over
      modifies `cx, `cr
      ensures View() == Input(old(View()), 'w')
    {
      hide Collides;
      var nr := (cr + 1) % 4;
      var hit := IsBlocked(cp, nr, cx, cy);
      if !hit {
        cr := nr;
        return;
      }
      hit := IsBlocked(cp, nr, cx - 1, cy);
      if !hit {
        cx := cx - 1;
        cr := nr;
        return;
      }
      hit := IsBlocked(cp, nr, cx + 1, cy);
      if !hit {
        cx := cx + 1;
        cr := nr;
      }
    }

    method HardDrop()
      requires Valid() && Inv(View()) && !over
      modifies `cy
      ensures View() == Input(old(View()), ' ')
    {
      hide Collides;
      var hit := IsBlocked(cp, cr, cx, cy + 1);
      while !hit
        invariant hit == Collides(Cells(), cp, cr, cx, cy + 1)
        invariant Bottom(Cells(), cp, cr, cx, cy) == Bottom(Cells(), cp, cr, cx, old(cy))
        decreases BH - cy
      {
        FreeIsAbove(Cells(), cp, cr, cx, cy + 1);
        cy := cy + 1;
        hit := IsBlocked(cp, cr, cx, cy + 1);
      }
    }

    /** handle_input; the result tells that the player quits. */
    method HandleInput(c: char) returns (quit: bool)
      requires Valid() && Inv(View())
      modifies `cx, `cy, `cr
      ensures quit == (c == 'q' || c == 'Q') && View() == Input(old(View()), c)
    {
      hide Collides, Bottom, Inv;
      quit := c == 'q' || c == 'Q';
      if quit || over {
        return;
      }
      InvIsShapes(View());
      if c == 'a' || c == 'A' {
        var hit := IsBlocked(cp, cr, cx - 1, cy);
        if !hit {
          cx := cx - 1;
        }
      } else if c == 'd' || c == 'D' {
        var hit := IsBlocked(cp, cr, cx + 1, cy);
        if !hit {
          cx := cx + 1;
        }
      } else if c == 'w' || c == 'W' {
        Rotate();
      } else if c == 's' || c == 'S' {
        var hit := IsBlocked(cp, cr, cx, cy + 1);
        if !hit {
          cy := cy + 1;
        }
      } else if c == ' ' {
        HardDrop();
      }
    }

    /** The gravity part of the main loop. */
    method GravityStep()
      requires Valid() && Inv(View())
      modifies this, board
      ensures View() == Gravity(old(View()))
    {
      hide Collides, Lock, Clear, FullCount, Inv;
      InvIsShapes(View());
      if over {
        return;
      }
      tick := tick + 1;
      if tick < dropInterval {
        return;
      }
      tick := 0;
      var hit := IsBlocked(cp, cr, cx, cy + 1);
      if !hit {
        cy := cy + 1;
      } else {
        LandPiece();
      }
    }

    method LandPiece()
      requires Valid() && Shape(cp, cr) && np < 7 && NoFullRow(Cells())
      modifies this, board
      ensures FullCount(Lock(old(Cells()), old(cp), old(cr), old(cx), old(cy))) <= 4
      ensures View() == Land(old(View()))
    {
      hide Collides, Lock, Clear, FullCount, Award, Spawn, NoFullRow;
      AtMostFourFull(Cells(), cp, cr, cx, cy);
      LockPiece();
      var n := ClearRows();
      if n > 0 {
        AwardLines(n);
      }
      SpawnPiece();
    }
  }

  lemma InvIsShapes(g: Game)
    requires Inv(g)
    ensures Shapes(g) && NoFullRow(g.board)
  {
  }

  /** The board when the rows down from row `k` are still to be copied. */
  function Dropped(b: Board, y: nat, k: nat): Board
    requires k <= y < BH
  {
    b[..k + 1] + b[k..y] + b[y + 1..]
  }

  lemma DroppedEnds(b: Board, y: nat)
    requires y < BH
    ensures Dropped(b, y, y) == b
    ensures Dropped(b, y, 0)[0 := EmptyRow()] == [EmptyRow()] + b[..y] + b[y + 1..]
  {
  }

  lemma DroppedStep(b: Board, y: nat, k: nat)
    requires 0 < k <= y < BH
    ensures Dropped(b, y, k)[k := Dropped(b, y, k)[k - 1]] == Dropped(b, y, k - 1)
  {
    var d, d' := Dropped(b, y, k), Dropped(b, y, k - 1);
    forall i | 0 <= i < BH
      ensures d[k := d[k - 1]][i] == d'[i]
    {
    }
  }

  function LockedAt(b: Board, p: nat, r: nat, px: int, py: int, gy: int, gx: int, y: int, x: int): nat
    requires Shape(p, r) && 0 <= y < BH && 0 <= x < BW
  {
    if (y - py < gy || (y - py == gy && x - px < gx)) && Cell(p, r, x - px, y - py) then p + 1 else b[y][x]
  }

  /** The board while it is cleared: padding, the rows not looked at, and what is kept of the rest. */
  ghost predicate Clearing(b: Board, c: Board, u: nat, cleared: nat) {
    u <= BH && cleared == FullCount(b[u..]) && c == Padding(cleared) + b[..u] + NotFull(b[u..]) && cleared + u <= BH
  }

  lemma ClearingStarts(b: Board)
    ensures Clearing(b, b, BH, 0)
  {
    assert b[BH..] == [] && b[..BH] == b && Padding(0) == [];
  }

  lemma RestCounts(b: Board, u: nat)
    requires 0 < u <= BH
    ensures FullCount(b[u - 1..]) == FullCount(b[u..]) + if Full(b[u - 1]) then 1 else 0
    ensures NotFull(b[u - 1..]) == (if Full(b[u - 1]) then [] else [b[u - 1]]) + NotFull(b[u..])
    ensures FullCount(b[u - 1..]) + u - 1 <= BH
  {
    assert b[u - 1..][1..] == b[u..] && b[u - 1..][0] == b[u - 1];
  }

  /** One turn of clear_rows: only a row of the old board can be full. */
  lemma ClearingStep(b: Board, c: Board, u: nat, cleared: nat, y: nat)
    requires Clearing(b, c, u, cleared) && y < BH
    requires if u > 0 then y + 1 == cleared + u else y + 1 <= cleared
    ensures Full(c[y]) ==> u > 0 && Clearing(b, [EmptyRow()] + c[..y] + c[y + 1..], u - 1, cleared + 1)
    ensures !Full(c[y]) ==> Clearing(b, c, if u > 0 then u - 1 else 0, cleared)
  {
    hide Full, NotFull, FullCount;
    var p, f := Padding(cleared), NotFull(b[u..]);
    if u == 0 {
      assert c[y] == p[y] == EmptyRow();
      EmptyIsNotFull();
    } else {
      assert c[y] == b[u - 1];
      RestCounts(b, u);
      assert b[..u] == b[..u - 1] + [b[u - 1]];
      if Full(c[y]) {
        assert c[..y] == p + b[..u - 1] && c[y + 1..] == f;
        assert [EmptyRow()] + p == Padding(cleared + 1);
      }
    }
  }

  lemma EmptyIsNotFull()
    ensures !Full(EmptyRow())
  {
    assert EmptyRow()[0] == 0;
  }

  lemma ClearingEnds(b: Board, c: Board, u: nat, cleared: nat)
    requires Clearing(b, c, u, cleared) && u == 0
    ensures c == Clear(b) && cleared == FullCount(b)
  {
    assert b[0..] == b && b[..0] == [];
  }
}
