/** The `TetrisGame` object: its fields and the methods that update them in
    place. Each method is proved to leave the fields exactly as the matching
    transition of the Engine module prescribes, and to keep the game invariant. */
module Tetris {
  import opened Shapes
  import opened Board
  import opened Bag
  import opened Scoring
  import opened Pieces
  import opened Engine

  /** No occupied cell of the piece before matrix position (r, c), moved by
      (dx, dy), is blocked: what the collision scan has established so far. */
  ghost predicate RowsClear(g: Grid, p: Piece, dx: int, dy: int, r: int, c: int)
    requires WellFormed(g) && RotationOk(p)
  {
    forall i, k :: Occupied(MatrixOf(p), i, k) && (i < r || (i == r && k < c)) ==>
      !Blocked(g, p.x + dx + k, p.y + dy + i)
  }

  /** A blocked occupied cell found by the scan is a collision. */
  lemma HitAt(g: Grid, p: Piece, dx: int, dy: int, r: int, c: int)
    requires WellFormed(g) && RotationOk(p)
    requires Occupied(MatrixOf(p), r, c) && Blocked(g, p.x + dx + c, p.y + dy + r)
    ensures Collides(g, p, dx, dy)
  {
  }

  /** The scan passes a cell that is empty or not blocked. */
  lemma ScanStepCell(g: Grid, p: Piece, dx: int, dy: int, r: int, c: int)
    requires WellFormed(g) && RotationOk(p) && RowsClear(g, p, dx, dy, r, c)
    requires Occupied(MatrixOf(p), r, c) ==> !Blocked(g, p.x + dx + c, p.y + dy + r)
    ensures RowsClear(g, p, dx, dy, r, c + 1)
  {
  }

  /** Finishing matrix row r of the scan is starting row r + 1. */
  lemma ScanStepRow(g: Grid, p: Piece, dx: int, dy: int, r: int)
    requires WellFormed(g) && RotationOk(p) && 0 <= r < |MatrixOf(p)|
    requires RowsClear(g, p, dx, dy, r, |MatrixOf(p)[r]|)
    ensures RowsClear(g, p, dx, dy, r + 1, 0)
  {
  }

  /** A scan that visited every cell without finding a blocked one: no collision. */
  lemma NoHit(g: Grid, p: Piece, dx: int, dy: int)
    requires WellFormed(g) && RotationOk(p)
    requires RowsClear(g, p, dx, dy, |MatrixOf(p)|, 0)
    ensures !Collides(g, p, dx, dy)
  {
  }

  /** Cell (x, y) is one the piece covers and that the writing loop of
      `place_piece` has reached before matrix position (r, c). */
  predicate WrittenBefore(p: Piece, x: int, y: int, r: int, c: int)
    requires RotationOk(p)
  {
    Covers(p, x, y) && (y - p.y < r || (y - p.y == r && x - p.x < c))
  }

  class TetrisGame {
    var grid: Grid
    var current: Piece
    var next: ShapeName
    var bag: seq<ShapeName>
    var score: nat
    var level: int
    var speed: int
    var lastFall: int
    var gameOver: bool

    /** The fields as a value. */
    function Snapshot(): Game
      reads this
    {
      Game(grid, current, next, bag, score, level, speed, lastFall, gameOver)
    }

    ghost predicate Valid()
      reads this
    {
      ValidGame(Snapshot())
    }

    /** `__init__` with the shuffle `deck` and the clock reading `now`. */
    constructor (deck: seq<ShapeName>, now: int)
      requires IsShuffle(deck)
      ensures Snapshot() == InitF(deck, now) && Valid()
    {
      grid := EmptyGrid();
      score := 0;
      level := 1;
      speed := 1000;
      lastFall := now;
      gameOver := false;
      bag := [];
      new;
      InitBag(deck);
      InitValid(deck, now);
    }

    /** `init_bag`: fill the bag with the shuffle, pop the next name, and
        spawn the first piece. */
    method InitBag(deck: seq<ShapeName>)
      requires IsShuffle(deck)
      modifies this
      ensures var (first, bag0) := Draw([], deck);
              var (second, bag1) := Draw(bag0, deck);
              Snapshot() == old(Snapshot()).(current := Spawn(first), next := second, bag := bag1)
    {
      ghost var s0 := Snapshot();
      bag := deck;
      next := bag[|bag| - 1];
      bag := bag[..|bag| - 1];
      assert (next, bag) == Draw([], deck);
      ghost var s1 := Snapshot();
      current := NewPiece(deck);
      assert Snapshot() == s1.(current := Spawn(s1.next), next := Draw(s1.bag, deck).0, bag := Draw(s1.bag, deck).1);
    }

    /** `new_piece`: refill the bag with `deck` when it is empty, spawn the
        buffered next name and pop a new one. */
    method NewPiece(deck: seq<ShapeName>) returns (p: Piece)
      requires deck != []
      modifies this
      ensures p == Spawn(old(next))
      ensures Snapshot() == old(Snapshot()).(next := Draw(old(bag), deck).0, bag := Draw(old(bag), deck).1)
    {
      if bag == [] {
        bag := deck;
      }
      var nextP := next;
      next := bag[|bag| - 1];
      bag := bag[..|bag| - 1];
      p := Piece(nextP, 0, Width / 2 - |Rotations(nextP)[0][0]| / 2, 0);
    }

    /** `check_collision(piece, dx, dy)`: scans the matrix row by row and
        stops at the first occupied cell that is blocked. */
    method CheckCollision(piece: Piece, dx: int, dy: int) returns (hit: bool)
      requires WellFormed(grid) && RotationOk(piece)
      ensures hit == Collides(grid, piece, dx, dy)
    {
      var m := Rotations(piece.shape)[piece.rotation];
      assert m == MatrixOf(piece);
      var r := 0;
      while r < |m|
        invariant 0 <= r <= |m|
        invariant RowsClear(grid, piece, dx, dy, r, 0)
      {
        var c := 0;
        while c < |m[r]|
          invariant 0 <= c <= |m[r]|
          invariant RowsClear(grid, piece, dx, dy, r, c)
        {
          if m[r][c] {
            var newX := piece.x + c + dx;
            var newY := piece.y + r + dy;
            if newX < 0 || newX >= Width || newY >= Height {
              HitAt(grid, piece, dx, dy, r, c);
              return true;
            }
            if newY >= 0 && grid[newY][newX] != Empty {
              HitAt(grid, piece, dx, dy, r, c);
              return true;
            }
          }
          ScanStepCell(grid, piece, dx, dy, r, c);
          c := c + 1;
        }
        ScanStepRow(grid, piece, dx, dy, r);
        r := r + 1;
      }
      NoHit(grid, piece, dx, dy);
      return false;
    }

    /** `move(dx, dy)`: shift the piece when nothing is in the way; a blocked
        downward move locks it. Reports whether the piece moved. */
    method Move(dx: int, dy: int, deck: seq<ShapeName>) returns (moved: bool)
      requires Valid() && IsShuffle(deck)
      modifies this
      ensures (Snapshot(), moved) == MoveF(old(Snapshot()), dx, dy, deck)
      ensures Valid()
    {
      ghost var s0 := Snapshot();
      ghost var expected := MoveF(s0, dx, dy, deck);
      MoveKeepsValid(s0, dx, dy, deck);
      if !gameOver {
        var hit := CheckCollision(current, dx, dy);
        if !hit {
          ShiftPiece(dx, dy);
          assert Snapshot() == s0.(current := Shifted(s0.current, dx, dy)) == expected.0;
          return true;
        } else if dy == 1 {
          PlacePiece(deck);
          assert Snapshot() == LockF(s0, deck) == expected.0;
          return false;
        }
      }
      assert Snapshot() == s0 == expected.0;
      return false;
    }

    /** `current_piece['x'] += dx` and `current_piece['y'] += dy`. */
    method ShiftPiece(dx: int, dy: int)
      modifies this
      ensures Snapshot() == old(Snapshot()).(current := Shifted(old(current), dx, dy))
    {
      current := current.(x := current.x + dx, y := current.y + dy);
    }

    /** An assignment to `current_piece`. */
    method SetCurrent(p: Piece)
      modifies this
      ensures Snapshot() == old(Snapshot()).(current := p)
    {
      current := p;
    }

    /** `self.game_over = True`. */
    method EndGame()
      modifies this
      ensures Snapshot() == old(Snapshot()).(gameOver := true)
    {
      gameOver := true;
    }

    /** `rotate()`: turn the piece in place and turn it back if it collides. */
    method Rotate()
      requires Valid()
      modifies this
      ensures Snapshot() == RotateF(old(Snapshot()))
      ensures Valid()
    {
      ghost var s0 := Snapshot();
      RotateKeepsValid(s0);
      if gameOver {
        return;
      }
      var originalRotation := current.rotation;
      SetCurrent(NextRotation(current));
      var hit := CheckCollision(current, 0, 0);
      if hit {
        SetCurrent(current.(rotation := originalRotation));
        assert Snapshot() == s0 == RotateF(s0);
      } else {
        assert Snapshot() == s0.(current := NextRotation(s0.current)) == RotateF(s0);
      }
    }

    /** `place_piece()`: write the piece into the grid cell by cell, ending
        the game instead if a cell is above the board; then clear rows,
        update the score and spawn the next piece. */
    method PlacePiece(deck: seq<ShapeName>)
      requires Valid() && IsShuffle(deck)
      modifies this
      ensures Snapshot() == LockF(old(Snapshot()), deck)
      ensures Valid()
    {
      AboveTopIff(current);
      var aboveTop := WriteCells();
      if aboveTop {
        return;
      }
      Settle(deck);
    }

    /** The rest of `place_piece()` once the cells are written. */
    method Settle(deck: seq<ShapeName>)
      requires WellFormed(grid) && level >= 1 && deck != []
      modifies this
      ensures Snapshot() == SettleF(old(Snapshot()), deck)
    {
      ghost var s0 := Snapshot();
      var lines := ClearLines();
      UpdateScore(lines);
      ghost var s1 := Snapshot();
      var piece := NewPiece(deck);
      SetCurrent(piece);
      ghost var s2 := Snapshot();
      assert s2 == s1.(current := Spawn(s0.next), next := Draw(s0.bag, deck).0, bag := Draw(s0.bag, deck).1);
      ClearedShape(s0.grid);
      var hit := CheckCollision(current, 0, 0);
      if hit {
        EndGame();
      }
    }

    /** The writing loop of `place_piece()` applied to the game's grid: the
        grid gets the piece's cells, or the game ends if the piece reaches above
        the board. */
    method WriteCells() returns (aboveTop: bool)
      requires WellFormed(grid) && RotationOk(current) && InBounds(current)
      modifies this
      ensures aboveTop <==> old(current).y < 0
      ensures aboveTop ==> Snapshot() == old(Snapshot()).(gameOver := true)
      ensures !aboveTop ==> Snapshot() == old(Snapshot()).(grid := Stamp(old(grid), old(current)))
    {
      var g;
      g, aboveTop := WritePiece(grid, current);
      grid := g;
      if aboveTop {
        EndGame();
      }
    }

    /** `clear_lines()` on the game's grid; returns the number of rows deleted. */
    method ClearLines() returns (lines: nat)
      requires WellFormed(grid)
      modifies this
      ensures lines == CountFull(old(grid))
      ensures Snapshot() == old(Snapshot()).(grid := Cleared(old(grid)))
    {
      var g;
      g, lines := ClearRows(grid);
      grid := g;
    }

    /** `update_score(lines)`: add the points for `lines` rows times the
        level, then derive the level and the fall interval from the score. */
    method UpdateScore(lines: int)
      requires level >= 1
      modifies this
      ensures score == ScoreAfter(old(score), old(level), lines)
      ensures level == LevelFor(score) && speed == SpeedFor(level)
      ensures Snapshot() == old(Snapshot()).(score := score, level := level, speed := speed)
    {
      score := score + Points(lines) * level;
      level := 1 + score / 1000;
      speed := if 50 < 1000 - (level - 1) * 100 then 1000 - (level - 1) * 100 else 50;
    }

    /** The hard-drop key: `while self.move(0, 1): pass`, then `place_piece()`. */
    method HardDrop(deck: seq<ShapeName>)
      requires Valid() && IsShuffle(deck)
      modifies this
      ensures Snapshot() == HardDropF(old(Snapshot()), deck)
      ensures Valid()
    {
      ghost var s0 := Snapshot();
      var moved := Move(0, 1, deck);
      while moved
        invariant Valid()
        invariant DropLoop(s0, deck) == if moved then DropLoop(Snapshot(), deck) else Snapshot()
        decreases if moved then Height + 1 - current.y else 0
      {
        InBoundsRows(current);
        moved := Move(0, 1, deck);
      }
      PlacePiece(deck);
    }

    /** One key press as dispatched by `handle_input`. */
    method HandleKey(key: Key, deck: seq<ShapeName>)
      requires Valid() && IsShuffle(deck)
      modifies this
      ensures Snapshot() == KeyF(old(Snapshot()), key, deck)
      ensures Valid()
    {
      KeyKeepsValid(Snapshot(), key, deck);
      match key
      case Left => var _ := Move(-1, 0, deck);
      case Right => var _ := Move(1, 0, deck);
      case Down => var _ := Move(0, 1, deck);
      case Up => Rotate();
      case Space => HardDrop(deck);
      case Escape => EndGame();
      case OtherKey =>
    }

    /** `self.last_fall = now`. */
    method SetLastFall(now: int)
      modifies this
      ensures Snapshot() == old(Snapshot()).(lastFall := now)
    {
      lastFall := now;
    }

    /** The gravity step of `run`, given the clock reading `now`. */
    method GravityStep(now: int, deck: seq<ShapeName>)
      requires Valid() && IsShuffle(deck)
      modifies this
      ensures Snapshot() == TickF(old(Snapshot()), now, deck)
      ensures Valid()
    {
      ghost var s0 := Snapshot();
      if now - lastFall > speed {
        TickFires(s0, now, deck);
        var moved := Move(0, 1, deck);
        ghost var s1 := Snapshot();
        assert (s1, moved) == MoveF(s0, 0, 1, deck);
        if !moved {
          PlacePiece(deck);
        }
        assert Snapshot() == (if moved then s1 else LockF(s1, deck));
        SetLastFall(now);
      }
    }
  }

  /** The writing loop of `place_piece()`: each occupied cell of the matrix,
      row by row, gets the shape's name; at the first one above the board the
      loop stops and reports it. Since row 0 of every matrix has an occupied
      cell, that happens before anything is written. */
  method WritePiece(g0: Grid, p: Piece) returns (g: Grid, aboveTop: bool)
    requires WellFormed(g0) && RotationOk(p) && InBounds(p)
    ensures aboveTop <==> p.y < 0
    ensures aboveTop ==> g == g0
    ensures !aboveTop ==> g == Stamp(g0, p)
  {
    g := g0;
    var m := Rotations(p.shape)[p.rotation];
    assert m == MatrixOf(p);
    aboveTop := false;
    var r := 0;
    while r < |m|
      invariant 0 <= r <= |m|
      invariant WellFormed(g) && !aboveTop
      invariant r > 0 ==> p.y >= 0
      invariant StampedUpTo(g0, g, p, r, 0)
    {
      var c := 0;
      ghost var w :| 0 <= w < |m[r]| && m[r][w];
      while c < |m[r]|
        invariant 0 <= c <= |m[r]|
        invariant WellFormed(g) && !aboveTop
        invariant r > 0 ==> p.y >= 0
        invariant w < c ==> p.y + r >= 0
        invariant StampedUpTo(g0, g, p, r, c)
      {
        ghost var before := g;
        if m[r][c] {
          if p.y + r < 0 {
            assert r == 0;
            forall y | 0 <= y < Height ensures g[y] == g0[y] {
              forall x | 0 <= x < Width ensures g[y][x] == g0[y][x] {
                assert !WrittenBefore(p, x, y, r, c);
              }
            }
            return g, true;
          }
          assert Occupied(m, r, c);
          g := g[p.y + r := g[p.y + r][p.x + c := Filled(p.shape)]];
        }
        WriteStep(g0, before, p, r, c);
        c := c + 1;
      }
      NextRow(g0, g, p, r);
      r := r + 1;
    }
    StampDone(g0, p, g);
  }

  /** The cells of `g` are those of `g0`, except that the cells the piece
      covers up to matrix position (r, c) hold its name. */
  ghost predicate StampedUpTo(g0: Grid, g: Grid, p: Piece, r: int, c: int)
    requires WellFormed(g0) && WellFormed(g) && RotationOk(p)
  {
    forall y, x :: 0 <= y < Height && 0 <= x < Width ==>
      g[y][x] == (if WrittenBefore(p, x, y, r, c) then Filled(p.shape) else g0[y][x])
  }

  /** The loop of `clear_lines()`: from the bottom row up, delete each full
      row and put an empty row on top, examining the same index again. The
      result is the cleared grid, and as many rows were deleted as were full. */
  method ClearRows(g0: Grid) returns (g: Grid, lines: nat)
    requires WellFormed(g0)
    ensures lines == CountFull(g0) && g == Cleared(g0)
  {
    g := g0;
    lines := 0;
    var y := Height - 1;
    while y >= 0
      invariant -1 <= y < |g| == Height
      invariant lines + CountFull(g) == CountFull(g0)
      invariant Cleared(g) == Cleared(g0)
      invariant forall k :: y < k < |g| ==> !RowFull(g[k])
      decreases y + 1 + CountFull(g)
    {
      if Empty !in g[y] {
        ClearedDeleteFull(g, y);
        DeleteRowShift(g, y);
        lines := lines + 1;
        g := [EmptyRow()] + (g[..y] + g[y + 1..]);
      } else {
        y := y - 1;
      }
    }
    ClearedNoFull(g);
  }

  /** One visit of the writing loop: an occupied cell is written, an empty one skipped. */
  lemma WriteStep(g0: Grid, g: Grid, p: Piece, r: int, c: int)
    requires WellFormed(g0) && WellFormed(g) && RotationOk(p)
    requires 0 <= r < |MatrixOf(p)| && 0 <= c < |MatrixOf(p)[r]|
    requires MatrixOf(p)[r][c] ==> 0 <= p.y + r < Height && 0 <= p.x + c < Width
    requires StampedUpTo(g0, g, p, r, c)
    ensures var h := if MatrixOf(p)[r][c] then g[p.y + r := g[p.y + r][p.x + c := Filled(p.shape)]] else g;
            WellFormed(h) && StampedUpTo(g0, h, p, r, c + 1)
  {
    var occupied := MatrixOf(p)[r][c];
    var h := if occupied then g[p.y + r := g[p.y + r][p.x + c := Filled(p.shape)]] else g;
    forall y, x | 0 <= y < Height && 0 <= x < Width
      ensures h[y][x] == (if WrittenBefore(p, x, y, r, c + 1) then Filled(p.shape) else g0[y][x])
    {
      if y == p.y + r && x == p.x + c {
        assert WrittenBefore(p, x, y, r, c + 1) == occupied;
      } else {
        assert h[y][x] == g[y][x];
        assert WrittenBefore(p, x, y, r, c + 1) == WrittenBefore(p, x, y, r, c);
      }
    }
  }

  /** Finishing matrix row r is starting row r + 1. */
  lemma NextRow(g0: Grid, g: Grid, p: Piece, r: int)
    requires WellFormed(g0) && WellFormed(g) && RotationOk(p)
    requires 0 <= r < |MatrixOf(p)|
    requires StampedUpTo(g0, g, p, r, |MatrixOf(p)[r]|)
    ensures StampedUpTo(g0, g, p, r + 1, 0)
  {
    forall y, x | 0 <= y < Height && 0 <= x < Width
      ensures WrittenBefore(p, x, y, r + 1, 0) == WrittenBefore(p, x, y, r, |MatrixOf(p)[r]|)
    {
    }
  }

  /** Once every cell of the matrix has been visited, the grid is the stamped one. */
  lemma StampDone(g0: Grid, p: Piece, g: Grid)
    requires WellFormed(g0) && WellFormed(g) && RotationOk(p)
    requires StampedUpTo(g0, g, p, |MatrixOf(p)|, 0)
    ensures g == Stamp(g0, p)
  {
    var st := Stamp(g0, p);
    forall y | 0 <= y < Height ensures g[y] == st[y] {
      forall x | 0 <= x < Width ensures g[y][x] == st[y][x] {
        assert WrittenBefore(p, x, y, |MatrixOf(p)|, 0) == Covers(p, x, y);
      }
    }
  }

}
