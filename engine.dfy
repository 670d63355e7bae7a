/** The game's behaviour as pure transitions on a snapshot of `TetrisGame`'s
    fields: moving, rotating, locking (`place_piece`), the hard-drop and
    gravity steps, and the key dispatch of `handle_input`. The class in
    tetris_game.dfy is proved to change its fields exactly as these functions say. */
module Engine {
  import opened Shapes
  import opened Board
  import opened Bag
  import opened Scoring
  import opened Pieces

  /** The fields of a game: the grid, the falling piece, the buffered next
      name, the bag, score, level, fall interval (ms), the time of the last
      gravity step (ms) and the game-over flag. */
  datatype Game = Game(grid: Grid, current: Piece, next: ShapeName, bag: seq<ShapeName>,
                       score: nat, level: int, speed: int, lastFall: int, gameOver: bool)

  /** The keys `handle_input` reacts to; any other key is ignored. */
  datatype Key = Left | Right | Down | Up | Space | Escape | OtherKey

  /** What holds of every reachable game: the grid has its dimensions and no
      full row, the piece has a valid rotation and lies within the walls and
      above the floor, the bag is consistent, and level and fall interval are
      those the score determines. */
  ghost predicate ValidGame(g: Game)
  {
    WellFormed(g.grid) && NoFullRow(g.grid) &&
    RotationOk(g.current) && InBounds(g.current) &&
    BagOk(g.bag, g.next) &&
    g.level == LevelFor(g.score) && g.speed == SpeedFor(g.level)
  }

  /** The game `TetrisGame.__init__` builds: empty grid, score 0, level 1, a
      1000 ms interval; `init_bag` fills the bag with the shuffle, pops the
      next name, and `new_piece` spawns the first piece and pops again. */
  function InitF(deck: seq<ShapeName>, now: int): Game
    requires IsShuffle(deck)
  {
    var (first, bag0) := Draw([], deck);
    var (second, bag1) := Draw(bag0, deck);
    Game(EmptyGrid(), Spawn(first), second, bag1, 0, 1, 1000, now, false)
  }

  /** The second half of `place_piece`, once the piece is written into the
      grid: `clear_lines`, `update_score` with the rows cleared, `new_piece`,
      and the end of the game if the new piece collides where it appears. */
  function SettleF(g: Game, deck: seq<ShapeName>): (r: Game)
    requires WellFormed(g.grid) && g.level >= 1 && deck != []
    ensures WellFormed(r.grid) && NoFullRow(r.grid)
    ensures r.grid == Cleared(g.grid) && r.current == Spawn(g.next)
    ensures r.score == g.score + Points(CountFull(g.grid)) * g.level
  {
    ClearedShape(g.grid);
    var grid := Cleared(g.grid);
    var score := ScoreAfter(g.score, g.level, CountFull(g.grid));
    var level := LevelFor(score);
    var (next, bag) := Draw(g.bag, deck);
    var piece := Spawn(g.next);
    Game(grid, piece, next, bag, score, level, SpeedFor(level), g.lastFall,
         g.gameOver || Collides(grid, piece, 0, 0))
  }

  /** `place_piece`: if a cell of the piece is above row 0 the game ends and
      nothing is written; otherwise the piece is written into the grid, and
      the rows are cleared, the score updated and the next piece spawned. */
  function LockF(g: Game, deck: seq<ShapeName>): (r: Game)
    requires ValidGame(g) && IsShuffle(deck)
    ensures ValidGame(r) && (g.gameOver ==> r.gameOver)
    ensures g.current.y >= 0 ==> r.current.y >= 0
  {
    AboveTopIff(g.current);
    if AboveTop(g.current) then g.(gameOver := true)
    else
      DrawKeepsBagOk(g.bag, g.next, deck);
      SpawnOnBoard(g.next);
      SettleF(g.(grid := Stamp(g.grid, g.current)), deck)
  }

  /** `move(dx, dy)`: the new game and whether the piece moved. */
  function MoveF(g: Game, dx: int, dy: int, deck: seq<ShapeName>): (r: (Game, bool))
    requires ValidGame(g) && IsShuffle(deck)
    ensures r.1 <==> !g.gameOver && !Collides(g.grid, g.current, dx, dy)
    ensures r.1 ==> r.0 == g.(current := Shifted(g.current, dx, dy))
    ensures !r.1 && !g.gameOver && dy == 1 ==> r.0 == LockF(g, deck)
    ensures !r.1 && (g.gameOver || dy != 1) ==> r.0 == g
    ensures dy >= 0 && g.current.y >= 0 ==> r.0.current.y >= 0
  {
    if g.gameOver then (g, false)
    else if !Collides(g.grid, g.current, dx, dy) then (g.(current := Shifted(g.current, dx, dy)), true)
    else if dy == 1 then (LockF(g, deck), false)
    else (g, false)
  }

  /** The piece turned to its next rotation, counted modulo the shape's rotations. */
  function NextRotation(p: Piece): (q: Piece)
    requires RotationOk(p)
    ensures RotationOk(q)
  {
    p.(rotation := (p.rotation + 1) % |Rotations(p.shape)|)
  }

  /** `rotate()`: try the next rotation in place; keep the old one if it collides. */
  function RotateF(g: Game): (r: Game)
    requires ValidGame(g)
    ensures RotationOk(r.current)
    ensures r == g || r == g.(current := NextRotation(g.current))
    ensures r != g ==> !g.gameOver && !Collides(g.grid, NextRotation(g.current), 0, 0)
    ensures !g.gameOver && !Collides(g.grid, NextRotation(g.current), 0, 0) ==>
              r == g.(current := NextRotation(g.current))
  {
    if g.gameOver then g
    else
      var candidate := NextRotation(g.current);
      if Collides(g.grid, candidate, 0, 0) then g else g.(current := candidate)
  }

  /** `while self.move(0, 1): pass`: soft drops until one does not move. */
  function DropLoop(g: Game, deck: seq<ShapeName>): (r: Game)
    requires ValidGame(g) && IsShuffle(deck)
    ensures ValidGame(r)
    ensures g.current.y >= 0 ==> r.current.y >= 0
    decreases Height - g.current.y
  {
    MoveKeepsValid(g, 0, 1, deck);
    var (g1, moved) := MoveF(g, 0, 1, deck);
    if moved then
      InBoundsRows(g1.current);
      DropLoop(g1, deck)
    else g1
  }

  /** The hard-drop key: the drop loop, then `place_piece()` once more. */
  function HardDropF(g: Game, deck: seq<ShapeName>): Game
    requires ValidGame(g) && IsShuffle(deck)
  {
    LockF(DropLoop(g, deck), deck)
  }

  /** The gravity step of `run` at time `now`: if more than `speed` ms have
      passed since the last one, move down, call `place_piece()` if that did
      not move, and record `now`. */
  function TickF(g: Game, now: int, deck: seq<ShapeName>): (r: Game)
    requires ValidGame(g) && IsShuffle(deck)
    ensures now - g.lastFall <= g.speed ==> r == g
    ensures now - g.lastFall > g.speed ==> r.lastFall == now
    ensures ValidGame(r) && (g.gameOver ==> r.gameOver)
    ensures g.current.y >= 0 ==> r.current.y >= 0
  {
    if now - g.lastFall > g.speed then
      MoveKeepsValid(g, 0, 1, deck);
      var (g1, moved) := MoveF(g, 0, 1, deck);
      var g2 := if moved then g1 else LockF(g1, deck);
      g2.(lastFall := now)
    else g
  }

  /** One firing gravity step, unfolded. */
  lemma TickFires(g: Game, now: int, deck: seq<ShapeName>)
    requires ValidGame(g) && IsShuffle(deck) && now - g.lastFall > g.speed
    ensures ValidGame(MoveF(g, 0, 1, deck).0)
    ensures var (g1, moved) := MoveF(g, 0, 1, deck);
            TickF(g, now, deck) == (if moved then g1 else LockF(g1, deck)).(lastFall := now)
  {
    MoveKeepsValid(g, 0, 1, deck);
  }

  /** The dispatch of one key press in `handle_input`. A piece on row 0 or
      below stays there, so in play the branch of `place_piece` for a piece
      above the board is never taken. */
  function KeyF(g: Game, key: Key, deck: seq<ShapeName>): (r: Game)
    requires ValidGame(g) && IsShuffle(deck)
    ensures g.current.y >= 0 ==> r.current.y >= 0
  {
    match key
    case Left => MoveF(g, -1, 0, deck).0
    case Right => MoveF(g, 1, 0, deck).0
    case Down => MoveF(g, 0, 1, deck).0
    case Up => RotateF(g)
    case Space => HardDropF(g, deck)
    case Escape => g.(gameOver := true)
    case OtherKey => g
  }

  // ---------------------------------------------------------------------
  // The invariant is established and kept

  lemma InitValid(deck: seq<ShapeName>, now: int)
    requires IsShuffle(deck)
    ensures ValidGame(InitF(deck, now))
    ensures InitF(deck, now).score == 0 && InitF(deck, now).level == 1 && InitF(deck, now).speed == 1000
    ensures !InitF(deck, now).gameOver && |InitF(deck, now).bag| == 5
    ensures var g := InitF(deck, now); multiset(g.bag + [g.next, g.current.shape]) == AllNames
  {
    ShuffleMultiset(deck);
    var (first, bag0) := Draw([], deck);
    var (second, bag1) := Draw(bag0, deck);
    InitBag(deck);
    SpawnOnBoard(first);
    var g := InitF(deck, now);
    assert g.current == Spawn(first) && g.next == second && g.bag == bag1;
    assert g.grid == EmptyGrid();
  }

  /** The bag after `init_bag` and the first `new_piece`. */
  lemma InitBag(deck: seq<ShapeName>)
    requires IsShuffle(deck)
    ensures var (first, bag0) := Draw([], deck);
            var (second, bag1) := Draw(bag0, deck);
            BagOk(bag1, second) && |bag1| == 5 &&
            multiset(bag1 + [second, first]) == AllNames
  {
    var (first, bag0) := Draw([], deck);
    var (second, bag1) := Draw(bag0, deck);
    assert bag1 + [second, first] == deck by {
      assert bag0 + [first] == deck;
      assert bag1 + [second] == bag0;
    }
    assert BagOk(bag1, second) by {
      FirstDrawBagOk(deck);
      DrawKeepsBagOk(bag0, first, deck);
    }
    ShuffleMultiset(deck);
  }

  lemma MoveKeepsValid(g: Game, dx: int, dy: int, deck: seq<ShapeName>)
    requires ValidGame(g) && IsShuffle(deck)
    ensures ValidGame(MoveF(g, dx, dy, deck).0)
    ensures g.gameOver ==> MoveF(g, dx, dy, deck).0.gameOver
  {
    if !g.gameOver {
      if !Collides(g.grid, g.current, dx, dy) {
        FreeIsInBounds(g.grid, g.current, dx, dy);
      }
    }
  }

  lemma RotateKeepsValid(g: Game)
    requires ValidGame(g)
    ensures ValidGame(RotateF(g))
    ensures RotateF(g).gameOver == g.gameOver
  {
    if !g.gameOver && !Collides(g.grid, NextRotation(g.current), 0, 0) {
      FreeIsInBounds(g.grid, NextRotation(g.current), 0, 0);
      assert Shifted(NextRotation(g.current), 0, 0) == NextRotation(g.current);
    }
  }

  lemma {:induction false} DropLoopSticky(g: Game, deck: seq<ShapeName>)
    requires ValidGame(g) && IsShuffle(deck)
    ensures g.gameOver ==> DropLoop(g, deck).gameOver
    decreases Height - g.current.y
  {
    MoveKeepsValid(g, 0, 1, deck);
    var (g1, moved) := MoveF(g, 0, 1, deck);
    if moved {
      InBoundsRows(g1.current);
      DropLoopSticky(g1, deck);
    }
  }

  lemma HardDropKeepsValid(g: Game, deck: seq<ShapeName>)
    requires ValidGame(g) && IsShuffle(deck)
    ensures ValidGame(HardDropF(g, deck))
    ensures g.gameOver ==> HardDropF(g, deck).gameOver
  {
    DropLoopSticky(g, deck);
  }

  /** Every key keeps the invariant, and once the game is over it stays over. */
  lemma KeyKeepsValid(g: Game, key: Key, deck: seq<ShapeName>)
    requires ValidGame(g) && IsShuffle(deck)
    ensures ValidGame(KeyF(g, key, deck))
    ensures g.gameOver ==> KeyF(g, key, deck).gameOver
  {
    match key
    case Left => MoveKeepsValid(g, -1, 0, deck);
    case Right => MoveKeepsValid(g, 1, 0, deck);
    case Down => MoveKeepsValid(g, 0, 1, deck);
    case Up => RotateKeepsValid(g);
    case Space => HardDropKeepsValid(g, deck);
    case Escape =>
    case OtherKey =>
  }

  // ---------------------------------------------------------------------
  // Locking

  /** `place_piece` on a piece above the board (which, since the top row of
      every matrix has a cell, means y < 0) only ends the game. */
  lemma LockAboveTop(g: Game, deck: seq<ShapeName>)
    requires ValidGame(g) && IsShuffle(deck)
    ensures AboveTop(g.current) <==> g.current.y < 0
    ensures g.current.y < 0 ==> LockF(g, deck) == g.(gameOver := true)
  {
    AboveTopIff(g.current);
  }

  /** `place_piece` on a piece within the board: the grid becomes the piece
      written into exactly its cells, cleared of full rows; the score grows by
      the points for those rows times the level; the buffered next piece is
      spawned and a new next name drawn; the time of the last gravity step is
      kept; and the game ends if and only if it was over or the spawned piece
      collides. */
  lemma LockOnBoard(g: Game, deck: seq<ShapeName>)
    requires ValidGame(g) && IsShuffle(deck) && g.current.y >= 0
    ensures var h := LockF(g, deck);
            var stamped := Stamp(g.grid, g.current);
            h.grid == Cleared(stamped) &&
            h.score == g.score + Points(CountFull(stamped)) * g.level &&
            h.current == Spawn(g.next) && h.current.y == 0 && h.lastFall == g.lastFall &&
            h.bag + [h.next] == (if g.bag == [] then deck else g.bag) &&
            (h.gameOver <==> g.gameOver || Collides(h.grid, h.current, 0, 0))
  {
    AboveTopIff(g.current);
    var h := LockF(g, deck);
    var stamped := Stamp(g.grid, g.current);
    assert h.grid == Cleared(stamped);
    assert h.current == Spawn(g.next);
  }

  /** Since the grid never holds a full row, only rows the piece reaches can
      fill up when it is written, so one lock clears at most four rows. */
  lemma LockClearsAtMostFour(g: Game)
    requires ValidGame(g) && !AboveTop(g.current)
    ensures CountFull(Stamp(g.grid, g.current)) <= 4
  {
    var p := g.current;
    var s := Stamp(g.grid, p);
    AboveTopIff(p);
    InBoundsRows(p);
    var a, b := p.y, p.y + |MatrixOf(p)|;
    assert s == s[..a] + s[a..b] + s[b..];
    KeepAppend(s[..a] + s[a..b], s[b..]);
    KeepAppend(s[..a], s[a..b]);
    forall y | 0 <= y < a ensures s[..a][y] == g.grid[y] && !RowFull(s[..a][y]) {
      StampOtherRows(g.grid, p, y);
    }
    forall y | 0 <= y < Height - b ensures s[b..][y] == g.grid[b + y] && !RowFull(s[b..][y]) {
      StampOtherRows(g.grid, p, b + y);
    }
    KeepNoFull(s[..a]);
    KeepNoFull(s[b..]);
    KeepCount(s[a..b]);
  }

  // ---------------------------------------------------------------------
  // Dropping: soft drops lock once, the hard-drop key and gravity twice

  /** The piece moved straight down as far as it goes without colliding. */
  function Landed(g: Game): (r: Game)
    requires ValidGame(g)
    ensures ValidGame(r) && r == g.(current := r.current)
    ensures r.current == g.current.(y := r.current.y) && r.current.y >= g.current.y
    ensures Collides(r.grid, r.current, 0, 1)
    decreases Height - g.current.y
  {
    if Collides(g.grid, g.current, 0, 1) then g
    else
      FreeIsInBounds(g.grid, g.current, 0, 1);
      var g1 := g.(current := Shifted(g.current, 0, 1));
      InBoundsRows(g1.current);
      Landed(g1)
  }

  /** The landed piece stops at the first row from which moving down
      collides: from every row it passed, moving down is free. */
  lemma {:induction false} LandedFirst(g: Game)
    requires ValidGame(g)
    ensures forall k :: g.current.y <= k < Landed(g).current.y ==>
              !Collides(g.grid, g.current.(y := k), 0, 1)
    decreases Height - g.current.y
  {
    if !Collides(g.grid, g.current, 0, 1) {
      FreeIsInBounds(g.grid, g.current, 0, 1);
      var g1 := g.(current := Shifted(g.current, 0, 1));
      InBoundsRows(g1.current);
      LandedFirst(g1);
      assert Landed(g) == Landed(g1);
      forall k | g.current.y <= k < Landed(g).current.y
        ensures !Collides(g.grid, g.current.(y := k), 0, 1)
      {
        if k > g.current.y {
          assert g1.current.(y := k) == g.current.(y := k);
        } else {
          assert g.current.(y := k) == g.current;
        }
      }
    }
  }

  /** Soft-dropping until a drop fails lands the piece and locks it once. */
  lemma {:induction false} DropLoopLocksOnce(g: Game, deck: seq<ShapeName>)
    requires ValidGame(g) && IsShuffle(deck) && !g.gameOver
    ensures DropLoop(g, deck) == LockF(Landed(g), deck)
    decreases Height - g.current.y
  {
    if !Collides(g.grid, g.current, 0, 1) {
      FreeIsInBounds(g.grid, g.current, 0, 1);
      var g1 := g.(current := Shifted(g.current, 0, 1));
      InBoundsRows(g1.current);
      DropLoopLocksOnce(g1, deck);
    }
  }

  /** The hard-drop key is not a repeated soft drop: after the landed piece is
      locked, `place_piece()` runs again and locks the freshly spawned piece
      where it appeared, without any collision test. */
  lemma HardDropLocksTwice(g: Game, deck: seq<ShapeName>)
    requires ValidGame(g) && IsShuffle(deck) && !g.gameOver
    ensures HardDropF(g, deck) == LockF(LockF(Landed(g), deck), deck)
  {
    DropLoopLocksOnce(g, deck);
  }

  /** After the game is over, the hard-drop key still locks the current piece. */
  lemma HardDropWhenOver(g: Game, deck: seq<ShapeName>)
    requires ValidGame(g) && IsShuffle(deck) && g.gameOver
    ensures HardDropF(g, deck) == LockF(g, deck)
    ensures g.current.y >= 0 ==> HardDropF(g, deck).grid == Cleared(Stamp(g.grid, g.current))
  {
    AboveTopIff(g.current);
  }

  /** Gravity on a blocked piece also locks twice: `move(0, 1)` locks it, and
      `run` then calls `place_piece()` on the piece that replaced it. When the
      game is over, gravity still locks the current piece once. */
  lemma GravityLocks(g: Game, now: int, deck: seq<ShapeName>)
    requires ValidGame(g) && IsShuffle(deck) && now - g.lastFall > g.speed
    ensures !g.gameOver && Collides(g.grid, g.current, 0, 1) ==>
              TickF(g, now, deck) == LockF(LockF(g, deck), deck).(lastFall := now)
    ensures g.gameOver ==> TickF(g, now, deck) == LockF(g, deck).(lastFall := now)
    ensures !g.gameOver && !Collides(g.grid, g.current, 0, 1) ==>
              TickF(g, now, deck) == g.(current := Shifted(g.current, 0, 1), lastFall := now)
  {
    TickFires(g, now, deck);
    var r := MoveF(g, 0, 1, deck);
    if g.gameOver {
      assert r.0 == g && !r.1;
    } else if Collides(g.grid, g.current, 0, 1) {
      assert r.0 == LockF(g, deck) && !r.1;
    } else {
      assert r.1;
    }
  }
}
