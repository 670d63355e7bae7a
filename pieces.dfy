/** A falling piece, its cells on the board, the collision test of
    `check_collision`, the cell writes of `place_piece`, and the spawn position
    used by `new_piece`. */
module Pieces {
  import opened Shapes
  import opened Board

  /** The piece record: its shape, rotation number and the board position of
      the top-left corner of its matrix. */
  datatype Piece = Piece(shape: ShapeName, rotation: int, x: int, y: int)

  predicate RotationOk(p: Piece)
  {
    0 <= p.rotation < |Rotations(p.shape)|
  }

  /** The matrix of the piece's current rotation. */
  function MatrixOf(p: Piece): (m: Matrix)
    requires RotationOk(p)
    ensures WellFormedMatrix(m)
  {
    Rotations(p.shape)[p.rotation]
  }

  function Shifted(p: Piece, dx: int, dy: int): Piece
  {
    p.(x := p.x + dx, y := p.y + dy)
  }

  /** Board position (x, y) stops a piece cell: it is left of, right of or
      below the board, or it is on the board and occupied. A position above
      row 0 is only checked against the side walls. */
  predicate Blocked(g: Grid, x: int, y: int)
    requires WellFormed(g)
  {
    x < 0 || x >= Width || y >= Height || (y >= 0 && g[y][x] != Empty)
  }

  /** Some occupied cell of the piece, moved by (dx, dy), is blocked. */
  ghost predicate Hits(g: Grid, p: Piece, dx: int, dy: int)
    requires WellFormed(g) && RotationOk(p)
  {
    exists r, c :: Occupied(MatrixOf(p), r, c) && Blocked(g, p.x + dx + c, p.y + dy + r)
  }

  /** The inner loop of the collision test: columns c.. of matrix row r, with
      the matrix's corner at (ax, ay); stops at the first blocked cell. */
  function ScanRow(g: Grid, m: Matrix, r: int, c: int, ax: int, ay: int): (hit: bool)
    requires WellFormed(g) && 0 <= r < |m| && 0 <= c <= |m[r]|
    ensures hit <==> exists k :: c <= k && Occupied(m, r, k) && Blocked(g, ax + k, ay + r)
    decreases |m[r]| - c
  {
    if c == |m[r]| then false
    else if m[r][c] && Blocked(g, ax + c, ay + r) then assert Occupied(m, r, c); true
    else ScanRow(g, m, r, c + 1, ax, ay)
  }

  /** The outer loop of the collision test: matrix rows r.. from the top. */
  function ScanRows(g: Grid, m: Matrix, r: int, ax: int, ay: int): (hit: bool)
    requires WellFormed(g) && 0 <= r <= |m|
    ensures hit <==> exists i, k :: r <= i < |m| && Occupied(m, i, k) && Blocked(g, ax + k, ay + i)
    decreases |m| - r
  {
    if r == |m| then false
    else if ScanRow(g, m, r, 0, ax, ay) then true
    else ScanRows(g, m, r + 1, ax, ay)
  }

  /** `check_collision(piece, dx, dy)`: true exactly when some occupied cell of
      the current rotation, moved by (dx, dy), is outside the side walls, below
      the floor, or on an occupied cell of the board. */
  function Collides(g: Grid, p: Piece, dx: int, dy: int): (hit: bool)
    requires WellFormed(g) && RotationOk(p)
    ensures hit <==> Hits(g, p, dx, dy)
  {
    ScanRows(g, MatrixOf(p), 0, p.x + dx, p.y + dy)
  }

  /** Every occupied cell of the piece lies between the side walls and above
      the floor (it may still be above row 0). */
  ghost predicate InBounds(p: Piece)
    requires RotationOk(p)
  {
    forall r, c :: Occupied(MatrixOf(p), r, c) ==> 0 <= p.x + c < Width && p.y + r < Height
  }

  /** A position free of collision is within the walls and above the floor. */
  lemma FreeIsInBounds(g: Grid, p: Piece, dx: int, dy: int)
    requires WellFormed(g) && RotationOk(p)
    requires !Collides(g, p, dx, dy)
    ensures InBounds(Shifted(p, dx, dy))
  {
    var q := Shifted(p, dx, dy);
    forall r, c | Occupied(MatrixOf(q), r, c)
      ensures 0 <= q.x + c < Width && q.y + r < Height
    {
      assert !Blocked(g, p.x + dx + c, p.y + dy + r);
    }
  }

  /** Some occupied cell of the piece is above row 0. */
  predicate AboveTop(p: Piece)
    requires RotationOk(p)
  {
    var m := MatrixOf(p);
    exists r, c :: 0 <= r < |m| && 0 <= c < |m[r]| && m[r][c] && p.y + r < 0
  }

  /** Because the first row of every matrix has an occupied cell, a piece
      reaches above the board exactly when its top row does. */
  lemma AboveTopIff(p: Piece)
    requires RotationOk(p)
    ensures AboveTop(p) <==> p.y < 0
  {
    var m := MatrixOf(p);
    if p.y < 0 {
      var c :| 0 <= c < |m[0]| && m[0][c];
      assert Occupied(m, 0, c);
    }
  }

  /** A piece inside the walls occupies rows p.y .. p.y + |m| - 1, all above the floor. */
  lemma InBoundsRows(p: Piece)
    requires RotationOk(p) && InBounds(p)
    ensures p.y + |MatrixOf(p)| <= Height
  {
    var m := MatrixOf(p);
    var last := |m| - 1;
    var c :| 0 <= c < |m[last]| && m[last][c];
    assert Occupied(m, last, c);
  }

  /** The piece covers board cell (x, y). */
  predicate Covers(p: Piece, x: int, y: int)
    requires RotationOk(p)
  {
    Occupied(MatrixOf(p), y - p.y, x - p.x)
  }

  /** The grid with the shape's name written into every cell the piece covers. */
  function Stamp(g: Grid, p: Piece): (h: Grid)
    requires WellFormed(g) && RotationOk(p)
    ensures WellFormed(h)
    ensures forall y, x :: 0 <= y < Height && 0 <= x < Width ==>
              h[y][x] == (if Covers(p, x, y) then Filled(p.shape) else g[y][x])
  {
    seq(Height, y requires 0 <= y < Height =>
      seq(Width, x requires 0 <= x < Width =>
        if Covers(p, x, y) then Filled(p.shape) else g[y][x]))
  }

  /** A row the piece does not reach is not changed by writing the piece. */
  lemma StampOtherRows(g: Grid, p: Piece, y: int)
    requires WellFormed(g) && RotationOk(p)
    requires 0 <= y < Height && !(p.y <= y < p.y + |MatrixOf(p)|)
    ensures Stamp(g, p)[y] == g[y]
  {
    var h := Stamp(g, p);
    assert forall x :: 0 <= x < Width ==> !Covers(p, x, y);
    assert forall x :: 0 <= x < Width ==> h[y][x] == g[y][x];
  }

  /** The piece `new_piece` creates for a name: first rotation, top row, and
      centred: x is half the board width less half the matrix width, rounded down. */
  function Spawn(s: ShapeName): (p: Piece)
    ensures RotationOk(p)
  {
    Piece(s, 0, Width / 2 - |Rotations(s)[0][0]| / 2, 0)
  }

  /** A spawned piece is in its first rotation at the top row, centred, and
      lies on the board: in columns 0..9, rows 0..3. */
  lemma SpawnOnBoard(s: ShapeName)
    ensures Spawn(s).shape == s && Spawn(s).rotation == 0 && Spawn(s).y == 0
    ensures Spawn(s).x == Width / 2 - |MatrixOf(Spawn(s))[0]| / 2
    ensures InBounds(Spawn(s)) && !AboveTop(Spawn(s))
    ensures forall r, c :: Occupied(MatrixOf(Spawn(s)), r, c) ==>
              0 <= Spawn(s).x + c < Width && 0 <= Spawn(s).y + r < 4
  {
    AboveTopIff(Spawn(s));
  }
}
