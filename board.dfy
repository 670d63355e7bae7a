/** The playfield: a grid of 20 rows of 10 cells, row 0 at the top, and the
    row-clearing rule. A cell holds nothing (the 0 of the source) or the name
    of the shape that was locked there. */
module Board {
  import opened Shapes

  const Width := 10
  const Height := 20

  datatype Cell = Empty | Filled(shape: ShapeName)

  type Row = seq<Cell>
  type Grid = seq<Row>

  /** The grid has its fixed dimensions. */
  predicate WellFormed(g: Grid)
  {
    |g| == Height && forall y :: 0 <= y < |g| ==> |g[y]| == Width
  }

  /** Every cell of the row is occupied (the source's `all(row)`). */
  predicate RowFull(row: Row)
  {
    Empty !in row
  }

  predicate NoFullRow(rows: seq<Row>)
  {
    forall y :: 0 <= y < |rows| ==> !RowFull(rows[y])
  }

  function EmptyRow(): (r: Row)
    ensures |r| == Width && !RowFull(r)
    ensures forall x :: 0 <= x < |r| ==> r[x] == Empty
  {
    var r := seq(Width, _ => Empty);
    assert r[0] == Empty;
    r
  }

  function EmptyRows(n: nat): (rows: seq<Row>)
    ensures |rows| == n && forall y :: 0 <= y < n ==> rows[y] == EmptyRow()
  {
    seq(n, _ => EmptyRow())
  }

  /** The grid a new game starts with. */
  function EmptyGrid(): (g: Grid)
    ensures WellFormed(g) && NoFullRow(g)
    ensures forall y, x :: 0 <= y < Height && 0 <= x < Width ==> g[y][x] == Empty
  {
    EmptyRows(Height)
  }

  /** Number of full rows. */
  function CountFull(rows: seq<Row>): nat
  {
    if rows == [] then 0
    else (if RowFull(rows[0]) then 1 else 0) + CountFull(rows[1..])
  }

  /** The rows that are not full, in their original order. */
  function Keep(rows: seq<Row>): seq<Row>
  {
    if rows == [] then []
    else (if RowFull(rows[0]) then [] else [rows[0]]) + Keep(rows[1..])
  }

  /** The grid once every full row is removed: as many empty rows as were
      removed, on top of the surviving rows. */
  function Cleared(g: Grid): Grid
  {
    EmptyRows(CountFull(g)) + Keep(g)
  }

  /** One step of `Keep` and `CountFull` at position `i` of a sequence. */
  lemma KeepStep(rows: seq<Row>, i: nat)
    requires i < |rows|
    ensures Keep(rows[i..]) == (if RowFull(rows[i]) then [] else [rows[i]]) + Keep(rows[i + 1..])
    ensures CountFull(rows[i..]) == (if RowFull(rows[i]) then 1 else 0) + CountFull(rows[i + 1..])
  {
    assert rows[i..][1..] == rows[i + 1..];
  }

  /** Every row is either kept or counted as removed. */
  lemma {:induction false} KeepCount(rows: seq<Row>)
    ensures |Keep(rows)| + CountFull(rows) == |rows|
  {
    if rows != [] {
      KeepCount(rows[1..]);
    }
  }

  /** The kept rows are not full and are rows of the input. */
  lemma {:induction false} KeepRows(rows: seq<Row>)
    ensures NoFullRow(Keep(rows))
    ensures forall k :: 0 <= k < |Keep(rows)| ==> Keep(rows)[k] in rows
  {
    if rows != [] {
      KeepRows(rows[1..]);
      var head: seq<Row> := if RowFull(rows[0]) then [] else [rows[0]];
      assert Keep(rows) == head + Keep(rows[1..]);
      forall k | 0 <= k < |Keep(rows)|
        ensures !RowFull(Keep(rows)[k]) && Keep(rows)[k] in rows
      {
        if k >= |head| {
          assert Keep(rows)[k] == Keep(rows[1..])[k - |head|];
          assert Keep(rows[1..])[k - |head|] in rows[1..];
        }
      }
    }
  }

  /** Removing full rows distributes over concatenation. */
  lemma {:induction false} KeepAppend(a: seq<Row>, b: seq<Row>)
    ensures Keep(a + b) == Keep(a) + Keep(b)
    ensures CountFull(a + b) == CountFull(a) + CountFull(b)
  {
    if a != [] {
      assert (a + b)[0] == a[0];
      assert (a + b)[1..] == a[1..] + b;
      KeepAppend(a[1..], b);
    } else {
      assert a + b == b;
    }
  }

  /** Rows that are not full are all kept, in place. */
  lemma {:induction false} KeepNoFull(rows: seq<Row>)
    requires NoFullRow(rows)
    ensures Keep(rows) == rows && CountFull(rows) == 0
  {
    if rows != [] {
      KeepNoFull(rows[1..]);
    }
  }

  /** What clearing leaves: 20 rows of 10 cells, none of them full, the removed
      ones replaced by empty rows at the top and the others below them in order. */
  lemma ClearedShape(g: Grid)
    requires WellFormed(g)
    ensures WellFormed(Cleared(g)) && NoFullRow(Cleared(g))
    ensures CountFull(g) <= Height
    ensures Cleared(g)[..CountFull(g)] == EmptyRows(CountFull(g))
    ensures Cleared(g)[CountFull(g)..] == Keep(g)
  {
    KeepCount(g);
    KeepRows(g);
    var c := Cleared(g);
    var n := CountFull(g);
    assert c[..n] == EmptyRows(n);
    assert c[n..] == Keep(g);
    forall y | 0 <= y < |c|
      ensures |c[y]| == Width && !RowFull(c[y])
    {
      if y >= n {
        assert c[y] == Keep(g)[y - n];
        assert Keep(g)[y - n] in g;
      }
    }
  }

  /** A grid without full rows is left as it is. */
  lemma ClearedNoFull(g: Grid)
    requires NoFullRow(g)
    ensures Cleared(g) == g && CountFull(g) == 0
  {
    KeepNoFull(g);
  }

  /** With a single full row y, the rows above it move down by one and an
      empty row appears at the top. */
  lemma ClearedOneRow(g: Grid, y: nat)
    requires y < |g| && RowFull(g[y])
    requires NoFullRow(g[..y]) && NoFullRow(g[y + 1..])
    ensures CountFull(g) == 1
    ensures Cleared(g) == [EmptyRow()] + (g[..y] + g[y + 1..])
  {
    assert CountFull(g) == 1 && Keep(g) == g[..y] + g[y + 1..] by {
      KeepOneFull(g, y);
    }
    assert EmptyRows(1) == [EmptyRow()];
  }

  lemma KeepOneFull(g: seq<Row>, y: nat)
    requires y < |g| && RowFull(g[y])
    requires NoFullRow(g[..y]) && NoFullRow(g[y + 1..])
    ensures CountFull(g) == 1
    ensures Keep(g) == g[..y] + g[y + 1..]
  {
    var above, rest := g[..y], g[y..];
    assert g == above + rest;
    KeepAppend(above, rest);
    KeepStep(g, y);
    KeepNoFull(above);
    KeepNoFull(g[y + 1..]);
  }

  /** Deleting one full row and putting an empty row on top does not change
      the cleared grid, and leaves one full row fewer. */
  lemma ClearedDeleteFull(g: seq<Row>, y: nat)
    requires y < |g| && RowFull(g[y])
    ensures CountFull([EmptyRow()] + (g[..y] + g[y + 1..])) + 1 == CountFull(g)
    ensures Cleared([EmptyRow()] + (g[..y] + g[y + 1..])) == Cleared(g)
  {
    var a, b := g[..y], g[y + 1..];
    KeepWithout(g, y);
    KeepWithEmpty(a, b);
    var n, rest := CountFull(g), Keep(a) + Keep(b);
    EmptyRowsSnoc(n - 1);
    AppendAssoc(EmptyRows(n - 1), [EmptyRow()], rest);
  }

  lemma AppendAssoc(a: seq<Row>, b: seq<Row>, c: seq<Row>)
    ensures a + (b + c) == (a + b) + c
  {
  }

  /** Deleting row y and putting an empty row on top moves the rows above y
      down by one and leaves the rows below it where they were. */
  lemma DeleteRowShift(g: seq<Row>, y: nat)
    requires y < |g|
    ensures var h := [EmptyRow()] + (g[..y] + g[y + 1..]);
            |h| == |g| && h[0] == EmptyRow() &&
            (forall k :: 0 < k <= y ==> h[k] == g[k - 1]) &&
            (forall k :: y < k < |g| ==> h[k] == g[k])
  {
  }

  /** `Keep` and `CountFull` of a grid split around its full row y. */
  lemma KeepWithout(g: seq<Row>, y: nat)
    requires y < |g| && RowFull(g[y])
    ensures Keep(g) == Keep(g[..y]) + Keep(g[y + 1..])
    ensures CountFull(g) == CountFull(g[..y]) + 1 + CountFull(g[y + 1..])
  {
    var above, rest := g[..y], g[y..];
    assert g == above + rest;
    KeepAppend(above, rest);
    KeepStep(g, y);
    assert Keep(rest) == Keep(g[y + 1..]);
  }

  /** `Keep` and `CountFull` once an empty row is put on top. */
  lemma KeepWithEmpty(a: seq<Row>, b: seq<Row>)
    ensures Keep([EmptyRow()] + (a + b)) == [EmptyRow()] + (Keep(a) + Keep(b))
    ensures CountFull([EmptyRow()] + (a + b)) == CountFull(a) + CountFull(b)
  {
    KeepAppend([EmptyRow()], a + b);
    KeepAppend(a, b);
    KeepSingle(EmptyRow());
  }

  lemma EmptyRowsSnoc(n: nat)
    ensures EmptyRows(n) + [EmptyRow()] == EmptyRows(n + 1)
  {
  }

  /** `Keep` and `CountFull` of a single row. */
  lemma KeepSingle(row: Row)
    ensures Keep([row]) == (if RowFull(row) then [] else [row])
    ensures CountFull([row]) == (if RowFull(row) then 1 else 0)
  {
    assert [row][1..] == [];
  }

  /** Clearing twice is clearing once. */
  lemma ClearedIdempotent(g: Grid)
    requires WellFormed(g)
    ensures Cleared(Cleared(g)) == Cleared(g)
  {
    ClearedShape(g);
    ClearedNoFull(Cleared(g));
  }
}
