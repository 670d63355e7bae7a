/** The shape table: the seven tetromino kinds and their rotation matrices.
    A matrix is a list of rows; `true` stands for an occupied cell (a 1 in
    the table), `false` for an empty one (a 0). */
module Shapes {

  datatype ShapeName = I | O | T | L | J | S | Z

  type Matrix = seq<seq<bool>>

  /** The keys of the table, in the order the table declares them. */
  const AllShapes: seq<ShapeName> := [I, O, T, L, J, S, Z]

  /** The seven names, each once. */
  const AllNames: multiset<ShapeName> := multiset{I, O, T, L, J, S, Z}

  /** Cell (r, c) of `m` exists and is occupied. */
  predicate Occupied(m: Matrix, r: int, c: int)
  {
    0 <= r < |m| && 0 <= c < |m[r]| && m[r][c]
  }

  /** The matrix shapes the engine relies on: one to four rows of equal width
      between one and four, and an occupied cell in every row. */
  predicate WellFormedMatrix(m: Matrix)
  {
    1 <= |m| <= 4 &&
    (forall r :: 0 <= r < |m| ==> |m[r]| == |m[0]|) &&
    1 <= |m[0]| <= 4 &&
    (forall r :: 0 <= r < |m| ==> exists c :: 0 <= c < |m[r]| && m[r][c])
  }

  /** The rotation matrices of `s`, indexed by a piece's rotation number. */
  function Rotations(s: ShapeName): (r: seq<Matrix>)
    ensures |r| == 1 || |r| == 2 || |r| == 4
    ensures forall k :: 0 <= k < |r| ==> WellFormedMatrix(r[k])
  {
    var X, o := true, false;
    match s
    case I =>
      var flat := [[X, X, X, X]];
      var tall := [[X], [X], [X], [X]];
      assert WellFormedMatrix(flat) by { assert flat[0][0]; }
      assert WellFormedMatrix(tall) by { assert tall[0][0] && tall[1][0] && tall[2][0] && tall[3][0]; }
      [flat, tall, flat, tall]
    case O =>
      var sq := [[X, X], [X, X]];
      assert WellFormedMatrix(sq) by { assert sq[0][0] && sq[1][0]; }
      [sq]
    case T =>
      var t0 := [[o, X, o], [X, X, X]];
      var t1 := [[X, o], [X, X], [X, o]];
      var t2 := [[X, X, X], [o, X, o]];
      var t3 := [[o, X], [X, X], [o, X]];
      assert WellFormedMatrix(t0) by { assert t0[0][1] && t0[1][0]; }
      assert WellFormedMatrix(t1) by { assert t1[0][0] && t1[1][0] && t1[2][0]; }
      assert WellFormedMatrix(t2) by { assert t2[0][0] && t2[1][1]; }
      assert WellFormedMatrix(t3) by { assert t3[0][1] && t3[1][0] && t3[2][1]; }
      [t0, t1, t2, t3]
    case L =>
      var l0 := [[X, o], [X, o], [X, X]];
      var l1 := [[X, X, X], [X, o, o]];
      var l2 := [[X, X], [o, X], [o, X]];
      var l3 := [[o, o, X], [X, X, X]];
      assert WellFormedMatrix(l0) by { assert l0[0][0] && l0[1][0] && l0[2][0]; }
      assert WellFormedMatrix(l1) by { assert l1[0][0] && l1[1][0]; }
      assert WellFormedMatrix(l2) by { assert l2[0][0] && l2[1][1] && l2[2][1]; }
      assert WellFormedMatrix(l3) by { assert l3[0][2] && l3[1][0]; }
      [l0, l1, l2, l3]
    case J =>
      var j0 := [[o, X], [o, X], [X, X]];
      var j1 := [[X, o, o], [X, X, X]];
      var j2 := [[X, X], [X, o], [X, o]];
      var j3 := [[X, X, X], [o, o, X]];
      assert WellFormedMatrix(j0) by { assert j0[0][1] && j0[1][1] && j0[2][0]; }
      assert WellFormedMatrix(j1) by { assert j1[0][0] && j1[1][0]; }
      assert WellFormedMatrix(j2) by { assert j2[0][0] && j2[1][0] && j2[2][0]; }
      assert WellFormedMatrix(j3) by { assert j3[0][0] && j3[1][2]; }
      [j0, j1, j2, j3]
    case S =>
      var s0 := [[o, X, X], [X, X, o]];
      var s1 := [[X, o], [X, X], [o, X]];
      assert WellFormedMatrix(s0) by { assert s0[0][1] && s0[1][0]; }
      assert WellFormedMatrix(s1) by { assert s1[0][0] && s1[1][0] && s1[2][1]; }
      [s0, s1]
    case Z =>
      var z0 := [[X, X, o], [o, X, X]];
      var z1 := [[o, X], [X, X], [X, o]];
      assert WellFormedMatrix(z0) by { assert z0[0][0] && z0[1][1]; }
      assert WellFormedMatrix(z1) by { assert z1[0][1] && z1[1][0] && z1[2][0]; }
      [z0, z1]
  }

  /** The symmetric shapes have fewer orientations: O one, S and Z two, the rest four
      (I lists its two orientations twice). */
  lemma RotationCounts()
    ensures |Rotations(O)| == 1
    ensures |Rotations(S)| == 2 && |Rotations(Z)| == 2
    ensures |Rotations(I)| == 4 && |Rotations(T)| == 4
    ensures |Rotations(L)| == 4 && |Rotations(J)| == 4
  {
  }

  /** Every name occurs exactly once among the table's keys. */
  lemma AllShapesOnce(s: ShapeName)
    ensures multiset(AllShapes) == AllNames
    ensures AllNames[s] == 1
  {
  }
}
