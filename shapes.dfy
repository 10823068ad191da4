/** The tetromino catalog and the rotation of a shape matrix. */
module Shapes {

  /** A shape matrix, row by row; `true` marks an occupied cell (a 1 in the game's tables). */
  type Shape = seq<seq<bool>>

  /** Number of entries in the catalog. */
  const COUNT := 7

  /** The seven tetrominoes, in the order I, J, L, O, S, T, Z. */
  const SHAPES: seq<Shape> := [
    [[true, true, true, true]],
    [[true, false, false], [true, true, true]],
    [[false, false, true], [true, true, true]],
    [[true, true], [true, true]],
    [[false, true, true], [true, true, false]],
    [[false, true, false], [true, true, true]],
    [[true, true, false], [false, true, true]]
  ]

  /** A rectangular matrix with at least one row and one column. */
  predicate IsMatrix(s: Shape) {
    |s| > 0 && |s[0]| > 0 && forall i :: 0 <= i < |s| ==> |s[i]| == |s[0]|
  }

  /** The width of a shape is the length of its first row. */
  function Width(s: Shape): nat
    requires |s| > 0
  {
    |s[0]|
  }

  /** Cell (dy, dx) exists in the shape and is occupied. */
  predicate Occupied(s: Shape, dy: int, dx: int) {
    0 <= dy < |s| && 0 <= dx < |s[dy]| && s[dy][dx]
  }

  /** The shape has at least one occupied cell. */
  ghost predicate HasCell(s: Shape) {
    exists dy, dx :: Occupied(s, dy, dx)
  }

  /** What every falling piece's shape satisfies. */
  ghost predicate IsPieceShape(s: Shape) {
    IsMatrix(s) && HasCell(s)
  }

  /** Every catalog shape is a well-formed piece shape of at most 2 rows and 2 to 4 columns,
      with an occupied cell in its top row. */
  lemma CatalogShape(k: nat)
    requires k < COUNT
    ensures IsPieceShape(SHAPES[k])
    ensures |SHAPES[k]| <= 2 && 2 <= Width(SHAPES[k]) <= 4
    ensures exists dx :: Occupied(SHAPES[k], 0, dx)
  {
    var s := SHAPES[k];
    assert Occupied(s, |s| - 1, 1);
    if k == 2 {
      assert Occupied(s, 0, 2);
    } else if k == 4 || k == 5 {
      assert Occupied(s, 0, 1);
    } else {
      assert Occupied(s, 0, 0);
    }
  }

  /** The elements of `s` in the opposite order. */
  function Reverse<T>(s: seq<T>): (r: seq<T>)
    ensures |r| == |s|
    ensures forall k :: 0 <= k < |s| ==> r[k] == s[|s| - 1 - k]
  {
    if s == [] then [] else [s[|s| - 1]] + Reverse(s[..|s| - 1])
  }

  /** Column `i` of a matrix, read top to bottom. */
  function Column(s: Shape, i: nat): (c: seq<bool>)
    requires IsMatrix(s) && i < Width(s)
  {
    seq(|s|, j requires 0 <= j < |s| => s[j][i])
  }

  /** `r` is `s` turned a quarter turn clockwise: `s` read column by column, each column
      bottom to top, so that cell (i, j) of `r` is cell (h - 1 - j, i) of `s`. */
  ghost predicate IsQuarterTurn(s: Shape, r: Shape) {
    IsMatrix(s) && IsMatrix(r) && |r| == Width(s) && Width(r) == |s| &&
    forall i, j :: 0 <= i < |r| && 0 <= j < |s| ==> r[i][j] == s[|s| - 1 - j][i]
  }

  /** The rotation the game applies: row i of the result is column i of `s` reversed. */
  function Rotated(s: Shape): (r: Shape)
    requires IsMatrix(s)
    ensures IsQuarterTurn(s, r)
  {
    seq(Width(s), i requires 0 <= i < Width(s) => Reverse(Column(s, i)))
  }

  /** Two rectangular matrices with the same dimensions and the same cells are equal. */
  lemma SameCells(a: Shape, b: Shape)
    requires IsMatrix(a) && IsMatrix(b) && |a| == |b| && Width(a) == Width(b)
    requires forall i, j :: 0 <= i < |a| && 0 <= j < Width(a) ==> a[i][j] == b[i][j]
    ensures a == b
  {
    forall i | 0 <= i < |a|
      ensures a[i] == b[i]
    {
      assert |a[i]| == |b[i]|;
    }
  }

  /** Two quarter turns turn a matrix upside down and mirror it. */
  lemma HalfTurn(s: Shape, r1: Shape, r2: Shape)
    requires IsQuarterTurn(s, r1) && IsQuarterTurn(r1, r2)
    ensures IsMatrix(r2) && |r2| == |s| && Width(r2) == Width(s)
    ensures forall i, j :: 0 <= i < |s| && 0 <= j < Width(s) ==>
      r2[i][j] == s[|s| - 1 - i][Width(s) - 1 - j]
  {
    forall i, j | 0 <= i < |s| && 0 <= j < Width(s)
      ensures r2[i][j] == s[|s| - 1 - i][Width(s) - 1 - j]
    {
      assert r2[i][j] == r1[|r1| - 1 - j][i];
    }
  }

  /** Four successive quarter turns end where they started. */
  lemma FullTurn(s: Shape, r1: Shape, r2: Shape, r3: Shape, r4: Shape)
    requires IsQuarterTurn(s, r1) && IsQuarterTurn(r1, r2)
    requires IsQuarterTurn(r2, r3) && IsQuarterTurn(r3, r4)
    ensures r4 == s
  {
    var h, w := |s|, Width(s);
    HalfTurn(s, r1, r2);
    HalfTurn(r2, r3, r4);
    forall i, j | 0 <= i < h && 0 <= j < w
      ensures r4[i][j] == s[i][j]
    {
      assert r4[i][j] == r2[h - 1 - i][w - 1 - j];
    }
    SameCells(r4, s);
  }

  /** Rotating a shape four times gives back the original shape. */
  lemma RotateFourTimes(s: Shape)
    requires IsMatrix(s)
    ensures Rotated(Rotated(Rotated(Rotated(s)))) == s
  {
    var r1 := Rotated(s);
    var r2 := Rotated(r1);
    var r3 := Rotated(r2);
    FullTurn(s, r1, r2, r3, Rotated(r3));
  }

  /** A rotation moves occupied cell (dy, dx) to (dx, h - 1 - dy), so it keeps a piece shape. */
  lemma RotatedPieceShape(s: Shape)
    requires IsPieceShape(s)
    ensures IsPieceShape(Rotated(s))
  {
    var dy, dx :| Occupied(s, dy, dx);
    assert Occupied(Rotated(s), dx, |s| - 1 - dy);
  }

  /** The O piece is unchanged by a rotation. */
  lemma RotateSquare()
    ensures Rotated(SHAPES[3]) == SHAPES[3]
  {
    var r := Rotated(SHAPES[3]);
    assert r[0] == [true, true] && r[1] == [true, true];
  }

  /** The I piece alternates between one row of four and four rows of one. */
  lemma RotateLine()
    ensures Rotated(SHAPES[0]) == [[true], [true], [true], [true]]
    ensures Rotated(Rotated(SHAPES[0])) == SHAPES[0]
  {
    var r := Rotated(SHAPES[0]);
    assert r[0] == [true] && r[1] == [true] && r[2] == [true] && r[3] == [true];
    var r2 := Rotated(r);
    assert r2[0] == [true, true, true, true];
  }
}
