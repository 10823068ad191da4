/** The playing field: the grid of locked cells, the falling piece's placement on it,
    the collision rule, locking a piece into the grid and clearing full rows. */
module Board {
  import opened Shapes

  /** Number of rows (row 0 is the top). */
  const ROWS := 20
  /** Number of columns (column 0 is the left). */
  const COLS := 10

  /** A piece colour: the catalog index of its shape plus one. */
  type Color = c: int | 1 <= c <= 7 witness 1
  /** A grid cell: 0 when empty, otherwise the colour of the piece that was locked there. */
  type Cell = c: int | 0 <= c <= 7
  type Grid = seq<seq<Cell>>

  /** The falling piece: its shape, its colour and the grid position of the shape's top-left cell. */
  datatype Piece = Piece(shape: Shape, color: Color, x: int, y: int)

  /** The grid has exactly ROWS rows of COLS cells each. */
  predicate IsGrid(g: Grid) {
    |g| == ROWS && forall r :: 0 <= r < |g| ==> |g[r]| == COLS
  }

  /** A row of empty cells. */
  function EmptyRow(): seq<Cell> {
    seq(COLS, _ => 0)
  }

  /** `k` empty rows. */
  function Zeros(k: nat): (r: Grid)
    ensures |r| == k && forall i :: 0 <= i < k ==> r[i] == EmptyRow()
  {
    if k == 0 then [] else [EmptyRow()] + Zeros(k - 1)
  }

  /** The grid of a new game. */
  function EmptyGrid(): Grid {
    Zeros(ROWS)
  }

  // ---------------------------------------------------------------------------
  // Collision

  /** Grid position (x, y) cannot hold a piece cell: it is left of, right of or below
      the field, or it is on the field and filled. Positions above the field are free. */
  predicate Blocked(g: Grid, x: int, y: int)
    requires IsGrid(g)
  {
    x < 0 || x >= COLS || y >= ROWS || (y >= 0 && g[y][x] != 0)
  }

  /** The collision check as the game computes it: scan the shape's rows in order and,
      within row `dy`, its cells in order, stopping at the first occupied cell whose
      grid position is blocked. */
  predicate Collides(g: Grid, p: Piece)
    requires IsGrid(g)
  {
    SomeRow(g, p, 0)
  }

  /** Some row from `dy` on has a colliding cell. */
  predicate SomeRow(g: Grid, p: Piece, dy: nat)
    requires IsGrid(g)
    decreases |p.shape| - dy
  {
    dy < |p.shape| && (SomeCell(g, p, dy, 0) || SomeRow(g, p, dy + 1))
  }

  /** Some cell of row `dy` from column `dx` on is occupied and blocked. */
  predicate SomeCell(g: Grid, p: Piece, dy: nat, dx: nat)
    requires IsGrid(g) && dy < |p.shape|
    decreases |p.shape[dy]| - dx
  {
    dx < |p.shape[dy]| &&
    ((p.shape[dy][dx] && Blocked(g, p.x + dx, p.y + dy)) || SomeCell(g, p, dy, dx + 1))
  }

  /** The collision rule stated directly: some occupied cell of the shape lands on a
      blocked grid position. */
  ghost predicate HitsObstacle(g: Grid, p: Piece)
    requires IsGrid(g)
  {
    exists dy, dx :: Occupied(p.shape, dy, dx) && Blocked(g, p.x + dx, p.y + dy)
  }

  lemma {:induction false} SomeCellIff(g: Grid, p: Piece, dy: nat, dx: nat)
    requires IsGrid(g) && dy < |p.shape|
    ensures SomeCell(g, p, dy, dx) <==>
      exists c :: dx <= c && Occupied(p.shape, dy, c) && Blocked(g, p.x + c, p.y + dy)
    decreases |p.shape[dy]| - dx
  {
    if dx < |p.shape[dy]| {
      SomeCellIff(g, p, dy, dx + 1);
      if p.shape[dy][dx] && Blocked(g, p.x + dx, p.y + dy) {
        assert Occupied(p.shape, dy, dx);
      }
      if c :| dx <= c && Occupied(p.shape, dy, c) && Blocked(g, p.x + c, p.y + dy) {
        if c != dx {
          assert dx + 1 <= c;
        }
      }
    }
  }

  lemma {:induction false} SomeRowIff(g: Grid, p: Piece, dy: nat)
    requires IsGrid(g)
    ensures SomeRow(g, p, dy) <==>
      exists r, c :: dy <= r && Occupied(p.shape, r, c) && Blocked(g, p.x + c, p.y + r)
    decreases |p.shape| - dy
  {
    if dy < |p.shape| {
      SomeCellIff(g, p, dy, 0);
      SomeRowIff(g, p, dy + 1);
      if r, c :| dy <= r && Occupied(p.shape, r, c) && Blocked(g, p.x + c, p.y + r) {
        if r == dy {
          assert SomeCell(g, p, dy, 0);
        } else {
          assert dy + 1 <= r;
        }
      }
    }
  }

  /** The scan finds a collision exactly when some occupied shape cell lands left of
      column 0, right of the last column, below the last row, or on a filled cell of the
      field; cells above the field never collide with the grid. */
  lemma CollidesIff(g: Grid, p: Piece)
    requires IsGrid(g)
    ensures Collides(g, p) <==> HitsObstacle(g, p)
  {
    SomeRowIff(g, p, 0);
  }

  // ---------------------------------------------------------------------------
  // Placement

  /** Every occupied cell of the piece lies on the field, and the piece does not stick
      out above it. */
  ghost predicate InBounds(p: Piece) {
    p.y >= 0 &&
    forall dy, dx :: Occupied(p.shape, dy, dx) ==> 0 <= p.x + dx < COLS && p.y + dy < ROWS
  }

  /** A piece that does not collide and whose top row is on the field lies wholly on it. */
  lemma FreeIsInBounds(g: Grid, p: Piece)
    requires IsGrid(g) && !Collides(g, p) && p.y >= 0
    ensures InBounds(p)
  {
    CollidesIff(g, p);
  }

  /** A piece that lies on the field never collides with an empty grid. */
  lemma InBoundsFreeOnEmptyGrid(p: Piece)
    requires InBounds(p)
    ensures IsGrid(EmptyGrid()) && !Collides(EmptyGrid(), p)
  {
    CollidesIff(EmptyGrid(), p);
  }

  /** A non-colliding piece with an occupied cell is above the floor, so falling terminates. */
  lemma FreeIsAboveFloor(g: Grid, p: Piece)
    requires IsGrid(g) && HasCell(p.shape) && !Collides(g, p)
    ensures p.y < ROWS
  {
    CollidesIff(g, p);
    var dy, dx :| Occupied(p.shape, dy, dx);
    assert !Blocked(g, p.x + dx, p.y + dy);
  }

  // ---------------------------------------------------------------------------
  // Locking

  /** Grid position (x, y) is under an occupied cell of the piece. */
  predicate Covers(p: Piece, x: int, y: int) {
    Occupied(p.shape, y - p.y, x - p.x)
  }

  /** The grid after locking the piece: the cells under the piece take its colour. */
  function Merged(g: Grid, p: Piece): (r: Grid)
    requires IsGrid(g)
    ensures IsGrid(r)
  {
    seq(ROWS, y requires 0 <= y < ROWS =>
      seq(COLS, x requires 0 <= x < COLS => if Covers(p, x, y) then p.color else g[y][x]))
  }

  /** After locking, the piece collides with the grid at the place where it was locked:
      the grid now holds its cells. */
  lemma MergeLocks(g: Grid, p: Piece)
    requires IsGrid(g) && InBounds(p) && HasCell(p.shape)
    ensures Collides(Merged(g, p), p)
  {
    var dy, dx :| Occupied(p.shape, dy, dx);
    assert Covers(p, p.x + dx, p.y + dy);
    assert Blocked(Merged(g, p), p.x + dx, p.y + dy);
    CollidesIff(Merged(g, p), p);
  }

  // ---------------------------------------------------------------------------
  // Line clearing

  /** No cell of the row is empty. */
  predicate IsFull(row: seq<Cell>) {
    forall x :: 0 <= x < |row| ==> row[x] != 0
  }

  /** The number of full rows. */
  function FullCount(g: Grid): (n: nat)
    ensures n <= |g|
  {
    if g == [] then 0 else (if IsFull(g[0]) then 1 else 0) + FullCount(g[1..])
  }

  /** The rows that are not full, in their original order. */
  function Kept(g: Grid): (r: Grid)
    ensures |r| == |g| - FullCount(g)
  {
    if g == [] then [] else (if IsFull(g[0]) then [] else [g[0]]) + Kept(g[1..])
  }

  /** Every kept row is a row of the input and is not full. */
  lemma {:induction false} KeptRows(g: Grid)
    ensures forall i :: 0 <= i < |Kept(g)| ==> Kept(g)[i] in g && !IsFull(Kept(g)[i])
  {
    if g != [] {
      KeptRows(g[1..]);
      var head: Grid := if IsFull(g[0]) then [] else [g[0]];
      assert Kept(g) == head + Kept(g[1..]);
      forall i | 0 <= i < |Kept(g)|
        ensures Kept(g)[i] in g && !IsFull(Kept(g)[i])
      {
        if i >= |head| {
          assert Kept(g)[i] == Kept(g[1..])[i - |head|];
        }
      }
    }
  }

  /** The grid after clearing: one empty row on top for each full row removed, then the
      remaining rows in their original order. */
  function Cleared(g: Grid): (r: Grid)
    requires IsGrid(g)
    ensures IsGrid(r)
    ensures forall i :: 0 <= i < |r| ==> !IsFull(r[i])
    ensures forall i :: 0 <= i < |r| ==> r[i] == EmptyRow() || r[i] in g
  {
    assert !IsFull(EmptyRow()) by { assert EmptyRow()[0] == 0; }
    KeptRows(g);
    Zeros(FullCount(g)) + Kept(g)
  }

  /** The grid part-way through the bottom-up scan: `k` full rows found and removed so
      far, the first `m` original rows not yet looked at, then the kept rows below them. */
  function ScanGrid(g0: Grid, k: nat, m: nat): Grid
    requires m <= |g0|
  {
    Zeros(k) + g0[..m] + Kept(g0[m..])
  }

  /** Where the bottom-up scan stands with `rows` as the grid and `y` as the index:
      `k` full rows removed so far, the first `m` original rows not yet looked at, and
      the index on the lowest of those, or on an inserted empty row once none is left. */
  ghost predicate ScanState(g0: Grid, rows: Grid, k: nat, m: nat, y: int) {
    m <= |g0| && k == FullCount(g0[m..]) && rows == ScanGrid(g0, k, m) &&
    -1 <= y && (if m > 0 then y == k + m - 1 else y < k)
  }

  /** The scan starts with the whole grid unexamined and the index on the bottom row. */
  lemma ScanStart(g0: Grid)
    requires IsGrid(g0)
    ensures ScanState(g0, g0, 0, ROWS, ROWS - 1)
  {
    assert g0[..ROWS] == g0 && g0[ROWS..] == [];
  }

  /** The row under the index is the lowest unexamined original row, or an empty row
      once only the inserted rows are left. */
  lemma ScanRowAt(g0: Grid, rows: Grid, k: nat, m: nat, y: int)
    requires ScanState(g0, rows, k, m, y) && 0 <= y
    ensures y < |rows| == |g0|
    ensures rows[y] == if m > 0 then g0[m - 1] else EmptyRow()
    ensures m == 0 ==> !IsFull(rows[y])
  {
    assert EmptyRow()[0] == 0;
  }

  /** A full row at `m - 1` adds to the count of the examined suffix and is not kept. */
  lemma SuffixFull(g0: Grid, m: nat)
    requires 0 < m <= |g0| && IsFull(g0[m - 1])
    ensures FullCount(g0[m - 1..]) == FullCount(g0[m..]) + 1
    ensures Kept(g0[m - 1..]) == Kept(g0[m..])
  {
    assert g0[m - 1..][1..] == g0[m..];
  }

  /** Cutting the last element of `p` out of `z + p + c` and pushing `e` on the front. */
  lemma CutAndPush<T>(z: seq<T>, e: T, p: seq<T>, c: seq<T>, y: nat)
    requires p != [] && y == |z| + |p| - 1
    ensures [e] + ((z + p + c)[..y] + (z + p + c)[y + 1..]) == [e] + z + p[..|p| - 1] + c
  {
    var s := z + p + c;
    assert s[..y] == z + p[..|p| - 1];
    assert s[y + 1..] == c;
  }

  /** The scan grid after one more full row, written with the pieces of the one before. */
  lemma ScanGridPush(g0: Grid, k: nat, m: nat)
    requires 0 < m <= |g0| && Kept(g0[m - 1..]) == Kept(g0[m..])
    ensures ScanGrid(g0, k + 1, m - 1) == [EmptyRow()] + Zeros(k) + g0[..m][..m - 1] + Kept(g0[m..])
  {
    assert g0[..m][..m - 1] == g0[..m - 1];
  }

  /** Removing the full row at the index and inserting an empty row on top. */
  lemma ScanRemove(g0: Grid, rows: Grid, k: nat, m: nat, y: nat)
    requires 0 < m <= |g0| && IsFull(g0[m - 1])
    requires rows == ScanGrid(g0, k, m) && y == k + m - 1
    ensures [EmptyRow()] + (rows[..y] + rows[y + 1..]) == ScanGrid(g0, k + 1, m - 1)
  {
    SuffixFull(g0, m);
    ScanGridPush(g0, k, m);
    CutAndPush(Zeros(k), EmptyRow(), g0[..m], Kept(g0[m..]), y);
  }

  /** A full row under the index is an original row; removing it, inserting an empty row
      on top and looking at the same index again counts it and keeps the scan on track. */
  lemma ScanFullStep(g0: Grid, rows: Grid, k: nat, m: nat, y: int)
    requires ScanState(g0, rows, k, m, y) && 0 <= y < |rows| && IsFull(rows[y])
    ensures m > 0
    ensures ScanState(g0, [EmptyRow()] + (rows[..y] + rows[y + 1..]), k + 1, m - 1, y)
  {
    ScanRowAt(g0, rows, k, m, y);
    SuffixFull(g0, m);
    ScanRemove(g0, rows, k, m, y);
  }

  /** Passing over an original row that is not full. */
  lemma ScanSkip(g0: Grid, k: nat, m: nat)
    requires 0 < m <= |g0| && !IsFull(g0[m - 1])
    ensures FullCount(g0[m - 1..]) == FullCount(g0[m..])
    ensures ScanGrid(g0, k, m) == ScanGrid(g0, k, m - 1)
  {
    assert g0[m - 1..][0] == g0[m - 1] && g0[m - 1..][1..] == g0[m..];
    assert g0[..m] == g0[..m - 1] + [g0[m - 1]];
  }

  /** A row under the index that is not full is left in place and the index moves up. */
  lemma ScanOtherStep(g0: Grid, rows: Grid, k: nat, m: nat, y: int)
    requires ScanState(g0, rows, k, m, y) && 0 <= y < |rows| && !IsFull(rows[y])
    ensures ScanState(g0, rows, k, if m > 0 then m - 1 else 0, y - 1)
  {
    ScanRowAt(g0, rows, k, m, y);
    if m > 0 {
      ScanSkip(g0, k, m);
    }
  }

  /** Once the index has passed the top row, the scan has produced the cleared grid. */
  lemma ScanDone(g0: Grid, rows: Grid, k: nat, m: nat)
    requires IsGrid(g0) && ScanState(g0, rows, k, m, -1)
    ensures k == FullCount(g0) && rows == Cleared(g0)
  {
    assert g0[0..] == g0 && g0[..0] == [];
  }

  /** Removing the full rows of a concatenation removes them from each part. */
  lemma {:induction false} KeptAppend(a: Grid, b: Grid)
    ensures Kept(a + b) == Kept(a) + Kept(b)
    ensures FullCount(a + b) == FullCount(a) + FullCount(b)
  {
    if a != [] {
      assert (a + b)[0] == a[0] && (a + b)[1..] == a[1..] + b;
      KeptAppend(a[1..], b);
      var head: Grid := if IsFull(a[0]) then [] else [a[0]];
      assert Kept(a + b) == head + (Kept(a[1..]) + Kept(b));
      assert head + (Kept(a[1..]) + Kept(b)) == (head + Kept(a[1..])) + Kept(b);
    } else {
      assert a + b == b;
    }
  }

  /** A grid without full rows is left as it is. */
  lemma {:induction false} KeptNoFull(g: Grid)
    requires forall i :: 0 <= i < |g| ==> !IsFull(g[i])
    ensures Kept(g) == g && FullCount(g) == 0
  {
    if g != [] {
      KeptNoFull(g[1..]);
    }
  }

  /** Clearing twice is the same as clearing once. */
  lemma ClearedIdempotent(g: Grid)
    requires IsGrid(g)
    ensures Cleared(Cleared(g)) == Cleared(g)
  {
    KeptNoFull(Cleared(g));
  }

  /** A full bottom row, and no other, is replaced by an empty row on top while every
      other row moves down by one. */
  lemma ClearBottomRow(g: Grid)
    requires IsGrid(g) && IsFull(g[ROWS - 1])
    requires forall i :: 0 <= i < ROWS - 1 ==> !IsFull(g[i])
    ensures FullCount(g) == 1
    ensures Cleared(g) == [EmptyRow()] + g[..ROWS - 1]
  {
    assert g == g[..ROWS - 1] + [g[ROWS - 1]];
    KeptAppend(g[..ROWS - 1], [g[ROWS - 1]]);
    KeptNoFull(g[..ROWS - 1]);
  }

  /** Two adjacent full rows at the bottom, and no other, are both removed. */
  lemma ClearTwoBottomRows(g: Grid)
    requires IsGrid(g) && IsFull(g[ROWS - 2]) && IsFull(g[ROWS - 1])
    requires forall i :: 0 <= i < ROWS - 2 ==> !IsFull(g[i])
    ensures FullCount(g) == 2
    ensures Cleared(g) == [EmptyRow(), EmptyRow()] + g[..ROWS - 2]
  {
    assert g == g[..ROWS - 2] + [g[ROWS - 2], g[ROWS - 1]];
    KeptAppend(g[..ROWS - 2], [g[ROWS - 2], g[ROWS - 1]]);
    KeptNoFull(g[..ROWS - 2]);
    assert [g[ROWS - 2], g[ROWS - 1]][1..] == [g[ROWS - 1]];
  }
}
