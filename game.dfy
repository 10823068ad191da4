/** The game engine: the state of one game and the operations that the player's keys
    and the game loop apply to it. */
module Game {
  import opened Shapes
  import opened Board

  datatype Option<T> = None | Some(value: T)

  /** What a key press asks for: the arrow keys and space, or any other key. */
  datatype Command = MoveLeft | MoveRight | SoftDrop | Rotate | HardDrop | Other

  /** A new piece of catalog entry `k`, centred on the top row. */
  function Spawned(k: nat): Piece
    requires k < COUNT
  {
    Piece(SHAPES[k], k + 1, COLS / 2 - |SHAPES[k][0]| / 2, 0)
  }

  /** Every new piece lies wholly on the field. */
  lemma SpawnInBounds(k: nat)
    requires k < COUNT
    ensures IsPieceShape(Spawned(k).shape) && InBounds(Spawned(k))
  {
    CatalogShape(k);
  }

  /** A new piece never collides with an empty grid, so a new game never starts over. */
  lemma SpawnFreeOnEmptyGrid(k: nat)
    requires k < COUNT
    ensures !Collides(EmptyGrid(), Spawned(k))
  {
    SpawnInBounds(k);
    InBoundsFreeOnEmptyGrid(Spawned(k));
  }

  /** Every shape has a cell in its top row, so a new piece collides whenever the top row
      of the grid is full. */
  lemma SpawnCollidesUnderFullTopRow(g: Grid, k: nat)
    requires IsGrid(g) && IsFull(g[0]) && k < COUNT
    ensures Collides(g, Spawned(k))
  {
    var p := Spawned(k);
    SpawnInBounds(k);
    CatalogShape(k);
    var dx :| Occupied(p.shape, 0, dx);
    assert Blocked(g, p.x + dx, p.y + 0);
    CollidesIff(g, p);
  }

  /** `q` is piece `p` after a sideways move of `dx` columns on grid `g`: the moved piece
      unless it collides, in which case the piece stays where it was. */
  ghost predicate Shifted(g: Grid, p: Piece, dx: int, q: Piece)
    requires IsGrid(g)
  {
    var moved := p.(x := p.x + dx);
    q == if Collides(g, moved) then p else moved
  }

  /** A successful sideways move is undone by the opposite move. */
  lemma ShiftUndo(g: Grid, p: Piece, dx: int, q: Piece)
    requires IsGrid(g) && !Collides(g, p) && Shifted(g, p, dx, q) && q != p
    ensures Shifted(g, q, -dx, p)
  {
    assert q.(x := q.x - dx) == p;
  }

  /** `q` is piece `p` after a rotation on grid `g`: the turned piece unless it collides,
      in which case the piece keeps its shape. */
  ghost predicate Turned(g: Grid, p: Piece, q: Piece)
    requires IsGrid(g) && IsMatrix(p.shape)
  {
    var turned := p.(shape := Rotated(p.shape));
    q == if Collides(g, turned) then p else turned
  }

  /** `q` is piece `p` after a hard drop on grid `g`: the same piece in a lower or equal
      row, free at every row it passed, and colliding one row further down. */
  ghost predicate Dropped(g: Grid, p: Piece, q: Piece)
    requires IsGrid(g)
  {
    q == p.(y := q.y) && p.y <= q.y && Collides(g, p.(y := q.y + 1)) &&
    forall y :: p.y <= y <= q.y ==> !Collides(g, p.(y := y))
  }

  class Tetris {
    var grid: Grid
    var score: int
    var gameOver: bool
    /** The falling piece; None until the first piece is spawned. */
    var current: Option<Piece>
    var started: bool

    /** The grid keeps its dimensions, the score counts whole cleared rows, and the piece
        is well formed and lies on the field (so locking it never writes off the grid). */
    ghost predicate Consistent()
      reads this
    {
      IsGrid(grid) && score >= 0 && score % 100 == 0 &&
      (current.Some? ==> IsPieceShape(current.value.shape) && InBounds(current.value)) &&
      (gameOver ==> current.Some?)
    }

    /** In addition, a started game has a piece, and while the game is not over the piece
        does not collide. */
    ghost predicate Valid()
      reads this
    {
      Consistent() && (started ==> current.Some?) &&
      (current.Some? && !gameOver ==> !Collides(grid, current.value))
    }

    /** The state after one downward step from grid `g0`, score `s0` and piece `p`: the
        piece moves down one row if it can; otherwise it is locked where it is, full rows
        are cleared and scored, and piece `next` is spawned, ending the game if it collides. */
    ghost predicate SteppedDown(g0: Grid, s0: int, p: Piece, next: nat)
      reads this
      requires IsGrid(g0) && next < COUNT
    {
      var below := p.(y := p.y + 1);
      if !Collides(g0, below) then
        current == Some(below) && grid == g0 && score == s0 && !gameOver
      else
        var locked := Merged(g0, p);
        grid == Cleared(locked) && score == s0 + 100 * FullCount(locked) &&
        current == Some(Spawned(next)) && gameOver == Collides(Cleared(locked), Spawned(next))
    }

    constructor ()
      ensures Valid()
      ensures grid == EmptyGrid() && score == 0 && !gameOver && current == None && !started
    {
      grid := EmptyGrid();
      score := 0;
      gameOver := false;
      current := None;
      started := false;
    }

    /** Start a game unless one is running: spawn piece `k`, then run the first tick,
        which may spawn piece `next`. */
    method StartGame(k: nat, next: nat)
      requires Valid() && k < COUNT && next < COUNT
      modifies this
      ensures Valid() && current.Some?
      ensures old(started) ==> unchanged(this)
      ensures !old(started) ==>
        if old(gameOver) || Collides(old(grid), Spawned(k)) then
          grid == EmptyGrid() && score == 0 && !gameOver && !started && current == Some(Spawned(k))
        else
          started && SteppedDown(old(grid), old(score), Spawned(k), next)
    {
      if started {
        return;
      }
      started := true;
      CreateNewPiece(k);
      Tick(next);
    }

    /** Place piece `k` at the top centre; the game is over if it collides there. */
    method CreateNewPiece(k: nat)
      requires Consistent() && k < COUNT
      modifies this`current, this`gameOver
      ensures Valid()
      ensures current == Some(Spawned(k))
      ensures gameOver == (old(gameOver) || Collides(grid, Spawned(k)))
    {
      SpawnInBounds(k);
      current := Some(Spawned(k));
      if Collides(grid, current.value) {
        gameOver := true;
      }
    }

    /** Turn the piece a quarter turn clockwise unless the turned piece collides. */
    method Rotate()
      requires Valid() && current.Some? && !gameOver
      modifies this`current
      ensures Valid() && current.Some?
      ensures Turned(grid, old(current.value), current.value)
    {
      var p := current.value;
      var rotated := Rotated(p.shape);
      var previousShape := p.shape;
      current := Some(p.(shape := rotated));
      if Collides(grid, current.value) {
        current := Some(current.value.(shape := previousShape));
      } else {
        RotatedPieceShape(p.shape);
        FreeIsInBounds(grid, current.value);
      }
    }

    /** Move the piece down one row; if it cannot move, lock it, clear full rows and
        spawn piece `next`. */
    method MoveDown(next: nat)
      requires Valid() && current.Some? && !gameOver && next < COUNT
      modifies this`grid, this`score, this`current, this`gameOver
      ensures Valid() && current.Some?
      ensures SteppedDown(old(grid), old(score), old(current.value), next)
    {
      var p := current.value;
      current := Some(p.(y := p.y + 1));
      if Collides(grid, current.value) {
        current := Some(current.value.(y := current.value.y - 1));
        MergePiece();
        ClearLines();
        CreateNewPiece(next);
      } else {
        FreeIsInBounds(grid, current.value);
      }
    }

    /** Move the piece one column left unless it would collide. */
    method MoveLeft()
      requires Valid() && current.Some? && !gameOver
      modifies this`current
      ensures Valid() && current.Some?
      ensures Shifted(grid, old(current.value), -1, current.value)
    {
      var p := current.value;
      current := Some(p.(x := p.x - 1));
      if Collides(grid, current.value) {
        current := Some(current.value.(x := current.value.x + 1));
      } else {
        FreeIsInBounds(grid, current.value);
      }
    }

    /** Move the piece one column right unless it would collide. */
    method MoveRight()
      requires Valid() && current.Some? && !gameOver
      modifies this`current
      ensures Valid() && current.Some?
      ensures Shifted(grid, old(current.value), 1, current.value)
    {
      var p := current.value;
      current := Some(p.(x := p.x + 1));
      if Collides(grid, current.value) {
        current := Some(current.value.(x := current.value.x - 1));
      } else {
        FreeIsInBounds(grid, current.value);
      }
    }

    /** Hard drop: let the piece fall while it does not collide, then step back up one
        row. The piece is not locked here; the next downward step locks it. */
    method Drop()
      requires Valid() && current.Some? && !gameOver
      modifies this`current
      ensures Valid() && current.Some?
      ensures Dropped(grid, old(current.value), current.value)
    {
      ghost var p := current.value;
      FreeIsAboveFloor(grid, p);
      while !Collides(grid, current.value)
        invariant current.Some? && current.value == p.(y := current.value.y)
        invariant p.y <= current.value.y <= ROWS
        invariant forall y :: p.y <= y < current.value.y ==> !Collides(grid, p.(y := y))
        decreases ROWS - current.value.y
      {
        FreeIsAboveFloor(grid, current.value);
        current := Some(current.value.(y := current.value.y + 1));
      }
      current := Some(current.value.(y := current.value.y - 1));
      FreeIsInBounds(grid, current.value);
    }

    /** Lock the piece: write its colour into every grid cell under one of its occupied
        cells. */
    method MergePiece()
      requires Consistent() && current.Some?
      modifies this`grid
      ensures Consistent()
      ensures grid == Merged(old(grid), current.value)
    {
      var p := current.value;
      var color: Cell := p.color;
      ghost var g0 := grid;
      var dy := 0;
      while dy < |p.shape|
        invariant 0 <= dy <= |p.shape|
        invariant IsGrid(grid)
        invariant forall r, c :: 0 <= r < ROWS && 0 <= c < COLS ==>
          grid[r][c] == if Covers(p, c, r) && r - p.y < dy then p.color else g0[r][c]
      {
        var dx := 0;
        while dx < |p.shape[dy]|
          invariant 0 <= dx <= |p.shape[dy]|
          invariant IsGrid(grid)
          invariant forall r, c :: 0 <= r < ROWS && 0 <= c < COLS ==>
            grid[r][c] ==
              if Covers(p, c, r) && (r - p.y < dy || (r - p.y == dy && c - p.x < dx))
              then p.color else g0[r][c]
        {
          if p.shape[dy][dx] {
            assert Occupied(p.shape, dy, dx);
            var row: seq<Cell> := grid[dy + p.y][dx + p.x := color];
            grid := grid[dy + p.y := row];
          }
          dx := dx + 1;
        }
        dy := dy + 1;
      }
      forall r | 0 <= r < ROWS
        ensures grid[r] == Merged(g0, p)[r]
      {
      }
    }

    /** Scan the rows from the bottom up; remove each full row, insert an empty row on top
        and look at the same index again; finally add 100 points per removed row. */
    method ClearLines()
      requires Consistent()
      modifies this`grid, this`score
      ensures Consistent()
      ensures grid == Cleared(old(grid))
      ensures score == old(score) + 100 * FullCount(old(grid))
    {
      ghost var g0 := grid;
      ghost var m: nat := ROWS;
      var linesCleared: nat := 0;
      var y := ROWS - 1;
      ScanStart(g0);
      while y >= 0
        invariant ScanState(g0, grid, linesCleared, m, y) && score == old(score)
        decreases y + 1 + m
      {
        ScanRowAt(g0, grid, linesCleared, m, y);
        if IsFull(grid[y]) {
          ScanFullStep(g0, grid, linesCleared, m, y);
          grid := grid[..y] + grid[y + 1..];
          grid := [EmptyRow()] + grid;
          linesCleared := linesCleared + 1;
          m := m - 1;
          y := y + 1;
        } else {
          ScanOtherStep(g0, grid, linesCleared, m, y);
          if m > 0 {
            m := m - 1;
          }
        }
        y := y - 1;
      }
      ScanDone(g0, grid, linesCleared, m);
      if linesCleared > 0 {
        score := score + linesCleared * 100;
      }
    }

    /** One run of the game loop: a downward step while the game runs; once it is over,
        an empty grid, a zero score and a stopped game. */
    method Tick(next: nat)
      requires Valid() && current.Some? && next < COUNT
      modifies this
      ensures Valid() && current.Some?
      ensures old(gameOver) ==>
        grid == EmptyGrid() && score == 0 && !gameOver && !started && current == old(current)
      ensures !old(gameOver) ==>
        started == old(started) && SteppedDown(old(grid), old(score), old(current.value), next)
    {
      if !gameOver {
        MoveDown(next);
      } else {
        grid := EmptyGrid();
        score := 0;
        gameOver := false;
        started := false;
        InBoundsFreeOnEmptyGrid(current.value);
      }
    }

    /** React to a key: nothing once the game is over, otherwise the command's operation. */
    method HandleKey(cmd: Command, next: nat)
      requires Valid() && current.Some? && next < COUNT
      modifies this
      ensures Valid() && current.Some?
      ensures old(gameOver) || cmd == Other ==> unchanged(this)
      ensures cmd in {Command.MoveLeft, Command.MoveRight, Command.Rotate, Command.HardDrop} ==>
        grid == old(grid) && score == old(score) && gameOver == old(gameOver) && started == old(started)
      ensures !old(gameOver) && cmd == Command.MoveLeft ==>
        Shifted(grid, old(current.value), -1, current.value)
      ensures !old(gameOver) && cmd == Command.MoveRight ==>
        Shifted(grid, old(current.value), 1, current.value)
      ensures !old(gameOver) && cmd == Command.Rotate ==>
        Turned(grid, old(current.value), current.value)
      ensures !old(gameOver) && cmd == Command.HardDrop ==>
        Dropped(grid, old(current.value), current.value)
      ensures !old(gameOver) && cmd == SoftDrop ==>
        started == old(started) && SteppedDown(old(grid), old(score), old(current.value), next)
    {
      if gameOver {
        return;
      }
      match cmd {
        case MoveLeft => MoveLeft();
        case MoveRight => MoveRight();
        case SoftDrop => MoveDown(next);
        case Rotate => Rotate();
        case HardDrop => Drop();
        case Other =>
      }
    }
  }
}
