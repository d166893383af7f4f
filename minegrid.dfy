/**
 * The mine game: a 9x9 grid of cells with a fixed mine layout, the adjacency
 * counts computed when the board is set up, the recursive reveal with its
 * flood fill over cells that have no adjacent mine, and flagging.
 */
module MineGrid {

  const Rows: int := 9
  const Cols: int := 9
  /** The number of mines the placement loop puts on the board. */
  const MineCount: int := 10

  /** One cell of the board, replaced by an updated copy at every change. */
  datatype Cell = Cell(isMine: bool, isRevealed: bool, isFlagged: bool, adjacentMines: nat)

  predicate InBounds(r: int, c: int)
  {
    0 <= r < Rows && 0 <= c < Cols
  }

  /**
   * The k-th of the nine offsets visited by the adjacency and flood-fill
   * loops: the row offset in the outer loop, the column offset in the inner
   * one, each running from -1 to 1.
   */
  function Offset(k: nat): (d: (int, int))
    requires k < 9
    ensures -1 <= d.0 <= 1 && -1 <= d.1 <= 1
  {
    if k < 3 then (-1, k - 1)
    else if k < 6 then (0, k - 4)
    else (1, k - 7)
  }

  /** The loop step at which the offset (dr, dc) is visited. */
  function OffsetIndex(dr: int, dc: int): (k: nat)
    requires -1 <= dr <= 1 && -1 <= dc <= 1
    ensures k < 9 && Offset(k) == (dr, dc)
  {
    (dr + 1) * 3 + (dc + 1)
  }

  /** Distinct loop steps visit distinct offsets. */
  lemma OffsetRoundTrip(k: nat)
    requires k < 9
    ensures OffsetIndex(Offset(k).0, Offset(k).1) == k
  {
  }

  /** (r, c) is an in-bounds cell of the 3x3 block centred on (row, col), the centre included. */
  predicate IsNeighbour(row: int, col: int, r: int, c: int)
  {
    InBounds(r, c) && -1 <= r - row <= 1 && -1 <= c - col <= 1
  }

  /** The cell at the k-th offset from (row, col) is on the board and holds a mine. */
  predicate Hit(mines: set<(int, int)>, row: int, col: int, k: nat)
    requires k < 9
  {
    var d := Offset(k);
    InBounds(row + d.0, col + d.1) && (row + d.0, col + d.1) in mines
  }

  /** The step of the adjacency loop at offset (dr, dc) adds one exactly when that cell holds a mine. */
  lemma CountStep(mines: set<(int, int)>, row: int, col: int, dr: int, dc: int)
    requires -1 <= dr <= 1 && -1 <= dc <= 1
    ensures MinesAmong(mines, row, col, (dr + 1) * 3 + (dc + 1) + 1)
            == MinesAmong(mines, row, col, (dr + 1) * 3 + (dc + 1))
               + if InBounds(row + dr, col + dc) && (row + dr, col + dc) in mines then 1 else 0
  {
  }

  /** The count after the first k steps of the adjacency loop. */
  function MinesAmong(mines: set<(int, int)>, row: int, col: int, k: nat): (n: nat)
    requires k <= 9
    ensures n <= k
  {
    if k == 0 then 0
    else MinesAmong(mines, row, col, k - 1) + (if Hit(mines, row, col, k - 1) then 1 else 0)
  }

  /** The number of mines in the 3x3 block around (row, col). */
  function AdjacentMines(mines: set<(int, int)>, row: int, col: int): nat
  {
    MinesAmong(mines, row, col, 9)
  }

  /** The cell the k-th step of the adjacency loop looks at. */
  function StepCell(row: int, col: int, k: nat): (int, int)
    requires k < 9
  {
    (row + Offset(k).0, col + Offset(k).1)
  }

  /** The cells the first k steps of the adjacency loop find a mine on. */
  ghost function HitCells(mines: set<(int, int)>, row: int, col: int, k: nat): set<(int, int)>
    requires k <= 9
  {
    set j | 0 <= j < k && Hit(mines, row, col, j) :: StepCell(row, col, j)
  }

  /** The k-th step looks at a cell no earlier step looked at. */
  lemma StepCellFresh(mines: set<(int, int)>, row: int, col: int, k: nat)
    requires k < 9
    ensures StepCell(row, col, k) !in HitCells(mines, row, col, k)
  {
    forall j | 0 <= j < k
      ensures StepCell(row, col, j) != StepCell(row, col, k)
    {
      OffsetRoundTrip(j);
      OffsetRoundTrip(k);
    }
  }

  /** The k-th step adds its cell to the found ones exactly when it hits. */
  lemma HitCellsStep(mines: set<(int, int)>, row: int, col: int, k: nat)
    requires k < 9
    ensures HitCells(mines, row, col, k + 1)
            == HitCells(mines, row, col, k) + if Hit(mines, row, col, k) then {StepCell(row, col, k)} else {}
  {
  }

  /** A partial count is the number of distinct mined cells its steps have found. */
  lemma {:induction false} MinesAmongCounts(mines: set<(int, int)>, row: int, col: int, k: nat)
    requires k <= 9
    ensures MinesAmong(mines, row, col, k) == |HitCells(mines, row, col, k)|
  {
    if k > 0 {
      MinesAmongCounts(mines, row, col, k - 1);
      HitCellsStep(mines, row, col, k - 1);
      StepCellFresh(mines, row, col, k - 1);
    }
  }

  /** The adjacency count is the number of mines in the in-bounds 3x3 block around (row, col). */
  lemma AdjacentMinesCounts(mines: set<(int, int)>, row: int, col: int)
    ensures AdjacentMines(mines, row, col) == |set p | p in mines && IsNeighbour(row, col, p.0, p.1)|
  {
    MinesAmongCounts(mines, row, col, 9);
    var block := set p | p in mines && IsNeighbour(row, col, p.0, p.1);
    forall p | p in block
      ensures p in HitCells(mines, row, col, 9)
    {
      var j := OffsetIndex(p.0 - row, p.1 - col);
      assert Hit(mines, row, col, j) && StepCell(row, col, j) == p;
    }
    assert HitCells(mines, row, col, 9) == block;
  }

  /** A partial count is zero exactly when none of its steps hit a mine. */
  lemma {:induction false} MinesAmongZero(mines: set<(int, int)>, row: int, col: int, k: nat)
    requires k <= 9
    ensures MinesAmong(mines, row, col, k) == 0 <==> forall j :: 0 <= j < k ==> !Hit(mines, row, col, j)
  {
    if k > 0 {
      MinesAmongZero(mines, row, col, k - 1);
    }
  }

  /** The adjacency count is zero exactly when no in-bounds neighbour holds a mine. */
  lemma AdjacentZeroIff(mines: set<(int, int)>, row: int, col: int)
    ensures AdjacentMines(mines, row, col) == 0 <==>
              forall r, c :: IsNeighbour(row, col, r, c) ==> (r, c) !in mines
  {
    MinesAmongZero(mines, row, col, 9);
    if AdjacentMines(mines, row, col) == 0 {
      forall r, c | IsNeighbour(row, col, r, c)
        ensures (r, c) !in mines
      {
        var j := OffsetIndex(r - row, c - col);
        assert !Hit(mines, row, col, j);
      }
    } else {
      var j :| 0 <= j < 9 && Hit(mines, row, col, j);
      var d := Offset(j);
      assert IsNeighbour(row, col, row + d.0, col + d.1);
    }
  }

  /** A step that hits nothing keeps the partial count below the number of steps. */
  lemma {:induction false} MissBound(mines: set<(int, int)>, row: int, col: int, k: nat, j: nat)
    requires j < k <= 9 && !Hit(mines, row, col, j)
    ensures MinesAmong(mines, row, col, k) <= k - 1
  {
    if j < k - 1 {
      MissBound(mines, row, col, k - 1, j);
    }
  }

  /**
   * A cell without a mine has at most eight mines around it, so its count
   * always indexes the nine-entry colour table of the renderer.
   */
  lemma AdjacentAtMostEight(mines: set<(int, int)>, row: int, col: int)
    requires (row, col) !in mines
    ensures AdjacentMines(mines, row, col) <= 8
  {
    assert Offset(4) == (0, 0);
    MissBound(mines, row, col, 9, 4);
  }

  /** Every position of the board. */
  function AllCells(): (s: set<(int, int)>)
    ensures forall p :: p in s <==> InBounds(p.0, p.1)
  {
    set r, c | 0 <= r < Rows && 0 <= c < Cols :: (r, c)
  }

  /**
   * A cell of a freshly set-up board: unrevealed, unflagged, a mine exactly
   * when the layout says so, and carrying its count once the counting loop
   * has passed it (a mine keeps zero).
   */
  function SetUpCell(mines: set<(int, int)>, r: int, c: int, counted: bool): Cell
  {
    var isMine := (r, c) in mines;
    Cell(isMine, false, false, if counted && !isMine then AdjacentMines(mines, r, c) else 0)
  }

  /** Every in-bounds neighbour of (row, col) is revealed (in R) or flagged (in F). */
  ghost predicate SettledIn(R: set<(int, int)>, F: set<(int, int)>, row: int, col: int)
  {
    forall r, c :: IsNeighbour(row, col, r, c) ==> (r, c) in R || (r, c) in F
  }

  /** The in-bounds cells at the first k offsets from (row, col) are revealed or flagged. */
  ghost predicate DoneIn(R: set<(int, int)>, F: set<(int, int)>, row: int, col: int, k: nat)
    requires k <= 9
  {
    forall j :: 0 <= j < k ==>
      var d := Offset(j);
      InBounds(row + d.0, col + d.1) ==> (row + d.0, col + d.1) in R || (row + d.0, col + d.1) in F
  }

  /** One step of the flood fill: from a cell with no adjacent mine to one of its neighbours. */
  ghost predicate FloodStep(mines: set<(int, int)>, p: (int, int), q: (int, int))
  {
    AdjacentMines(mines, p.0, p.1) == 0 && IsNeighbour(p.0, p.1, q.0, q.1)
  }

  /**
   * A walk of the flood fill from (row, col): it starts there, stays among the
   * cells the fill revealed (in R, not in E), and every step is a flood step.
   */
  ghost predicate FloodPath(mines: set<(int, int)>, E: set<(int, int)>, R: set<(int, int)>,
                            row: int, col: int, path: seq<(int, int)>)
  {
    && |path| > 0 && path[0] == (row, col)
    && (forall i :: 0 <= i < |path| ==> path[i] in R && path[i] !in E)
    && (forall i, j :: 0 <= i && j == i + 1 && j < |path| ==> FloodStep(mines, path[i], path[j]))
  }

  /**
   * The state of a flood fill from (row, col) that began with the revealed
   * set E and has reached R, with flags F: every newly revealed cell is free
   * of mines and unflagged; every newly revealed cell with a zero count,
   * other than (row, col), has all its neighbours revealed or flagged; every
   * newly revealed cell is reached from (row, col) by a walk of flood steps
   * through newly revealed cells.
   */
  ghost predicate Cascading(mines: set<(int, int)>, F: set<(int, int)>, E: set<(int, int)>, R: set<(int, int)>,
                            row: int, col: int)
  {
    && (forall p :: p in R && p !in E ==> p !in mines && p !in F)
    && (forall p :: p in R && p !in E && p != (row, col) && AdjacentMines(mines, p.0, p.1) == 0 ==>
          SettledIn(R, F, p.0, p.1))
    && (forall p :: p in R && p !in E ==>
          exists path :: FloodPath(mines, E, R, row, col, path) && path[|path| - 1] == p)
  }

  /** A finished flood fill from (row, col): if (row, col) has a zero count, its neighbours are settled too. */
  ghost predicate Flooded(mines: set<(int, int)>, F: set<(int, int)>, E: set<(int, int)>, R: set<(int, int)>,
                          row: int, col: int)
  {
    && Cascading(mines, F, E, R, row, col)
    && (AdjacentMines(mines, row, col) == 0 ==> SettledIn(R, F, row, col))
  }

  /** One more visited offset whose cell, if on the board, is now revealed or flagged. */
  lemma DoneStep(S: set<(int, int)>, R: set<(int, int)>, F: set<(int, int)>, row: int, col: int,
                 k: nat, dr: int, dc: int)
    requires k < 9 && Offset(k) == (dr, dc) && S <= R && DoneIn(S, F, row, col, k)
    requires InBounds(row + dr, col + dc) ==> (row + dr, col + dc) in R || (row + dr, col + dc) in F
    ensures DoneIn(R, F, row, col, k + 1)
  {
  }

  /** Visiting all nine offsets of (row, col) settles it. */
  lemma DoneSettled(R: set<(int, int)>, F: set<(int, int)>, row: int, col: int)
    requires DoneIn(R, F, row, col, 9)
    ensures SettledIn(R, F, row, col)
  {
    forall r, c | IsNeighbour(row, col, r, c)
      ensures (r, c) in R || (r, c) in F
    {
      var j := OffsetIndex(r - row, c - col);
    }
  }

  /**
   * One step of the cascade from a zero-count cell (row, col): after the
   * recursive reveal of its neighbour (nr, nc) took the revealed set from S to
   * R, either doing nothing or finishing a flood fill of its own, the cascade
   * from (row, col) that began at E is still in order.
   */
  lemma CascadeStep(mines: set<(int, int)>, F: set<(int, int)>, E: set<(int, int)>, S: set<(int, int)>,
                    R: set<(int, int)>, row: int, col: int, nr: int, nc: int)
    requires E <= S <= R
    requires Cascading(mines, F, E, S, row, col)
    requires (row, col) in S && (row, col) !in E && AdjacentMines(mines, row, col) == 0
    requires IsNeighbour(row, col, nr, nc)
    requires R == S || Flooded(mines, F, S, R, nr, nc)
    ensures Cascading(mines, F, E, R, row, col)
  {
    if R != S {
      forall p | p in R && p !in E
        ensures exists path :: FloodPath(mines, E, R, row, col, path) && path[|path| - 1] == p
      {
        if p in S {
          var path :| FloodPath(mines, E, S, row, col, path) && path[|path| - 1] == p;
          PathGrows(mines, E, S, R, row, col, path);
        } else {
          var tail :| FloodPath(mines, S, R, nr, nc, tail) && tail[|tail| - 1] == p;
          PathPrepend(mines, E, S, R, row, col, tail);
          assert ([(row, col)] + tail)[|tail|] == p;
        }
      }
    }
  }

  /** A walk stays a walk when more cells are revealed. */
  lemma PathGrows(mines: set<(int, int)>, E: set<(int, int)>, S: set<(int, int)>, R: set<(int, int)>,
                  row: int, col: int, path: seq<(int, int)>)
    requires S <= R && FloodPath(mines, E, S, row, col, path)
    ensures FloodPath(mines, E, R, row, col, path)
  {
  }

  /**
   * A walk of a neighbour's fill, which revealed cells outside S, extends to a
   * walk from (row, col) by one flood step in front.
   */
  lemma PathPrepend(mines: set<(int, int)>, E: set<(int, int)>, S: set<(int, int)>, R: set<(int, int)>,
                    row: int, col: int, tail: seq<(int, int)>)
    requires E <= S <= R && (row, col) in S && (row, col) !in E
    requires |tail| > 0 && FloodPath(mines, S, R, tail[0].0, tail[0].1, tail) && FloodStep(mines, (row, col), tail[0])
    ensures FloodPath(mines, E, R, row, col, [(row, col)] + tail)
  {
  }

  /** The fill from an unrevealed, unflagged, mine-free cell starts with that cell alone. */
  lemma StartFlood(mines: set<(int, int)>, F: set<(int, int)>, E: set<(int, int)>, row: int, col: int)
    requires (row, col) !in E && (row, col) !in mines && (row, col) !in F
    ensures Cascading(mines, F, E, E + {(row, col)}, row, col)
  {
    assert FloodPath(mines, E, E + {(row, col)}, row, col, [(row, col)]);
  }

  /**
   * C takes in every flood step out of it: each neighbour of a zero-count cell
   * of C that was neither revealed at the start (E) nor flagged (F) is in C.
   */
  ghost predicate ClosedUnderFlood(mines: set<(int, int)>, F: set<(int, int)>, E: set<(int, int)>, C: set<(int, int)>)
  {
    forall p, q :: p in C && FloodStep(mines, p, q) && q !in E && q !in F ==> q in C
  }

  /** A finished fill has revealed a set closed under flood steps. */
  lemma FloodIsClosed(mines: set<(int, int)>, F: set<(int, int)>, E: set<(int, int)>, R: set<(int, int)>,
                      row: int, col: int)
    requires Flooded(mines, F, E, R, row, col)
    ensures ClosedUnderFlood(mines, F, E, R - E)
  {
  }

  /**
   * A fill reveals no more than any set that contains the clicked cell and is
   * closed under flood steps; with FloodIsClosed, a finished fill reveals
   * exactly the least such set.
   */
  lemma FloodWithin(mines: set<(int, int)>, F: set<(int, int)>, E: set<(int, int)>, R: set<(int, int)>,
                    row: int, col: int, C: set<(int, int)>)
    requires Cascading(mines, F, E, R, row, col)
    requires (row, col) in C && ClosedUnderFlood(mines, F, E, C)
    ensures R - E <= C
  {
    forall p | p in R && p !in E
      ensures p in C
    {
      var path :| FloodPath(mines, E, R, row, col, path) && path[|path| - 1] == p;
      PathWithin(mines, F, E, R, row, col, C, path, |path| - 1);
    }
  }

  /** Every cell of a flood walk lies in a closed set that contains its start. */
  lemma {:induction false} PathWithin(mines: set<(int, int)>, F: set<(int, int)>, E: set<(int, int)>,
                                      R: set<(int, int)>, row: int, col: int, C: set<(int, int)>,
                                      path: seq<(int, int)>, i: nat)
    requires forall p :: p in R && p !in E ==> p !in F
    requires FloodPath(mines, E, R, row, col, path) && i < |path|
    requires (row, col) in C && ClosedUnderFlood(mines, F, E, C)
    ensures path[i] in C
  {
    if i > 0 {
      PathWithin(mines, F, E, R, row, col, C, path, i - 1);
      assert FloodStep(mines, path[i - 1], path[i]) by { var h := i - 1; assert path[h] == path[i - 1]; }
    }
  }

  /** A fill from a cell with a mine around it reveals that cell and nothing else. */
  lemma NumberedCellAlone(mines: set<(int, int)>, F: set<(int, int)>, E: set<(int, int)>, R: set<(int, int)>,
                          row: int, col: int)
    requires Cascading(mines, F, E, R, row, col) && AdjacentMines(mines, row, col) != 0
    ensures R - E <= {(row, col)}
  {
    FloodWithin(mines, F, E, R, row, col, {(row, col)});
  }

  class Game {
    /** The grid, indexed by row then column. */
    const board: array2<Cell>
    /** The mine layout the board was set up with. */
    const mines: set<(int, int)>
    /** Set when a mine is revealed; every later reveal and flag is then ignored. */
    var gameOver: bool

    ghost predicate Shaped()
      reads this
    {
      board.Length0 == Rows && board.Length1 == Cols
    }

    /** A cell of the board holds a mine exactly when the layout puts one there. */
    ghost predicate MinesMarked()
      reads this, board
    {
      && Shaped()
      && (forall r, c :: InBounds(r, c) ==> board[r, c].isMine == ((r, c) in mines))
    }

    /**
     * The invariant of a game in progress or over: the layout's mines are all on
     * the board and marked there, the counts are those of the
     * layout (zero on a mine), a revealed mine means the game is over and every
     * mine is then revealed, and a cell both revealed and flagged is a mine.
     */
    ghost predicate Valid()
      reads this, board
    {
      && MinesMarked()
      && (forall p :: p in mines ==> InBounds(p.0, p.1))
      && (forall r, c :: InBounds(r, c) ==>
            board[r, c].adjacentMines == if board[r, c].isMine then 0 else AdjacentMines(mines, r, c))
      && (forall r, c :: InBounds(r, c) && board[r, c].isRevealed && board[r, c].isMine ==> gameOver)
      && (forall r, c :: InBounds(r, c) && board[r, c].isRevealed && board[r, c].isFlagged ==> board[r, c].isMine)
      && (gameOver ==> forall r, c :: InBounds(r, c) && board[r, c].isMine ==> board[r, c].isRevealed)
    }

    /** The revealed positions. */
    ghost function Revealed(): (s: set<(int, int)>)
      reads this, board
      requires Shaped()
      ensures forall p :: p in s <==> InBounds(p.0, p.1) && board[p.0, p.1].isRevealed
    {
      set r, c | 0 <= r < Rows && 0 <= c < Cols && board[r, c].isRevealed :: (r, c)
    }

    /** The flagged positions. */
    ghost function Flagged(): (s: set<(int, int)>)
      reads this, board
      requires Shaped()
      ensures forall p :: p in s <==> InBounds(p.0, p.1) && board[p.0, p.1].isFlagged
    {
      set r, c | 0 <= r < Rows && 0 <= c < Cols && board[r, c].isFlagged :: (r, c)
    }

    /** The positions not yet revealed; every reveal that does anything shrinks this set. */
    ghost function Unrevealed(): set<(int, int)>
      reads this, board
      requires Shaped()
    {
      AllCells() - Revealed()
    }

    /**
     * Sets up a board with the given layout: the cells start unrevealed and
     * unflagged, and every cell without a mine gets the number of mines around it.
     */
    constructor (layout: set<(int, int)>)
      requires |layout| == MineCount
      requires forall p :: p in layout ==> InBounds(p.0, p.1)
      ensures Valid() && !gameOver && mines == layout && fresh(board)
      ensures forall r, c :: InBounds(r, c) ==> !board[r, c].isRevealed && !board[r, c].isFlagged
    {
      mines := layout;
      gameOver := false;
      board := new Cell[Rows, Cols]((r, c) => Cell((r as int, c as int) in layout, false, false, 0));
      new;
      for row := 0 to Rows
        invariant !gameOver && Shaped()
        invariant forall r, c :: InBounds(r, c) ==> board[r, c] == SetUpCell(mines, r, c, r < row)
      {
        for col := 0 to Cols
          invariant !gameOver && Shaped()
          invariant forall r, c :: InBounds(r, c) ==>
                      board[r, c] == SetUpCell(mines, r, c, r < row || (r == row && c < col))
        {
          assert MinesMarked();
          if !board[row, col].isMine {
            var count := CountAdjacent(row, col);
            board[row, col] := board[row, col].(adjacentMines := count);
          }
          assert board[row, col] == SetUpCell(mines, row, col, true);
        }
      }
    }

    /** Counts the mines in the 3x3 block around (row, col) by visiting the nine offsets. */
    method CountAdjacent(row: int, col: int) returns (count: nat)
      requires Shaped() && InBounds(row, col)
      requires forall r, c :: IsNeighbour(row, col, r, c) ==> board[r, c].isMine == ((r, c) in mines)
      ensures count == AdjacentMines(mines, row, col)
    {
      count := 0;
      for r := -1 to 2
        invariant count == MinesAmong(mines, row, col, (r + 1) * 3)
      {
        for c := -1 to 2
          invariant count == MinesAmong(mines, row, col, (r + 1) * 3 + (c + 1))
        {
          CountStep(mines, row, col, r, c);
          var hit := MineAt(row, col, r, c);
          if hit {
            count := count + 1;
          }
        }
      }
    }

    /** The test inside the adjacency loop: the cell at offset (dr, dc) is on the board and holds a mine. */
    method MineAt(row: int, col: int, dr: int, dc: int) returns (hit: bool)
      requires Shaped() && -1 <= dr <= 1 && -1 <= dc <= 1
      requires forall r, c :: IsNeighbour(row, col, r, c) ==> board[r, c].isMine == ((r, c) in mines)
      ensures hit <==> InBounds(row + dr, col + dc) && (row + dr, col + dc) in mines
    {
      var newRow, newCol := row + dr, col + dc;
      hit := false;
      if 0 <= newRow < Rows && 0 <= newCol < Cols {
        assert IsNeighbour(row, col, newRow, newCol);
        hit := board[newRow, newCol].isMine;
      }
    }

    /** The loop of a mine hit: every mine on the board is revealed and nothing else changes. */
    method RevealAllMines()
      requires Shaped()
      modifies board
      ensures forall r, c :: InBounds(r, c) ==>
                board[r, c] == old(board[r, c]).(isRevealed := old(board[r, c]).isRevealed || old(board[r, c]).isMine)
    {
      for r := 0 to Rows
        invariant forall i, j :: InBounds(i, j) ==>
                    board[i, j] == if i < r then old(board[i, j]).(isRevealed := old(board[i, j]).isRevealed || old(board[i, j]).isMine)
                                   else old(board[i, j])
      {
        for c := 0 to Cols
          invariant forall i, j :: InBounds(i, j) ==>
                      board[i, j] == if i < r || (i == r && j < c)
                                     then old(board[i, j]).(isRevealed := old(board[i, j]).isRevealed || old(board[i, j]).isMine)
                                     else old(board[i, j])
        {
          if board[r, c].isMine {
            board[r, c] := board[r, c].(isRevealed := true);
          }
        }
      }
    }

    /**
     * A click on (row, col). Nothing happens once the game is over or on a
     * revealed or flagged cell. Otherwise the cell is revealed; a mine ends the
     * game and reveals every mine; a cell with no adjacent mine reveals each
     * in-bounds neighbour in turn, recursively. Flags and the mine layout never
     * change, and no revealed cell is ever hidden again.
     */
    method RevealCell(row: int, col: int)
      requires Valid() && InBounds(row, col)
      modifies this, board
      decreases Unrevealed(), 0
      ensures Valid()
      ensures Flagged() == old(Flagged()) && old(Revealed()) <= Revealed()
      ensures old(gameOver || board[row, col].isRevealed || board[row, col].isFlagged) ==>
                && gameOver == old(gameOver) && Revealed() == old(Revealed())
                && forall r, c :: InBounds(r, c) ==> board[r, c] == old(board[r, c])
      ensures !old(gameOver || board[row, col].isRevealed || board[row, col].isFlagged) && (row, col) in mines ==>
                gameOver && Revealed() == old(Revealed()) + mines
      ensures !old(gameOver || board[row, col].isRevealed || board[row, col].isFlagged) && (row, col) !in mines ==>
                && !gameOver && (row, col) in Revealed()
                && Flooded(mines, Flagged(), old(Revealed()), Revealed(), row, col)
      ensures !old(gameOver || board[row, col].isRevealed || board[row, col].isFlagged) && (row, col) !in mines
              && AdjacentMines(mines, row, col) != 0 ==>
                Revealed() == old(Revealed()) + {(row, col)}
    {
      if gameOver || board[row, col].isRevealed || board[row, col].isFlagged {
        return;
      }
      ghost var entry := Revealed();
      Uncover(row, col);
      if board[row, col].isMine {
        return;
      }
      StartFlood(mines, Flagged(), entry, row, col);
      if board[row, col].adjacentMines == 0 {
        assert Unrevealed() < old(Unrevealed()) by {
          assert (row, col) in old(Unrevealed()) && (row, col) !in Unrevealed();
        }
        FloodNeighbours(row, col, entry);
      }
    }

    /**
     * Reveals the unrevealed, unflagged cell (row, col) during play; a mine
     * ends the game and reveals every mine.
     */
    method Uncover(row: int, col: int)
      requires Valid() && InBounds(row, col) && !gameOver
      requires !board[row, col].isRevealed && !board[row, col].isFlagged
      modifies this, board
      ensures Valid() && Flagged() == old(Flagged())
      ensures (row, col) in mines ==> gameOver && Revealed() == old(Revealed()) + mines
      ensures (row, col) !in mines ==> !gameOver && Revealed() == old(Revealed()) + {(row, col)}
    {
      ghost var entry := Revealed();
      ghost var flags := Flagged();
      board[row, col] := board[row, col].(isRevealed := true);
      assert Revealed() == entry + {(row, col)};
      assert Flagged() == flags;
      if board[row, col].isMine {
        gameOver := true;
        RevealAllMines();
        assert Revealed() == entry + mines;
        assert Flagged() == flags;
      }
    }

    /**
     * The flood-fill loop of a revealed cell (row, col) with no adjacent mine:
     * each in-bounds neighbour, in row-major order of the offsets, is revealed
     * in turn. On return the fill that began with the revealed set entry is
     * finished.
     */
    method FloodNeighbours(row: int, col: int, ghost entry: set<(int, int)>)
      requires Valid() && !gameOver && InBounds(row, col)
      requires (row, col) !in mines && AdjacentMines(mines, row, col) == 0
      requires entry <= Revealed() && (row, col) in Revealed() && (row, col) !in entry
      requires Cascading(mines, Flagged(), entry, Revealed(), row, col)
      modifies this, board
      decreases Unrevealed(), 3
      ensures Valid() && !gameOver && Flagged() == old(Flagged()) && old(Revealed()) <= Revealed()
      ensures Flooded(mines, Flagged(), entry, Revealed(), row, col)
    {
      var dr := -1;
      while dr <= 1
        invariant -1 <= dr <= 2
        invariant Valid() && !gameOver && Flagged() == old(Flagged())
        invariant old(Revealed()) <= Revealed() && Unrevealed() <= old(Unrevealed())
        invariant Cascading(mines, Flagged(), entry, Revealed(), row, col)
        invariant DoneIn(Revealed(), Flagged(), row, col, (dr + 1) * 3)
      {
        var dc := -1;
        while dc <= 1
          invariant -1 <= dc <= 2
          invariant Valid() && !gameOver && Flagged() == old(Flagged())
          invariant old(Revealed()) <= Revealed() && Unrevealed() <= old(Unrevealed())
          invariant Cascading(mines, Flagged(), entry, Revealed(), row, col)
          invariant DoneIn(Revealed(), Flagged(), row, col, (dr + 1) * 3 + (dc + 1))
        {
          VisitNeighbour(row, col, dr, dc, entry);
          dc := dc + 1;
        }
        dr := dr + 1;
      }
      DoneSettled(Revealed(), Flagged(), row, col);
    }

    /**
     * One pass of the flood-fill loop body: the neighbour at offset (dr, dc), if
     * on the board, is revealed; afterwards it is revealed or flagged and the
     * fill is still in order.
     */
    method VisitNeighbour(row: int, col: int, dr: int, dc: int, ghost entry: set<(int, int)>)
      requires Valid() && !gameOver && InBounds(row, col) && -1 <= dr <= 1 && -1 <= dc <= 1
      requires (row, col) !in mines && AdjacentMines(mines, row, col) == 0
      requires entry <= Revealed() && (row, col) in Revealed() && (row, col) !in entry
      requires Cascading(mines, Flagged(), entry, Revealed(), row, col)
      requires DoneIn(Revealed(), Flagged(), row, col, OffsetIndex(dr, dc))
      modifies this, board
      decreases Unrevealed(), 2
      ensures Valid() && !gameOver && Flagged() == old(Flagged())
      ensures old(Revealed()) <= Revealed() && Unrevealed() <= old(Unrevealed())
      ensures Cascading(mines, Flagged(), entry, Revealed(), row, col)
      ensures DoneIn(Revealed(), Flagged(), row, col, OffsetIndex(dr, dc) + 1)
    {
      ghost var before, flags, k := Revealed(), Flagged(), OffsetIndex(dr, dc);
      var newRow, newCol := row + dr, col + dc;
      if !(0 <= newRow < Rows && 0 <= newCol < Cols) {
        DoneStep(before, before, flags, row, col, k, dr, dc);
        return;
      }
      assert IsNeighbour(row, col, newRow, newCol);
      RevealNeighbour(row, col, newRow, newCol, entry);
      ghost var after := Revealed();
      assert before <= after && (newRow, newCol) in after + flags;
      DoneStep(before, after, flags, row, col, k, dr, dc);
    }

    /**
     * The reveal inside one pass of the flood-fill loop: afterwards the
     * neighbour (newRow, newCol) is revealed or flagged and the fill from
     * (row, col) is still in order.
     */
    method RevealNeighbour(row: int, col: int, newRow: int, newCol: int, ghost entry: set<(int, int)>)
      requires Valid() && !gameOver && InBounds(row, col) && InBounds(newRow, newCol)
      requires (row, col) !in mines && AdjacentMines(mines, row, col) == 0 && IsNeighbour(row, col, newRow, newCol)
      requires entry <= Revealed() && (row, col) in Revealed() && (row, col) !in entry
      requires Cascading(mines, Flagged(), entry, Revealed(), row, col)
      modifies this, board
      decreases Unrevealed(), 1
      ensures Valid() && !gameOver && Flagged() == old(Flagged())
      ensures old(Revealed()) <= Revealed() && Unrevealed() <= old(Unrevealed())
      ensures Cascading(mines, Flagged(), entry, Revealed(), row, col)
      ensures (newRow, newCol) in Revealed() || (newRow, newCol) in Flagged()
    {
      ghost var before := Revealed();
      AdjacentZeroIff(mines, row, col);
      assert (newRow, newCol) !in mines;
      RevealCell(newRow, newCol);
      CascadeStep(mines, Flagged(), entry, before, Revealed(), row, col, newRow, newCol);
    }

    /** A right click on (row, col): during play an unrevealed cell's flag flips; otherwise nothing happens. */
    method ToggleFlag(row: int, col: int)
      requires Valid() && InBounds(row, col)
      modifies board
      ensures Valid()
      ensures old(gameOver || board[row, col].isRevealed) ==>
                forall r, c :: InBounds(r, c) ==> board[r, c] == old(board[r, c])
      ensures !old(gameOver || board[row, col].isRevealed) ==>
                forall r, c :: InBounds(r, c) ==>
                  board[r, c] == if (r, c) == (row, col) then old(board[r, c]).(isFlagged := !old(board[r, c].isFlagged))
                                 else old(board[r, c])
    {
      if gameOver || board[row, col].isRevealed {
        return;
      }
      board[row, col] := board[row, col].(isFlagged := !board[row, col].isFlagged);
    }
  }
}
