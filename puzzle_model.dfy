/**
 The value-level model of the sliding-tile puzzle: coordinates, the board
 (grid of labels plus the tracked hole coordinate), the moves the program
 can make on it and the properties those moves keep.
 */
module PuzzleModel {

  /** A grid coordinate: `row` indexes the outer list of the grid, `col` the inner one. */
  datatype Cell = Cell(row: int, col: int)

  datatype Option<T> = None | Some(value: T)

  /** The four arrow keys the game loop reacts to. */
  datatype Key = Up | Down | Left | Right

  /** The side of the square window, in pixels. */
  const ScreenSize := 300

  /** The number of random moves made when a puzzle is built. */
  const DefaultShuffleMoves := 1000

  /** The pixel width of one tile for a grid of size n. */
  function TileSize(n: int): (w: int)
    requires n > 1
    ensures 0 <= w * n <= ScreenSize < (w + 1) * n
  {
    ScreenSize / n
  }

  // ---------------------------------------------------------------------------
  // Coordinates

  predicate InBounds(p: Cell, n: int)
  {
    0 <= p.row < n && 0 <= p.col < n
  }

  function Abs(x: int): nat
  {
    if x < 0 then -x else x
  }

  /** The number of single orthogonal steps between two cells. */
  function Manhattan(p: Cell, q: Cell): nat
  {
    Abs(p.row - q.row) + Abs(p.col - q.col)
  }

  predicate Adjacent(p: Cell, q: Cell)
  {
    Manhattan(p, q) == 1
  }

  /**
   The neighbours of the hole `e` that a move may swap with, in the order the
   program lists them: (row - 1), (row + 1), (col - 1), (col + 1).
   */
  function PossibleMoves(e: Cell, n: int): (moves: seq<Cell>)
    ensures |moves| <= 4
    ensures forall m :: m in moves ==> Adjacent(e, m)
    ensures InBounds(e, n) ==> forall m :: m in moves ==> InBounds(m, n)
  {
    (if e.row > 0 then [Cell(e.row - 1, e.col)] else [])
    + (if e.row < n - 1 then [Cell(e.row + 1, e.col)] else [])
    + (if e.col > 0 then [Cell(e.row, e.col - 1)] else [])
    + (if e.col < n - 1 then [Cell(e.row, e.col + 1)] else [])
  }

  /** A cell lying in two borders of the grid. */
  predicate IsCorner(e: Cell, n: int)
  {
    (e.row == 0 || e.row == n - 1) && (e.col == 0 || e.col == n - 1)
  }

  /** A cell lying in no border of the grid. */
  predicate IsInterior(e: Cell, n: int)
  {
    0 < e.row < n - 1 && 0 < e.col < n - 1
  }

  /** The moves from an in-bounds hole are exactly its in-bounds orthogonal neighbours. */
  lemma PossibleMovesExact(e: Cell, n: int)
    requires InBounds(e, n)
    ensures forall m :: m in PossibleMoves(e, n) <==> InBounds(m, n) && Adjacent(e, m)
  {
    forall m | InBounds(m, n) && Adjacent(e, m)
      ensures m in PossibleMoves(e, n)
    {
      if m.row == e.row - 1 {
        assert m == Cell(e.row - 1, e.col);
      } else if m.row == e.row + 1 {
        assert m == Cell(e.row + 1, e.col);
      } else if m.col == e.col - 1 {
        assert m == Cell(e.row, e.col - 1);
      } else {
        assert m == Cell(e.row, e.col + 1);
      }
    }
  }

  /** Two moves at a corner, three on an edge, four inside; never a repeated move. */
  lemma PossibleMovesCount(e: Cell, n: int)
    requires n >= 2 && InBounds(e, n)
    ensures 2 <= |PossibleMoves(e, n)|
    ensures |PossibleMoves(e, n)| == 2 <==> IsCorner(e, n)
    ensures |PossibleMoves(e, n)| == 4 <==> IsInterior(e, n)
    ensures |PossibleMoves(e, n)| == 3 <==> !IsCorner(e, n) && !IsInterior(e, n)
    ensures forall i, j :: 0 <= i < j < |PossibleMoves(e, n)| ==>
      PossibleMoves(e, n)[i] != PossibleMoves(e, n)[j]
  {
  }

  /** Inside the grid the moves come in the listing order: row - 1, row + 1, col - 1, col + 1. */
  lemma PossibleMovesOrder(e: Cell, n: int)
    requires IsInterior(e, n)
    ensures PossibleMoves(e, n) ==
      [Cell(e.row - 1, e.col), Cell(e.row + 1, e.col), Cell(e.row, e.col - 1), Cell(e.row, e.col + 1)]
  {
  }

  /**
   For a grid size n <= 1 the hole coordinate (n-1, n-1) that the constructor
   sets has no possible move, so the first random choice has nothing to pick.
   */
  lemma NoMovesBelowSizeTwo(n: int)
    requires n <= 1
    ensures PossibleMoves(Cell(n - 1, n - 1), n) == []
  {
  }

  // ---------------------------------------------------------------------------
  // Grids and boards

  /** An n-by-n list of lists. */
  predicate Shape(g: seq<seq<int>>, n: int)
  {
    |g| == n && forall r :: 0 <= r < n ==> |g[r]| == n
  }

  function At(g: seq<seq<int>>, p: Cell): int
    requires 0 <= p.row < |g| && 0 <= p.col < |g[p.row]|
  {
    g[p.row][p.col]
  }

  function Update(g: seq<seq<int>>, p: Cell, v: int): seq<seq<int>>
    requires 0 <= p.row < |g| && 0 <= p.col < |g[p.row]|
  {
    g[p.row := g[p.row][p.col := v]]
  }

  /**
   The grid holds every label of 0 .. n*n-1 exactly once: all n*n cells hold a
   label in that range and no two cells hold the same label.
   */
  ghost predicate IsPermutation(g: seq<seq<int>>, n: int)
  {
    && Shape(g, n)
    && (forall p :: InBounds(p, n) ==> 0 <= At(g, p) < n * n)
    && (forall p, q :: InBounds(p, n) && InBounds(q, n) && p != q ==> At(g, p) != At(g, q))
  }

  /** The puzzle's state: the grid size, the grid and the tracked hole coordinate. */
  datatype Board = Board(size: int, tiles: seq<seq<int>>, empty: Cell)

  predicate WellFormed(b: Board)
  {
    b.size > 1 && Shape(b.tiles, b.size) && InBounds(b.empty, b.size)
  }

  /**
   What every reachable board satisfies: the grid is a permutation and the
   cell at the hole coordinate holds the largest label, n*n-1 (not 0).
   */
  ghost predicate Inv(b: Board)
  {
    WellFormed(b) && IsPermutation(b.tiles, b.size) && At(b.tiles, b.empty) == b.size * b.size - 1
  }

  /** Two grids of the same shape that agree on every cell are equal. */
  lemma GridExt(g1: seq<seq<int>>, g2: seq<seq<int>>, n: int)
    requires Shape(g1, n) && Shape(g2, n)
    requires forall p :: InBounds(p, n) ==> At(g1, p) == At(g2, p)
    ensures g1 == g2
  {
    forall r | 0 <= r < n
      ensures g1[r] == g2[r]
    {
      forall c | 0 <= c < n
        ensures g1[r][c] == g2[r][c]
      {
        assert At(g1, Cell(r, c)) == At(g2, Cell(r, c));
      }
    }
  }

  // ---------------------------------------------------------------------------
  // Construction

  /**
   The board as the constructor builds it before shuffling: cell (row, col)
   holds col + row*n, and the hole coordinate is (n-1, n-1).
   */
  function Initial(n: int): (b: Board)
    requires n > 1
  {
    Board(n, seq(n, r => seq(n, c => c + r * n)), Cell(n - 1, n - 1))
  }

  lemma MulMono(a: int, b: int, n: int)
    requires a <= b && n >= 0
    ensures a * n <= b * n
  {
    assert b * n - a * n == (b - a) * n;
  }

  /** Distinct cells of an n-by-n grid have distinct row-major labels col + row*n in 0 .. n*n-1. */
  lemma RowMajorLabel(p: Cell, q: Cell, n: int)
    requires InBounds(p, n) && InBounds(q, n)
    ensures 0 <= p.col + p.row * n < n * n
    ensures p != q ==> p.col + p.row * n != q.col + q.row * n
  {
    RowMajorBelow(p, n);
    if p.row < q.row {
      RowMajorOrdered(p, q, n);
    } else if q.row < p.row {
      RowMajorOrdered(q, p, n);
    }
  }

  lemma RowMajorBelow(p: Cell, n: int)
    requires InBounds(p, n)
    ensures 0 <= p.col + p.row * n < n * n
  {
    MulMono(0, p.row, n);
    MulMono(p.row, n - 1, n);
    assert (n - 1) * n == n * n - n;
  }

  lemma RowMajorOrdered(p: Cell, q: Cell, n: int)
    requires InBounds(p, n) && InBounds(q, n) && p.row < q.row
    ensures p.col + p.row * n < q.col + q.row * n
  {
    MulMono(p.row + 1, q.row, n);
    assert (p.row + 1) * n == p.row * n + n;
  }

  /**
   The constructed board: cell (row, col) holds col + row*n, label 0 sits at
   (0, 0), and the hole coordinate (n-1, n-1) holds n*n-1, not 0.
   */
  lemma InitialLayout(n: int)
    requires n > 1
    ensures WellFormed(Initial(n))
    ensures forall p :: InBounds(p, n) ==> At(Initial(n).tiles, p) == p.col + p.row * n
    ensures Initial(n).empty == Cell(n - 1, n - 1)
    ensures At(Initial(n).tiles, Cell(0, 0)) == 0
    ensures At(Initial(n).tiles, Initial(n).empty) == n * n - 1 != 0
  {
    assert At(Initial(n).tiles, Cell(n - 1, n - 1)) == (n - 1) + (n - 1) * n;
  }

  /** The constructed board satisfies the board invariant. */
  lemma InitialInv(n: int)
    requires n > 1
    ensures Inv(Initial(n))
  {
    var b := Initial(n);
    InitialLayout(n);
    forall p | InBounds(p, n)
      ensures 0 <= At(b.tiles, p) < n * n
    {
      RowMajorLabel(p, p, n);
    }
    forall p, q | InBounds(p, n) && InBounds(q, n) && p != q
      ensures At(b.tiles, p) != At(b.tiles, q)
    {
      RowMajorLabel(p, q, n);
    }
  }

  // ---------------------------------------------------------------------------
  // Swapping

  /**
   swap_tiles: the labels at the hole coordinate and at `m` are exchanged and
   `m` becomes the hole coordinate. The label the hole held travels to `m`;
   no other cell changes.
   */
  function Swapped(b: Board, m: Cell): (r: Board)
    requires WellFormed(b) && InBounds(m, b.size)
    ensures WellFormed(r) && r.size == b.size && r.empty == m
    ensures At(r.tiles, m) == At(b.tiles, b.empty)
    ensures m != b.empty ==> At(r.tiles, b.empty) == At(b.tiles, m)
    ensures forall p :: InBounds(p, b.size) && p != m && p != b.empty ==> At(r.tiles, p) == At(b.tiles, p)
  {
    var e := b.empty;
    Board(b.size, Update(Update(b.tiles, e, At(b.tiles, m)), m, At(b.tiles, e)), m)
  }

  /** The image of cell p under the exchange of cells e and m. */
  function Exchange(p: Cell, e: Cell, m: Cell): Cell
  {
    if p == m then e else if p == e then m else p
  }

  lemma SwappedAt(b: Board, m: Cell, p: Cell)
    requires WellFormed(b) && InBounds(m, b.size) && InBounds(p, b.size)
    ensures InBounds(Exchange(p, b.empty, m), b.size)
    ensures At(Swapped(b, m).tiles, p) == At(b.tiles, Exchange(p, b.empty, m))
  {
  }

  /** A swap keeps the grid a permutation of 0 .. n*n-1. */
  lemma SwappedKeepsPermutation(b: Board, m: Cell)
    requires WellFormed(b) && InBounds(m, b.size) && IsPermutation(b.tiles, b.size)
    ensures IsPermutation(Swapped(b, m).tiles, b.size)
  {
    var r := Swapped(b, m);
    var n := b.size;
    forall p | InBounds(p, n)
      ensures 0 <= At(r.tiles, p) < n * n
    {
      SwappedAt(b, m, p);
    }
    forall p, q | InBounds(p, n) && InBounds(q, n) && p != q
      ensures At(r.tiles, p) != At(r.tiles, q)
    {
      SwappedAt(b, m, p);
      SwappedAt(b, m, q);
    }
  }

  /** A swap with an in-bounds cell keeps the board invariant: the hole still holds n*n-1. */
  lemma SwappedKeepsInv(b: Board, m: Cell)
    requires Inv(b) && InBounds(m, b.size)
    ensures Inv(Swapped(b, m))
  {
    SwappedKeepsPermutation(b, m);
  }

  /** Swapping back with the old hole coordinate restores the grid and the hole. */
  lemma SwapSelfInverse(b: Board, m: Cell)
    requires WellFormed(b) && InBounds(m, b.size)
    ensures Swapped(Swapped(b, m), b.empty) == b
  {
    var r1 := Swapped(b, m);
    var r2 := Swapped(r1, b.empty);
    forall p | InBounds(p, b.size)
      ensures At(r2.tiles, p) == At(b.tiles, p)
    {
      SwappedAt(b, m, p);
      SwappedAt(r1, b.empty, p);
      SwappedAt(b, m, Exchange(p, m, b.empty));
    }
    GridExt(r2.tiles, b.tiles, b.size);
  }

  // ---------------------------------------------------------------------------
  // Random moves and shuffling

  /** The move the random index `i` selects among the possible moves. */
  function ChosenMove(b: Board, i: nat): (m: Cell)
    requires WellFormed(b)
    ensures m in PossibleMoves(b.empty, b.size)
  {
    PossibleMovesCount(b.empty, b.size);
    var moves := PossibleMoves(b.empty, b.size);
    moves[i % |moves|]
  }

  /** Every possible move is selected by some index. */
  lemma ChoiceCoversMoves(b: Board)
    requires WellFormed(b)
    ensures forall m :: m in PossibleMoves(b.empty, b.size) ==> exists i: nat :: ChosenMove(b, i) == m
  {
    var moves := PossibleMoves(b.empty, b.size);
    forall m | m in moves
      ensures exists i: nat :: ChosenMove(b, i) == m
    {
      var k :| 0 <= k < |moves| && moves[k] == m;
      assert k % |moves| == k;
      assert ChosenMove(b, k) == moves[k];
    }
  }

  /** perform_random_move: swap with the move the index selects. */
  function RandomMoved(b: Board, i: nat): (r: Board)
    requires WellFormed(b)
  {
    Swapped(b, ChosenMove(b, i))
  }

  /** shuffle: one random move per index, first index first. */
  function Shuffled(b: Board, choices: seq<nat>): (r: Board)
    requires WellFormed(b)
    ensures WellFormed(r) && r.size == b.size
    decreases |choices|
  {
    if choices == [] then b
    else RandomMoved(Shuffled(b, choices[..|choices| - 1]), choices[|choices| - 1])
  }

  /** Shuffling keeps the board invariant: a permutation, the hole in bounds and holding n*n-1. */
  lemma {:induction false} ShuffledKeepsInv(b: Board, choices: seq<nat>)
    requires Inv(b)
    ensures Inv(Shuffled(b, choices))
    decreases |choices|
  {
    if choices != [] {
      var prefix := choices[..|choices| - 1];
      ShuffledKeepsInv(b, prefix);
      SwappedKeepsInv(Shuffled(b, prefix), ChosenMove(Shuffled(b, prefix), choices[|choices| - 1]));
    }
  }

  /**
   A constructed and shuffled board keeps the invariant, so its hole
   coordinate holds n*n-1, never label 0.
   */
  lemma ConstructedHoleHoldsLast(n: int, choices: seq<nat>)
    requires n > 1
    ensures Inv(Shuffled(Initial(n), choices))
    ensures At(Shuffled(Initial(n), choices).tiles, Shuffled(Initial(n), choices).empty) == n * n - 1 != 0
  {
    InitialInv(n);
    ShuffledKeepsInv(Initial(n), choices);
    MulMono(2, n, n);
  }

  lemma AdjacentStep(a: Cell, h: Cell, c: Cell)
    requires Adjacent(h, c)
    ensures Manhattan(a, c) == Manhattan(a, h) + 1 || Manhattan(a, c) + 1 == Manhattan(a, h)
  {
  }

  lemma ParityStep(k: nat, d0: nat, d1: nat)
    requires d0 <= k && d0 % 2 == k % 2
    requires d1 == d0 + 1 || d1 + 1 == d0
    ensures d1 <= k + 1 && d1 % 2 == (k + 1) % 2
  {
  }

  /**
   Each shuffle step moves the hole by one orthogonal step, so after k steps
   the hole is at most k steps from where it started, at a distance of the
   same parity as k.
   */
  lemma {:induction false} ShuffledHoleWalk(b: Board, choices: seq<nat>)
    requires WellFormed(b)
    ensures Manhattan(b.empty, Shuffled(b, choices).empty) <= |choices|
    ensures Manhattan(b.empty, Shuffled(b, choices).empty) % 2 == |choices| % 2
    decreases |choices|
  {
    if choices != [] {
      var prefix := choices[..|choices| - 1];
      var before := Shuffled(b, prefix);
      var after := Shuffled(b, choices);
      assert after == Swapped(before, ChosenMove(before, choices[|choices| - 1]));
      ShuffledHoleWalk(b, prefix);
      AdjacentStep(b.empty, before.empty, after.empty);
      ParityStep(|prefix|, Manhattan(b.empty, before.empty), Manhattan(b.empty, after.empty));
    }
  }

  // ---------------------------------------------------------------------------
  // The solved check

  /** is_solved: cell (i, j) holds i + j*n, with i the row and j the column. */
  ghost predicate Solved(b: Board)
    requires Shape(b.tiles, b.size)
  {
    forall p :: InBounds(p, b.size) ==> At(b.tiles, p) == p.row + p.col * b.size
  }

  /** The solved check accepts exactly the transpose of the constructed layout. */
  lemma SolvedIsTransposeOfInitial(b: Board)
    requires WellFormed(b)
    ensures Solved(b) <==>
      forall p :: InBounds(p, b.size) ==> At(b.tiles, p) == At(Initial(b.size).tiles, Cell(p.col, p.row))
  {
    InitialLayout(b.size);
  }

  /** The constructed layout is not solved: cell (0, 1) holds 1, the check wants n. */
  lemma InitialNotSolved(n: int)
    requires n > 1
    ensures !Solved(Initial(n))
  {
    assert At(Initial(n).tiles, Cell(0, 1)) == 1;
  }

  /** From a solved grid, exchanging any two distinct cells gives an unsolved grid. */
  lemma TranspositionUnsolves(b: Board, m: Cell)
    requires WellFormed(b) && InBounds(m, b.size) && m != b.empty && Solved(b)
    ensures !Solved(Swapped(b, m))
  {
    var n := b.size;
    var e := b.empty;
    RowMajorLabel(Cell(m.col, m.row), Cell(e.col, e.row), n);
    assert At(Swapped(b, m).tiles, m) == e.row + e.col * n;
  }

  // ---------------------------------------------------------------------------
  // Arrow keys

  /**
   The cell the hole swaps with for an arrow key, when it is inside the grid:
   UP takes the cell below (row + 1), DOWN the cell above (row - 1), LEFT the
   cell to the right (col + 1), RIGHT the cell to the left (col - 1).
   */
  function KeyTarget(b: Board, k: Key): Option<Cell>
  {
    var e := b.empty;
    match k
    case Up => if e.row < b.size - 1 then Some(Cell(e.row + 1, e.col)) else None
    case Down => if e.row > 0 then Some(Cell(e.row - 1, e.col)) else None
    case Left => if e.col < b.size - 1 then Some(Cell(e.row, e.col + 1)) else None
    case Right => if e.col > 0 then Some(Cell(e.row, e.col - 1)) else None
  }

  /** The board after an arrow key: swapped with the target, or unchanged when there is none. */
  function KeyPressed(b: Board, k: Key): Board
    requires WellFormed(b)
  {
    match KeyTarget(b, k)
    case None => b
    case Some(m) => (PossibleMovesExact(b.empty, b.size); Swapped(b, m))
  }

  function Opposite(k: Key): Key
  {
    match k
    case Up => Down
    case Down => Up
    case Left => Right
    case Right => Left
  }

  /**
   A key acts only on a legal move: its target, when there is one, is among
   the possible moves; otherwise the board is unchanged.
   */
  lemma KeyTargetIsPossibleMove(b: Board, k: Key)
    requires WellFormed(b)
    ensures KeyTarget(b, k).Some? ==> KeyTarget(b, k).value in PossibleMoves(b.empty, b.size)
    ensures KeyTarget(b, k).None? ==> KeyPressed(b, k) == b
    ensures KeyTarget(b, k).Some? ==> KeyPressed(b, k).empty == KeyTarget(b, k).value != b.empty
  {
    PossibleMovesExact(b.empty, b.size);
  }

  /** Every possible move is the target of some arrow key. */
  lemma KeysCoverPossibleMoves(b: Board)
    requires WellFormed(b)
    ensures forall m :: m in PossibleMoves(b.empty, b.size) ==> exists k :: KeyTarget(b, k) == Some(m)
  {
    var e := b.empty;
    forall m | m in PossibleMoves(e, b.size)
      ensures exists k :: KeyTarget(b, k) == Some(m)
    {
      if m == Cell(e.row + 1, e.col) {
        assert KeyTarget(b, Up) == Some(m);
      } else if m == Cell(e.row - 1, e.col) {
        assert KeyTarget(b, Down) == Some(m);
      } else if m == Cell(e.row, e.col + 1) {
        assert KeyTarget(b, Left) == Some(m);
      } else {
        assert KeyTarget(b, Right) == Some(m);
      }
    }
  }

  /** A key that moved the hole is undone by the opposite key. */
  lemma KeyUndo(b: Board, k: Key)
    requires WellFormed(b) && KeyTarget(b, k).Some?
    ensures KeyPressed(KeyPressed(b, k), Opposite(k)) == b
  {
    var m := KeyTarget(b, k).value;
    assert KeyTarget(Swapped(b, m), Opposite(k)) == Some(b.empty);
    SwapSelfInverse(b, m);
  }

  /** A key keeps the board invariant. */
  lemma KeyPressedKeepsInv(b: Board, k: Key)
    requires Inv(b)
    ensures Inv(KeyPressed(b, k))
  {
    if KeyTarget(b, k).Some? {
      PossibleMovesExact(b.empty, b.size);
      SwappedKeepsInv(b, KeyTarget(b, k).value);
    }
  }
}
