/**
 The puzzle object: an n-by-n array of labels mutated in place and a tracked
 hole coordinate. Each method is proved against the value-level function of
 the same operation in PuzzleModel, and keeps the board invariant.
 */
module Puzzle {
  import opened PuzzleModel

  class SlidePuzzle {
    const gridSize: int
    const tileSize: int
    const tiles: array2<int>
    var emptyTile: Cell

    /** The board the object currently represents. */
    ghost function Model(): (b: Board)
      reads this, tiles
      requires tiles.Length0 == gridSize && tiles.Length1 == gridSize
    {
      Board(gridSize,
            seq(gridSize, (r: int) requires 0 <= r < gridSize reads tiles =>
              seq(gridSize, (c: int) requires 0 <= c < gridSize reads tiles => tiles[r, c])),
            emptyTile)
    }

    ghost predicate Valid()
      reads this, tiles
    {
      && gridSize > 1
      && tiles.Length0 == gridSize
      && tiles.Length1 == gridSize
      && tileSize == TileSize(gridSize)
      && Inv(Model())
    }

    /** Each cell of the model is the array element at the same coordinate. */
    lemma ModelAt(p: Cell)
      requires tiles.Length0 == gridSize && tiles.Length1 == gridSize && InBounds(p, gridSize)
      ensures Shape(Model().tiles, gridSize)
      ensures At(Model().tiles, p) == tiles[p.row, p.col]
    {
    }

    /**
     Builds the n-by-n grid with col + row*n at (row, col), sets the hole
     coordinate to (n-1, n-1), then makes the default number of random moves,
     one per index of `choices`.
     */
    constructor (n: int, choices: seq<nat>)
      requires n > 1 && |choices| == DefaultShuffleMoves
      ensures Valid() && fresh(tiles)
      ensures gridSize == n && tileSize == ScreenSize / n
      ensures Model() == Shuffled(Initial(n), choices)
    {
      gridSize := n;
      tileSize := ScreenSize / n;
      tiles := new int[n, n]((r, c) => c + r * n);
      emptyTile := Cell(n - 1, n - 1);
      new;
      InitialLayout(n);
      forall p | InBounds(p, n)
        ensures At(Model().tiles, p) == At(Initial(n).tiles, p)
      {
        ModelAt(p);
      }
      GridExt(Model().tiles, Initial(n).tiles, n);
      InitialInv(n);
      Shuffle(choices);
    }

    /** shuffle: one random move per index, in order. */
    method Shuffle(choices: seq<nat>)
      requires Valid()
      modifies this, tiles
      ensures Valid()
      ensures Model() == Shuffled(old(Model()), choices)
    {
      for k := 0 to |choices|
        invariant Valid()
        invariant Model() == Shuffled(old(Model()), choices[..k])
      {
        assert choices[..k + 1][..k] == choices[..k];
        PerformRandomMove(choices[k]);
      }
      assert choices[..|choices|] == choices;
    }

    /** perform_random_move: swap with the possible move that the index `choice` selects. */
    method PerformRandomMove(choice: nat)
      requires Valid()
      modifies this, tiles
      ensures Valid()
      ensures Model() == RandomMoved(old(Model()), choice)
    {
      var moves := PossibleMoves(emptyTile, gridSize);
      PossibleMovesCount(emptyTile, gridSize);
      SwapTiles(moves[choice % |moves|]);
    }

    /**
     swap_tiles: exchanges the labels at the hole coordinate and at `move`,
     then makes `move` the hole coordinate.
     */
    method SwapTiles(move: Cell)
      requires Valid() && InBounds(move, gridSize)
      modifies this, tiles
      ensures Valid()
      ensures Model() == Swapped(old(Model()), move)
    {
      ghost var before := Model();
      var e := emptyTile;
      tiles[e.row, e.col], tiles[move.row, move.col] := tiles[move.row, move.col], tiles[e.row, e.col];
      emptyTile := move;
      ghost var expected := Swapped(before, move);
      forall p | InBounds(p, gridSize)
        ensures At(Model().tiles, p) == At(expected.tiles, p)
      {
        ModelAt(p);
      }
      GridExt(Model().tiles, expected.tiles, gridSize);
      SwappedKeepsInv(before, move);
    }

    /** is_solved: every cell (i, j) holds i + j*n. */
    function IsSolved(): (solved: bool)
      reads this, tiles
      requires Valid()
      ensures solved <==> Solved(Model())
    {
      SolvedOnArray();
      forall i, j | 0 <= i < gridSize && 0 <= j < gridSize :: tiles[i, j] == i + j * gridSize
    }

    lemma SolvedOnArray()
      requires Valid()
      ensures Solved(Model()) <==>
        forall i, j | 0 <= i < gridSize && 0 <= j < gridSize :: tiles[i, j] == i + j * gridSize
    {
      if forall i, j | 0 <= i < gridSize && 0 <= j < gridSize :: tiles[i, j] == i + j * gridSize {
        forall p | InBounds(p, gridSize)
          ensures At(Model().tiles, p) == p.row + p.col * gridSize
        {
          ModelAt(p);
        }
      }
      if Solved(Model()) {
        forall i, j | 0 <= i < gridSize && 0 <= j < gridSize
          ensures tiles[i, j] == i + j * gridSize
        {
          ModelAt(Cell(i, j));
        }
      }
    }

    /**
     The arrow-key dispatch of the game loop: swap with the cell the key
     names when it lies inside the grid, otherwise do nothing.
     */
    method HandleKey(key: Key)
      requires Valid()
      modifies this, tiles
      ensures Valid()
      ensures Model() == KeyPressed(old(Model()), key)
    {
      match key
      case Up =>
        if emptyTile.row < gridSize - 1 {
          SwapTiles(Cell(emptyTile.row + 1, emptyTile.col));
        }
      case Down =>
        if emptyTile.row > 0 {
          SwapTiles(Cell(emptyTile.row - 1, emptyTile.col));
        }
      case Left =>
        if emptyTile.col < gridSize - 1 {
          SwapTiles(Cell(emptyTile.row, emptyTile.col + 1));
        }
      case Right =>
        if emptyTile.col > 0 {
          SwapTiles(Cell(emptyTile.row, emptyTile.col - 1));
        }
    }
  }
}
