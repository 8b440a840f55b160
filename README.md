# Sliding-tile puzzle model

This project models the `SlidePuzzle` class of the slide-puzzle game (`puzzle.py`) and its arrow-key rule. The state is an N×N grid of integer labels, a tracked hole coordinate and the grid size, with a tile size of `300 // N`. The operations are construction, `get_possible_moves`, `swap_tiles`, `perform_random_move`, `shuffle`, `is_solved` and the arrow-key dispatch of `main`.

There are two modules:

- `PuzzleModel` (`puzzle_model.dfy`) is the value-level model. It defines a `Board` (size, grid as a list of lists, hole coordinate) and the pure operations on it: `PossibleMoves`, `Swapped`, `ChosenMove`, `RandomMoved`, `Shuffled`, `Solved`, `KeyTarget` and `KeyPressed`. The lemmas about them are in the same module. The board invariant `Inv` says that the grid holds each label of 0 .. N²−1 exactly once and that the cell at the hole coordinate holds N²−1.
- `Puzzle` (`slide_puzzle.dfy`) holds the class `SlidePuzzle`. Its grid is an `array2<int>` that is mutated in place, and its hole coordinate is a field. `Model()` reads the object as a `Board`, and `Valid()` is `Inv` of that board. Every state-changing method keeps `Valid()`. Each method's `ensures` equates the new board with the pure function of the old board, so the lemmas of `PuzzleModel` carry over to the object.

Randomness: `random.choice` becomes a caller-supplied index. Index `i` selects `moves[i % |moves|]` from the possible moves at that moment, so every index is usable and every move can be selected (`ChoiceCoversMoves`). `shuffle(k)` takes a sequence of k indices. The constructor takes exactly 1000 indices, the default of `shuffle`.

The program's behaviour is modelled as written, including two quirks:

- The constructor puts label 0 at (0, 0) but sets the hole coordinate to (N−1, N−1). The swap moves whatever sits at the hole coordinate, so the label that travels with the hole is N²−1, never 0. This is part of `Inv`; see `InitialLayout` and `ConstructedHoleHoldsLast`.
- `is_solved` checks `tiles[i][j] == i + j*N`. That is the transpose of the layout built by the constructor, so a freshly built grid with N ≥ 2 is not solved. See `SolvedIsTransposeOfInitial` and `InitialNotSolved`.

`swap_tiles` accepts any cell, so `SwapTiles` requires only an in-bounds target; `ChosenMove` and `KeyTargetIsPossibleMove` show that both callers pass a possible move.

"Permutation of 0 .. N²−1" is stated as two facts: every one of the N² cells holds a label in that range, and no two cells hold the same label. Over N² cells this is the same thing as a permutation.

## Model

| member | source | states |
|---|---|---|
| PuzzleModel.TileSize | puzzle.py:13 | the tile size w is the floor of 300 / N: w·N ≤ 300 < (w+1)·N |
| PuzzleModel.PossibleMoves | puzzle.py:27-40 | at most four moves, each one step from the hole; when the hole is in bounds, every move is in bounds |
| PuzzleModel.PossibleMovesExact | puzzle.py:27-40 | for an in-bounds hole, a cell is a possible move iff it is in bounds and at Manhattan distance 1 from the hole |
| PuzzleModel.PossibleMovesCount | puzzle.py:27-40 | for N ≥ 2: 2 moves iff the hole is at a corner, 4 iff it is interior, 3 iff it is on an edge; no move is listed twice |
| PuzzleModel.PossibleMovesOrder | puzzle.py:31-38 | for an interior hole the list is exactly (row−1, col), (row+1, col), (row, col−1), (row, col+1), in that order |
| PuzzleModel.NoMovesBelowSizeTwo | puzzle.py:27-40 | for N ≤ 1 the hole coordinate (N−1, N−1) has no possible move, so `random.choice` would have an empty list |
| PuzzleModel.Initial | puzzle.py:14-15 | the board the constructor builds before shuffling; it has no `ensures` of its own: `InitialLayout`, `InitialInv` and `InitialNotSolved` state its properties |
| PuzzleModel.InitialLayout | puzzle.py:11-15 | the built grid holds col + row·N at (row, col); the hole coordinate is (N−1, N−1) and holds N²−1, not 0; label 0 is at (0, 0) |
| PuzzleModel.InitialInv | puzzle.py:14-15 | the built grid is a permutation of 0 .. N²−1 and the hole coordinate holds N²−1 |
| PuzzleModel.Swapped | puzzle.py:42-48 | after a swap with m, the hole coordinate is m, m holds the old hole's label, the old hole holds m's old label, and every other cell is unchanged |
| PuzzleModel.SwappedKeepsPermutation | puzzle.py:42-48 | a swap keeps the grid a permutation of 0 .. N²−1 |
| PuzzleModel.SwappedKeepsInv | puzzle.py:42-48 | a swap with an in-bounds cell keeps the invariant, so the hole still holds N²−1 |
| PuzzleModel.SwapSelfInverse | puzzle.py:42-48 | swapping with m and then with the old hole coordinate restores the grid and the hole coordinate |
| PuzzleModel.ChosenMove | puzzle.py:22-25 | the cell selected by a random index is one of the possible moves |
| PuzzleModel.ChoiceCoversMoves | puzzle.py:24 | every possible move is selected by some index |
| PuzzleModel.RandomMoved | puzzle.py:22-25 | one random move: the swap with the possible move the index selects; it has no `ensures` of its own: `ChosenMove`, `ChoiceCoversMoves` and `SwappedKeepsInv` state its properties |
| PuzzleModel.Shuffled | puzzle.py:18-20 | shuffling a well-formed board keeps it well formed and keeps its size |
| PuzzleModel.ShuffledKeepsInv | puzzle.py:18-25 | after any number of random moves the grid is still a permutation, the hole is in bounds and holds N²−1 |
| PuzzleModel.ShuffledHoleWalk | puzzle.py:18-25 | after k random moves the hole is at most k steps from its start, at a distance with the same parity as k |
| PuzzleModel.ConstructedHoleHoldsLast | puzzle.py:11-16 | the constructed and shuffled board keeps the invariant, and its hole coordinate holds N²−1, which is not 0 |
| PuzzleModel.Solved | puzzle.py:50-51 | the solved check on a board; it has no `ensures` of its own: `SolvedIsTransposeOfInitial`, `InitialNotSolved` and `TranspositionUnsolves` state its properties |
| PuzzleModel.SolvedIsTransposeOfInitial | puzzle.py:50-51 | a grid is solved iff it is the transpose of the layout the constructor builds |
| PuzzleModel.InitialNotSolved | puzzle.py:50-51 | for N ≥ 2, the layout built at line 14 is not solved: cell (0, 1) holds 1 where the check wants N |
| PuzzleModel.TranspositionUnsolves | puzzle.py:50-51 | from a solved grid, a swap of two distinct cells gives an unsolved grid |
| PuzzleModel.KeyTarget | puzzle.py:153-165 | the cell an arrow key swaps with, when it is inside the grid; it has no `ensures` of its own: `KeyTargetIsPossibleMove` and `KeysCoverPossibleMoves` state its properties |
| PuzzleModel.KeyPressed | puzzle.py:153-165 | the board after an arrow key; it has no `ensures` of its own: `KeyTargetIsPossibleMove`, `KeyUndo` and `KeyPressedKeepsInv` state its properties |
| PuzzleModel.KeyTargetIsPossibleMove | puzzle.py:153-165 | an arrow key's target, when there is one, is a possible move and becomes the hole; when there is none, the board is unchanged |
| PuzzleModel.KeysCoverPossibleMoves | puzzle.py:153-165 | every possible move is the target of some arrow key |
| PuzzleModel.KeyUndo | puzzle.py:153-165 | a key that moved the hole is undone by the opposite key |
| PuzzleModel.KeyPressedKeepsInv | puzzle.py:153-165 | an arrow key keeps the invariant |
| Puzzle.SlidePuzzle.constructor | puzzle.py:11-16 | the object is valid, its size is N, its tile size is 300 / N, and its board is the built layout after 1000 random moves |
| Puzzle.SlidePuzzle.Shuffle | puzzle.py:18-20 | the new board is the old board after one random move per index, in order; the invariant is kept |
| Puzzle.SlidePuzzle.PerformRandomMove | puzzle.py:22-25 | the new board is the old board swapped with the possible move the index selects; the invariant is kept |
| Puzzle.SlidePuzzle.SwapTiles | puzzle.py:42-48 | the array and the hole coordinate become the swapped board; the invariant is kept |
| Puzzle.SlidePuzzle.IsSolved | puzzle.py:50-51 | the check over the array is true iff the board is solved |
| Puzzle.SlidePuzzle.HandleKey | puzzle.py:153-165 | UP swaps with (r+1, c) only when r < N−1, DOWN with (r−1, c) only when r > 0, LEFT with (r, c+1) only when c < N−1, RIGHT with (r, c−1) only when c > 0; otherwise nothing changes; the invariant is kept |

## Left out

- `SlidePuzzle.draw` (puzzle.py:53-71) is left out. It only renders rectangles and text through the graphics library.
- `get_grid_size_input` (puzzle.py:73-120) is left out. It is a text-box event loop that `main` never calls.
- The size prompt (puzzle.py:128-144) is left out. It usually ends with N > 1, but a RETURN key event in the window ends it whatever was typed next. `SlidePuzzle(N)` raises for every N ≤ 1: `300 // 0` for N = 0, and otherwise `random.choice([])`, because the hole (N−1, N−1) has no possible move (`NoMovesBelowSizeTwo`). A non-integer entry after such a RETURN leaves `grid_size` unbound. The constructor's `requires n > 1` leaves these crashes out.
- The random number generator is left out. Each random choice is an index passed in by the caller.
- The rest of the game loop is left out: quit handling, the per-frame event polling, screen clearing, the congratulations text, the frame flip and the 30 frames/second cap. It is library plumbing and timing. Each key event is one `HandleKey` call.
- Puzzle.SlidePuzzle.SwapTiles requires the target to be inside the grid. Python would accept a negative index, wrapping it to the other end of the list, and raise an error for an index past the end. Neither can happen, because every caller passes an in-bounds cell.
- `get_possible_moves` is a method of the class in the source. Here it is the function `PossibleMoves` of the hole coordinate and the grid size, which are the only fields it reads.
