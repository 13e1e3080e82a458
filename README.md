# Unbeatable tic-tac-toe engine, modelled in Dafny

This project models the game engine of an Android tic-tac-toe app: the
`TicTacToe` class. It keeps a nine-cell board, numbered 0..8 row by row, where
the Human plays "X" and the Computer plays "O". It finds the Computer's
move with an exhaustive, depth-weighted minimax search.

The model has three modules:

- `Board` (Board.dfy) holds the pure part of the engine as functions over
  board values (`seq<Cell>` of length nine). It has the three-valued cell,
  the row, column and diagonal checks and the depth-weighted score
  (`getScore`). It also has the winner classification (`getWinner`) and the
  ascending list of empty cells (`getEmptySpaces`). Lemmas show that the
  list is sorted, complete and of the right length. Another lemma shows that
  the three line checks cover exactly the eight winning lines.
- `Search` (Search.dfy) is the reference meaning of `miniMax` as pure
  recursive functions. `Value` is the score of a position. `ChildScores`
  gives the children's scores in the order they are explored.
  `FirstMaxIndex` and `FirstMinIndex` give the index the strict scans keep.
  `ChosenMove` is the cell the Computer records. Lemmas prove the
  properties of the search:
  - the Computer's value is the maximum child score and the Human's the
    minimum;
  - ties go to the lowest empty cell;
  - scores stay in [-10, 10];
  - the chosen cell is empty and has the largest child score.
- `Game` (Game.dfy) is the engine object as a class over `array<Cell>`. It
  has the `gameBoard` and `computerMove` fields and the imperative
  operations, each proved against the functions above:
  - the constructor and `ClearBoard`, which fill the board with a loop;
  - `MakeMove`, `CopyBoard` and `GetEmptySpaces`;
  - the recursive `MiniMax`, which explores fresh copies of the board and
    writes `computerMove`;
  - `GetComputerMove`.

  The search's loop over the empty cells is split into `ExploreMoves` (the
  loop) and `ExploreMove` (one pass: copy, mark, recurse). Its two scans
  are `IndexOfMax` and `IndexOfMin`. Each starts from Java's
  `Integer.MIN_VALUE` or `Integer.MAX_VALUE` sentinel and replaces the
  candidate only on a strictly better score.

The random opening move (`new Random().nextInt(9)`) is a parameter
`opening` of `GetComputerMove` with `0 <= opening < 9`.

The search records its move in a field as a side effect. The model keeps
that field. `MiniMax` states that a node where the Computer moves writes its
own choice after every write made by its sub-searches, so after the root
call the field holds the root's choice. On a board that is already won or
full, `miniMax` returns before writing. The model states this too:
`GetComputerMove` then returns the previous value of the field. The user
interface only asks for a move while `getWinner` reports no result
(MainActivity.java:194-196), or right after a new game starts on the cleared
board (MainActivity.java:254), which takes the opening path. For that case the returned cell is proved to
be empty. This describes the code as written.

## Model

| member | source | states |
|---|---|---|
| `Board.Opponent` | app/src/main/java/sb/nicholascook/testproject/TicTacToe.java:109 | the opponent of a player is the other player |
| `Board.EmptyBoard` | app/src/main/java/sb/nicholascook/testproject/TicTacToe.java:42-46 | the cleared board has every one of the nine cells empty |
| `Board.IsHorizontalWin` | app/src/main/java/sb/nicholascook/testproject/TicTacToe.java:212-219 | some row (cells 0-1-2, 3-4-5 or 6-7-8) holds only the player's mark; characterised by `Board.HasWonIffOwnsLine` |
| `Board.IsVerticalWin` | app/src/main/java/sb/nicholascook/testproject/TicTacToe.java:228-235 | some column (cells 0-3-6, 1-4-7 or 2-5-8) holds only the player's mark; characterised by `Board.HasWonIffOwnsLine` |
| `Board.IsDiagonalWin` | app/src/main/java/sb/nicholascook/testproject/TicTacToe.java:244-250 | diagonal 0-4-8 or 2-4-6 holds only the player's mark; characterised by `Board.HasWonIffOwnsLine` |
| `Board.HasWon` | app/src/main/java/sb/nicholascook/testproject/TicTacToe.java:164 | the disjunction of the three line checks that getScore and getWinner test for each player; equivalent to owning a line (`Board.HasWonIffOwnsLine`) |
| `Board.HasWonIffOwnsLine` | app/src/main/java/sb/nicholascook/testproject/TicTacToe.java:212-250 | the horizontal, vertical and diagonal checks together hold exactly when the player owns one of the eight lines of the reference table (3 rows, 3 columns, 2 diagonals) |
| `Board.EmptySpacesIn` | app/src/main/java/sb/nicholascook/testproject/TicTacToe.java:195-203 | the list of empty indices for any prefix of the board, built cell by cell as the loop does; its properties are `Board.EmptySpacesInSorted` and `Board.EmptySpacesInComplete` |
| `Board.EmptySpaces` | app/src/main/java/sb/nicholascook/testproject/TicTacToe.java:195-203 | the empty-space list has at most nine entries, each an index in [0,9) of a cell that is empty |
| `Board.EmptySpacesInSorted` | app/src/main/java/sb/nicholascook/testproject/TicTacToe.java:195-203 | for any prefix of the board, the list holds only empty cells, is strictly ascending, and its length is the number of cells minus the marked ones |
| `Board.EmptySpacesInComplete` | app/src/main/java/sb/nicholascook/testproject/TicTacToe.java:195-203 | every empty cell is listed, and the list is as long as the board only when every cell is empty |
| `Board.EmptySpacesInSpec` | app/src/main/java/sb/nicholascook/testproject/TicTacToe.java:195-203 | the list is strictly ascending, contains an index exactly when that cell is empty, and has length = cells minus marked cells |
| `Board.EmptySpacesSpec` | app/src/main/java/sb/nicholascook/testproject/TicTacToe.java:195-203 | on a nine-cell board: strictly ascending, exactly the empty cells, length 9 minus the number of marked cells |
| `Board.MarkedInPlace` | app/src/main/java/sb/nicholascook/testproject/TicTacToe.java:55-57 | marking an empty cell raises the marked count by exactly one |
| `Board.PlaceShrinks` | app/src/main/java/sb/nicholascook/testproject/TicTacToe.java:110-113 | marking an empty cell removes exactly one entry from the empty-space list, so every recursive search call has one empty cell fewer |
| `Board.AllEmptySpaces` | app/src/main/java/sb/nicholascook/testproject/TicTacToe.java:195-203 | on an all-empty board of any size the list is 0, 1, ..., n-1 |
| `Board.EmptyBoardSpaces` | app/src/main/java/sb/nicholascook/testproject/TicTacToe.java:23-28 | a new or cleared board lists exactly [0,1,2,3,4,5,6,7,8] |
| `Board.AllListedMeansEmpty` | app/src/main/java/sb/nicholascook/testproject/TicTacToe.java:68 | the engine's test "the list has nine entries" holds exactly for the all-empty board |
| `Board.Score` | app/src/main/java/sb/nicholascook/testproject/TicTacToe.java:151-170 | for depths 0..9 the score lies in [-10,10]; it is negative exactly when the Human owns a line, positive exactly when the Computer owns one and the Human does not, and zero exactly when nobody owns a line |
| `Board.Winner` | app/src/main/java/sb/nicholascook/testproject/TicTacToe.java:178-187 | the result is Human iff the Human owns a line; Computer iff the Computer does and the Human does not; Tie iff nobody owns a line and no cell is empty; undecided iff nobody owns a line and some cell is empty |
| `Board.WinnerAgreesWithScore` | app/src/main/java/sb/nicholascook/testproject/TicTacToe.java:163-187 | at depths 0..9 the winner and the sign of the score agree, and "undecided" is exactly score 0 with an empty cell left |
| `Board.WinnerExamples` | app/src/main/java/sb/nicholascook/testproject/TicTacToe.java:178-187 | a Human diagonal 2-4-6 (cells 7 and 8 still empty) gives Human; the full board X,O,X,O,X,O,O,X,O gives Tie |
| `Search.FirstMaxIndex` | app/src/main/java/sb/nicholascook/testproject/TicTacToe.java:117-127 | the index holds the largest score and every earlier score is strictly smaller (the first maximum) |
| `Search.FirstMinIndex` | app/src/main/java/sb/nicholascook/testproject/TicTacToe.java:129-135 | the index holds the smallest score and every earlier score is strictly larger (the first minimum) |
| `Search.Value` | app/src/main/java/sb/nicholascook/testproject/TicTacToe.java:96-137 | the score miniMax returns for a board, depth and player to move; characterised by `Search.ValueSpec` and bounded by `Search.ValueBounds` |
| `Search.ChildValue` | app/src/main/java/sb/nicholascook/testproject/TicTacToe.java:111-113 | the score the search gives after the player marks one empty cell on a copy and the opponent moves one ply deeper |
| `Search.ChildScores` | app/src/main/java/sb/nicholascook/testproject/TicTacToe.java:110-115 | one score per explored move |
| `Search.ChildScoresAt` | app/src/main/java/sb/nicholascook/testproject/TicTacToe.java:110-115 | entry j of the scores is the search of the board with moves[j] marked for the player and the opponent to move |
| `Search.ChosenMove` | app/src/main/java/sb/nicholascook/testproject/TicTacToe.java:119-126 | the recorded move is an index in [0,9) of an empty cell |
| `Search.ValueBounds` | app/src/main/java/sb/nicholascook/testproject/TicTacToe.java:151-170 | from the root (depth plus empty cells at most nine) every searched score lies in [-10,10] |
| `Search.ValueSpec` | app/src/main/java/sb/nicholascook/testproject/TicTacToe.java:96-137 | a won board keeps its score; a full board without a line scores 0; otherwise the Computer's value is at least, and the Human's at most, every child score, and some empty cell attains it |
| `Search.ChosenMoveSpec` | app/src/main/java/sb/nicholascook/testproject/TicTacToe.java:117-126 | the Computer's chosen cell has the largest child score of all empty cells, every empty cell with a lower index scores strictly less, and at a searched node its score is the node's value |
| `Game.IndexOfMax` | app/src/main/java/sb/nicholascook/testproject/TicTacToe.java:117-127 | the scan from Integer.MIN_VALUE that replaces only on a strictly greater score ends on the first maximum |
| `Game.IndexOfMin` | app/src/main/java/sb/nicholascook/testproject/TicTacToe.java:129-135 | the scan from Integer.MAX_VALUE that replaces only on a strictly smaller score ends on the first minimum |
| `Game.TicTacToe.constructor` | app/src/main/java/sb/nicholascook/testproject/TicTacToe.java:23-28 | a fresh nine-cell board with every cell empty, and `computerMove` at 0, the default of the int field |
| `Game.TicTacToe.ClearBoard` | app/src/main/java/sb/nicholascook/testproject/TicTacToe.java:42-46 | afterwards every cell is empty whatever it held before, so clearing twice equals clearing once |
| `Game.TicTacToe.MakeMove` | app/src/main/java/sb/nicholascook/testproject/TicTacToe.java:55-57 | cell `index` holds the player's mark and every other cell is unchanged |
| `Game.TicTacToe.CopyBoard` | app/src/main/java/sb/nicholascook/testproject/TicTacToe.java:145-149 | a freshly allocated array equal cell by cell to the original |
| `Game.TicTacToe.GetEmptySpaces` | app/src/main/java/sb/nicholascook/testproject/TicTacToe.java:195-203 | the loop builds exactly the ascending list of empty cells |
| `Game.TicTacToe.MiniMax` | app/src/main/java/sb/nicholascook/testproject/TicTacToe.java:96-137 | the board is left unchanged; the score is the reference minimax value and lies in [-10,10]; a won or full board leaves `computerMove` untouched; a searched Computer node leaves its chosen move in `computerMove` |
| `Game.TicTacToe.ExploreMoves` | app/src/main/java/sb/nicholascook/testproject/TicTacToe.java:109-115 | the loop leaves the board unchanged, collects the moves in ascending cell order and the matching child scores, each in [-10,10] |
| `Game.TicTacToe.ExploreMove` | app/src/main/java/sb/nicholascook/testproject/TicTacToe.java:111-113 | searching a marked fresh copy yields the child's reference value |
| `Game.TicTacToe.GetComputerMove` | app/src/main/java/sb/nicholascook/testproject/TicTacToe.java:67-74 | on the empty board the opening value is returned; on an undecided board the result is the first empty cell with the largest child score, and it is always an empty cell; on a finished board the previous `computerMove` is returned; except on the opening, `computerMove` afterwards holds the returned move, and the opening leaves it unchanged |

## Left out

- MainActivity.java is not part of this model. It is the Android user interface: buttons, colours, highlighting of the winning line, and start and restart sequencing.
- `java.util.Random` is not modelled. The opening move is the parameter `opening` of `GetComputerMove`, and only its range [0,9) is assumed.
- `getGameBoard` is a plain getter. The model reads the `gameBoard` field directly.
- `setComputerMove` is an assignment to `computerMove` written inline.
- Cells are a closed type: empty, Human ("X") or Computer ("O"). A `String[]` board holding other strings is not modelled, and neither is a move that writes an arbitrary string.
- Boards are arrays of exactly nine cells. A shorter Java array would throw in the line checks, and that case is not modelled.
- `MakeMove` requires `0 <= index < board.Length`. Java would throw `ArrayIndexOutOfBoundsException` otherwise, and that exception path is not modelled.
- Game.TicTacToe.MiniMax: requires `0 <= depth` and depth plus empty cells at most 9. This is what the root call (depth 0, nine cells) guarantees and what the source's comment "the max depth is 9" relies on. It keeps every score within Java `int` and makes the scan sentinels exact. Deeper or negative starting depths are not modelled.
- Game.TicTacToe.MiniMax: says nothing about `computerMove` after a search with the Human to move. The field then holds whatever the last Computer node inside that search wrote, and only the root's write is ever read.
- Claims about strategy are not proved: that the Computer never loses, that the depth term in the score makes the Computer win in the smallest number of moves (TicTacToe.java:156-157), and specific best moves for concrete boards. They can only be shown by evaluating the whole game tree.
