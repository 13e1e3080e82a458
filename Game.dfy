/** The game engine object: the live nine-cell board, the field in which
    the search records the Computer's move, and the operations the user
    interface calls. Board arrays are always nine cells long. */
module Game {
  import opened Board
  import opened Search

  /** Java's Integer.MIN_VALUE and Integer.MAX_VALUE, the scan sentinels. */
  const IntMin := -0x8000_0000
  const IntMax := 0x7fff_ffff

  /** The scan over the collected scores for the Computer: starting from
      the sentinel Integer.MIN_VALUE, the candidate is replaced only by a
      strictly larger score, so the first maximum wins. */
  method IndexOfMax(scores: seq<int>) returns (maxIndex: int)
    requires |scores| > 0
    requires forall j :: 0 <= j < |scores| ==> IntMin <= scores[j] <= IntMax
    ensures maxIndex == FirstMaxIndex(scores)
  {
    maxIndex := 0;
    var maxValue := IntMin;
    var i := 0;
    while i < |scores|
      invariant 0 <= i <= |scores|
      invariant i == 0 ==> maxIndex == 0 && maxValue == IntMin
      invariant i > 0 ==> maxIndex == FirstMaxIndex(scores[..i]) && maxValue == scores[maxIndex]
    {
      assert scores[..i + 1][..i] == scores[..i];
      if scores[i] > maxValue {
        maxIndex := i;
        maxValue := scores[i];
      }
      i := i + 1;
    }
    assert scores[..i] == scores;
  }

  /** The Human's scan: from Integer.MAX_VALUE, replaced only by a
      strictly smaller score, so the first minimum wins. */
  method IndexOfMin(scores: seq<int>) returns (minIndex: int)
    requires |scores| > 0
    requires forall j :: 0 <= j < |scores| ==> IntMin <= scores[j] <= IntMax
    ensures minIndex == FirstMinIndex(scores)
  {
    minIndex := 0;
    var minValue := IntMax;
    var i := 0;
    while i < |scores|
      invariant 0 <= i <= |scores|
      invariant i == 0 ==> minIndex == 0 && minValue == IntMax
      invariant i > 0 ==> minIndex == FirstMinIndex(scores[..i]) && minValue == scores[minIndex]
    {
      assert scores[..i + 1][..i] == scores[..i];
      if scores[i] < minValue {
        minIndex := i;
        minValue := scores[i];
      }
      i := i + 1;
    }
    assert scores[..i] == scores;
  }

  class TicTacToe {
    var gameBoard: array<Cell>
    var computerMove: int

    ghost predicate Valid()
      reads this
    {
      gameBoard.Length == BoardSize
    }

    /** A new game: a fresh board with every cell empty, and the recorded
        move at 0, the default of an int field. */
    constructor ()
      ensures Valid() && fresh(gameBoard)
      ensures gameBoard[..] == EmptyBoard()
      ensures computerMove == 0
    {
      gameBoard := new Cell[BoardSize];
      computerMove := 0;
      new;
      var i := 0;
      while i < BoardSize
        invariant 0 <= i <= BoardSize
        invariant fresh(gameBoard) && gameBoard.Length == BoardSize
        invariant computerMove == 0
        invariant forall k :: 0 <= k < i ==> gameBoard[k] == Empty
      {
        gameBoard[i] := Empty;
        i := i + 1;
      }
    }

    /** Empty every cell of the live board. The result does not depend on
        the previous contents, so clearing twice is clearing once. */
    method ClearBoard()
      requires Valid()
      modifies gameBoard
      ensures Valid()
      ensures gameBoard[..] == EmptyBoard()
    {
      var i := 0;
      while i < BoardSize
        invariant 0 <= i <= BoardSize
        invariant forall k :: 0 <= k < i ==> gameBoard[k] == Empty
      {
        gameBoard[i] := Empty;
        i := i + 1;
      }
    }

    /** Write the player's mark into cell `index`; the other cells keep
        their contents. */
    method MakeMove(board: array<Cell>, player: Player, index: int)
      requires 0 <= index < board.Length
      modifies board
      ensures board[index] == player
      ensures forall k :: 0 <= k < board.Length && k != index ==> board[k] == old(board[k])
    {
      board[index] := player;
    }

    /** A fresh array with the same nine cells. */
    method CopyBoard(board: array<Cell>) returns (newBoard: array<Cell>)
      requires board.Length == BoardSize
      ensures fresh(newBoard)
      ensures newBoard[..] == board[..]
    {
      newBoard := new Cell[BoardSize];
      var i := 0;
      while i < board.Length
        invariant 0 <= i <= board.Length
        invariant forall k :: 0 <= k < i ==> newBoard[k] == board[k]
      {
        newBoard[i] := board[i];
        i := i + 1;
      }
    }

    /** Indices of the empty cells, ascending. */
    method GetEmptySpaces(board: array<Cell>) returns (emptySpaces: seq<int>)
      requires board.Length == BoardSize
      ensures emptySpaces == EmptySpaces(board[..])
    {
      emptySpaces := [];
      var i := 0;
      while i < BoardSize
        invariant 0 <= i <= BoardSize
        invariant emptySpaces == EmptySpacesIn(board[..i])
      {
        assert board[..i + 1][..i] == board[..i];
        if board[i] == Empty {
          emptySpaces := emptySpaces + [i];
        }
        i := i + 1;
      }
      assert board[..i] == board[..];
    }

    /** Exhaustive search from `board` with `player` to move. Every
        hypothetical move is made on a fresh copy, so `board` is left as it
        was. The returned score is the reference minimax value; a node where
        the Computer moves records its chosen cell in `computerMove`, and
        that write comes after all the writes of its own sub-searches. A
        won or full board returns before recording anything. */
    method MiniMax(depth: int, player: Player, board: array<Cell>) returns (score: int)
      requires board.Length == BoardSize
      requires 0 <= depth && depth + |EmptySpaces(board[..])| <= 9
      modifies this`computerMove
      ensures board[..] == old(board[..])
      ensures score == Value(depth, player, board[..])
      ensures -10 <= score <= 10
      ensures Score(depth, board[..]) != 0 || EmptySpaces(board[..]) == [] ==>
        computerMove == old(computerMove)
      ensures player == Computer && Score(depth, board[..]) == 0 && EmptySpaces(board[..]) != [] ==>
        computerMove == ChosenMove(depth, board[..])
      decreases |EmptySpaces(board[..])|, 2
    {
      ghost var b: Board := board[..];
      score := Score(depth, board[..]);
      if score != 0 {
        return;
      }
      var nextDepth := depth + 1;
      var emptySpaces := GetEmptySpaces(board);
      if emptySpaces == [] {
        return 0;
      }
      var scores, moves := ExploreMoves(nextDepth, player, board, emptySpaces);
      SearchedNode(depth, player, b, emptySpaces, scores);
      if player == Computer {
        var maxIndex := IndexOfMax(scores);
        computerMove := moves[maxIndex];
        return scores[maxIndex];
      } else {
        var minIndex := IndexOfMin(scores);
        return scores[minIndex];
      }
    }

    /** The loop of the search: for each empty cell in ascending order, mark
        it for `player` on a fresh copy of the board, search that copy with
        the opponent to move, and collect the score beside the cell. */
    method ExploreMoves(depth: int, player: Player, board: array<Cell>, emptySpaces: seq<int>)
      returns (scores: seq<int>, moves: seq<int>)
      requires board.Length == BoardSize
      requires emptySpaces == EmptySpaces(board[..])
      requires 0 < depth && depth + |emptySpaces| <= 10
      modifies this`computerMove
      ensures board[..] == old(board[..])
      ensures moves == emptySpaces
      ensures scores == ChildScores(depth, player, board[..], emptySpaces)
      ensures forall j :: 0 <= j < |scores| ==> -10 <= scores[j] <= 10
      decreases |emptySpaces|, 1
    {
      ghost var b: Board := board[..];
      scores, moves := [], [];
      var opponent := Opponent(player);
      var i := 0;
      while i < |emptySpaces|
        invariant 0 <= i <= |emptySpaces|
        invariant moves == emptySpaces[..i]
        invariant scores == ChildScores(depth, player, b, emptySpaces[..i])
        invariant forall j :: 0 <= j < i ==> -10 <= scores[j] <= 10
      {
        var s := ExploreMove(depth, player, opponent, board, emptySpaces[i]);
        ChildScoresSnoc(depth, player, b, emptySpaces, i);
        scores := scores + [s];
        moves := moves + [emptySpaces[i]];
        assert emptySpaces[..i + 1] == emptySpaces[..i] + [emptySpaces[i]];
        i := i + 1;
      }
      assert emptySpaces[..i] == emptySpaces;
    }

    /** One pass of that loop: a fresh copy of the board, the player's mark
        in cell m of the copy, and the search of the copy. */
    method ExploreMove(depth: int, player: Player, opponent: Player, board: array<Cell>, m: int)
      returns (s: int)
      requires board.Length == BoardSize
      requires opponent == Opponent(player)
      requires 0 <= m < BoardSize && board[m] == Empty
      requires 0 < depth && depth + |EmptySpaces(board[..])| <= 10
      modifies this`computerMove
      ensures s == ChildValue(depth - 1, player, board[..], m)
      ensures -10 <= s <= 10
      decreases |EmptySpaces(board[..])|, 0
    {
      var newGame := CopyBoard(board);
      MakeMove(newGame, player, m);
      assert newGame[..] == board[..][m := player];
      PlaceShrinks(board[..], m, player);
      s := MiniMax(depth, opponent, newGame);
    }

    /** The Computer's next move. On an all-empty board it is the random
        opening cell `opening` (a value in [0, 9)); otherwise it is what the
        search records, which on an undecided board is the first empty cell
        with the largest searched score. On a board that is already won or
        full the search records nothing and the previous value is returned.
        Except on the opening, the field afterwards holds the returned move. */
    method GetComputerMove(board: array<Cell>, opening: int) returns (move: int)
      requires board.Length == BoardSize
      requires 0 <= opening < BoardSize
      modifies this`computerMove
      ensures board[..] == old(board[..])
      ensures EmptySpaces(board[..]) == [0, 1, 2, 3, 4, 5, 6, 7, 8] ==> move == opening
      ensures |EmptySpaces(board[..])| < BoardSize && Winner(board[..]) == Undecided ==>
        move == ChosenMove(0, board[..])
      ensures |EmptySpaces(board[..])| < BoardSize && Winner(board[..]) != Undecided ==>
        move == old(computerMove)
      ensures Winner(board[..]) == Undecided ==> 0 <= move < BoardSize && board[move] == Empty
      ensures |EmptySpaces(board[..])| < BoardSize ==> computerMove == move
      ensures |EmptySpaces(board[..])| == BoardSize ==> computerMove == old(computerMove)
    {
      var emptySpaces := GetEmptySpaces(board);
      if |emptySpaces| == BoardSize {
        assert board[..] == EmptyBoard() && emptySpaces == [0, 1, 2, 3, 4, 5, 6, 7, 8] by {
          AllListedMeansEmpty(board[..]);
          EmptyBoardSpaces();
        }
        return opening;
      }
      assert Winner(board[..]) == Undecided <==> Score(0, board[..]) == 0 && emptySpaces != [] by {
        WinnerAgreesWithScore(0, board[..]);
      }
      var _ := MiniMax(0, Computer, board);
      move := computerMove;
    }
  }
}
