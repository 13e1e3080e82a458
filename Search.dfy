/** The reference meaning of the engine's minimax search, as pure
    functions over board values: the score a position gets, the scores of
    its children in the order they are explored, and the move the
    Computer picks. The recursive method in module Game is proved to
    compute exactly these. */
module Search {
  import opened Board

  /** The index a left-to-right scan picks when it replaces its candidate
      only on a strictly larger value: the first occurrence of the maximum. */
  function FirstMaxIndex(s: seq<int>): (r: int)
    requires |s| > 0
    ensures 0 <= r < |s|
    ensures forall j :: 0 <= j < |s| ==> s[j] <= s[r]
    ensures forall j :: 0 <= j < r ==> s[j] < s[r]
  {
    if |s| == 1 then 0
    else
      var k := FirstMaxIndex(s[..|s| - 1]);
      if s[|s| - 1] > s[k] then |s| - 1 else k
  }

  /** The first occurrence of the minimum, by the same strict scan. */
  function FirstMinIndex(s: seq<int>): (r: int)
    requires |s| > 0
    ensures 0 <= r < |s|
    ensures forall j :: 0 <= j < |s| ==> s[r] <= s[j]
    ensures forall j :: 0 <= j < r ==> s[r] < s[j]
  {
    if |s| == 1 then 0
    else
      var k := FirstMinIndex(s[..|s| - 1]);
      if s[|s| - 1] < s[k] then |s| - 1 else k
  }

  /** Minimax value of board b with `player` to move, `depth` plies below
      the root: a won board scores at once; otherwise the depth grows by
      one, a full board scores 0, and the Computer takes the largest and
      the Human the smallest child score. */
  function Value(depth: int, player: Player, b: Board): int
    decreases |EmptySpaces(b)|, 1, 0
  {
    var score := Score(depth, b);
    if score != 0 then score
    else
      var moves := EmptySpaces(b);
      if moves == [] then 0
      else
        var scores := ChildScores(depth + 1, player, b, moves);
        if player == Computer then scores[FirstMaxIndex(scores)]
        else scores[FirstMinIndex(scores)]
  }

  /** The scores of the boards reached by `player` marking each cell of
      `moves`, in the order of `moves`, each searched with the opponent to
      move at the given depth. */
  function ChildScores(depth: int, player: Player, b: Board, moves: seq<int>): (scores: seq<int>)
    requires forall j :: 0 <= j < |moves| ==> 0 <= moves[j] < BoardSize && b[moves[j]] == Empty
    ensures |scores| == |moves|
    decreases |EmptySpaces(b)|, 0, |moves|
  {
    if moves == [] then []
    else
      var m := moves[|moves| - 1];
      var rest := moves[..|moves| - 1];
      PlaceShrinks(b, m, player);
      ChildScores(depth, player, b, rest) + [Value(depth, Opponent(player), b[m := player])]
  }

  /** The score the search gives to `player` marking the empty cell k. */
  function ChildValue(depth: int, player: Player, b: Board, k: int): int
    requires 0 <= k < BoardSize && b[k] == Empty
  {
    Value(depth + 1, Opponent(player), b[k := player])
  }

  /** The move the Computer records at a node: the first empty cell, in
      ascending order, whose child score is the largest. */
  function ChosenMove(depth: int, b: Board): (m: int)
    requires EmptySpaces(b) != []
    ensures 0 <= m < BoardSize && b[m] == Empty
  {
    var moves := EmptySpaces(b);
    var i := FirstMaxIndex(ChildScores(depth + 1, Computer, b, moves));
    moves[i]
  }

  /** At a node that is searched, the value and the Computer's choice are
      read off the child scores of the empty cells at the next depth. */
  lemma SearchedNode(depth: int, player: Player, b: Board, moves: seq<int>, scores: seq<int>)
    requires Score(depth, b) == 0 && moves == EmptySpaces(b) && moves != []
    requires forall j :: 0 <= j < |moves| ==> 0 <= moves[j] < BoardSize && b[moves[j]] == Empty
    requires scores == ChildScores(depth + 1, player, b, moves)
    ensures player == Computer ==>
      Value(depth, player, b) == scores[FirstMaxIndex(scores)] &&
      ChosenMove(depth, b) == moves[FirstMaxIndex(scores)]
    ensures player == Human ==> Value(depth, player, b) == scores[FirstMinIndex(scores)]
  {
  }

  /** Exploring one more move appends that move's score. */
  lemma ChildScoresSnoc(depth: int, player: Player, b: Board, moves: seq<int>, i: int)
    requires forall j :: 0 <= j < |moves| ==> 0 <= moves[j] < BoardSize && b[moves[j]] == Empty
    requires 0 <= i < |moves|
    ensures ChildScores(depth, player, b, moves[..i + 1])
      == ChildScores(depth, player, b, moves[..i]) + [Value(depth, Opponent(player), b[moves[i] := player])]
  {
    assert moves[..i + 1][..i] == moves[..i];
  }

  /** Entry j of the child scores is the value of the board after
      marking moves[j]. */
  lemma {:induction false} ChildScoresAt(depth: int, player: Player, b: Board, moves: seq<int>, j: int)
    requires forall j :: 0 <= j < |moves| ==> 0 <= moves[j] < BoardSize && b[moves[j]] == Empty
    requires 0 <= j < |moves|
    ensures ChildScores(depth, player, b, moves)[j] == ChildValue(depth - 1, player, b, moves[j])
    decreases |moves|
  {
    var rest := moves[..|moves| - 1];
    if j < |moves| - 1 {
      assert rest[j] == moves[j];
      ChildScoresAt(depth, player, b, rest, j);
    }
  }

  /** Every empty cell k of b appears in the explored list at some
      position, and cells before k appear before it. */
  lemma EmptyCellPosition(b: Board, k: int) returns (j: int)
    requires 0 <= k < BoardSize && b[k] == Empty
    ensures 0 <= j < |EmptySpaces(b)| && EmptySpaces(b)[j] == k
    ensures forall i :: 0 <= i < |EmptySpaces(b)| ==> (EmptySpaces(b)[i] < k <==> i < j)
  {
    EmptySpacesSpec(b);
    var moves := EmptySpaces(b);
    assert k in moves;
    j :| 0 <= j < |moves| && moves[j] == k;
  }

  /** Searched scores stay within [-10, 10] whenever the depth plus the
      number of empty cells is at most nine, as it is from the root. */
  lemma {:induction false} ValueBounds(depth: int, player: Player, b: Board)
    requires 0 <= depth && depth + |EmptySpaces(b)| <= 9
    ensures -10 <= Value(depth, player, b) <= 10
    decreases |EmptySpaces(b)|, 1
  {
    var moves := EmptySpaces(b);
    if Score(depth, b) == 0 && moves != [] {
      var scores := ChildScores(depth + 1, player, b, moves);
      forall j | 0 <= j < |scores| ensures -10 <= scores[j] <= 10 {
        ChildScoresAt(depth + 1, player, b, moves, j);
        ChildValueBounds(depth, player, b, moves[j]);
      }
    }
  }

  /** The same bound for one child of a searched node. */
  lemma {:induction false} ChildValueBounds(depth: int, player: Player, b: Board, k: int)
    requires 0 <= k < BoardSize && b[k] == Empty
    requires 0 <= depth && depth + |EmptySpaces(b)| <= 9
    ensures -10 <= ChildValue(depth, player, b, k) <= 10
    decreases |EmptySpaces(b)|, 0
  {
    PlaceShrinks(b, k, player);
    ValueBounds(depth + 1, Opponent(player), b[k := player]);
  }

  /** The three cases of the search: a won board keeps its score, a full
      board with no line scores 0, and otherwise the Computer's value is
      the largest and the Human's the smallest score over all empty cells,
      attained by one of them. */
  lemma ValueSpec(depth: int, player: Player, b: Board)
    ensures Score(depth, b) != 0 ==> Value(depth, player, b) == Score(depth, b)
    ensures Score(depth, b) == 0 && EmptySpaces(b) == [] ==> Value(depth, player, b) == 0
    ensures Score(depth, b) == 0 && EmptySpaces(b) != [] ==>
      (forall k :: 0 <= k < BoardSize && b[k] == Empty ==>
        (player == Computer ==> ChildValue(depth, player, b, k) <= Value(depth, player, b)) &&
        (player == Human ==> Value(depth, player, b) <= ChildValue(depth, player, b, k))) &&
      (exists k :: 0 <= k < BoardSize && b[k] == Empty &&
        ChildValue(depth, player, b, k) == Value(depth, player, b))
  {
    var moves := EmptySpaces(b);
    if Score(depth, b) == 0 && moves != [] {
      var scores := ChildScores(depth + 1, player, b, moves);
      var v := Value(depth, player, b);
      forall k | 0 <= k < BoardSize && b[k] == Empty
        ensures player == Computer ==> ChildValue(depth, player, b, k) <= v
        ensures player == Human ==> v <= ChildValue(depth, player, b, k)
      {
        var j := EmptyCellPosition(b, k);
        ChildScoresAt(depth + 1, player, b, moves, j);
      }
      var i := if player == Computer then FirstMaxIndex(scores) else FirstMinIndex(scores);
      ChildScoresAt(depth + 1, player, b, moves, i);
      assert ChildValue(depth, player, b, moves[i]) == v;
    }
  }

  /** The Computer's chosen cell has the largest child score of all empty
      cells, every empty cell before it scores strictly less, and at a
      node that is searched its score is the node's value. */
  lemma ChosenMoveSpec(depth: int, b: Board)
    requires EmptySpaces(b) != []
    ensures var m := ChosenMove(depth, b);
      (forall k :: 0 <= k < BoardSize && b[k] == Empty ==>
        ChildValue(depth, Computer, b, k) <= ChildValue(depth, Computer, b, m)) &&
      (forall k :: 0 <= k < m && b[k] == Empty ==>
        ChildValue(depth, Computer, b, k) < ChildValue(depth, Computer, b, m)) &&
      (Score(depth, b) == 0 ==> Value(depth, Computer, b) == ChildValue(depth, Computer, b, m))
  {
    var moves := EmptySpaces(b);
    var scores := ChildScores(depth + 1, Computer, b, moves);
    var i := FirstMaxIndex(scores);
    var m := moves[i];
    ChildScoresAt(depth + 1, Computer, b, moves, i);
    forall k | 0 <= k < BoardSize && b[k] == Empty
      ensures ChildValue(depth, Computer, b, k) <= ChildValue(depth, Computer, b, m)
      ensures k < m ==> ChildValue(depth, Computer, b, k) < ChildValue(depth, Computer, b, m)
    {
      var j := EmptyCellPosition(b, k);
      ChildScoresAt(depth + 1, Computer, b, moves, j);
    }
  }
}
