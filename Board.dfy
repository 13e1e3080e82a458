/** The tic-tac-toe board and the queries the engine asks of it: which
    cells are empty, whether a player owns a line, the depth-weighted
    score and the winner. Every function here is pure; the class in
    module Game holds the mutable board and calls these on `board[..]`. */
module Board {

  /** Number of cells; cells are numbered 0..8 row by row. */
  const BoardSize := 9

  /** A cell is empty or carries a mark. Human plays "X", Computer "O". */
  datatype Cell = Empty | Human | Computer

  /** The two players are exactly the marks a cell can hold. */
  type Player = c: Cell | c != Empty witness Human

  /** A board is exactly nine cells. */
  type Board = b: seq<Cell> | |b| == BoardSize witness seq(BoardSize, _ => Empty)

  /** What the engine reports about a board: "X", "O", "TIE" or "". */
  datatype Outcome = HumanWon | ComputerWon | Tie | Undecided

  function Opponent(p: Player): (q: Player)
    ensures q != p
  {
    if p == Computer then Human else Computer
  }

  function EmptyBoard(): (b: Board)
    ensures forall k :: 0 <= k < BoardSize ==> b[k] == Empty
  {
    seq(BoardSize, _ => Empty)
  }

  // ---------------------------------------------------------------------
  // Lines

  /** Some row is fully owned by p. */
  predicate IsHorizontalWin(p: Player, b: Board) {
    (b[0] == p && b[1] == p && b[2] == p) ||
    (b[3] == p && b[4] == p && b[5] == p) ||
    (b[6] == p && b[7] == p && b[8] == p)
  }

  /** Some column is fully owned by p. */
  predicate IsVerticalWin(p: Player, b: Board) {
    (b[0] == p && b[3] == p && b[6] == p) ||
    (b[1] == p && b[4] == p && b[7] == p) ||
    (b[2] == p && b[5] == p && b[8] == p)
  }

  /** Some diagonal is fully owned by p. */
  predicate IsDiagonalWin(p: Player, b: Board) {
    (b[0] == p && b[4] == p && b[8] == p) ||
    (b[2] == p && b[4] == p && b[6] == p)
  }

  /** The disjunction the engine tests for each player. */
  predicate HasWon(p: Player, b: Board) {
    IsHorizontalWin(p, b) || IsVerticalWin(p, b) || IsDiagonalWin(p, b)
  }

  /** Reference table of the eight winning lines: rows, columns, diagonals. */
  const Lines: seq<(int, int, int)> := [
    (0, 1, 2), (3, 4, 5), (6, 7, 8),
    (0, 3, 6), (1, 4, 7), (2, 5, 8),
    (0, 4, 8), (2, 4, 6)
  ]

  /** p owns line number `k` of the reference table. */
  predicate OwnsLine(p: Player, b: Board, k: int)
    requires 0 <= k < |Lines|
  {
    var (i, j, l) := Lines[k];
    b[i] == p && b[j] == p && b[l] == p
  }

  /** The three hand-written checks together cover exactly the eight lines. */
  lemma HasWonIffOwnsLine(p: Player, b: Board)
    ensures HasWon(p, b) <==> exists k :: 0 <= k < |Lines| && OwnsLine(p, b, k)
  {
    if IsHorizontalWin(p, b) {
      if b[0] == p && b[1] == p && b[2] == p { assert OwnsLine(p, b, 0); }
      else if b[3] == p && b[4] == p && b[5] == p { assert OwnsLine(p, b, 1); }
      else { assert OwnsLine(p, b, 2); }
    } else if IsVerticalWin(p, b) {
      if b[0] == p && b[3] == p && b[6] == p { assert OwnsLine(p, b, 3); }
      else if b[1] == p && b[4] == p && b[7] == p { assert OwnsLine(p, b, 4); }
      else { assert OwnsLine(p, b, 5); }
    } else if IsDiagonalWin(p, b) {
      if b[0] == p && b[4] == p && b[8] == p { assert OwnsLine(p, b, 6); }
      else { assert OwnsLine(p, b, 7); }
    }
  }

  // ---------------------------------------------------------------------
  // Empty cells

  /** Indices of the empty cells of `cells`, in ascending order. */
  function EmptySpacesIn(cells: seq<Cell>): seq<int>
  {
    if cells == [] then []
    else
      var n := |cells| - 1;
      EmptySpacesIn(cells[..n]) + (if cells[n] == Empty then [n] else [])
  }

  /** The list the engine builds: indices of all empty cells, ascending. */
  function EmptySpaces(b: Board): (s: seq<int>)
    ensures |s| <= BoardSize
    ensures forall j :: 0 <= j < |s| ==> 0 <= s[j] < BoardSize && b[s[j]] == Empty
  {
    EmptySpacesInSpec(b);
    EmptySpacesIn(b)
  }

  /** Number of marked cells of `cells`. */
  function MarkedIn(cells: seq<Cell>): nat
  {
    if cells == [] then 0
    else
      var n := |cells| - 1;
      MarkedIn(cells[..n]) + (if cells[n] != Empty then 1 else 0)
  }

  /** The empty-space list holds only empty cells, strictly ascending, and
      has one entry per unmarked cell. */
  lemma {:induction false} EmptySpacesInSorted(cells: seq<Cell>)
    ensures var s := EmptySpacesIn(cells);
      (forall j :: 0 <= j < |s| ==> 0 <= s[j] < |cells| && cells[s[j]] == Empty) &&
      (forall j, k :: 0 <= j < k < |s| ==> s[j] < s[k]) &&
      |s| == |cells| - MarkedIn(cells)
  {
    if cells != [] {
      EmptySpacesInSorted(cells[..|cells| - 1]);
    }
  }

  /** Every empty cell is listed; the list is as long as `cells` only when
      every cell is empty. */
  lemma {:induction false} EmptySpacesInComplete(cells: seq<Cell>)
    ensures var s := EmptySpacesIn(cells);
      (forall k :: 0 <= k < |cells| && cells[k] == Empty ==> k in s) &&
      (|s| == |cells| ==> forall k :: 0 <= k < |cells| ==> cells[k] == Empty)
  {
    if cells != [] {
      var n := |cells| - 1;
      var prefix := cells[..n];
      EmptySpacesInComplete(prefix);
      EmptySpacesInSorted(prefix);
      var before := EmptySpacesIn(prefix);
      var s := EmptySpacesIn(cells);
      assert s == before + (if cells[n] == Empty then [n] else []);
      forall k | 0 <= k < |cells| && cells[k] == Empty ensures k in s {
        if k < n {
          assert prefix[k] == cells[k];
          assert k in before;
        } else {
          assert s[|s| - 1] == n;
        }
      }
      if |s| == |cells| {
        assert |before| == n && cells[n] == Empty;
        forall k | 0 <= k < |cells| ensures cells[k] == Empty {
          if k < n {
            assert prefix[k] == cells[k];
          }
        }
      }
    }
  }

  /** The empty-space list is strictly ascending, lists exactly the empty
      cells, and has one entry per unmarked cell; it is as long as `cells`
      only when every cell is empty. */
  lemma EmptySpacesInSpec(cells: seq<Cell>)
    ensures var s := EmptySpacesIn(cells);
      (forall j, k :: 0 <= j < k < |s| ==> s[j] < s[k]) &&
      (forall j :: 0 <= j < |s| ==> 0 <= s[j] < |cells| && cells[s[j]] == Empty) &&
      (forall k :: k in s <==> 0 <= k < |cells| && cells[k] == Empty) &&
      |s| == |cells| - MarkedIn(cells) &&
      (|s| == |cells| ==> forall k :: 0 <= k < |cells| ==> cells[k] == Empty)
  {
    EmptySpacesInSorted(cells);
    EmptySpacesInComplete(cells);
  }

  /** The same facts for the whole board. */
  lemma EmptySpacesSpec(b: Board)
    ensures var s := EmptySpaces(b);
      (forall j, k :: 0 <= j < k < |s| ==> s[j] < s[k]) &&
      (forall k :: k in s <==> 0 <= k < BoardSize && b[k] == Empty) &&
      |s| == BoardSize - MarkedIn(b)
  {
    EmptySpacesInSpec(b);
  }

  /** Marking an empty cell adds one to the marked count. */
  lemma {:induction false} MarkedInPlace(cells: seq<Cell>, i: int, p: Player)
    requires 0 <= i < |cells| && cells[i] == Empty
    ensures MarkedIn(cells[i := p]) == MarkedIn(cells) + 1
  {
    var n := |cells| - 1;
    if i == n {
      assert cells[i := p][..n] == cells[..n];
    } else {
      assert cells[i := p][..n] == cells[..n][i := p];
      MarkedInPlace(cells[..n], i, p);
    }
  }

  /** Marking an empty cell removes exactly one entry from the empty-space
      list; this is the measure that makes the search terminate. */
  lemma PlaceShrinks(b: Board, i: int, p: Player)
    requires 0 <= i < BoardSize && b[i] == Empty
    ensures |EmptySpaces(b[i := p])| + 1 == |EmptySpaces(b)|
  {
    EmptySpacesInSpec(b);
    EmptySpacesInSpec(b[i := p]);
    MarkedInPlace(b, i, p);
  }

  /** With every cell empty, every index is listed, in order. */
  lemma {:induction false} AllEmptySpaces(n: nat)
    ensures EmptySpacesIn(seq(n, _ => Empty)) == seq(n, k => k)
  {
    if n > 0 {
      assert seq(n, _ => Empty)[..n - 1] == seq(n - 1, _ => Empty);
      AllEmptySpaces(n - 1);
    }
  }

  /** A fresh or cleared board lists every index 0..8. */
  lemma EmptyBoardSpaces()
    ensures EmptySpaces(EmptyBoard()) == [0, 1, 2, 3, 4, 5, 6, 7, 8]
  {
    AllEmptySpaces(BoardSize);
  }

  /** The engine's "all nine cells are empty" test, a list of length nine,
      holds exactly for the empty board. */
  lemma AllListedMeansEmpty(b: Board)
    ensures |EmptySpaces(b)| == BoardSize <==> b == EmptyBoard()
  {
    EmptySpacesInSpec(b);
    if |EmptySpaces(b)| == BoardSize {
      assert b == EmptyBoard();
    }
    EmptyBoardSpaces();
  }

  // ---------------------------------------------------------------------
  // Score and winner

  /** Depth-weighted evaluation: a Human line scores depth - 10, otherwise
      a Computer line scores 10 - depth, otherwise 0. Within the search's
      depth range (0..9) the sign alone tells who has a line. */
  function Score(depth: int, b: Board): (r: int)
    ensures 0 <= depth <= 9 ==>
      -10 <= r <= 10 &&
      (r < 0 <==> HasWon(Human, b)) &&
      (r > 0 <==> !HasWon(Human, b) && HasWon(Computer, b)) &&
      (r == 0 <==> !HasWon(Human, b) && !HasWon(Computer, b))
  {
    if HasWon(Human, b) then depth - 10
    else if HasWon(Computer, b) then 10 - depth
    else 0
  }

  /** Who has won: Human first, then Computer, then a full board is a
      tie, and otherwise the game is still undecided. */
  function Winner(b: Board): (r: Outcome)
    ensures r == HumanWon <==> HasWon(Human, b)
    ensures r == ComputerWon <==> !HasWon(Human, b) && HasWon(Computer, b)
    ensures r == Tie <==>
      !HasWon(Human, b) && !HasWon(Computer, b) &&
      forall k :: 0 <= k < BoardSize ==> b[k] != Empty
    ensures r == Undecided <==>
      !HasWon(Human, b) && !HasWon(Computer, b) &&
      exists k :: 0 <= k < BoardSize && b[k] == Empty
  {
    EmptySpacesSpec(b);
    if HasWon(Human, b) then HumanWon
    else if HasWon(Computer, b) then ComputerWon
    else if EmptySpaces(b) == [] then Tie
    else assert EmptySpaces(b)[0] in EmptySpaces(b); Undecided
  }

  /** Winner and Score agree at every depth the search reaches. */
  lemma WinnerAgreesWithScore(depth: int, b: Board)
    requires 0 <= depth <= 9
    ensures Winner(b) == HumanWon <==> Score(depth, b) < 0
    ensures Winner(b) == ComputerWon <==> Score(depth, b) > 0
    ensures Winner(b) in {Tie, Undecided} <==> Score(depth, b) == 0
    ensures Winner(b) == Undecided <==> Score(depth, b) == 0 && EmptySpaces(b) != []
  {
    EmptySpacesSpec(b);
    if Winner(b) == Undecided {
      var k :| 0 <= k < BoardSize && b[k] == Empty;
      assert k in EmptySpaces(b);
    }
  }

  /** Two classified positions: a Human diagonal 2-4-6 with two cells
      still empty, and a full board where nobody owns a line. */
  lemma WinnerExamples()
    ensures Winner([Human, Computer, Human, Computer, Human, Computer, Human, Empty, Empty]) == HumanWon
    ensures Winner([Human, Computer, Human, Computer, Human, Computer, Computer, Human, Computer]) == Tie
  {
    var full: Board := [Human, Computer, Human, Computer, Human, Computer, Computer, Human, Computer];
    assert forall k :: 0 <= k < BoardSize ==> full[k] != Empty;
  }
}
