/**
 * The rules of the 3x3 board: players, squares, the fixed table of winning
 * lines and `checkWinner`, the per-player square counts that every board in
 * the history satisfies, and the copy-and-mark step of `handleClick`.
 */
module Rules {
  import opened Wrappers

  /** `PLAYER1` and `PLAYER2` of `App.jsx`. */
  datatype Player = X | O

  /** A square: `None` (null, empty) or the symbol of the player who took it. */
  type Cell = Option<Player>

  /** The game is played with `size = 3`, so every board has 9 squares. */
  const Size: nat := 3
  const SquareCount: nat := 9

  /** A square index, 0..8, row-major. */
  type Square = i: nat | i < SquareCount

  /** A board: `Array(size*size)` of squares. */
  type Board = b: seq<Cell> | |b| == SquareCount
    witness [None, None, None, None, None, None, None, None, None]

  /** `Array(size*size).fill(null)`: the initial board. */
  const Empty: Board := [None, None, None, None, None, None, None, None, None]

  function Symbol(p: Player): string {
    match p
    case X => "X"
    case O => "O"
  }

  /** `isXNext ? PLAYER1 : PLAYER2` with `isXNext = moveIdx % 2 === 0`. */
  function Mover(moveIdx: nat): Player {
    if moveIdx % 2 == 0 then X else O
  }

  /** X makes the first move and the players take turns. */
  lemma MoverAlternates(moveIdx: nat)
    ensures Mover(0) == X
    ensures Mover(moveIdx + 1) != Mover(moveIdx)
  {
  }

  // ---------------------------------------------------------------------------
  // Winning lines
  // ---------------------------------------------------------------------------

  datatype Line = Line(a: Square, b: Square, c: Square)

  /** `winningLines`, in the same order: rows, columns, diagonals. */
  const Lines: seq<Line> := [
    Line(0, 1, 2), Line(3, 4, 5), Line(6, 7, 8),
    Line(0, 3, 6), Line(1, 4, 7), Line(2, 5, 8),
    Line(0, 4, 8), Line(2, 4, 6)
  ]

  /** The test inside the loop of `checkWinner`: the three squares of line `k`
      are taken and hold the same symbol. */
  predicate Wins(b: Board, k: nat)
    requires k < |Lines|
  {
    var l := Lines[k];
    b[l.a].Some? && b[l.a] == b[l.b] && b[l.a] == b[l.c]
  }

  /** Line `j` is the first line of the table that wins. */
  ghost predicate FirstWinningLine(b: Board, j: nat) {
    && j < |Lines|
    && Wins(b, j)
    && forall m :: 0 <= m < j ==> !Wins(b, m)
  }

  /** The winner found by scanning the table from entry `k` on. */
  function WinnerFrom(b: Board, k: nat): Cell
    requires k <= |Lines|
    decreases |Lines| - k
  {
    if k == |Lines| then None
    else if Wins(b, k) then b[Lines[k].a]
    else WinnerFrom(b, k + 1)
  }

  /** `checkWinner(squares)` as a value: a winner is always the mark that
      fills some line of the table. */
  function Winner(b: Board): (r: Cell)
    ensures r.Some? ==> exists j: nat :: j < |Lines| && Wins(b, j) && r == b[Lines[j].a]
  {
    WinnerFromSpec(b, 0);
    if WinnerFrom(b, 0).Some? then
      FirstWinningLineExists(b, 0);
      WinnerFrom(b, 0)
    else
      None
  }

  lemma {:induction false} WinnerFromSpec(b: Board, k: nat)
    requires k <= |Lines|
    decreases |Lines| - k
    ensures WinnerFrom(b, k).None? <==> forall j :: k <= j < |Lines| ==> !Wins(b, j)
    ensures forall j :: k <= j < |Lines| && Wins(b, j) && (forall m :: k <= m < j ==> !Wins(b, m)) ==>
              WinnerFrom(b, k) == b[Lines[j].a]
  {
    if k < |Lines| {
      WinnerFromSpec(b, k + 1);
    }
  }

  /** The scan returns nothing exactly when no line wins; otherwise it
      returns the mark of the first winning line in table order. */
  lemma WinnerSpec(b: Board)
    ensures Winner(b).None? <==> forall j :: 0 <= j < |Lines| ==> !Wins(b, j)
    ensures forall j: nat :: FirstWinningLine(b, j) ==> Winner(b) == b[Lines[j].a]
    ensures Winner(b).Some? ==> exists j: nat :: FirstWinningLine(b, j) && Winner(b) == b[Lines[j].a]
  {
    WinnerFromSpec(b, 0);
    if Winner(b).Some? {
      FirstWinningLineExists(b, 0);
    }
  }

  /** Some line at or after `k` wins, so a first one among them exists. */
  lemma {:induction false} FirstWinningLineExists(b: Board, k: nat)
    requires k <= |Lines|
    requires forall m :: 0 <= m < k ==> !Wins(b, m)
    requires exists j :: k <= j < |Lines| && Wins(b, j)
    decreases |Lines| - k
    ensures exists j: nat :: FirstWinningLine(b, j)
  {
    if Wins(b, k) {
      assert FirstWinningLine(b, k);
    } else {
      FirstWinningLineExists(b, k + 1);
    }
  }

  /** `checkWinner`: the `for` loop over the table with its early return. */
  method CheckWinner(squares: Board) returns (r: Cell)
    ensures r == Winner(squares)
  {
    WinnerSpec(squares);
    for i := 0 to |Lines|
      invariant forall m :: 0 <= m < i ==> !Wins(squares, m)
    {
      var line := Lines[i];
      if squares[line.a].Some? && squares[line.a] == squares[line.b] && squares[line.a] == squares[line.c] {
        assert FirstWinningLine(squares, i);
        return squares[line.a];
      }
    }
    return None;
  }

  lemma EmptyHasNoWinner()
    ensures Winner(Empty) == None
  {
    WinnerSpec(Empty);
    forall j | 0 <= j < |Lines| ensures !Wins(Empty, j) {
      assert Empty[Lines[j].a] == None;
    }
  }

  /** A line filled with one symbol gives a winner, and that symbol when no
      earlier line wins. */
  lemma FilledLineWins(b: Board, k: nat, p: Player)
    requires k < |Lines|
    requires b[Lines[k].a] == b[Lines[k].b] == b[Lines[k].c] == Some(p)
    ensures Winner(b).Some?
    ensures (forall m :: 0 <= m < k ==> !Wins(b, m)) ==> Winner(b) == Some(p)
  {
    WinnerSpec(b);
    assert Wins(b, k);
    if forall m :: 0 <= m < k ==> !Wins(b, m) {
      assert FirstWinningLine(b, k);
    }
  }

  /** The empty board with only line `k` filled by `p` is won by `p`, for
      each of the eight lines. */
  lemma SingleLineWins(k: nat, p: Player)
    requires k < |Lines|
    ensures var l := Lines[k];
            Winner(Empty[l.a := Some(p)][l.b := Some(p)][l.c := Some(p)]) == Some(p)
  {
    var l := Lines[k];
    var b := Empty[l.a := Some(p)][l.b := Some(p)][l.c := Some(p)];
    FilledLineWins(b, k, p);
    WinnerSpec(b);
    assert forall j :: 0 <= j < SquareCount ==> b[j] == None || b[j] == Some(p);
  }

  /** Marking an empty square of a board that has no winner can only produce
      a winner through a line that contains that square, so the winner is the
      player who just moved. */
  lemma WinnerIsLastMover(b: Board, i: Square, p: Player)
    requires Winner(b).None?
    requires b[i].None?
    ensures Winner(b[i := Some(p)]).Some? ==> Winner(b[i := Some(p)]) == Some(p)
  {
    var nb := b[i := Some(p)];
    WinnerSpec(b);
    WinnerSpec(nb);
    if Winner(nb).Some? {
      var j: nat :| FirstWinningLine(nb, j) && Winner(nb) == nb[Lines[j].a];
      var l := Lines[j];
      assert !Wins(b, j);
      assert i == l.a || i == l.b || i == l.c;
      assert nb[l.a] == nb[i];
    }
  }

  // ---------------------------------------------------------------------------
  // Counting squares
  // ---------------------------------------------------------------------------

  /** The number of squares of `b` that hold `c`. */
  function CountOf(b: seq<Cell>, c: Cell): nat {
    if b == [] then 0 else (if b[0] == c then 1 else 0) + CountOf(b[1..], c)
  }

  lemma {:induction false} CountOfUpdate(b: seq<Cell>, i: nat, v: Cell, c: Cell)
    requires i < |b|
    ensures CountOf(b[i := v], c) == CountOf(b, c) - (if b[i] == c then 1 else 0) + (if v == c then 1 else 0)
  {
    if i == 0 {
      assert b[i := v][1..] == b[1..];
    } else {
      assert b[i := v][1..] == b[1..][i - 1 := v];
      CountOfUpdate(b[1..], i - 1, v, c);
    }
  }

  /** Every square is empty, X or O. */
  lemma {:induction false} CountPartition(b: seq<Cell>)
    ensures CountOf(b, None) + CountOf(b, Some(X)) + CountOf(b, Some(O)) == |b|
  {
    if b != [] {
      CountPartition(b[1..]);
      match b[0]
      case None =>
      case Some(X) =>
      case Some(O) =>
    }
  }

  /**
   * The shape of the board after `k` moves that alternate X, O, X, ...:
   * ceil(k/2) squares hold X, floor(k/2) hold O and the other 9 - k are empty.
   */
  ghost predicate Tally(b: Board, k: nat) {
    && CountOf(b, Some(X)) == (k + 1) / 2
    && CountOf(b, Some(O)) == k / 2
    && CountOf(b, None) == SquareCount - k
  }

  lemma TallyEmpty()
    ensures Tally(Empty, 0)
  {
  }

  /** A tallied board has exactly `k` taken squares, so at most 9 moves. */
  lemma TallyTaken(b: Board, k: nat)
    requires Tally(b, k)
    ensures k <= SquareCount
    ensures CountOf(b, Some(X)) + CountOf(b, Some(O)) == k
  {
    CountPartition(b);
  }

  /** The player to move after `k` moves taking an empty square gives the
      shape of the board after `k + 1` moves. */
  lemma TallyAfterPlace(b: Board, k: nat, i: Square)
    requires Tally(b, k)
    requires b[i].None?
    ensures Tally(b[i := Some(Mover(k))], k + 1)
  {
    var p := Mover(k);
    CountOfUpdate(b, i, Some(p), None);
    CountOfUpdate(b, i, Some(p), Some(X));
    CountOfUpdate(b, i, Some(p), Some(O));
  }

  // ---------------------------------------------------------------------------
  // The copy-and-mark step of handleClick
  // ---------------------------------------------------------------------------

  /** `const newSquares = squares.slice(); newSquares[i] = currPlayer;`:
      a fresh copy of the board with one square overwritten; `squares`
      itself is a value and stays as it was. */
  method Place(squares: Board, i: Square, currPlayer: Player) returns (newSquares: Board)
    ensures newSquares[i] == Some(currPlayer)
    ensures forall j :: 0 <= j < SquareCount && j != i ==> newSquares[j] == squares[j]
  {
    var copy := new Cell[SquareCount](j requires 0 <= j < SquareCount => squares[j]);
    copy[i] := Some(currPlayer);
    newSquares := copy[..];
  }
}
