/**
 * The state of `Game` and the click handler of `Board`: the history of
 * boards, the log of clicked squares, the index of the displayed board, the
 * order of the move list and the popup slot, with `handleClick`,
 * `handlePlay`, `jumpTo`, `resetBoard`, `onReverse` and the popup's OK
 * button as methods. Each React state setter is an immediate assignment.
 */
module GameState {
  import opened Wrappers
  import opened Rules
  import opened HistoryView

  /** `popupContent`: a title and a message. */
  datatype Popup = Popup(title: string, message: string)

  /** The popup of a click on a won board: it names the winner first. */
  function GameOverPopup(winner: Player): (r: Popup)
    ensures r.title == "Game Over" && |r.message| > 1 && r.message[..1] == Symbol(winner)
  {
    Popup("Game Over", Symbol(winner) + " has won. Please restart to continue.")
  }

  const OccupiedPopup: Popup := Popup("Invalid action", "This square is occupied. Select a different square.")

  const GameEndedPopup: Popup := Popup("Invalid action", "Game has ended. Restart to continue.")

  /** The `status` line of `Board`: it says "Winner: " exactly when the
      board has a winner, and ends with the winner's symbol, or else with
      the next player's. */
  function Status(squares: Board, isX: bool): (s: string)
    ensures |s| > 8 && (s[..8] == "Winner: " <==> Winner(squares).Some?)
    ensures s[|s| - 1..] == Symbol(if Winner(squares).Some? then Winner(squares).value else if isX then X else O)
  {
    match Winner(squares)
    case Some(w) => "Winner: " + Symbol(w)
    case None =>
      var s := "Next player: " + Symbol(if isX then X else O);
      assert s[..8] == "Next pla";
      s
  }

  // ---------------------------------------------------------------------------
  // Invariants of the history, stated on values
  // ---------------------------------------------------------------------------

  /** Board `k` of the history holds `k` alternating marks. */
  ghost predicate Tallied(history: seq<Board>) {
    forall k :: 0 <= k < |history| ==> Tally(history[k], k)
  }

  /** No board but the last has a winner, and a winning last board is the
      displayed one and was won by the player who made the last move. */
  ghost predicate OnlyLastWon(history: seq<Board>, moveIdx: nat)
    requires 1 <= |history|
  {
    && (forall k :: 0 <= k < |history| - 1 ==> Winner(history[k]).None?)
    && (Winner(history[|history| - 1]).Some? ==>
          && moveIdx == |history| - 1
          && |history| >= 2
          && Winner(history[|history| - 1]) == Some(Mover(|history| - 2)))
  }

  /** `after` is `before` with one empty square marked for `Mover(k)`: the
      copy-and-mark step of `handleClick` at move `k`. */
  ghost predicate OneMoveApart(before: Board, after: Board, k: nat) {
    exists sq: Square :: before[sq].None? && after == before[sq := Some(Mover(k))]
  }

  /** Each board after the first comes from the one before by one move. */
  ghost predicate Successive(history: seq<Board>) {
    forall k :: 1 <= k < |history| ==> OneMoveApart(history[k - 1], history[k], k - 1)
  }

  /** What every reachable history satisfies: it starts with the empty
      board, each later board is one move on from the one before, `moveIdx`
      points into it, it is tallied and only its last board may be won. */
  ghost predicate HistoryInvariant(history: seq<Board>, moveIdx: nat) {
    && 1 <= |history|
    && history[0] == Empty
    && Successive(history)
    && moveIdx < |history|
    && Tallied(history)
    && OnlyLastWon(history, moveIdx)
  }

  /** The tallies follow from the moves: a history that starts empty and
      goes on by single moves holds `k` alternating marks on board `k`. */
  lemma {:induction false} SuccessiveTallied(history: seq<Board>, k: nat)
    requires 1 <= |history| && history[0] == Empty && Successive(history)
    requires k < |history|
    ensures Tally(history[k], k)
  {
    if k == 0 {
      TallyEmpty();
    } else {
      SuccessiveTallied(history, k - 1);
      assert OneMoveApart(history[k - 1], history[k], k - 1);
      var sq: Square :| history[k - 1][sq].None? && history[k] == history[k - 1][sq := Some(Mover(k - 1))];
      TallyAfterPlace(history[k - 1], k - 1, sq);
    }
  }

  /** The move log: `moves[0]` is null, every later entry is a square, and
      the log is never shorter than the history. */
  ghost predicate MovesInvariant(history: seq<Board>, moves: seq<Option<Square>>) {
    && 0 < |moves|
    && |history| <= |moves|
    && moves[0] == None
    && forall k :: 1 <= k < |moves| ==> moves[k].Some?
  }

  /** `[...history.slice(0, moveIdx + 1), newSquares]` where `newSquares` is
      the displayed board with square `i` marked for the player to move. */
  function PlayedHistory(history: seq<Board>, moveIdx: nat, i: Square): (r: seq<Board>)
    requires moveIdx < |history|
    ensures |r| == moveIdx + 2
    ensures forall k :: 0 <= k <= moveIdx ==> r[k] == history[k]
    ensures r[moveIdx + 1] == history[moveIdx][i := Some(Mover(moveIdx))]
  {
    history[..moveIdx + 1] + [history[moveIdx][i := Some(Mover(moveIdx))]]
  }

  lemma InitialHistoryInvariant()
    ensures HistoryInvariant([Empty], 0)
  {
    TallyEmpty();
    EmptyHasNoWinner();
  }

  /** A history whose second board does not come from the first by one move
      is not successive: X on square 0 cannot turn into X on square 1. */
  lemma UnplayableHistoryRejected()
    ensures !Successive([Empty, Empty[0 := Some(X)], Empty[1 := Some(X)][2 := Some(O)]])
    ensures !HistoryInvariant([Empty, Empty[0 := Some(X)], Empty[1 := Some(X)][2 := Some(O)]], 2)
  {
    var before := Empty[0 := Some(X)];
    var after := Empty[1 := Some(X)][2 := Some(O)];
    forall sq: Square | before[sq].None?
      ensures after != before[sq := Some(Mover(1))]
    {
      assert before[sq := Some(Mover(1))][0] == Some(X) != after[0];
    }
    var h := [Empty, before, after];
    assert h[2 - 1] == before && h[2] == after;
    assert !OneMoveApart(h[2 - 1], h[2], 2 - 1);
  }

  lemma PlayKeepsSuccessive(history: seq<Board>, moveIdx: nat, i: Square)
    requires moveIdx < |history| && Successive(history)
    requires history[moveIdx][i].None?
    ensures Successive(PlayedHistory(history, moveIdx, i))
  {
    var r := PlayedHistory(history, moveIdx, i);
    forall k | 1 <= k < |r|
      ensures OneMoveApart(r[k - 1], r[k], k - 1)
    {
      if k <= moveIdx {
        assert r[k - 1] == history[k - 1] && r[k] == history[k];
        assert OneMoveApart(history[k - 1], history[k], k - 1);
      } else {
        assert r[k - 1][i].None? && r[k] == r[k - 1][i := Some(Mover(k - 1))];
      }
    }
  }

  lemma PlayKeepsTallied(history: seq<Board>, moveIdx: nat, i: Square)
    requires moveIdx < |history| && Tallied(history)
    requires history[moveIdx][i].None?
    ensures Tallied(PlayedHistory(history, moveIdx, i))
  {
    TallyAfterPlace(history[moveIdx], moveIdx, i);
  }

  lemma PlayKeepsOnlyLastWon(history: seq<Board>, moveIdx: nat, i: Square)
    requires moveIdx < |history| && OnlyLastWon(history, moveIdx)
    requires Winner(history[moveIdx]).None?
    requires history[moveIdx][i].None?
    ensures OnlyLastWon(PlayedHistory(history, moveIdx, i), moveIdx + 1)
  {
    WinnerIsLastMover(history[moveIdx], i, Mover(moveIdx));
  }

  /** A play on an empty square of a board without a winner keeps the
      invariant, with `moveIdx` on the new last board. */
  lemma PlayKeepsHistoryInvariant(history: seq<Board>, moveIdx: nat, i: Square)
    requires HistoryInvariant(history, moveIdx)
    requires Winner(history[moveIdx]).None?
    requires history[moveIdx][i].None?
    ensures HistoryInvariant(PlayedHistory(history, moveIdx, i), moveIdx + 1)
  {
    PlayKeepsSuccessive(history, moveIdx, i);
    PlayKeepsTallied(history, moveIdx, i);
    PlayKeepsOnlyLastWon(history, moveIdx, i);
  }

  /** While the displayed board has no winner, no board of the history has
      one, so `moveIdx` may move to any index of the history. */
  lemma JumpKeepsHistoryInvariant(history: seq<Board>, moveIdx: nat, idx: nat)
    requires HistoryInvariant(history, moveIdx)
    requires Winner(history[moveIdx]).None?
    requires idx < |history|
    ensures HistoryInvariant(history, idx)
    ensures forall k :: 0 <= k < |history| ==> Winner(history[k]).None?
  {
  }

  /** A game lasts at most nine moves, and board `k` has exactly `k` taken
      squares. */
  lemma HistoryLength(history: seq<Board>, moveIdx: nat)
    requires HistoryInvariant(history, moveIdx)
    ensures |history| <= SquareCount + 1
    ensures forall k :: 0 <= k < |history| ==> CountOf(history[k], Some(X)) + CountOf(history[k], Some(O)) == k
  {
    forall k | 0 <= k < |history|
      ensures CountOf(history[k], Some(X)) + CountOf(history[k], Some(O)) == k
    {
      TallyTaken(history[k], k);
    }
    TallyTaken(history[|history| - 1], |history| - 1);
  }

  /** The log update as written in `handlePlay`: `[...moves, clickedSquare]`,
      which keeps every entry, also those of boards cut from the history. */
  function AppendedMoves(moves: seq<Option<Square>>, i: Square): (r: seq<Option<Square>>)
    ensures |r| == |moves| + 1 && r[..|moves|] == moves && r[|moves|] == Some(i)
  {
    moves + [Some(i)]
  }

  // ---------------------------------------------------------------------------
  // The component state
  // ---------------------------------------------------------------------------

  class Game {
    var history: seq<Board>
    var moves: seq<Option<Square>>
    var moveIdx: nat
    var isReversed: bool
    var popup: Option<Popup>

    ghost predicate Valid()
      reads this
    {
      HistoryInvariant(history, moveIdx) && MovesInvariant(history, moves)
    }

    /** `currSquares`: the displayed board, which holds `moveIdx` marks and
        can only be won when it is the last board. */
    function CurrSquares(): (r: Board)
      reads this
      requires Valid()
      ensures Tally(r, moveIdx)
      ensures Winner(r).Some? ==> moveIdx == |history| - 1
    {
      history[moveIdx]
    }

    /** `isXNext`: X is to move exactly when `Mover` names X, which on a
        reachable board is exactly when X and O hold as many squares. */
    function IsXNext(): (r: bool)
      reads this
      ensures r <==> Mover(moveIdx) == X
      ensures Valid() ==> (r <==> CountOf(history[moveIdx], Some(X)) == CountOf(history[moveIdx], Some(O)))
    {
      moveIdx % 2 == 0
    }

    /** The status line rendered above the board: the next player is the
        one to move, and a winner is the player who made the last move. */
    function StatusLine(): (r: string)
      reads this
      requires Valid()
      ensures Winner(CurrSquares()).None? ==> r == "Next player: " + Symbol(Mover(moveIdx))
      ensures Winner(CurrSquares()).Some? ==> 1 <= moveIdx && r == "Winner: " + Symbol(Mover(moveIdx - 1))
    {
      Status(CurrSquares(), IsXNext())
    }

    /** `moveList` as rendered, shown when `history.length > 1`: one position
        per board, and the entry at `moveIdx` is the current one. */
    function ShownMoveList(): (r: seq<Option<MoveLabel>>)
      reads this
      requires Valid()
      ensures |r| == |history|
      ensures 1 <= moveIdx ==>
                var p := if isReversed then |history| - 1 - moveIdx else moveIdx;
                r[p].Some? && r[p].value.idx == moveIdx && r[p].value.current
    {
      MoveListOrder(|history|, moves, moveIdx, isReversed);
      MoveList(|history|, moves, moveIdx, isReversed)
    }

    /** `ordering`, the caption of the order button: "Descending" exactly
        when the list is reversed, and "Ascending" exactly when the list
        is `history.map(...)` as built. */
    function Ordering(): (r: string)
      reads this
      ensures r == "Descending" <==> isReversed
      ensures r == "Ascending" <==> !isReversed
      ensures Valid() && r == "Ascending" ==> ShownMoveList() == Ascending(|history|, moves, moveIdx)
    {
      if isReversed then "Descending" else "Ascending"
    }

    /** On a reachable state every entry of the move list names a logged
        square, and its row and column locate that square. */
    lemma LabelsLocateLoggedMove()
      requires Valid()
      ensures var ml := ShownMoveList();
              forall p :: 0 <= p < |ml| && ml[p].Some? ==>
                var l := ml[p].value;
                && 1 <= l.idx < |history| <= |moves|
                && moves[l.idx].Some?
                && l.row * Size + l.col == moves[l.idx].value
    {
      LabelsLocateMove(|history|, moves, moveIdx, isReversed);
    }

    /** The initial `useState` values. */
    constructor ()
      ensures Valid()
      ensures history == [Empty] && moves == [None] && moveIdx == 0
      ensures !isReversed && popup == None
    {
      history := [Empty];
      moveIdx := 0;
      isReversed := false;
      moves := [None];
      popup := None;
      InitialHistoryInvariant();
    }

    /** `handlePlay(newSquares, clickedSquare)`: cut the history after the
        displayed board, append the new board and show it; the move log is
        appended to without being cut. */
    method HandlePlay(newSquares: Board, clickedSquare: Square)
      requires Valid()
      requires Winner(CurrSquares()).None? && CurrSquares()[clickedSquare].None?
      requires newSquares == CurrSquares()[clickedSquare := Some(Mover(moveIdx))]
      modifies this
      ensures Valid()
      ensures history == old(history[..moveIdx + 1]) + [newSquares]
      ensures moveIdx == old(moveIdx) + 1 == |history| - 1
      ensures moves == AppendedMoves(old(moves), clickedSquare)
      ensures isReversed == old(isReversed) && popup == old(popup)
    {
      PlayKeepsHistoryInvariant(history, moveIdx, clickedSquare);
      var nextHistory := history[..moveIdx + 1] + [newSquares];
      var nextMoves := AppendedMoves(moves, clickedSquare);
      history := nextHistory;
      moveIdx := |nextHistory| - 1;
      moves := nextMoves;
    }

    /** `Board.handleClick(i)`: a won board or a taken square only raises a
        popup, the winner check first; otherwise the player to move marks a
        copy of the board and the play is recorded. */
    method Click(i: Square)
      requires Valid()
      modifies this
      ensures Valid()
      ensures isReversed == old(isReversed)
      ensures old(Winner(CurrSquares())).Some? ==>
                && history == old(history) && moves == old(moves) && moveIdx == old(moveIdx)
                && popup == Some(GameOverPopup(old(Winner(CurrSquares())).value))
      ensures old(Winner(CurrSquares())).None? && old(CurrSquares()[i]).Some? ==>
                && history == old(history) && moves == old(moves) && moveIdx == old(moveIdx)
                && popup == Some(OccupiedPopup)
      ensures old(Winner(CurrSquares())).None? && old(CurrSquares()[i]).None? ==>
                && history == PlayedHistory(old(history), old(moveIdx), i)
                && history[|history| - 1] == old(CurrSquares())[i := Some(Mover(old(moveIdx)))]
                && moveIdx == old(moveIdx) + 1 == |history| - 1
                && moves == AppendedMoves(old(moves), i)
                && popup == old(popup)
    {
      var squares := history[moveIdx];
      var winner := CheckWinner(squares);
      if winner.Some? {
        popup := Some(GameOverPopup(winner.value));
        return;
      }
      if squares[i].Some? {
        popup := Some(OccupiedPopup);
        return;
      }
      var currPlayer := if IsXNext() then X else O;
      var newSquares := Place(squares, i, currPlayer);
      assert newSquares == squares[i := Some(Mover(moveIdx))];
      HandlePlay(newSquares, i);
    }

    /** `jumpTo(idx)`, called from a "Go to" button, so `idx` is an index of
        the history: refused with a popup once the displayed board is won. */
    method JumpTo(idx: nat)
      requires Valid()
      requires idx < |history|
      modifies this
      ensures Valid()
      ensures history == old(history) && moves == old(moves) && isReversed == old(isReversed)
      ensures old(Winner(CurrSquares())).Some? ==> moveIdx == old(moveIdx) && popup == Some(GameEndedPopup)
      ensures old(Winner(CurrSquares())).None? ==> moveIdx == idx && popup == old(popup)
    {
      var winner := CheckWinner(history[moveIdx]);
      if winner.Some? {
        popup := Some(GameEndedPopup);
        return;
      }
      JumpKeepsHistoryInvariant(history, moveIdx, idx);
      moveIdx := idx;
    }

    /** `resetBoard()`: a history of one empty board, displayed; the move
        log, the popup and the order are left as they are. */
    method ResetBoard()
      requires Valid()
      modifies this
      ensures Valid()
      ensures history == [Empty] && moveIdx == 0
      ensures IsXNext() && Winner(CurrSquares()).None?
      ensures moves == old(moves) && popup == old(popup) && isReversed == old(isReversed)
    {
      InitialHistoryInvariant();
      var newHistory := [Empty];
      history := newHistory;
      moveIdx := |newHistory| - 1;
    }

    /** `onReverse()`: flip the order of the move list. */
    method OnReverse()
      requires Valid()
      modifies this
      ensures Valid()
      ensures isReversed == !old(isReversed)
      ensures history == old(history) && moves == old(moves) && moveIdx == old(moveIdx) && popup == old(popup)
      ensures ShownMoveList() == Reverse(old(ShownMoveList()))
      ensures Ordering() != old(Ordering())
    {
      ToggleReverses(|history|, moves, moveIdx, isReversed);
      isReversed := !isReversed;
    }

    /** The popup's OK button: `setPopupContent(null)`. */
    method Dismiss()
      requires Valid()
      modifies this
      ensures Valid()
      ensures popup == None
      ensures history == old(history) && moves == old(moves) && moveIdx == old(moveIdx) && isReversed == old(isReversed)
    {
      popup := None;
    }
  }
}
