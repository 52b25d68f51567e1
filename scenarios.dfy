/** Whole games played through the `Game` object, from a fresh component. */
module Scenarios {
  import opened Wrappers
  import opened Rules
  import opened HistoryView
  import opened GameState

  /**
   * X takes 0, O takes 1, X takes 4, O takes 2, X takes 8: the diagonal
   * 0-4-8 wins for X. A further click only raises the "Game Over" popup, and
   * a jump back to move 1 is refused with the "Game has ended" popup.
   */
  method DiagonalWin() returns (status: string, afterClick: Option<Popup>, afterJump: Option<Popup>, shown: nat)
    ensures status == "Winner: X"
    ensures afterClick == Some(GameOverPopup(X))
    ensures afterJump == Some(GameEndedPopup) && shown == 5
  {
    var g := new Game();
    PlayDiagonal(g);
    assert Winner(g.CurrSquares()) == Some(X);
    status := g.StatusLine();
    assert status == "Winner: " + Symbol(X);
    g.Click(5);
    afterClick := g.popup;
    g.JumpTo(1);
    afterJump := g.popup;
    shown := g.moveIdx;
  }

  /** The five moves of the diagonal game, from a fresh board. */
  method PlayDiagonal(g: Game)
    requires g.Valid() && g.history == [Empty] && g.moveIdx == 0
    modifies g
    ensures g.Valid() && g.moveIdx == 5 == |g.history| - 1
    ensures g.CurrSquares() == [Some(X), Some(O), Some(O), None, Some(X), None, None, None, Some(X)]
    ensures Winner(g.CurrSquares()) == Some(X)
  {
    PlayDiagonalOpening(g);
    Play(g, 2);
    assert g.CurrSquares() == [Some(X), Some(O), Some(O), None, Some(X), None, None, None, None];
    Unwon(g.CurrSquares());
    Play(g, 8);
    assert g.CurrSquares() == [Some(X), Some(O), Some(O), None, Some(X), None, None, None, Some(X)];
    assert !Wins(g.CurrSquares(), 0) && !Wins(g.CurrSquares(), 1) && !Wins(g.CurrSquares(), 2);
    assert !Wins(g.CurrSquares(), 3) && !Wins(g.CurrSquares(), 4) && !Wins(g.CurrSquares(), 5);
    FilledLineWins(g.CurrSquares(), 6, X);
  }

  /** X 0, O 1, X 4 from a fresh board. */
  method PlayDiagonalOpening(g: Game)
    requires g.Valid() && g.history == [Empty] && g.moveIdx == 0
    modifies g
    ensures g.Valid() && g.moveIdx == 3 == |g.history| - 1
    ensures g.CurrSquares() == [Some(X), Some(O), None, None, Some(X), None, None, None, None]
    ensures Winner(g.CurrSquares()) == None
  {
    Unwon(Empty);
    Play(g, 0);
    assert g.CurrSquares() == [Some(X), None, None, None, None, None, None, None, None];
    Unwon(g.CurrSquares());
    Play(g, 1);
    assert g.CurrSquares() == [Some(X), Some(O), None, None, None, None, None, None, None];
    Unwon(g.CurrSquares());
    Play(g, 4);
    assert g.CurrSquares() == [Some(X), Some(O), None, None, Some(X), None, None, None, None];
    Unwon(g.CurrSquares());
  }

  /** One successful click on the last board of the history. */
  method Play(g: Game, i: Square)
    requires g.Valid() && g.moveIdx == |g.history| - 1
    requires Winner(g.CurrSquares()) == None && g.CurrSquares()[i] == None
    modifies g
    ensures g.Valid() && g.moveIdx == old(g.moveIdx) + 1 == |g.history| - 1
    ensures g.CurrSquares() == old(g.CurrSquares())[i := Some(Mover(old(g.moveIdx)))]
    ensures g.history[..|g.history| - 1] == old(g.history) && g.moves == old(g.moves) + [Some(i)]
    ensures g.isReversed == old(g.isReversed)
  {
    g.Click(i);
  }

  /** A board none of whose eight lines is taken by one player has no winner. */
  lemma Unwon(b: Board)
    requires !Wins(b, 0) && !Wins(b, 1) && !Wins(b, 2) && !Wins(b, 3)
    requires !Wins(b, 4) && !Wins(b, 5) && !Wins(b, 6) && !Wins(b, 7)
    ensures Winner(b) == None
  {
    WinnerSpec(b);
    forall j | 0 <= j < |Lines| ensures !Wins(b, j) {
      assert j == 0 || j == 1 || j == 2 || j == 3 || j == 4 || j == 5 || j == 6 || j == 7;
    }
  }

  /** Clicking square 0 after X took it raises the "occupied" popup and
      leaves the history as it was. */
  method OccupiedSquare() returns (historyLength: nat, board: Board, shownPopup: Option<Popup>)
    ensures historyLength == 2 && board == Empty[0 := Some(X)]
    ensures shownPopup == Some(OccupiedPopup)
  {
    var g := new Game();
    g.Click(0);
    g.Click(0);
    historyLength := |g.history|;
    board := g.CurrSquares();
    shownPopup := g.popup;
  }

  /**
   * X 0, O 1, X 2, then a jump back to move 1 and O's click on square 5
   * (row 1, column 2). The history is cut to three boards, but the move log
   * keeps every click, so the current entry of the move list reads (0, 1):
   * the square O took in the discarded branch, still empty on the board it
   * labels.
   */
  method StaleMoveLabel() returns (entry: Option<MoveLabel>, board: Board)
    ensures board == Empty[0 := Some(X)][5 := Some(O)]
    ensures entry == Some(MoveLabel(2, 0, 1, true))
    ensures board[entry.value.row * Size + entry.value.col] == None
  {
    var g := new Game();
    PlayThree(g);
    g.JumpTo(1);
    assert g.CurrSquares() == [Some(X), None, None, None, None, None, None, None, None];
    g.Click(5);
    assert g.moves == [None, Some(0), Some(1), Some(2), Some(5)];
    MoveListOrder(|g.history|, g.moves, g.moveIdx, g.isReversed);
    entry := g.ShownMoveList()[2];
    board := g.CurrSquares();
  }

  /** X 0, O 1, X 2 from a fresh game. */
  method PlayThree(g: Game)
    requires g.Valid() && g.history == [Empty] && g.moveIdx == 0 && g.moves == [None] && !g.isReversed
    modifies g
    ensures g.Valid() && |g.history| == 4 && g.moveIdx == 3
    ensures g.history[1] == [Some(X), None, None, None, None, None, None, None, None]
    ensures Winner(g.CurrSquares()) == None
    ensures g.moves == [None, Some(0), Some(1), Some(2)] && !g.isReversed
  {
    Unwon(Empty);
    Play(g, 0);
    assert g.CurrSquares() == [Some(X), None, None, None, None, None, None, None, None];
    Unwon(g.CurrSquares());
    Play(g, 1);
    assert g.CurrSquares() == [Some(X), Some(O), None, None, None, None, None, None, None];
    Unwon(g.CurrSquares());
    Play(g, 2);
    assert g.CurrSquares() == [Some(X), Some(O), Some(X), None, None, None, None, None, None];
    Unwon(g.CurrSquares());
  }
}
