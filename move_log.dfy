/**
 * What the move log is meant to be: entry `k` names the square that was
 * played to go from board `k - 1` to board `k`, so that the move list can
 * label each board with its move. `handlePlay` cuts the history after the
 * displayed board but appends to the move log without cutting it, and
 * `resetBoard` keeps the log; after a jump back or a restart followed by a
 * new move, the log no longer describes the history. Cutting the log at the
 * same place as the history keeps it exact.
 */
module MoveLog {
  import opened Wrappers
  import opened Rules
  import opened HistoryView
  import opened GameState

  /** Entry `k` of `moves` is the empty square of board `k - 1` that the
      player to move took to give board `k`. */
  ghost predicate MovesTrack(history: seq<Board>, moves: seq<Option<Square>>) {
    && |history| <= |moves|
    && forall k :: 1 <= k < |history| ==>
         && moves[k].Some?
         && history[k - 1][moves[k].value].None?
         && history[k] == history[k - 1][moves[k].value := Some(Mover(k - 1))]
  }

  /** The log update that matches the history update:
      `[...moves.slice(0, moveIdx + 1), clickedSquare]`. */
  function TruncatedMoves(moves: seq<Option<Square>>, moveIdx: nat, i: Square): (r: seq<Option<Square>>)
    requires moveIdx < |moves|
    ensures |r| == moveIdx + 2 && r[..moveIdx + 1] == moves[..moveIdx + 1] && r[moveIdx + 1] == Some(i)
  {
    moves[..moveIdx + 1] + [Some(i)]
  }

  /** A game as far as X 0, O 1, X 2, a jump back to move 1 and O's click
      on square 5. The log tracks the history before the click; appending
      to it, as the code does, loses track, and the move list then labels
      the new board (0, 1), a square that is still empty there, instead of
      (1, 2). Cutting the log keeps track and gives the label (1, 2). */
  lemma AppendedMovesLoseTrack()
    ensures var b1 := Empty[0 := Some(X)];
            var history := [Empty, b1, b1[1 := Some(O)], b1[1 := Some(O)][2 := Some(X)]];
            var moves := [None, Some(0), Some(1), Some(2)];
            var played := PlayedHistory(history, 1, 5);
            && MovesTrack(history, moves)
            && !MovesTrack(played, AppendedMoves(moves, 5))
            && MoveList(|played|, AppendedMoves(moves, 5), 2, false)[2] == Some(MoveLabel(2, 0, 1, true))
            && played[2][0 * Size + 1] == None
            && MovesTrack(played, TruncatedMoves(moves, 1, 5))
            && MoveList(|played|, TruncatedMoves(moves, 1, 5), 2, false)[2] == Some(MoveLabel(2, 1, 2, true))
  {
    var b1 := Empty[0 := Some(X)];
    var history := [Empty, b1, b1[1 := Some(O)], b1[1 := Some(O)][2 := Some(X)]];
    var moves := [None, Some(0), Some(1), Some(2)];
    var played := PlayedHistory(history, 1, 5);
    assert played == [Empty, b1, b1[5 := Some(O)]];
    assert AppendedMoves(moves, 5)[2] == Some(1);
    assert played[2] != played[1][1 := Some(Mover(1))] by {
      assert played[2][1] == None;
    }
    MoveListOrder(|played|, AppendedMoves(moves, 5), 2, false);
    MoveListOrder(|played|, TruncatedMoves(moves, 1, 5), 2, false);
  }

  /** With the log cut like the history, a play keeps the log exact. */
  lemma TruncatedMovesKeepTrack(history: seq<Board>, moves: seq<Option<Square>>, moveIdx: nat, i: Square)
    requires moveIdx < |history|
    requires MovesTrack(history, moves)
    requires history[moveIdx][i].None?
    ensures MovesTrack(PlayedHistory(history, moveIdx, i), TruncatedMoves(moves, moveIdx, i))
  {
    var h := PlayedHistory(history, moveIdx, i);
    var m := TruncatedMoves(moves, moveIdx, i);
    forall k | 1 <= k < |h|
      ensures m[k].Some? && h[k - 1][m[k].value].None? && h[k] == h[k - 1][m[k].value := Some(Mover(k - 1))]
    {
      if k <= moveIdx {
        assert m[k] == moves[k];
      }
    }
  }

  /** A restart leaves a history of one board, which any log still
      describes; with the cut update, the next play then cuts the old
      entries off after index 0. */
  lemma ResetKeepsTrack(moves: seq<Option<Square>>)
    requires |moves| >= 1
    ensures MovesTrack([Empty], moves)
  {
  }

  /** While the log is exact, every move-list entry names the square in
      which its board differs from the one before: empty there before, the
      mover's mark after, everything else the same. */
  lemma TrackedLabelsNamePlayedSquare(history: seq<Board>, moves: seq<Option<Square>>, moveIdx: nat, isReversed: bool)
    requires MovesTrack(history, moves)
    ensures var ml := MoveList(|history|, moves, moveIdx, isReversed);
            forall p :: 0 <= p < |history| && ml[p].Some? ==>
              var l := ml[p].value;
              var sq := l.row * Size + l.col;
              && 1 <= l.idx < |history|
              && sq < SquareCount
              && history[l.idx - 1][sq].None?
              && history[l.idx] == history[l.idx - 1][sq := Some(Mover(l.idx - 1))]
  {
    LabelsLocateMove(|history|, moves, moveIdx, isReversed);
  }
}
