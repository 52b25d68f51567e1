/**
 * The move list of `Game`: `history.map(...)` builds one entry per history
 * index (null for index 0), each naming the row and column of the square
 * logged in `moves` for that index, marking the entry at `moveIdx` as the
 * current one, and the whole list is reversed when `isReversed` is set.
 */
module HistoryView {
  import opened Wrappers
  import opened Rules

  /** One list item. `current` is the "You're currently at (row, col)" text;
      otherwise the item is a "Go to (row, col)" button that calls `jumpTo(idx)`. */
  datatype MoveLabel = MoveLabel(idx: nat, row: nat, col: nat, current: bool)

  /** The entry the map callback returns for history index `idx`. JavaScript
      turns a null move into 0 in `Math.floor(null / size)` and `null % size`;
      a game never logs null past index 0, but the case is written as the code
      would evaluate it. */
  function Entry(moves: seq<Option<Square>>, moveIdx: nat, idx: nat): (r: Option<MoveLabel>)
    requires idx < |moves|
    ensures r.None? <==> idx == 0
    ensures r.Some? ==> && r.value.idx == idx
                        && r.value.row < Size && r.value.col < Size
                        && (moves[idx].Some? ==> r.value.row * Size + r.value.col == moves[idx].value)
                        && (r.value.current <==> idx == moveIdx)
  {
    if idx == 0 then None
    else
      var square := match moves[idx] case Some(sq) => sq case None => 0;
      Some(MoveLabel(idx, square / Size, square % Size, idx == moveIdx))
  }

  /** `history.map(...)` over a history of `n` boards. */
  function Ascending(n: nat, moves: seq<Option<Square>>, moveIdx: nat): (r: seq<Option<MoveLabel>>)
    requires n <= |moves|
    ensures |r| == n
    ensures forall idx :: 0 <= idx < n ==> (r[idx].None? <==> idx == 0)
    ensures forall idx :: 0 <= idx < n && r[idx].Some? ==> r[idx].value.idx == idx
  {
    seq(n, idx requires 0 <= idx < n => Entry(moves, moveIdx, idx))
  }

  /** `Array.prototype.reverse`. */
  function Reverse<T>(s: seq<T>): (r: seq<T>)
    ensures |r| == |s|
    ensures multiset(r) == multiset(s)
  {
    if s == [] then []
    else
      assert s == [s[0]] + s[1..];
      Reverse(s[1..]) + [s[0]]
  }

  lemma {:induction false} ReverseIndex<T>(s: seq<T>)
    ensures forall k :: 0 <= k < |s| ==> Reverse(s)[k] == s[|s| - 1 - k]
  {
    if s != [] {
      ReverseIndex(s[1..]);
    }
  }

  lemma ReverseReverse<T>(s: seq<T>)
    ensures Reverse(Reverse(s)) == s
  {
    ReverseIndex(s);
    ReverseIndex(Reverse(s));
  }

  /** The list as rendered: `moveList`, reversed when `isReversed`, so the
      entry of history index `idx` sits at position `idx` or `n - 1 - idx`. */
  function MoveList(n: nat, moves: seq<Option<Square>>, moveIdx: nat, isReversed: bool): (r: seq<Option<MoveLabel>>)
    requires n <= |moves|
    ensures |r| == n
    ensures forall p :: 0 <= p < n && r[p].Some? ==> r[p].value.idx == (if isReversed then n - 1 - p else p)
  {
    var asc := Ascending(n, moves, moveIdx);
    ReverseIndex(asc);
    if isReversed then Reverse(asc) else asc
  }

  /** Position `p` of the list is history index `p` in ascending order and
      `n - 1 - p` in descending order; index 0 has no entry. */
  lemma MoveListOrder(n: nat, moves: seq<Option<Square>>, moveIdx: nat, isReversed: bool)
    requires n <= |moves|
    ensures var ml := MoveList(n, moves, moveIdx, isReversed);
            forall p :: 0 <= p < n ==> ml[p] == Entry(moves, moveIdx, if isReversed then n - 1 - p else p)
    ensures var ml := MoveList(n, moves, moveIdx, isReversed);
            forall p :: 0 <= p < n ==> (ml[p].None? <==> p == (if isReversed then n - 1 else 0))
  {
    ReverseIndex(Ascending(n, moves, moveIdx));
  }

  /** Every entry names a history index after the first, and its row and
      column locate the logged square: `row * 3 + col == moves[idx]`. */
  lemma LabelsLocateMove(n: nat, moves: seq<Option<Square>>, moveIdx: nat, isReversed: bool)
    requires n <= |moves|
    ensures var ml := MoveList(n, moves, moveIdx, isReversed);
            forall p :: 0 <= p < n && ml[p].Some? ==>
              var l := ml[p].value;
              && 1 <= l.idx < n
              && l.row < Size && l.col < Size
              && (moves[l.idx].Some? ==> l.row * Size + l.col == moves[l.idx].value)
  {
    MoveListOrder(n, moves, moveIdx, isReversed);
  }

  /** Exactly the entry of `moveIdx` is marked current: there is one when
      `moveIdx` is a history index after the first, and never two. */
  lemma OneCurrentEntry(n: nat, moves: seq<Option<Square>>, moveIdx: nat, isReversed: bool)
    requires n <= |moves|
    ensures var ml := MoveList(n, moves, moveIdx, isReversed);
            forall p :: 0 <= p < n && ml[p].Some? ==> (ml[p].value.current <==> ml[p].value.idx == moveIdx)
    ensures var ml := MoveList(n, moves, moveIdx, isReversed);
            forall p, q ::
              (0 <= p < n && 0 <= q < n && ml[p].Some? && ml[q].Some? && ml[p].value.current && ml[q].value.current)
              ==> p == q
    ensures var ml := MoveList(n, moves, moveIdx, isReversed);
            (exists p :: 0 <= p < n && ml[p].Some? && ml[p].value.current) <==> 1 <= moveIdx < n
  {
    MoveListOrder(n, moves, moveIdx, isReversed);
    var ml := MoveList(n, moves, moveIdx, isReversed);
    if 1 <= moveIdx < n {
      var p := if isReversed then n - 1 - moveIdx else moveIdx;
      assert ml[p] == Entry(moves, moveIdx, moveIdx);
    }
  }

  /** Flipping the order reverses the displayed list; flipping it twice
      gives the list back. */
  lemma ToggleReverses(n: nat, moves: seq<Option<Square>>, moveIdx: nat, isReversed: bool)
    requires n <= |moves|
    ensures MoveList(n, moves, moveIdx, !isReversed) == Reverse(MoveList(n, moves, moveIdx, isReversed))
    ensures Reverse(Reverse(MoveList(n, moves, moveIdx, isReversed))) == MoveList(n, moves, moveIdx, isReversed)
  {
    ReverseReverse(Ascending(n, moves, moveIdx));
    ReverseReverse(MoveList(n, moves, moveIdx, isReversed));
  }
}
