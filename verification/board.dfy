/**
 * board.ts: whose turn it is, and the single suggestion arrow kept on the board.
 * The board widget is a value: its FEN, the colour the user plays and its markings.
 */
module Board {
  import opened Wrappers
  import opened Text
  import opened Classifications

  /** A board annotation: `type` "arrow" from one square to another in a colour. */
  datatype Marking = Marking(kind: string, color: string, from: string, to: string)

  /**
   * What `getBoard()?.game` exposes to this module: `getFEN()`, `getPlayingAs()`
   * (1 for White, 2 for Black, anything else or null otherwise) and the markings.
   */
  datatype BoardView = BoardView(fen: string, playingAs: Option<int>, markings: seq<Marking>)

  /** The FEN active-colour letter for the side the user plays, if it is White (1) or Black (2). */
  function PlayerColor(playingAs: Option<int>): (c: Option<string>)
    ensures c.Some? <==> playingAs == Some(1) || playingAs == Some(2)
    ensures c == Some("w") <==> playingAs == Some(1)
    ensures c == Some("b") <==> playingAs == Some(2)
  {
    if playingAs == Some(1) then Some("w")
    else if playingAs == Some(2) then Some("b")
    else None
  }

  /**
   * `isMyTurn()`: false without a board or with an empty FEN; true when the user's colour
   * is unknown; otherwise whether the second space-separated FEN field is that colour.
   */
  function IsMyTurn(board: Option<BoardView>): (r: bool)
    ensures board.None? || board.value.fen == "" ==> !r
    ensures board.Some? && board.value.fen != "" && PlayerColor(board.value.playingAs).None? ==> r
    ensures board.Some? && board.value.fen != "" && PlayerColor(board.value.playingAs).Some? ==>
              (r <==> SecondField(board.value.fen) == PlayerColor(board.value.playingAs))
  {
    match board
    case None => false
    case Some(b) =>
      if b.fen == "" then false
      else
        match PlayerColor(b.playingAs)
        case None => true
        case Some(c) => SecondField(b.fen) == Some(c)
  }

  /**
   * For a FEN laid out as placement, active colour and the remaining fields, it is the
   * user's turn exactly when the active colour is the user's colour.
   */
  lemma IsMyTurnReadsActiveColor(placement: string, active: string, rest: string,
                                 playingAs: int, markings: seq<Marking>)
    requires forall i :: 0 <= i < |placement| ==> placement[i] != ' '
    requires active == "w" || active == "b"
    requires rest == [] || rest[0] == ' '
    requires playingAs == 1 || playingAs == 2
    ensures IsMyTurn(Some(BoardView(placement + " " + active + rest, Some(playingAs), markings)))
            <==> (active == "w" <==> playingAs == 1)
  {
    SecondFieldOf(placement, active, rest);
  }

  /** `classificationColorMap[classification] || "#000000"`; the map is a parameter. */
  function ColorOf(palette: Classification -> Option<string>, c: Classification): (color: string)
    ensures color != ""
    ensures palette(c).Some? && palette(c).value != "" ==> color == palette(c).value
    ensures palette(c).None? || palette(c).value == "" ==> color == "#000000"
  {
    match palette(c)
    case Some(s) => if s == "" then "#000000" else s
    case None => "#000000"
  }

  /** `markings.removeOne(m)`: the first marking equal to `m` goes, the rest keep their order. */
  function RemoveOne(ms: seq<Marking>, m: Marking): (r: seq<Marking>)
    ensures multiset(r) == multiset(ms) - multiset{m}
    ensures |r| == if m in ms then |ms| - 1 else |ms|
  {
    if ms == [] then []
    else if ms[0] == m then
      assert ms == [ms[0]] + ms[1..];
      ms[1..]
    else
      assert ms == [ms[0]] + ms[1..];
      [ms[0]] + RemoveOne(ms[1..], m)
  }

  /** The board (if any) and the module-level `lastMark`. */
  datatype MarkState = MarkState(board: Option<BoardView>, lastMark: Option<Marking>)

  /** The arrow `createMark` draws for a move. */
  function Arrow(palette: Classification -> Option<string>, from: string, to: string, c: Classification): Marking {
    Marking("arrow", ColorOf(palette, c), from, to)
  }

  /**
   * `createMark(from, to, classification)`. On the user's turn the previous arrow is
   * removed and exactly one new arrow is added and remembered; otherwise every marking
   * is cleared and the remembered arrow stays as it was.
   */
  function CreateMark(st: MarkState, palette: Classification -> Option<string>,
                      from: string, to: string, c: Classification): (r: MarkState)
    ensures r.board.Some? <==> st.board.Some?
    ensures r.board.Some? ==> r.board.value.fen == st.board.value.fen && r.board.value.playingAs == st.board.value.playingAs
    ensures IsMyTurn(st.board) ==>
              && r.lastMark == Some(Arrow(palette, from, to, c))
              && multiset(r.board.value.markings) ==
                 multiset(st.board.value.markings)
                 - (if st.lastMark.Some? then multiset{st.lastMark.value} else multiset{})
                 + multiset{Arrow(palette, from, to, c)}
              && r.board.value.markings[|r.board.value.markings| - 1] == Arrow(palette, from, to, c)
    ensures !IsMyTurn(st.board) ==> r.lastMark == st.lastMark
    ensures !IsMyTurn(st.board) && st.board.Some? ==> r.board.value.markings == []
  {
    if IsMyTurn(st.board) then
      var b := st.board.value;
      var kept := if st.lastMark.Some? then RemoveOne(b.markings, st.lastMark.value) else b.markings;
      assert multiset(kept) == multiset(b.markings)
                               - (if st.lastMark.Some? then multiset{st.lastMark.value} else multiset{});
      var arrow := Arrow(palette, from, to, c);
      var markings := kept + [arrow];
      assert multiset(markings) == multiset(kept) + multiset{arrow};
      MarkState(Some(BoardView(b.fen, b.playingAs, markings)), Some(arrow))
    else
      match st.board
      case None => st
      case Some(b) => MarkState(Some(BoardView(b.fen, b.playingAs, [])), st.lastMark)
  }
}
