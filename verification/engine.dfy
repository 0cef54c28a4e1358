/**
 * The engine session of engine.ts: the setup and request commands it sends, the running
 * depth maximum, and the `evaluate` message handler as a pure collector over the list of
 * messages received so far (most recent first, as `unshift` builds it).
 *
 * One request is active at a time: the single `onmessage` slot being overwritten by an
 * overlapping `evaluate` is outside this model.
 */
module Engine {
  import opened Wrappers
  import opened Text
  import opened EngineTypes
  import opened Protocol

  /** Commands sent once when the session is created. */
  const DefaultCommands: seq<string> := [
    "uci",
    "setoption name MultiPV value 1",
    "setoption name Hash value 256",
    "setoption name Ponder value true"
  ]

  /** Depth held by a fresh session. */
  const InitialDepth: int := 20

  /** Commands sent by `evaluate(fen, targetDepth)`. */
  function EvaluateCommands(fen: string, targetDepth: int): (cmds: seq<string>)
    ensures |cmds| == 2
    ensures StartsWith(cmds[0], "position fen ") && cmds[0][13..] == fen
    ensures StartsWith(cmds[1], "go depth ") && ParseInt(cmds[1][9..]) == Num(targetDepth)
  {
    var go := "go depth " + IntToString(targetDepth);
    assert go[9..] == IntToString(targetDepth);
    ParseIntOfIntToString(targetDepth);
    ["position fen " + fen, go]
  }

  /**
   * A message that ends a request: it starts with "bestmove", or "depth 0" occurs anywhere
   * in it (also inside "seldepth 0" or "depth 05").
   */
  predicate IsTerminal(m: string): (r: bool)
    ensures r <==> StartsWith(m, "bestmove") || exists i :: OccursAt(m, "depth 0", i)
  {
    ContainsIff(m, "depth 0");
    StartsWith(m, "bestmove") || Contains(m, "depth 0")
  }

  /**
   * Both ways a request ends: any `bestmove` answer, and the `info depth 0` line the engine
   * prints for a position with no legal move.
   */
  lemma TerminalMessages(move: string, rest: string)
    ensures IsTerminal("bestmove " + move)
    ensures IsTerminal("info depth 0" + rest)
  {
    var m := "info depth 0" + rest;
    assert OccursAt(m, "depth 0", 5);
  }

  /** Message `m` yields a usable line at the requested depth. */
  predicate Qualifies(m: string, targetDepth: int) {
    ParseInfo(m).Some? && ParseInfo(m).value.depth == targetDepth
  }

  /** The ids of all qualifying messages of the history. */
  function QualifyingIds(history: seq<string>, targetDepth: int): set<nat> {
    set i | 0 <= i < |history| && Qualifies(history[i], targetDepth) :: ParseInfo(history[i]).value.id
  }

  /** Reference definition of "last update wins": the most recent qualifying message with this id. */
  function MostRecent(history: seq<string>, targetDepth: int, id: nat): (r: Option<Info>)
    ensures r.Some? ==> r.value.id == id && r.value.depth == targetDepth
    ensures r.Some? <==> id in QualifyingIds(history, targetDepth)
    ensures r.Some? ==> r.value.score.kind == "cp" || r.value.score.kind == "mate"
  {
    if history == [] then None
    else
      QualifyingIdsCons(history, targetDepth);
      if Qualifies(history[0], targetDepth) && ParseInfo(history[0]).value.id == id then ParseInfo(history[0])
      else MostRecent(history[1..], targetDepth, id)
  }

  /** The qualifying ids of a history are those of its head and of its tail. */
  lemma QualifyingIdsCons(history: seq<string>, targetDepth: int)
    requires history != []
    ensures QualifyingIds(history, targetDepth) ==
            (if Qualifies(history[0], targetDepth) then {ParseInfo(history[0]).value.id} else {}) +
            QualifyingIds(history[1..], targetDepth)
  {
    var tail := history[1..];
    forall id | id in QualifyingIds(tail, targetDepth) ensures id in QualifyingIds(history, targetDepth) {
      var i :| 0 <= i < |tail| && Qualifies(tail[i], targetDepth) && ParseInfo(tail[i]).value.id == id;
      assert history[i + 1] == tail[i];
    }
    forall id | id in QualifyingIds(history, targetDepth) && id !in QualifyingIds(tail, targetDepth)
      ensures Qualifies(history[0], targetDepth) && id == ParseInfo(history[0]).value.id
    {
      var i :| 0 <= i < |history| && Qualifies(history[i], targetDepth) && ParseInfo(history[i]).value.id == id;
      assert i == 0;
    }
  }

  function IdsOf(infos: seq<Info>): (ids: set<nat>)
    ensures forall x :: x in infos ==> x.id in ids
    ensures forall id :: id in ids ==> exists x :: x in infos && x.id == id
  {
    if infos == [] then {} else {infos[0].id} + IdsOf(infos[1..])
  }

  predicate DistinctIds(infos: seq<Info>) {
    forall a, b :: 0 <= a < b < |infos| ==> infos[a].id != infos[b].id
  }

  /**
   * The source's loop over the filtered history: a qualifying message whose id has not
   * been taken yet is kept, any other message is skipped.
   */
  function Select(history: seq<string>, targetDepth: int, seen: set<nat>): (r: seq<Info>)
    ensures forall x :: x in r ==> x.depth == targetDepth && x.id !in seen
    ensures DistinctIds(r)
    ensures forall x :: x in r ==> MostRecent(history, targetDepth, x.id) == Some(x)
    ensures IdsOf(r) == QualifyingIds(history, targetDepth) - seen
  {
    if history == [] then []
    else
      var p := ParseInfo(history[0]);
      if p.Some? && p.value.depth == targetDepth && p.value.id !in seen then
        var rest := Select(history[1..], targetDepth, seen + {p.value.id});
        KeepStep(history, targetDepth, seen, rest);
        [p.value] + rest
      else
        var rest := Select(history[1..], targetDepth, seen);
        SkipStep(history, targetDepth, seen, rest);
        rest
  }

  /** Keeping the head message extends a selection of the tail to one of the whole history. */
  lemma KeepStep(history: seq<string>, targetDepth: int, seen: set<nat>, rest: seq<Info>)
    requires history != [] && Qualifies(history[0], targetDepth)
    requires ParseInfo(history[0]).value.id !in seen
    requires forall x :: x in rest ==> x.depth == targetDepth && x.id !in seen + {ParseInfo(history[0]).value.id}
    requires DistinctIds(rest)
    requires forall x :: x in rest ==> MostRecent(history[1..], targetDepth, x.id) == Some(x)
    requires IdsOf(rest) == QualifyingIds(history[1..], targetDepth) - (seen + {ParseInfo(history[0]).value.id})
    ensures var r := [ParseInfo(history[0]).value] + rest;
            && DistinctIds(r)
            && (forall x :: x in r ==> MostRecent(history, targetDepth, x.id) == Some(x))
            && IdsOf(r) == QualifyingIds(history, targetDepth) - seen
  {
    var p := ParseInfo(history[0]).value;
    ConsDistinct(p, rest);
    KeepStepMostRecent(history, targetDepth, p, rest);
    KeepStepIds(history, targetDepth, seen, p, rest);
  }

  /** Putting a line whose id the list lacks in front keeps the ids distinct. */
  lemma ConsDistinct(p: Info, rest: seq<Info>)
    requires DistinctIds(rest) && forall x :: x in rest ==> x.id != p.id
    ensures DistinctIds([p] + rest)
  {
    var r := [p] + rest;
    forall a, b | 0 <= a < b < |r| ensures r[a].id != r[b].id {
      assert r[b] == rest[b - 1];
      if a > 0 { assert r[a] == rest[a - 1]; } else { assert r[b] in rest; }
    }
  }

  /** Keeping the head adds its id to the ids selected from the tail. */
  lemma KeepStepIds(history: seq<string>, targetDepth: int, seen: set<nat>, p: Info, rest: seq<Info>)
    requires history != [] && ParseInfo(history[0]) == Some(p) && p.depth == targetDepth && p.id !in seen
    requires IdsOf(rest) == QualifyingIds(history[1..], targetDepth) - (seen + {p.id})
    ensures IdsOf([p] + rest) == QualifyingIds(history, targetDepth) - seen
  {
    assert ([p] + rest)[1..] == rest;
    assert IdsOf([p] + rest) == {p.id} + IdsOf(rest);
    QualifyingIdsCons(history, targetDepth);
  }

  /** The kept head is the most recent line for its id, and the tail's lines stay the most recent for theirs. */
  lemma KeepStepMostRecent(history: seq<string>, targetDepth: int, p: Info, rest: seq<Info>)
    requires history != [] && ParseInfo(history[0]) == Some(p) && p.depth == targetDepth
    requires forall x :: x in rest ==> x.id != p.id
    requires forall x :: x in rest ==> MostRecent(history[1..], targetDepth, x.id) == Some(x)
    ensures forall x :: x in [p] + rest ==> MostRecent(history, targetDepth, x.id) == Some(x)
  {
    assert Qualifies(history[0], targetDepth);
    forall x | x in [p] + rest ensures MostRecent(history, targetDepth, x.id) == Some(x) {
      if x != p {
        assert x in rest;
      }
    }
  }

  /** Skipping the head message keeps a selection of the tail a selection of the whole history. */
  lemma SkipStep(history: seq<string>, targetDepth: int, seen: set<nat>, rest: seq<Info>)
    requires history != []
    requires !Qualifies(history[0], targetDepth) || ParseInfo(history[0]).value.id in seen
    requires forall x :: x in rest ==> x.id !in seen
    requires forall x :: x in rest ==> MostRecent(history[1..], targetDepth, x.id) == Some(x)
    requires IdsOf(rest) == QualifyingIds(history[1..], targetDepth) - seen
    ensures forall x :: x in rest ==> MostRecent(history, targetDepth, x.id) == Some(x)
    ensures IdsOf(rest) == QualifyingIds(history, targetDepth) - seen
  {
    QualifyingIdsCons(history, targetDepth);
  }

  /** With distinct ids, the head's id is not among the tail's. */
  lemma HeadIdNotInTail(infos: seq<Info>)
    requires infos != [] && DistinctIds(infos)
    ensures infos[0].id !in IdsOf(infos[1..])
  {
    var tail := infos[1..];
    forall x | x in tail ensures x.id != infos[0].id {
      var b :| 0 <= b < |tail| && tail[b] == x;
      assert infos[b + 1] == x;
    }
  }

  /** A list with distinct ids has one id per element. */
  lemma {:induction false} DistinctIdsCount(infos: seq<Info>)
    requires DistinctIds(infos)
    ensures |IdsOf(infos)| == |infos|
  {
    if infos != [] {
      var tail := infos[1..];
      forall a, b | 0 <= a < b < |tail| ensures tail[a].id != tail[b].id {
        assert tail[a] == infos[a + 1] && tail[b] == infos[b + 1];
      }
      DistinctIdsCount(tail);
      HeadIdNotInTail(infos);
      assert IdsOf(infos) == {infos[0].id} + IdsOf(tail);
    }
  }

  /** Score normalised to White's point of view: negated when the FEN contains " b ". */
  function Normalize(e: Evaluation, fen: string): (r: Evaluation)
    ensures r.kind == e.kind
    ensures Contains(fen, " b ") ==> r.value == e.value.Negate()
    ensures !Contains(fen, " b ") ==> r == e
  {
    if Contains(fen, " b ") then Evaluation(e.kind, e.value.Negate()) else e
  }

  /**
   * For a FEN "placement active rest" whose later fields do not contain " b " (no castling,
   * en passant or move-count field does), the score is negated exactly when the active
   * colour, the field `isMyTurn` reads, is "b".
   */
  lemma NormalizeFollowsActiveColour(e: Evaluation, placement: string, active: string, rest: string)
    requires forall i :: 0 <= i < |placement| ==> placement[i] != ' '
    requires active == "w" || active == "b"
    requires |rest| > 0 && rest[0] == ' '
    requires !Contains(rest, " b ")
    ensures SecondField(placement + " " + active + rest) == Some(active)
    ensures Normalize(e, placement + " " + active + rest) ==
              if active == "b" then Evaluation(e.kind, e.value.Negate()) else e
  {
    SecondFieldOf(placement, active, rest);
    if active == "b" {
      assert placement + " " + active + rest == placement + " b" + rest;
      BlackMarkerAt(placement, rest);
    } else {
      assert placement + " " + active + rest == placement + " w" + rest;
      NoBlackMarker(placement, rest);
    }
  }

  /** With "b" as the active colour, " b " occurs right after the placement. */
  lemma BlackMarkerAt(placement: string, rest: string)
    requires |rest| > 0 && rest[0] == ' '
    ensures Contains(placement + " b" + rest, " b ")
  {
    var fen := placement + " b" + rest;
    assert fen[|placement|..|placement| + 3] == " b ";
    assert OccursAt(fen, " b ", |placement|);
    ContainsIff(fen, " b ");
  }

  /** With "w" as the active colour, " b " occurs nowhere when it is absent from the later fields. */
  lemma NoBlackMarker(placement: string, rest: string)
    requires forall i :: 0 <= i < |placement| ==> placement[i] != ' '
    requires !Contains(rest, " b ")
    ensures !Contains(placement + " w" + rest, " b ")
  {
    var fen := placement + " w" + rest;
    var n := |placement|;
    ContainsIff(rest, " b ");
    forall i ensures !OccursAt(fen, " b ", i) {
      if 0 <= i < n {
        assert fen[i] == placement[i];
      } else if n <= i < n + 2 {
        assert fen[n] == ' ' && fen[n + 1] == 'w';
      } else if n + 2 <= i {
        OccursInTail(placement + " w", rest, " b ", i);
      }
    }
    ContainsIff(fen, " b ");
  }

  /** A FEN cut after the active colour, "placement b", keeps the score: " b " needs a space after it. */
  lemma NormalizeTwoFieldFen(e: Evaluation, placement: string)
    requires forall i :: 0 <= i < |placement| ==> placement[i] != ' '
    ensures SecondField(placement + " b") == Some("b")
    ensures Normalize(e, placement + " b") == e
  {
    var fen := placement + " b";
    SecondFieldOf(placement, "b", []);
    assert fen == placement + " " + "b" + [];
    forall i ensures !OccursAt(fen, " b ", i) {
      if 0 <= i < |placement| {
        assert fen[i] == placement[i];
      }
    }
    ContainsIff(fen, " b ");
  }

  /** The line pushed for a kept message. */
  function Stamp(x: Info, fen: string, promotion: Option<string>): (l: EngineLine)
    ensures l.id == x.id && l.depth == x.depth && l.moveUCI == x.move
    ensures l.evaluation == Normalize(x.score, fen)
    ensures l.moveSAN == Substring(l.moveUCI, 2, 4)
    ensures l.promotion == promotion
  {
    EngineLine(x.id, x.depth, Normalize(x.score, fen), x.move, Substring(x.move, 2, 4), promotion)
  }

  /** `promotionMatch[3]` is read while `promotionMatch` is null: a TypeError, the promise is not resolved. */
  datatype CollectError = NullPromotionMatch

  /**
   * What the handler computes on a terminal message. The lines come from the messages
   * that start with "info depth", carry a `multipv` id, a depth and a move, and report the
   * target depth; per id the most recent message wins; every line carries the promotion
   * letter of the `bestmove` message. When that message does not match the `bestmove`
   * pattern and some line qualifies, the handler throws.
   */
  function Collect(fen: string, targetDepth: int, history: seq<string>, terminal: string)
    : (r: Result<seq<EngineLine>, CollectError>)
    ensures r.Err? <==> ParseBestMove(terminal).None? && QualifyingIds(history, targetDepth) != {}
    ensures r.Ok? ==> |r.value| == |QualifyingIds(history, targetDepth)|
    ensures r.Ok? ==> forall l :: l in r.value ==> l.depth == targetDepth
    ensures r.Ok? ==> forall a, b :: 0 <= a < b < |r.value| ==> r.value[a].id != r.value[b].id
    ensures r.Ok? ==> forall id :: id in QualifyingIds(history, targetDepth) <==> exists l :: l in r.value && l.id == id
    ensures r.Ok? ==> forall l :: l in r.value ==> FromMostRecent(history, targetDepth, fen, l)
    ensures r.Ok? && ParseBestMove(terminal).Some? ==>
              forall l :: l in r.value ==> l.promotion == ParseBestMove(terminal).value.promotion
  {
    var selected := Select(history, targetDepth, {});
    var bm := ParseBestMove(terminal);
    if bm.None? then
      if selected == [] then
        assert IdsOf(selected) == QualifyingIds(history, targetDepth) - {};
        Ok([])
      else
        assert selected[0].id in IdsOf(selected);
        Err(NullPromotionMatch)
    else
      var lines := StampAll(selected, fen, bm.value.promotion);
      CollectedLines(history, targetDepth, fen, bm.value.promotion, lines);
      Ok(lines)
  }

  /**
   * The selection keeps the history's order, newest first: it starts with the most recent
   * message that qualifies with an id not yet taken, and goes on with the selection of the
   * older messages, that id now taken. Applied again to the rest, this fixes every position.
   */
  lemma SelectFirst(history: seq<string>, targetDepth: int, seen: set<nat>, j: nat)
    requires j < |history| && Qualifies(history[j], targetDepth) && ParseInfo(history[j]).value.id !in seen
    requires forall i :: 0 <= i < j ==> !Qualifies(history[i], targetDepth) || ParseInfo(history[i]).value.id in seen
    ensures Select(history, targetDepth, seen) ==
              [ParseInfo(history[j]).value] + Select(history[j + 1..], targetDepth, seen + {ParseInfo(history[j]).value.id})
  {
    SelectSkipPrefix(history, targetDepth, seen, j);
    var h := history[j..];
    assert h[0] == history[j] && h[1..] == history[j + 1..];
    SelectHead(h, targetDepth, seen);
  }

  /** Messages the selection skips can be dropped from the front of the history. */
  lemma {:induction false} SelectSkipPrefix(history: seq<string>, targetDepth: int, seen: set<nat>, j: nat)
    requires j <= |history|
    requires forall i :: 0 <= i < j ==> !Qualifies(history[i], targetDepth) || ParseInfo(history[i]).value.id in seen
    ensures Select(history, targetDepth, seen) == Select(history[j..], targetDepth, seen)
  {
    if j > 0 {
      SelectSkip(history, targetDepth, seen);
      SkippedPrefixShift(history, targetDepth, seen, j);
      SelectSkipPrefix(history[1..], targetDepth, seen, j - 1);
    }
  }

  /** Dropping the first skipped message leaves one fewer skipped message in front. */
  lemma SkippedPrefixShift(history: seq<string>, targetDepth: int, seen: set<nat>, j: nat)
    requires 0 < j <= |history|
    requires forall i :: 0 <= i < j ==> !Qualifies(history[i], targetDepth) || ParseInfo(history[i]).value.id in seen
    ensures history[1..][j - 1..] == history[j..]
    ensures forall i :: 0 <= i < j - 1 ==>
              !Qualifies(history[1..][i], targetDepth) || ParseInfo(history[1..][i]).value.id in seen
  {
    var tail := history[1..];
    forall i | 0 <= i < j - 1
      ensures !Qualifies(tail[i], targetDepth) || ParseInfo(tail[i]).value.id in seen
    {
      assert tail[i] == history[i + 1];
    }
  }

  /** A qualifying head message with a new id is kept first, ahead of the tail's selection. */
  lemma SelectHead(history: seq<string>, targetDepth: int, seen: set<nat>)
    requires history != [] && Qualifies(history[0], targetDepth) && ParseInfo(history[0]).value.id !in seen
    ensures Select(history, targetDepth, seen) ==
              [ParseInfo(history[0]).value] + Select(history[1..], targetDepth, seen + {ParseInfo(history[0]).value.id})
  {
  }

  /** Any other head message is skipped. */
  lemma SelectSkip(history: seq<string>, targetDepth: int, seen: set<nat>)
    requires history != [] && (!Qualifies(history[0], targetDepth) || ParseInfo(history[0]).value.id in seen)
    ensures Select(history, targetDepth, seen) == Select(history[1..], targetDepth, seen)
  {
  }

  /**
   * The first collected line, the one an auto-move plays, is stamped from the most recent
   * qualifying message.
   */
  lemma CollectFirstLine(fen: string, targetDepth: int, history: seq<string>, terminal: string, j: nat)
    requires ParseBestMove(terminal).Some?
    requires j < |history| && Qualifies(history[j], targetDepth)
    requires forall i :: 0 <= i < j ==> !Qualifies(history[i], targetDepth)
    ensures Collect(fen, targetDepth, history, terminal).Ok?
    ensures Collect(fen, targetDepth, history, terminal).value != []
    ensures Collect(fen, targetDepth, history, terminal).value[0] ==
              Stamp(ParseInfo(history[j]).value, fen, ParseBestMove(terminal).value.promotion)
  {
    SelectFirst(history, targetDepth, {}, j);
  }

  /** The stamped selection has one line per qualifying id, each from the most recent message. */
  lemma CollectedLines(history: seq<string>, targetDepth: int, fen: string, promotion: Option<string>,
                       lines: seq<EngineLine>)
    requires lines == StampAll(Select(history, targetDepth, {}), fen, promotion)
    ensures |lines| == |QualifyingIds(history, targetDepth)|
    ensures forall l :: l in lines ==> l.depth == targetDepth && l.promotion == promotion
    ensures forall a, b :: 0 <= a < b < |lines| ==> lines[a].id != lines[b].id
    ensures forall id :: id in QualifyingIds(history, targetDepth) <==> exists l :: l in lines && l.id == id
    ensures forall l :: l in lines ==> FromMostRecent(history, targetDepth, fen, l)
  {
    var selected := Select(history, targetDepth, {});
    DistinctIdsCount(selected);
    assert IdsOf(selected) == QualifyingIds(history, targetDepth) - {};
    assert IdsOf(selected) == QualifyingIds(history, targetDepth);
    StampAllFacts(history, targetDepth, selected, fen, promotion);
  }

  /** Line `l` is the stamped form of the most recent qualifying message with its id. */
  predicate FromMostRecent(history: seq<string>, targetDepth: int, fen: string, l: EngineLine) {
    && l.id >= 0
    && MostRecent(history, targetDepth, l.id).Some?
    && l == Stamp(MostRecent(history, targetDepth, l.id).value, fen, l.promotion)
  }

  /** The lines pushed for the kept messages, in order. */
  function StampAll(selected: seq<Info>, fen: string, promotion: Option<string>): (lines: seq<EngineLine>)
    ensures |lines| == |selected|
    ensures forall k :: 0 <= k < |selected| ==> lines[k] == Stamp(selected[k], fen, promotion)
  {
    if selected == [] then [] else [Stamp(selected[0], fen, promotion)] + StampAll(selected[1..], fen, promotion)
  }

  /** Stamping keeps the ids, depths and "most recent" provenance of a selection. */
  lemma StampAllFacts(history: seq<string>, targetDepth: int, selected: seq<Info>, fen: string, promotion: Option<string>)
    requires forall x :: x in selected ==> x.depth == targetDepth
    requires DistinctIds(selected)
    requires forall x :: x in selected ==> MostRecent(history, targetDepth, x.id) == Some(x)
    ensures var lines := StampAll(selected, fen, promotion);
            && (forall l :: l in lines ==> l.depth == targetDepth && l.promotion == promotion)
            && (forall a, b :: 0 <= a < b < |lines| ==> lines[a].id != lines[b].id)
            && (forall id :: id in IdsOf(selected) <==> exists l :: l in lines && l.id == id)
            && (forall l :: l in lines ==> FromMostRecent(history, targetDepth, fen, l))
  {
    var lines := StampAll(selected, fen, promotion);
    forall l | l in lines
      ensures l.depth == targetDepth && l.promotion == promotion
      ensures FromMostRecent(history, targetDepth, fen, l)
    {
      var k :| 0 <= k < |lines| && lines[k] == l;
      assert selected[k] in selected;
    }
    forall id | id in IdsOf(selected) ensures exists l :: l in lines && l.id == id {
      var x :| x in selected && x.id == id;
      var k :| 0 <= k < |selected| && selected[k] == x;
      assert lines[k] in lines;
    }
    forall l | l in lines ensures l.id in IdsOf(selected) {
      var k :| 0 <= k < |lines| && lines[k] == l;
      assert selected[k] in selected;
    }
  }

  // ---------------------------------------------------------------------------------
  // The session and one request

  /** `depth` is the largest depth any message has reported; `sent` the commands posted. */
  datatype Session = Session(depth: int, sent: seq<string>)

  /** The state of the promise `evaluate` returned. */
  datatype Promise = Pending | Fulfilled(lines: seq<EngineLine>)

  /** One `evaluate` call: its arguments, the messages received so far and its promise. */
  datatype Request = Request(fen: string, targetDepth: int, messages: seq<string>, promise: Promise)

  datatype Step = Step(session: Session, request: Request)

  /** The constructor: depth 20 and the four setup commands. */
  function NewSession(): (s: Session)
    ensures s.depth == 20
    ensures s.sent == ["uci", "setoption name MultiPV value 1", "setoption name Hash value 256",
                       "setoption name Ponder value true"]
  {
    Session(InitialDepth, DefaultCommands)
  }

  /** `evaluate(fen, targetDepth)`: post the two request commands and start an empty request. */
  function Evaluate(s: Session, fen: string, targetDepth: int): (st: Step)
    ensures st.session.depth == s.depth
    ensures st.session.sent == s.sent + EvaluateCommands(fen, targetDepth)
    ensures st.request == Request(fen, targetDepth, [], Pending)
  {
    Step(Session(s.depth, s.sent + EvaluateCommands(fen, targetDepth)), Request(fen, targetDepth, [], Pending))
  }

  /**
   * The `onmessage` handler: record the message in front of the history, raise the
   * session depth to the reported depth, and on a terminal message resolve the promise
   * with the collected lines (a thrown handler, or an already settled promise, leaves the
   * promise as it was).
   */
  function OnMessage(s: Session, q: Request, m: string): (st: Step)
    ensures st.session.depth >= s.depth && st.session.depth >= ReportedDepth(m)
    ensures st.session.depth == s.depth || st.session.depth == ReportedDepth(m)
    ensures st.session.sent == s.sent
    ensures st.request.messages == [m] + q.messages
    ensures st.request.fen == q.fen && st.request.targetDepth == q.targetDepth
    ensures !IsTerminal(m) ==> st.request.promise == q.promise
    ensures q.promise.Fulfilled? ==> st.request.promise == q.promise
    ensures IsTerminal(m) && q.promise.Pending? ==>
              match Collect(q.fen, q.targetDepth, [m] + q.messages, m)
              case Ok(lines) => st.request.promise == Fulfilled(lines)
              case Err(_) => st.request.promise == Pending
  {
    var depth := if ReportedDepth(m) > s.depth then ReportedDepth(m) else s.depth;
    var messages := [m] + q.messages;
    var promise :=
      if IsTerminal(m) && q.promise.Pending? then
        match Collect(q.fen, q.targetDepth, messages, m)
        case Ok(lines) => Fulfilled(lines)
        case Err(_) => q.promise
      else q.promise;
    Step(Session(depth, s.sent), Request(q.fen, q.targetDepth, messages, promise))
  }

  /** Feed a sequence of messages, in arrival order, to the handler. */
  function Receive(s: Session, q: Request, ms: seq<string>): (st: Step)
    ensures st.session.depth >= s.depth
    ensures st.session.sent == s.sent
    ensures |st.request.messages| == |q.messages| + |ms|
    ensures q.promise.Fulfilled? ==> st.request.promise == q.promise
    decreases |ms|
  {
    if ms == [] then Step(s, q)
    else
      var first := OnMessage(s, q, ms[0]);
      Receive(first.session, first.request, ms[1..])
  }

  /** After a series of messages the session depth is at least every depth they reported. */
  lemma {:induction false} ReceiveDepths(s: Session, q: Request, ms: seq<string>)
    ensures forall k :: 0 <= k < |ms| ==> Receive(s, q, ms).session.depth >= ReportedDepth(ms[k])
    decreases |ms|
  {
    if ms != [] {
      var first := OnMessage(s, q, ms[0]);
      var rest := Receive(first.session, first.request, ms[1..]);
      assert Receive(s, q, ms) == rest;
      ReceiveDepths(first.session, first.request, ms[1..]);
      forall k | 1 <= k < |ms| ensures rest.session.depth >= ReportedDepth(ms[k]) {
        assert ms[k] == ms[1..][k - 1];
      }
    }
  }

  /** Without a terminal message the promise is left as it was. */
  lemma {:induction false} ReceiveQuiet(s: Session, q: Request, ms: seq<string>)
    requires forall k :: 0 <= k < |ms| ==> !IsTerminal(ms[k])
    ensures Receive(s, q, ms).request.promise == q.promise
    decreases |ms|
  {
    if ms != [] {
      var first := OnMessage(s, q, ms[0]);
      assert !IsTerminal(ms[0]);
      ReceiveQuiet(first.session, first.request, ms[1..]);
    }
  }

  /**
   * On a fresh session the engine has been sent the four setup commands and the two
   * request commands, in that order, and the session depth never falls below its initial
   * 20, whatever the engine sends.
   */
  lemma FreshSessionRequest(ms: seq<string>, fen: string, targetDepth: int)
    ensures var st := Evaluate(NewSession(), fen, targetDepth);
            var after := Receive(st.session, st.request, ms).session;
            && after.sent == DefaultCommands + EvaluateCommands(fen, targetDepth)
            && after.depth >= InitialDepth
  {
  }

  /** The history the handler holds after the first `j + 1` messages of `ms` arrived on top of `before`. */
  function HistoryAfter(before: seq<string>, ms: seq<string>, j: nat): seq<string>
    requires j < |ms|
  {
    Reverse(ms[..j + 1]) + before
  }

  /** Receiving the first message moves it from `ms` onto the history. */
  lemma HistoryShift(before: seq<string>, ms: seq<string>, j: nat)
    requires j + 1 < |ms|
    ensures HistoryAfter([ms[0]] + before, ms[1..], j) == HistoryAfter(before, ms, j + 1)
  {
    ReverseSplit(ms[..j + 2]);
    assert ms[..j + 2][1..] == ms[1..][..j + 1];
  }

  /** Every history of the tail, on top of the first message, is the matching history of the whole. */
  lemma HistoriesShift(before: seq<string>, ms: seq<string>, k: nat)
    requires 0 < k < |ms|
    ensures forall j :: 0 <= j <= k - 1 ==> HistoryAfter([ms[0]] + before, ms[1..], j) == HistoryAfter(before, ms, j + 1)
  {
    forall j | 0 <= j <= k - 1
      ensures HistoryAfter([ms[0]] + before, ms[1..], j) == HistoryAfter(before, ms, j + 1)
    {
      HistoryShift(before, ms, j);
    }
  }

  /**
   * Reference for when the promise settles: scanning the messages in arrival order, on
   * top of history `before`, the first terminal message whose collection succeeds.
   */
  function FirstSettlement(fen: string, targetDepth: int, before: seq<string>, ms: seq<string>): Promise
    decreases |ms|
  {
    if ms == [] then Pending
    else
      var history := [ms[0]] + before;
      if IsTerminal(ms[0]) && Collect(fen, targetDepth, history, ms[0]).Ok? then
        Fulfilled(Collect(fen, targetDepth, history, ms[0]).value)
      else FirstSettlement(fen, targetDepth, history, ms[1..])
  }

  /** A pending promise ends up exactly as the reference scan says. */
  lemma {:induction false} ReceiveSettles(s: Session, q: Request, ms: seq<string>)
    requires q.promise.Pending?
    ensures Receive(s, q, ms).request.promise == FirstSettlement(q.fen, q.targetDepth, q.messages, ms)
    decreases |ms|
  {
    if ms != [] {
      var first := OnMessage(s, q, ms[0]);
      ReceiveFirst(s, q, ms);
      var history := [ms[0]] + q.messages;
      if IsTerminal(ms[0]) && Collect(q.fen, q.targetDepth, history, ms[0]).Ok? {
        SettlesNow(s, q, ms[0]);
      } else {
        StaysPending(s, q, ms[0]);
        ReceiveSettles(first.session, first.request, ms[1..]);
      }
    }
  }

  /** Receiving a non-empty series is receiving its first message, then the rest. */
  lemma ReceiveFirst(s: Session, q: Request, ms: seq<string>)
    requires ms != []
    ensures Receive(s, q, ms) == Receive(OnMessage(s, q, ms[0]).session, OnMessage(s, q, ms[0]).request, ms[1..])
  {
  }

  /** A terminal message whose collection succeeds settles a pending promise with those lines. */
  lemma SettlesNow(s: Session, q: Request, m: string)
    requires q.promise.Pending? && IsTerminal(m) && Collect(q.fen, q.targetDepth, [m] + q.messages, m).Ok?
    ensures OnMessage(s, q, m).request.promise == Fulfilled(Collect(q.fen, q.targetDepth, [m] + q.messages, m).value)
  {
  }

  /** Any other message leaves a pending promise pending and records the message. */
  lemma StaysPending(s: Session, q: Request, m: string)
    requires q.promise.Pending? && (!IsTerminal(m) || Collect(q.fen, q.targetDepth, [m] + q.messages, m).Err?)
    ensures OnMessage(s, q, m).request == Request(q.fen, q.targetDepth, [m] + q.messages, Pending)
  {
  }

  /**
   * The scan settles on the first terminal message whose collection succeeds, with
   * exactly the lines collected at that point.
   */
  lemma {:induction false} FirstSettlementAt(fen: string, targetDepth: int, before: seq<string>, ms: seq<string>, k: nat)
    requires k < |ms| && IsTerminal(ms[k])
    requires Collect(fen, targetDepth, HistoryAfter(before, ms, k), ms[k]).Ok?
    requires forall j :: 0 <= j < k ==>
               (!IsTerminal(ms[j]) || Collect(fen, targetDepth, HistoryAfter(before, ms, j), ms[j]).Err?)
    ensures FirstSettlement(fen, targetDepth, before, ms) ==
            Fulfilled(Collect(fen, targetDepth, HistoryAfter(before, ms, k), ms[k]).value)
    decreases k
  {
    var next := [ms[0]] + before;
    assert HistoryAfter(before, ms, 0) == next;
    if k == 0 {
      SettlementHere(fen, targetDepth, before, ms);
    } else {
      SettlementSkip(fen, targetDepth, before, ms);
      NoEarlierSettlementShift(fen, targetDepth, before, ms, k);
      assert ms[1..][k - 1] == ms[k];
      FirstSettlementAt(fen, targetDepth, next, ms[1..], k - 1);
    }
  }

  /** The scan settles on a first message that is terminal and collects. */
  lemma SettlementHere(fen: string, targetDepth: int, before: seq<string>, ms: seq<string>)
    requires ms != [] && IsTerminal(ms[0]) && Collect(fen, targetDepth, [ms[0]] + before, ms[0]).Ok?
    ensures FirstSettlement(fen, targetDepth, before, ms) == Fulfilled(Collect(fen, targetDepth, [ms[0]] + before, ms[0]).value)
  {
  }

  /** The scan passes over a first message that is not terminal or whose collection throws. */
  lemma SettlementSkip(fen: string, targetDepth: int, before: seq<string>, ms: seq<string>)
    requires ms != [] && (!IsTerminal(ms[0]) || Collect(fen, targetDepth, [ms[0]] + before, ms[0]).Err?)
    ensures FirstSettlement(fen, targetDepth, before, ms) == FirstSettlement(fen, targetDepth, [ms[0]] + before, ms[1..])
  {
  }

  /** "No message before `k` settles" carries over to the scan after the first message. */
  lemma NoEarlierSettlementShift(fen: string, targetDepth: int, before: seq<string>, ms: seq<string>, k: nat)
    requires 0 < k < |ms|
    requires forall j :: 0 <= j < k ==>
               (!IsTerminal(ms[j]) || Collect(fen, targetDepth, HistoryAfter(before, ms, j), ms[j]).Err?)
    ensures HistoryAfter([ms[0]] + before, ms[1..], k - 1) == HistoryAfter(before, ms, k)
    ensures forall j :: 0 <= j < k - 1 ==>
              (!IsTerminal(ms[1..][j]) || Collect(fen, targetDepth, HistoryAfter([ms[0]] + before, ms[1..], j), ms[1..][j]).Err?)
  {
    HistoriesShift(before, ms, k);
    forall j | 0 <= j < k - 1
      ensures !IsTerminal(ms[1..][j]) || Collect(fen, targetDepth, HistoryAfter([ms[0]] + before, ms[1..], j), ms[1..][j]).Err?
    {
      assert ms[1..][j] == ms[j + 1];
    }
  }

  /**
   * The promise settles on the first terminal message whose collection succeeds, with
   * exactly the lines collected at that point.
   */
  lemma SettlesOnFirstSuccess(s: Session, q: Request, ms: seq<string>, k: nat)
    requires q.promise.Pending?
    requires k < |ms| && IsTerminal(ms[k])
    requires Collect(q.fen, q.targetDepth, HistoryAfter(q.messages, ms, k), ms[k]).Ok?
    requires forall j :: 0 <= j < k ==>
               (!IsTerminal(ms[j]) || Collect(q.fen, q.targetDepth, HistoryAfter(q.messages, ms, j), ms[j]).Err?)
    ensures Receive(s, q, ms).request.promise ==
            Fulfilled(Collect(q.fen, q.targetDepth, HistoryAfter(q.messages, ms, k), ms[k]).value)
  {
    ReceiveSettles(s, q, ms);
    FirstSettlementAt(q.fen, q.targetDepth, q.messages, ms, k);
  }

  /** The order `unshift` builds: the last received first. */
  function Reverse<T>(xs: seq<T>): (r: seq<T>)
    ensures |r| == |xs|
    ensures forall i :: 0 <= i < |xs| ==> r[i] == xs[|xs| - 1 - i]
  {
    if xs == [] then [] else Reverse(xs[1..]) + [xs[0]]
  }

  /** Reversing a non-empty list puts its head after the reversed tail. */
  lemma ReverseSplit<T>(xs: seq<T>)
    requires xs != []
    ensures Reverse(xs) == Reverse(xs[1..]) + [xs[0]]
  {
  }
}
