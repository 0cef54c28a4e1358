/**
 * index.ts: the render-loop tick that detects a new position and asks for an analysis,
 * and the handling of the engine's answer (marks, move display, scheduled auto-move).
 * Every side effect is an emitted `Action`; timers and the DOM are outside the model.
 */
module MainLoop {
  import opened Wrappers
  import opened Text
  import opened EngineTypes
  import opened Classifications
  import opened Analysis
  import opened ControlPanel
  import opened Board

  /** The application's fields: the last FEN analysed, the three toggles and the panel (if built). */
  datatype App = App(lastKnownFEN: string, marking: bool, autoMove: bool, autoQueue: bool, panel: Option<Panel>)

  /** The application as the `load` handler creates it (the panel is attached right after). */
  function NewApp(panel: Option<Panel>): (a: App)
    ensures a.lastKnownFEN == "" && !a.marking && !a.autoMove && !a.autoQueue && a.panel == panel
  {
    App("", false, false, false, panel)
  }

  /** A side effect of the loop. */
  datatype Action =
    | JoinGame
    | Evaluate(fen: string, depth: int, delayMs: int)
    | Mark(from: string, to: string, classification: Classification)
    | ShowMove(move: string, kind: string, delayMs: int)
    | ScheduleMove(from: string, to: string, promotion: string, delayMs: int)

  /** Depth used when the panel is missing or its depth is falsy. */
  const FallbackDepth: int := 15
  /** Delay used when the panel is missing or its delay is 0. */
  const FallbackDelay: int := 1000

  /** `this.controlPanel?.getDepth() || 15` */
  function RequestDepth(panel: Option<Panel>): (d: int)
    ensures d != 0
    ensures panel.Some? && panel.value.depth.Truthy() ==> d == panel.value.depth.n
    ensures panel.None? || !panel.value.depth.Truthy() ==> d == FallbackDepth
  {
    if panel.Some? && panel.value.depth.Truthy() then panel.value.depth.n else FallbackDepth
  }

  /** The draw `k` is one `getRandomDelay` can make with the panel's bounds. */
  predicate DrawFits(panel: Option<Panel>, k: int) {
    panel.Some? ==> ValidDraw(panel.value.delayMin, panel.value.delayMax, k)
  }

  /** `this.controlPanel?.getRandomDelay() || 1000` for the draw `k`. */
  function RequestDelay(panel: Option<Panel>, k: int): (ms: int)
    requires DrawFits(panel, k)
    ensures ms != 0 && ms % 1000 == 0
    ensures panel.None? ==> ms == FallbackDelay
    ensures panel.Some? && panel.value.delayMin <= panel.value.delayMax && panel.value.delayMin > 0 ==>
              panel.value.delayMin * 1000 <= ms <= panel.value.delayMax * 1000
  {
    if panel.None? then FallbackDelay
    else
      var d := RandomDelay(panel.value.delayMin, panel.value.delayMax, k);
      if d == 0 then FallbackDelay else d
  }

  datatype TickResult = TickResult(app: App, actions: seq<Action>)

  /**
   * One `renderloop` tick for the FEN the board reports (`None` when there is no board).
   * `JoinGame` comes first whenever auto-queue is on; an absent or empty FEN, or the one
   * already analysed, ends the tick; otherwise exactly one evaluation is requested and the
   * FEN is remembered.
   */
  function Tick(app: App, fen: Option<string>, k: int): (r: TickResult)
    requires DrawFits(app.panel, k)
    ensures app.autoQueue <==> |r.actions| > 0 && r.actions[0] == JoinGame
    ensures r.app.marking == app.marking && r.app.autoMove == app.autoMove &&
            r.app.autoQueue == app.autoQueue && r.app.panel == app.panel
    ensures fen.None? || fen.value == "" || fen.value == app.lastKnownFEN ==>
              r.app == app && forall a :: a in r.actions ==> !a.Evaluate?
    ensures fen.Some? && fen.value != "" && fen.value != app.lastKnownFEN ==>
              && r.app.lastKnownFEN == fen.value
              && |r.actions| > 0
              && r.actions[|r.actions| - 1] == Evaluate(fen.value, RequestDepth(app.panel), RequestDelay(app.panel, k))
    ensures |r.actions| <= 2
    ensures forall a :: a in r.actions ==> a.JoinGame? || a.Evaluate?
    ensures CountEvaluations(r.actions) ==
              if fen.Some? && fen.value != "" && fen.value != app.lastKnownFEN then 1 else 0
    ensures |r.actions| == (if app.autoQueue then 1 else 0) + CountEvaluations(r.actions)
  {
    var join := if app.autoQueue then [JoinGame] else [];
    assert CountEvaluations(join) == 0;
    match fen
    case None => TickResult(app, join)
    case Some(f) =>
      if f == "" || f == app.lastKnownFEN then TickResult(app, join)
      else
        var eval := [Evaluate(f, RequestDepth(app.panel), RequestDelay(app.panel, k))];
        CountEvaluationsAppend(join, eval);
        TickResult(app.(lastKnownFEN := f), join + eval)
  }

  /** Number of evaluation requests among some actions. */
  function CountEvaluations(actions: seq<Action>): (n: nat)
    ensures n <= |actions|
    ensures n == 0 <==> forall a :: a in actions ==> !a.Evaluate?
  {
    if actions == [] then 0
    else (if actions[0].Evaluate? then 1 else 0) + CountEvaluations(actions[1..])
  }

  /** Evaluations of two batches of actions add up. */
  lemma CountEvaluationsAppend(xs: seq<Action>, ys: seq<Action>)
    ensures CountEvaluations(xs + ys) == CountEvaluations(xs) + CountEvaluations(ys)
  {
    if xs != [] {
      assert (xs + ys)[0] == xs[0] && (xs + ys)[1..] == xs[1..] + ys;
      CountEvaluationsAppend(xs[1..], ys);
    } else {
      assert xs + ys == ys;
    }
  }

  /** Two consecutive ticks that see the same FEN request at most one evaluation between them. */
  lemma UnchangedFenEvaluatesOnce(app: App, fen: Option<string>, k1: int, k2: int)
    requires DrawFits(app.panel, k1) && DrawFits(app.panel, k2)
    ensures var first := Tick(app, fen, k1);
            var second := Tick(first.app, fen, k2);
            CountEvaluations(first.actions + second.actions) <= 1
  {
    var first := Tick(app, fen, k1);
    var second := Tick(first.app, fen, k2);
    CountEvaluationsAppend(first.actions, second.actions);
    assert CountEvaluations(second.actions) == 0;
    if fen.Some? && fen.value != "" && fen.value != app.lastKnownFEN {
      var join := if app.autoQueue then [JoinGame] else [];
      var last := first.actions[|first.actions| - 1];
      assert first.actions == join + [last];
      CountEvaluationsAppend(join, [last]);
    }
  }

  /** `analyse(line.evaluation) || null`, with `Classification.BOOK` when it is null. */
  function MarkClassification(e: Evaluation): (c: Classification)
    ensures Analyse(Some(e)).Some? ==> c == Analyse(Some(e)).value
    ensures Analyse(Some(e)).None? ==> c == Book
  {
    Analyse(Some(e)).GetOr(Book)
  }

  /** What the loop body does for one line: a mark when marking is on, then the display update. */
  function LineActions(app: App, line: EngineLine, delayMs: int): (acts: seq<Action>)
    ensures |acts| == (if app.marking then 1 else 0) + (if app.panel.Some? then 1 else 0)
    ensures app.marking ==> acts[0] == Mark(Substring(line.moveUCI, 0, 2), Substring(line.moveUCI, 2, 4),
                                             MarkClassification(line.evaluation))
    ensures app.panel.Some? ==> acts[|acts| - 1] == ShowMove(line.moveUCI, line.evaluation.kind, delayMs)
  {
    var mark := if app.marking then
      [Mark(Substring(line.moveUCI, 0, 2), Substring(line.moveUCI, 2, 4), MarkClassification(line.evaluation))]
    else [];
    var show := if app.panel.Some? then [ShowMove(line.moveUCI, line.evaluation.kind, delayMs)] else [];
    mark + show
  }

  /** The `for (let line of lines)` loop. */
  function LinesActions(app: App, lines: seq<EngineLine>, delayMs: int): (acts: seq<Action>)
    ensures forall a :: a in acts ==> a.Mark? || a.ShowMove?
    ensures CountShows(acts) == (if app.panel.Some? then |lines| else 0)
    ensures CountMarks(acts) == (if app.marking then |lines| else 0)
    ensures app.panel.Some? && lines != [] ==>
              LastShow(acts) == Some(ShowMove(lines[|lines| - 1].moveUCI, lines[|lines| - 1].evaluation.kind, delayMs))
  {
    if lines == [] then []
    else
      var tail := LinesActions(app, lines[1..], delayMs);
      LinesStep(app, lines, delayMs, tail);
      LineActions(app, lines[0], delayMs) + tail
  }

  /** The first line's actions in front of those of the other lines keep the loop's counts and last update. */
  lemma LinesStep(app: App, lines: seq<EngineLine>, delayMs: int, tail: seq<Action>)
    requires lines != [] && (|lines| == 1 ==> tail == [])
    requires forall a :: a in tail ==> a.Mark? || a.ShowMove?
    requires CountShows(tail) == (if app.panel.Some? then |lines| - 1 else 0)
    requires CountMarks(tail) == (if app.marking then |lines| - 1 else 0)
    requires app.panel.Some? && |lines| > 1 ==>
               LastShow(tail) == Some(ShowMove(lines[|lines| - 1].moveUCI, lines[|lines| - 1].evaluation.kind, delayMs))
    ensures var acts := LineActions(app, lines[0], delayMs) + tail;
            && (forall a :: a in acts ==> a.Mark? || a.ShowMove?)
            && CountShows(acts) == (if app.panel.Some? then |lines| else 0)
            && CountMarks(acts) == (if app.marking then |lines| else 0)
            && (app.panel.Some? ==>
                  LastShow(acts) == Some(ShowMove(lines[|lines| - 1].moveUCI, lines[|lines| - 1].evaluation.kind, delayMs)))
  {
    var head := LineActions(app, lines[0], delayMs);
    CountAppend(head, tail);
    LastShowAppend(head, tail);
  }

  function CountShows(acts: seq<Action>): nat {
    if acts == [] then 0 else (if acts[0].ShowMove? then 1 else 0) + CountShows(acts[1..])
  }

  function CountMarks(acts: seq<Action>): nat {
    if acts == [] then 0 else (if acts[0].Mark? then 1 else 0) + CountMarks(acts[1..])
  }

  /** The last display update among some actions: what the panel ends up showing. */
  function LastShow(acts: seq<Action>): (r: Option<Action>)
    ensures r.Some? ==> r.value.ShowMove? && r.value in acts
  {
    if acts == [] then None
    else if acts[|acts| - 1].ShowMove? then Some(acts[|acts| - 1])
    else LastShow(acts[..|acts| - 1])
  }

  lemma CountAppend(xs: seq<Action>, ys: seq<Action>)
    ensures CountShows(xs + ys) == CountShows(xs) + CountShows(ys)
    ensures CountMarks(xs + ys) == CountMarks(xs) + CountMarks(ys)
  {
    if xs != [] {
      assert (xs + ys)[0] == xs[0] && (xs + ys)[1..] == xs[1..] + ys;
      CountAppend(xs[1..], ys);
    } else {
      assert xs + ys == ys;
    }
  }

  lemma LastShowAppend(xs: seq<Action>, ys: seq<Action>)
    ensures LastShow(xs + ys) == if LastShow(ys).Some? then LastShow(ys) else LastShow(xs)
    decreases |ys|
  {
    if ys != [] {
      assert (xs + ys)[..|xs + ys| - 1] == xs + ys[..|ys| - 1];
      LastShowAppend(xs, ys[..|ys| - 1]);
    } else {
      assert xs + ys == xs;
    }
  }

  /**
   * The handler of the engine's answer: the per-line actions, then, when auto-move is on
   * and there is a line, one move scheduled from the first line after the sampled delay.
   */
  function ResultActions(app: App, lines: seq<EngineLine>, delayMs: int): (acts: seq<Action>)
    ensures forall a :: a in acts ==> a.Mark? || a.ShowMove? || a.ScheduleMove?
    ensures CountShows(acts) == (if app.panel.Some? then |lines| else 0)
    ensures CountMarks(acts) == (if app.marking then |lines| else 0)
    ensures CountSchedules(acts) == (if app.autoMove && lines != [] then 1 else 0)
    ensures app.autoMove && lines != [] ==>
              acts[|acts| - 1] == ScheduleMove(Substring(lines[0].moveUCI, 0, 2), Substring(lines[0].moveUCI, 2, 4),
                                               lines[0].promotion.GetOr(""), delayMs)
    ensures app.panel.Some? && lines != [] ==>
              LastShow(acts) == Some(ShowMove(lines[|lines| - 1].moveUCI, lines[|lines| - 1].evaluation.kind, delayMs))
  {
    var perLine := LinesActions(app, lines, delayMs);
    NoSchedules(perLine);
    if app.autoMove && lines != [] then
      var best := lines[0];
      var move := [ScheduleMove(Substring(best.moveUCI, 0, 2), Substring(best.moveUCI, 2, 4), best.promotion.GetOr(""), delayMs)];
      CountAppend(perLine, move);
      CountSchedulesAppend(perLine, move);
      LastShowAppend(perLine, move);
      assert LastShow(move) == None by { assert move[..0] == []; }
      perLine + move
    else perLine
  }

  function CountSchedules(acts: seq<Action>): nat {
    if acts == [] then 0 else (if acts[0].ScheduleMove? then 1 else 0) + CountSchedules(acts[1..])
  }

  lemma CountSchedulesAppend(xs: seq<Action>, ys: seq<Action>)
    ensures CountSchedules(xs + ys) == CountSchedules(xs) + CountSchedules(ys)
  {
    if xs != [] {
      assert (xs + ys)[0] == xs[0] && (xs + ys)[1..] == xs[1..] + ys;
      CountSchedulesAppend(xs[1..], ys);
    } else {
      assert xs + ys == ys;
    }
  }

  lemma NoSchedules(acts: seq<Action>)
    requires forall a :: a in acts ==> a.Mark? || a.ShowMove?
    ensures CountSchedules(acts) == 0
  {
    if acts != [] {
      assert acts[0] in acts;
      assert forall a :: a in acts[1..] ==> a in acts;
      NoSchedules(acts[1..]);
    }
  }

  /** Apply the display updates among some actions to the panel. */
  function ApplyShows(p: Panel, acts: seq<Action>): (r: Panel)
    ensures r.delayMin == p.delayMin && r.delayMax == p.delayMax && r.depth == p.depth
    ensures LastShow(acts).None? ==> r == p
    ensures LastShow(acts).Some? ==>
              r.display == CalculatedMoveText(LastShow(acts).value.move, LastShow(acts).value.kind, LastShow(acts).value.delayMs)
    decreases |acts|
  {
    if acts == [] then p
    else
      var init := acts[..|acts| - 1];
      var before := ApplyShows(p, init);
      match acts[|acts| - 1]
      case ShowMove(move, kind, delayMs) => UpdateCalculatedMove(before, move, kind, delayMs)
      case _ => before
  }

  /**
   * After an answer with at least one line, the panel shows the LAST line's move and type
   * with the sampled delay, though the auto-move plays the first line.
   */
  lemma DisplayShowsLastLine(app: App, lines: seq<EngineLine>, delayMs: int)
    requires app.panel.Some? && lines != []
    ensures ApplyShows(app.panel.value, ResultActions(app, lines, delayMs)).display ==
            CalculatedMoveText(lines[|lines| - 1].moveUCI, lines[|lines| - 1].evaluation.kind, delayMs)
  {
  }

  /** Apply the marks among some actions to the board, one `createMark` each, in order. */
  function ApplyMarks(st: MarkState, palette: Classification -> Option<string>, acts: seq<Action>): (r: MarkState)
    ensures r.board.Some? <==> st.board.Some?
    ensures r.board.Some? ==> r.board.value.fen == st.board.value.fen && r.board.value.playingAs == st.board.value.playingAs
    decreases |acts|
  {
    if acts == [] then st
    else
      var next := if acts[0].Mark? then CreateMark(st, palette, acts[0].from, acts[0].to, acts[0].classification) else st;
      ApplyMarks(next, palette, acts[1..])
  }

  /** The marking a mark action draws. */
  function LastMarkOf(palette: Classification -> Option<string>, acts: seq<Action>): Option<Marking> {
    if acts == [] then None
    else if acts[|acts| - 1].Mark? then
      Some(Arrow(palette, acts[|acts| - 1].from, acts[|acts| - 1].to, acts[|acts| - 1].classification))
    else LastMarkOf(palette, acts[..|acts| - 1])
  }

  /** The arrow `createMark` remembers, as a multiset of at most one marking. */
  function Remembered(lastMark: Option<Marking>): multiset<Marking> {
    if lastMark.Some? then multiset{lastMark.value} else multiset{}
  }

  /**
   * Going from `before` to `after` removed the remembered arrow (one copy) and added
   * `arrow`, which is now the remembered one.
   */
  predicate ArrowReplaced(before: MarkState, after: MarkState, arrow: Marking) {
    && before.board.Some? && after.board.Some?
    && after.lastMark == Some(arrow)
    && multiset(after.board.value.markings) ==
       multiset(before.board.value.markings) - Remembered(before.lastMark) + multiset{arrow}
  }

  /** Two replacements in a row amount to one: the intermediate arrow disappears. */
  lemma ArrowReplacedTwice(s0: MarkState, s1: MarkState, s2: MarkState, a: Marking, b: Marking)
    requires ArrowReplaced(s0, s1, a) && ArrowReplaced(s1, s2, b)
    ensures ArrowReplaced(s0, s2, b)
  {
    var x := multiset(s0.board.value.markings) - Remembered(s0.lastMark);
    assert Remembered(s1.lastMark) == multiset{a};
    assert x + multiset{a} - multiset{a} == x;
  }

  /**
   * On the user's turn a series of marks leaves exactly one of its arrows on the board,
   * the last: each mark removes the arrow before it. The markings that were there
   * before keep their multiplicity, less the arrow remembered from earlier.
   */
  lemma {:induction false} MarksLeaveOneArrow(st: MarkState, palette: Classification -> Option<string>, acts: seq<Action>)
    requires IsMyTurn(st.board)
    requires LastMarkOf(palette, acts).Some?
    ensures ArrowReplaced(st, ApplyMarks(st, palette, acts), LastMarkOf(palette, acts).value)
    decreases |acts|
  {
    var tail := acts[1..];
    LastMarkOfCons(palette, acts);
    if acts[0].Mark? {
      var a := Arrow(palette, acts[0].from, acts[0].to, acts[0].classification);
      var next := CreateMark(st, palette, acts[0].from, acts[0].to, acts[0].classification);
      assert ArrowReplaced(st, next, a);
      assert ApplyMarks(st, palette, acts) == ApplyMarks(next, palette, tail);
      if LastMarkOf(palette, tail).Some? {
        assert IsMyTurn(next.board);
        MarksLeaveOneArrow(next, palette, tail);
        ArrowReplacedTwice(st, next, ApplyMarks(next, palette, tail), a, LastMarkOf(palette, tail).value);
      } else {
        NoMarksKeepState(next, palette, tail);
      }
    } else {
      assert ApplyMarks(st, palette, acts) == ApplyMarks(st, palette, tail);
      MarksLeaveOneArrow(st, palette, tail);
    }
  }

  /** The last mark of a list is that of its tail, or its head when the tail has none. */
  lemma LastMarkOfCons(palette: Classification -> Option<string>, acts: seq<Action>)
    requires acts != []
    ensures LastMarkOf(palette, acts) ==
            if LastMarkOf(palette, acts[1..]).Some? then LastMarkOf(palette, acts[1..])
            else if acts[0].Mark? then Some(Arrow(palette, acts[0].from, acts[0].to, acts[0].classification))
            else None
    decreases |acts|
  {
    if |acts| > 1 {
      assert acts[1..][..|acts[1..]| - 1] == acts[..|acts| - 1][1..];
      LastMarkOfCons(palette, acts[..|acts| - 1]);
    }
  }

  lemma LastMarkOfAppend(palette: Classification -> Option<string>, xs: seq<Action>, ys: seq<Action>)
    ensures LastMarkOf(palette, xs + ys) ==
            if LastMarkOf(palette, ys).Some? then LastMarkOf(palette, ys) else LastMarkOf(palette, xs)
    decreases |ys|
  {
    if ys != [] {
      assert (xs + ys)[..|xs + ys| - 1] == xs + ys[..|ys| - 1];
      LastMarkOfAppend(palette, xs, ys[..|ys| - 1]);
    } else {
      assert xs + ys == xs;
    }
  }

  /** The arrow the mark of `line` draws. */
  function LineArrow(palette: Classification -> Option<string>, line: EngineLine): Marking {
    Arrow(palette, Substring(line.moveUCI, 0, 2), Substring(line.moveUCI, 2, 4), MarkClassification(line.evaluation))
  }

  /** With marking on, the last mark of the loop over the lines is that of the last line. */
  lemma {:induction false} LinesLastMark(app: App, palette: Classification -> Option<string>, lines: seq<EngineLine>,
                                         delayMs: int)
    requires app.marking && lines != []
    ensures LastMarkOf(palette, LinesActions(app, lines, delayMs)) == Some(LineArrow(palette, lines[|lines| - 1]))
    decreases |lines|
  {
    var head := LineActions(app, lines[0], delayMs);
    var tail := LinesActions(app, lines[1..], delayMs);
    assert LinesActions(app, lines, delayMs) == head + tail;
    LastMarkOfAppend(palette, head, tail);
    if |lines| == 1 {
      assert tail == [];
      var show := head[1..];
      assert head == [head[0]] + show;
      assert LastMarkOf(palette, show) == None by {
        if show != [] {
          assert show[..|show| - 1] == [];
        }
      }
      LastMarkOfAppend(palette, [head[0]], show);
      assert [head[0]][..0] == [];
    } else {
      assert lines[1..][|lines[1..]| - 1] == lines[|lines| - 1];
      LinesLastMark(app, palette, lines[1..], delayMs);
    }
  }

  /**
   * On the user's turn with marking on, the marks of an answer leave exactly the arrow of
   * its last line on the board, in place of the arrow remembered before.
   */
  lemma AnswerLeavesLastLineArrow(st: MarkState, app: App, palette: Classification -> Option<string>,
                                  lines: seq<EngineLine>, delayMs: int)
    requires IsMyTurn(st.board) && app.marking && lines != []
    ensures ArrowReplaced(st, ApplyMarks(st, palette, ResultActions(app, lines, delayMs)),
                          LineArrow(palette, lines[|lines| - 1]))
  {
    var perLine := LinesActions(app, lines, delayMs);
    var acts := ResultActions(app, lines, delayMs);
    LinesLastMark(app, palette, lines, delayMs);
    if app.autoMove {
      var move := acts[|perLine|..];
      assert acts == perLine + move;
      assert |move| == 1 && !move[0].Mark?;
      assert move[..0] == [];
      LastMarkOfAppend(palette, perLine, move);
    }
    MarksLeaveOneArrow(st, palette, acts);
  }

  /** Actions without marks leave the board and the remembered arrow alone. */
  lemma {:induction false} NoMarksKeepState(st: MarkState, palette: Classification -> Option<string>, acts: seq<Action>)
    requires LastMarkOf(palette, acts).None?
    ensures ApplyMarks(st, palette, acts) == st
    decreases |acts|
  {
    if acts != [] {
      LastMarkOfCons(palette, acts);
      NoMarksKeepState(st, palette, acts[1..]);
    }
  }

  /**
   * The auto-move toggle's `change` event: it sets `autoMove`, and switching it off
   * resets the move display to "none".
   */
  function ToggleAutoMove(app: App, checked: bool): (r: App)
    ensures r.autoMove == checked
    ensures r.lastKnownFEN == app.lastKnownFEN && r.marking == app.marking && r.autoQueue == app.autoQueue
    ensures r.panel.Some? <==> app.panel.Some?
    ensures !checked && app.panel.Some? ==> r.panel.value.display == NoMove
    ensures checked ==> r.panel == app.panel
  {
    var panel := if !checked && app.panel.Some? then Some(UpdateCalculatedMove(app.panel.value, NoMove, NoMove, 0)) else app.panel;
    app.(autoMove := checked, panel := panel)
  }
}
