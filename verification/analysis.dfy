/** The move classifications the core produces; the full enumeration and its colours live elsewhere. */
module Classifications {

  /** `FORCED` for mate scores, `BEST` for centipawn scores, `BOOK` as the fallback. */
  datatype Classification = Forced | Best | Book
}

/** analysis.ts: the classification of an engine evaluation. */
module Analysis {
  import opened Wrappers
  import opened Text
  import opened EngineTypes
  import opened Classifications
  import Engine
  import Protocol

  /**
   * `analyse(evaluation)`: mate scores are forced, centipawn scores best; a missing
   * evaluation or any other score type has no classification.
   */
  function Analyse(evaluation: Option<Evaluation>): (c: Option<Classification>)
    ensures c == Some(Forced) <==> evaluation.Some? && evaluation.value.kind == "mate"
    ensures c == Some(Best) <==> evaluation.Some? && evaluation.value.kind == "cp"
    ensures c.None? <==> evaluation.None? || (evaluation.value.kind != "mate" && evaluation.value.kind != "cp")
    ensures c != Some(Book)
  {
    match evaluation
    case None => None
    case Some(e) =>
      if e.kind == "mate" then Some(Forced)
      else if e.kind == "cp" then Some(Best)
      else None
  }

  /** The classification reads the score type only, never its value. */
  lemma AnalyseIgnoresValue(kind: string, v1: ParsedInt, v2: ParsedInt)
    ensures Analyse(Some(Evaluation(kind, v1))) == Analyse(Some(Evaluation(kind, v2)))
  {
  }

  /**
   * An `info` line in Stockfish's layout is classified by the score type it prints: a mate
   * score is `FORCED`, a centipawn score `BEST`. For a mate score, nothing after it may
   * hold "cp", since the type is read from the first " cp " anywhere in the line.
   */
  lemma StockfishLineClassified(d: nat, sel: nat, id: nat, kind: string, v: int, mid: string, move: string, rest: string)
    requires kind == "cp" || kind == "mate"
    requires mid == [] || mid[0] == ' '
    requires NoPair(mid, ' ', 'p')
    requires |move| > 0 && forall i :: 0 <= i < |move| ==> move[i] != ' ' && !IsLineTerminator(move[i])
    requires rest == [] || rest[0] == ' '
    requires kind == "mate" ==> NoPair(mid, 'c', 'p') && NoPair(move, 'c', 'p') && NoPair(rest, 'c', 'p')
    ensures var r := Protocol.ParseInfo(Protocol.StockfishInfo(d, sel, id, kind, v, mid, move, rest));
            && r.Some?
            && Analyse(Some(r.value.score)) == (if kind == "mate" then Some(Forced) else Some(Best))
  {
    Protocol.StockfishInfoRoundTrip(d, sel, id, kind, v, mid, move, rest);
  }

  /**
   * Every line the engine collector returns is classified, so the `BOOK` fallback of
   * the decision loop never applies to engine output.
   */
  lemma CollectedLinesAreClassified(fen: string, targetDepth: int, history: seq<string>, terminal: string)
    requires Engine.Collect(fen, targetDepth, history, terminal).Ok?
    ensures forall l :: l in Engine.Collect(fen, targetDepth, history, terminal).value ==>
              Analyse(Some(l.evaluation)).Some?
  {
    var lines := Engine.Collect(fen, targetDepth, history, terminal).value;
    forall l | l in lines ensures Analyse(Some(l.evaluation)).Some? {
      assert Engine.FromMostRecent(history, targetDepth, fen, l);
    }
  }
}
