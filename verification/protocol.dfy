/**
 * Field extraction from single engine messages (engine.ts): the regular expressions of
 * the `onmessage` handler, each a leftmost match found by `Text.FindFirst`.
 */
module Protocol {
  import opened Wrappers
  import opened Text
  import opened EngineTypes

  /** `/(?:depth )(\d+)/` */
  const DepthPattern: Pattern := Capture(["depth "], Digit)
  /** `/(?:multipv )(\d+)/` */
  const MultipvPattern: Pattern := Capture(["multipv "], Digit)
  /** `/(?: pv )(.+?)(?= |$)/` */
  const PvPattern: Pattern := Token(" pv ")
  /** `/(?:(?:cp )|(?:mate ))([\d-]+)/` */
  const ScorePattern: Pattern := Capture(["cp ", "mate "], DigitOrMinus)

  /** The number captured by a digits-only pattern, when the message has a match. */
  function DigitField(m: string, pat: Pattern): (r: Option<nat>)
    requires pat == DepthPattern || pat == MultipvPattern
    ensures r.Some? <==> exists j :: 0 <= j <= |m| && MatchesAt(m, pat, j)
  {
    match CaptureOf(m, pat)
    case None => None
    case Some(ds) =>
      assert AllDigits(ds) by { CaptureIsDigits(m, pat); }
      Some(DigitsValue(ds))
  }

  /** What a digits-only pattern captures is a non-empty run of digits. */
  lemma CaptureIsDigits(m: string, pat: Pattern)
    requires pat == DepthPattern || pat == MultipvPattern
    requires CaptureOf(m, pat).Some?
    ensures AllDigits(CaptureOf(m, pat).value)
  {
    var i := FindFirst(m, pat, 0).value;
    var a := FirstAlt(m, pat.alts, Digit, i, 0).value;
    var st := i + |pat.alts[a]|;
    assert CaptureOf(m, pat).value == m[st..RunEnd(m, st, Digit)];
  }

  /**
   * The depth every message reports to the session: `parseInt(match?.[1] || "0")`,
   * so a message without `depth <digits>` reads as 0.
   */
  function ReportedDepth(m: string): (d: nat)
    ensures (forall j :: 0 <= j <= |m| ==> !MatchesAt(m, DepthPattern, j)) ==> d == 0
  {
    DigitField(m, DepthPattern).GetOr(0)
  }

  /**
   * The score of an `info` message before sign normalisation: type "cp" exactly when the
   * message contains " cp ", otherwise "mate"; value `parseInt` of the first `[\d-]+` run
   * after "cp " or "mate ", or 0 when there is none.
   */
  function RawEvaluation(m: string): (e: Evaluation)
    ensures e.kind == "cp" <==> Contains(m, " cp ")
    ensures e.kind == "cp" || e.kind == "mate"
    ensures (forall j :: 0 <= j <= |m| ==> !MatchesAt(m, ScorePattern, j)) ==> e.value == Num(0)
  {
    var kind := if Contains(m, " cp ") then "cp" else "mate";
    match CaptureOf(m, ScorePattern)
    case None => Evaluation(kind, Num(0))
    case Some(v) => Evaluation(kind, ParseInt(v))
  }

  /** The fields of a usable `info depth` message: rank, depth, head move and raw score. */
  datatype Info = Info(id: nat, depth: nat, move: string, score: Evaluation)

  /**
   * A message the collector can use: it starts with "info depth" and has a `multipv`
   * id, a depth and a non-empty move after " pv ". Anything else yields `None`.
   */
  function ParseInfo(m: string): (r: Option<Info>)
    ensures r.Some? ==> StartsWith(m, "info depth")
    ensures r.Some? ==> r.value.move != [] && |r.value.move| < |m|
    ensures r.Some? ==> forall k :: 0 < k < |r.value.move| ==> r.value.move[k] != ' '
    ensures r.Some? ==> r.value.score.kind == "cp" || r.value.score.kind == "mate"
    ensures StartsWith(m, "info depth") && r.None? ==>
              DigitField(m, MultipvPattern).None? || DigitField(m, DepthPattern).None? ||
              CaptureOf(m, PvPattern).None?
  {
    if !StartsWith(m, "info depth") then None
    else
      match (DigitField(m, MultipvPattern), DigitField(m, DepthPattern), CaptureOf(m, PvPattern))
      case (Some(id), Some(d), Some(mv)) =>
        assert forall k :: 0 < k < |mv| ==> mv[k] != ' ' by { PvTokenHasNoInnerSpace(m); }
        Some(Info(id, d, mv, RawEvaluation(m)))
      case _ => None
  }

  /** The move is taken up to, not including, the next space. */
  lemma PvTokenHasNoInnerSpace(m: string)
    requires CaptureOf(m, PvPattern).Some?
    ensures var mv := CaptureOf(m, PvPattern).value;
            |mv| < |m| && forall k :: 0 < k < |mv| ==> mv[k] != ' '
  {
    var i := FindFirst(m, PvPattern, 0).value;
    var e := LazyTokenEnd(m, i + 4).value;
    var mv := m[i + 4..e];
    assert CaptureOf(m, PvPattern).value == mv;
    forall k | 0 < k < |mv| ensures mv[k] != ' ' {
      assert mv[k] == m[i + 4 + k];
    }
  }

  // ---------------------------------------------------------------------------------
  // Reading back an `info` line

  /**
   * An `info` line in the compact layout "info depth D multipv I score KIND V pv MOVE"
   * followed by `rest` (such as further pv moves). Stockfish also prints fields between
   * these ("seldepth" after the depth, "nodes", "nps", "time" before "pv"); such lines
   * are `StockfishInfo` below.
   */
  function InfoMessage(d: nat, id: nat, kind: string, v: int, move: string, rest: string): string {
    "info depth " + (NatToString(d) + (" multipv " + (NatToString(id) + (" score " + (kind + (" " +
      (IntToString(v) + (" pv " + (move + rest)))))))))
  }

  /** Where each field of "info depth D multipv I score KIND V" + `tail` sits. */
  lemma InfoLayout(m: string, D: string, I: string, kind: string, V: string, tail: string)
    requires m == "info depth " + (D + (" multipv " + (I + (" score " + (kind + (" " + (V + tail)))))))
    ensures |m| == 11 + |D| + 9 + |I| + 7 + |kind| + 1 + |V| + |tail|
    ensures m[..11] == "info depth " && m[11..11 + |D|] == D
    ensures m[11 + |D|..11 + |D| + 9] == " multipv "
    ensures m[11 + |D| + 9..11 + |D| + 9 + |I|] == I
    ensures m[11 + |D| + 9 + |I|..11 + |D| + 9 + |I| + 7] == " score "
    ensures m[11 + |D| + 9 + |I| + 7..11 + |D| + 9 + |I| + 7 + |kind| + 1] == kind + " "
    ensures m[11 + |D| + 9 + |I| + 7 + |kind| + 1..11 + |D| + 9 + |I| + 7 + |kind| + 1 + |V|] == V
    ensures m[11 + |D| + 9 + |I| + 7 + |kind| + 1 + |V|..] == tail
  {
    var o2 := 11 + |D|;
    var o3 := o2 + 9;
    var o4 := o3 + |I|;
    var o5 := o4 + 7;
    var o7 := o5 + |kind| + 1;
    var t7 := V + tail;
    var t5 := kind + (" " + t7);
    var t4 := " score " + t5;
    var t3 := I + t4;
    var t2 := " multipv " + t3;
    var t1 := D + t2;
    assert m[0..] == "info depth " + t1;
    Peel(m, 0, "info depth ", t1);
    Peel(m, 11, D, t2);
    Peel(m, o2, " multipv ", t3);
    Peel(m, o3, I, t4);
    assert t5 == (kind + " ") + t7;
    Peel(m, o4, " score ", t5);
    Peel(m, o5, kind + " ", t7);
    Peel(m, o7, V, tail);
  }

  /** The number a digits-only pattern reads is the value of its capture. */
  lemma DigitFieldOf(m: string, pat: Pattern, run: string)
    requires pat == DepthPattern || pat == MultipvPattern
    requires CaptureOf(m, pat) == Some(run) && AllDigits(run)
    ensures DigitField(m, pat) == Some(DigitsValue(run))
  {
  }

  /** The depth capture of a line that starts "info depth D", D followed by a non-digit or the end. */
  lemma DepthCaptureOf(m: string, D: string)
    requires |D| > 0 && AllDigits(D)
    requires 11 + |D| <= |m|
    requires m[..11] == "info depth " && m[11..11 + |D|] == D
    requires 11 + |D| == |m| || !IsDigit(m[11 + |D|])
    ensures CaptureOf(m, DepthPattern) == Some(D)
  {
    PieceAt(m, 0, "info depth ");
    assert m[5..11] == "depth ";
    var alts := ["depth "];
    forall j, y | 0 <= j < 5 && 0 <= y < |alts| ensures !OccursAt(m, alts[y], j) {
      if OccursAt(m, alts[y], j) {
        OccursAtChar(m, alts[y], j, 0);
      }
    }
    CaptureAfterAlts(m, 5, alts, 0, D, Digit);
  }

  /**
   * The depth pattern reads the depth back from any line that starts "info depth D" with
   * a non-digit or the end after D: whatever fields the engine prints after it.
   */
  lemma DepthField(d: nat, rest: string)
    requires rest == [] || !IsDigit(rest[0])
    ensures DigitField("info depth " + (NatToString(d) + rest), DepthPattern) == Some(d)
  {
    var D := NatToString(d);
    var m := "info depth " + (D + rest);
    assert m[0..] == "info depth " + (D + rest);
    Peel(m, 0, "info depth ", D + rest);
    Peel(m, 11, D, rest);
    if rest != [] {
      assert m[11 + |D|] == rest[0] by { assert m[11 + |D|..][0] == rest[0]; }
    }
    DepthCaptureOf(m, D);
    DigitFieldOf(m, DepthPattern, D);
    DigitsValueOfNatToString(d);
  }

  /** Text without the letter 'm' cannot contain "multipv". */
  lemma NoMultipvWithoutM(pre: string)
    requires forall i :: 0 <= i < |pre| ==> pre[i] != 'm'
    ensures !Contains(pre, "multipv")
  {
    ContainsIff(pre, "multipv");
    forall j | 0 <= j ensures !OccursAt(pre, "multipv", j) {
      if j + 7 <= |pre| {
        assert pre[j..j + 7][0] == pre[j];
      }
    }
  }

  /** "info depth D" followed by fields without the letter 'm' (such as " seldepth S") has no "multipv". */
  lemma NoMultipvInHeader(D: string, fields: string)
    requires AllDigits(D)
    requires forall i :: 0 <= i < |fields| ==> fields[i] != 'm'
    ensures !Contains("info depth " + (D + fields), "multipv")
  {
    var pre := "info depth " + (D + fields);
    forall i | 0 <= i < |pre| ensures pre[i] != 'm' {
      if 11 <= i < 11 + |D| {
        assert pre[i] == D[i - 11];
      } else if 11 + |D| <= i {
        assert pre[i] == fields[i - 11 - |D|];
      }
    }
    NoMultipvWithoutM(pre);
  }

  /** "multipv " cannot start inside a prefix without "multipv" that is followed by a space. */
  lemma NoMultipvBefore(m: string, pre: string, j: nat)
    requires |pre| < |m| && m[..|pre|] == pre && m[|pre|] == ' '
    requires !Contains(pre, "multipv") && j <= |pre|
    ensures !OccursAt(m, "multipv ", j)
  {
    ContainsIff(pre, "multipv");
    OccursOfLonger(m, "multipv", " ", j);
    assert "multipv" + " " == "multipv ";
    if j + 7 <= |pre| {
      assert !OccursAt(pre, "multipv", j);
      OccursInPrefix(m, pre, "multipv", j);
    } else if OccursAt(m, "multipv ", j) {
      OccursAtChar(m, "multipv ", j, |pre| - j);
    }
  }

  /** The multipv capture of a line `pre + " multipv " + I + ...` whose `pre` has no "multipv". */
  lemma MultipvCaptureOf(m: string, pre: string, I: string)
    requires !Contains(pre, "multipv") && |I| > 0 && AllDigits(I)
    requires |pre| + 9 + |I| <= |m|
    requires m[..|pre|] == pre && m[|pre|..|pre| + 9] == " multipv " && m[|pre| + 9..|pre| + 9 + |I|] == I
    requires |pre| + 9 + |I| == |m| || !IsDigit(m[|pre| + 9 + |I|])
    ensures CaptureOf(m, MultipvPattern) == Some(I)
  {
    var o := |pre|;
    PieceAt(m, o, " multipv ");
    assert m[o + 1..o + 9] == "multipv ";
    var alts := ["multipv "];
    forall j, y | 0 <= j < o + 1 && 0 <= y < |alts| ensures !OccursAt(m, alts[y], j) {
      NoMultipvBefore(m, pre, j);
    }
    CaptureAfterAlts(m, o + 1, alts, 0, I, Digit);
  }

  /**
   * The multipv pattern reads the line's rank back from the first " multipv I" of a line,
   * whatever comes before it (such as Stockfish's "info depth D seldepth S") as long as
   * that text does not itself contain "multipv", and whatever non-digit follows I.
   */
  lemma MultipvField(pre: string, id: nat, rest: string)
    requires !Contains(pre, "multipv")
    requires rest == [] || !IsDigit(rest[0])
    ensures DigitField(pre + (" multipv " + (NatToString(id) + rest)), MultipvPattern) == Some(id)
  {
    var I := NatToString(id);
    var m := pre + (" multipv " + (I + rest));
    assert m[..|pre|] == pre;
    Peel(m, |pre|, " multipv ", I + rest);
    Peel(m, |pre| + 9, I, rest);
    PieceAt(m, |pre|, " multipv ");
    if rest != [] {
      assert m[|pre| + 9 + |I|] == rest[0] by { assert m[|pre| + 9 + |I|..][0] == rest[0]; }
    }
    MultipvCaptureOf(m, pre, I);
    DigitFieldOf(m, MultipvPattern, I);
    DigitsValueOfNatToString(id);
  }

  /**
   * Depth and rank read back from the start of a line as Stockfish prints it:
   * "info depth D seldepth S multipv I" and then any fields that start with a space.
   */
  lemma StockfishHeaderFields(d: nat, sel: nat, id: nat, rest: string)
    requires rest == [] || rest[0] == ' '
    ensures var m := "info depth " + (NatToString(d) + (" seldepth " + (NatToString(sel) +
                       (" multipv " + (NatToString(id) + rest)))));
            DigitField(m, DepthPattern) == Some(d) && DigitField(m, MultipvPattern) == Some(id)
  {
    DepthField(d, " seldepth " + (NatToString(sel) + (" multipv " + (NatToString(id) + rest))));
    StockfishMultipv(d, sel, id, rest);
  }

  /** The rank half of `StockfishHeaderFields`. */
  lemma StockfishMultipv(d: nat, sel: nat, id: nat, rest: string)
    requires rest == [] || rest[0] == ' '
    ensures DigitField("info depth " + (NatToString(d) + (" seldepth " + (NatToString(sel) +
                       (" multipv " + (NatToString(id) + rest))))), MultipvPattern) == Some(id)
  {
    var S := NatToString(sel);
    assert forall i :: 0 <= i < |" seldepth "| ==> " seldepth "[i] != 'm';
    assert forall i :: 0 <= i < |S| ==> S[i] != 'm';
    MultipvAfterTwoFields(d, " seldepth ", S, id, rest);
  }

  /** The rank after "info depth D" and two pieces of text without the letter 'm'. */
  lemma MultipvAfterTwoFields(d: nat, f1: string, f2: string, id: nat, rest: string)
    requires forall i :: 0 <= i < |f1| ==> f1[i] != 'm'
    requires forall i :: 0 <= i < |f2| ==> f2[i] != 'm'
    requires rest == [] || rest[0] == ' '
    ensures DigitField("info depth " + (NatToString(d) + (f1 + (f2 + (" multipv " + (NatToString(id) + rest))))),
                       MultipvPattern) == Some(id)
  {
    var tail := " multipv " + (NatToString(id) + rest);
    var fields := f1 + f2;
    assert f1 + (f2 + tail) == fields + tail;
    forall i | 0 <= i < |fields| ensures fields[i] != 'm' {
      if i >= |f1| {
        assert fields[i] == f2[i - |f1|];
      }
    }
    MultipvAfterHeader(d, fields, id, rest);
  }

  /** Depth and rank read back from the compact header "info depth D multipv I" and any fields after it. */
  lemma HeaderFields(d: nat, id: nat, rest: string)
    requires rest == [] || rest[0] == ' '
    ensures var m := "info depth " + (NatToString(d) + (" multipv " + (NatToString(id) + rest)));
            DigitField(m, DepthPattern) == Some(d) && DigitField(m, MultipvPattern) == Some(id)
  {
    var tail := " multipv " + (NatToString(id) + rest);
    DepthField(d, tail);
    MultipvAfterHeader(d, "", id, rest);
    assert "" + tail == tail;
  }

  /** The rank after "info depth D" and fields without the letter 'm'. */
  lemma MultipvAfterHeader(d: nat, fields: string, id: nat, rest: string)
    requires forall i :: 0 <= i < |fields| ==> fields[i] != 'm'
    requires rest == [] || rest[0] == ' '
    ensures DigitField("info depth " + (NatToString(d) + (fields + (" multipv " + (NatToString(id) + rest)))),
                       MultipvPattern) == Some(id)
  {
    var D := NatToString(d);
    var tail := " multipv " + (NatToString(id) + rest);
    var pre := "info depth " + (D + fields);
    assert "info depth " + (D + (fields + tail)) == pre + tail;
    NoMultipvInHeader(D, fields);
    MultipvField(pre, id, rest);
  }

  /** Neither score keyword starts inside the header "info depth D multipv I score ". */
  lemma NoScoreKeywordBefore(m: string, D: string, I: string)
    requires AllDigits(D) && AllDigits(I)
    requires 11 + |D| + 9 + |I| + 7 <= |m|
    requires m[..11] == "info depth " && m[11..11 + |D|] == D
    requires m[11 + |D|..11 + |D| + 9] == " multipv "
    requires m[11 + |D| + 9..11 + |D| + 9 + |I|] == I
    requires m[11 + |D| + 9 + |I|..11 + |D| + 9 + |I| + 7] == " score "
    ensures forall j, y :: 0 <= j < 11 + |D| + 9 + |I| + 7 && 0 <= y < |["cp ", "mate "]| ==>
              !OccursAt(m, ["cp ", "mate "][y], j)
  {
    var o2 := 11 + |D|;
    var o3 := o2 + 9;
    var o4 := o3 + |I|;
    var o5 := o4 + 7;
    PieceAt(m, 0, "info depth ");
    PieceAt(m, 11, D);
    PieceAt(m, o2, " multipv ");
    PieceAt(m, o3, I);
    PieceAt(m, o4, " score ");
    var alts := ["cp ", "mate "];
    forall j, y | 0 <= j < o5 && 0 <= y < |alts| ensures !OccursAt(m, alts[y], j) {
      if OccursAt(m, alts[y], j) {
        OccursAtFirstTwo(m, alts[y], j);
      }
    }
  }

  /** The score capture of a line laid out as "info depth D multipv I score KIND V" + `tail`. */
  lemma ScoreCaptureOf(m: string, D: string, I: string, kind: string, V: string, tail: string)
    requires AllDigits(D) && AllDigits(I) && (kind == "cp" || kind == "mate")
    requires |V| > 0 && forall i :: 0 <= i < |V| ==> InClass(V[i], DigitOrMinus)
    requires |tail| > 0 && tail[0] == ' '
    requires |m| == 11 + |D| + 9 + |I| + 7 + |kind| + 1 + |V| + |tail|
    requires m[..11] == "info depth " && m[11..11 + |D|] == D
    requires m[11 + |D|..11 + |D| + 9] == " multipv "
    requires m[11 + |D| + 9..11 + |D| + 9 + |I|] == I
    requires m[11 + |D| + 9 + |I|..11 + |D| + 9 + |I| + 7] == " score "
    requires m[11 + |D| + 9 + |I| + 7..11 + |D| + 9 + |I| + 7 + |kind| + 1] == kind + " "
    requires m[11 + |D| + 9 + |I| + 7 + |kind| + 1..11 + |D| + 9 + |I| + 7 + |kind| + 1 + |V|] == V
    requires m[11 + |D| + 9 + |I| + 7 + |kind| + 1 + |V|..] == tail
    ensures CaptureOf(m, ScorePattern) == Some(V)
  {
    var o5 := 11 + |D| + 9 + |I| + 7;
    var o8 := o5 + |kind| + 1 + |V|;
    assert m[o8] == ' ' by { assert m[o8..][0] == tail[0]; }
    NoScoreKeywordBefore(m, D, I);
    var alts := ["cp ", "mate "];
    if kind == "cp" {
      CaptureAfterAlts(m, o5, alts, 0, V, DigitOrMinus);
    } else {
      PieceAt(m, o5, kind + " ");
      assert m[o5] == 'm';
      if OccursAt(m, "cp ", o5) { OccursAtChar(m, "cp ", o5, 0); }
      CaptureAfterAlts(m, o5, alts, 1, V, DigitOrMinus);
    }
  }

  /** The score pattern reads the printed score value back, for centipawn and mate scores. */
  lemma ScoreField(d: nat, id: nat, kind: string, v: int, move: string, rest: string)
    requires kind == "cp" || kind == "mate"
    ensures CaptureOf(InfoMessage(d, id, kind, v, move, rest), ScorePattern) == Some(IntToString(v))
  {
    var m := InfoMessage(d, id, kind, v, move, rest);
    var D := NatToString(d);
    var I := NatToString(id);
    var V := IntToString(v);
    var tail := " pv " + (move + rest);
    InfoLayout(m, D, I, kind, V, tail);
    IntToStringChars(v);
    ScoreCaptureOf(m, D, I, kind, V, tail);
  }

  /** Group 1 of the pv pattern whose leftmost match and token end are known. */
  lemma CaptureOfPv(m: string, at: nat, e: nat)
    requires at + 4 <= |m| && FindFirst(m, PvPattern, 0) == Some(at) && LazyTokenEnd(m, at + 4) == Some(e)
    ensures CaptureOf(m, PvPattern) == Some(m[at + 4..e])
  {
    CaptureOfFound(m, PvPattern, at);
    CaptureAtToken(m, " pv ", at, e);
  }

  /** The lazy token from `t` is `tok` when a space or the end follows it. */
  lemma LazyTokenEndAt(m: string, t: nat, tok: string)
    requires |tok| > 0 && t + |tok| <= |m| && m[t..t + |tok|] == tok
    requires forall i :: 0 <= i < |tok| ==> tok[i] != ' ' && !IsLineTerminator(tok[i])
    requires t + |tok| == |m| || m[t + |tok|] == ' '
    ensures LazyTokenEnd(m, t) == Some(t + |tok|)
  {
    PieceAt(m, t, tok);
    TokenStopAt(m, t + 1, t + |tok|);
  }

  /** The leftmost " pv " at `at` is where the pv pattern first matches, once a token follows it. */
  lemma PvMatchFirstAt(m: string, at: nat)
    requires OccursAt(m, " pv ", at) && forall j :: 0 <= j < at ==> !OccursAt(m, " pv ", j)
    requires LazyTokenEnd(m, at + 4).Some?
    ensures FindFirst(m, PvPattern, 0) == Some(at)
  {
    forall j | 0 <= j < at ensures !MatchesAt(m, PvPattern, j) {
      assert !OccursAt(m, " pv ", j);
    }
    FindFirstAt(m, PvPattern, at, 0);
  }

  /** The pv capture: the leftmost " pv ", then the token up to the next space. */
  lemma PvCaptureAt(m: string, at: nat, tok: string)
    requires OccursAt(m, " pv ", at) && forall j :: 0 <= j < at ==> !OccursAt(m, " pv ", j)
    requires |tok| > 0 && at + 4 + |tok| <= |m| && m[at + 4..at + 4 + |tok|] == tok
    requires forall i :: 0 <= i < |tok| ==> tok[i] != ' ' && !IsLineTerminator(tok[i])
    requires at + 4 + |tok| == |m| || m[at + 4 + |tok|] == ' '
    ensures CaptureOf(m, PvPattern) == Some(tok)
  {
    LazyTokenEndAt(m, at + 4, tok);
    PvMatchFirstAt(m, at);
    CaptureOfPv(m, at, at + 4 + |tok|);
  }

  /** " pv " does not occur before its place in "info depth D multipv I score KIND V pv ". */
  lemma NoPvBefore(m: string, D: string, I: string, kind: string, V: string)
    requires |D| > 0 && AllDigits(D) && |I| > 0 && AllDigits(I) && (kind == "cp" || kind == "mate")
    requires |V| > 0 && forall i :: 0 <= i < |V| ==> InClass(V[i], DigitOrMinus)
    requires 11 + |D| + 9 + |I| + 7 + |kind| + 1 + |V| <= |m|
    requires m[..11] == "info depth " && m[11..11 + |D|] == D
    requires m[11 + |D|..11 + |D| + 9] == " multipv "
    requires m[11 + |D| + 9..11 + |D| + 9 + |I|] == I
    requires m[11 + |D| + 9 + |I|..11 + |D| + 9 + |I| + 7] == " score "
    requires m[11 + |D| + 9 + |I| + 7..11 + |D| + 9 + |I| + 7 + |kind| + 1] == kind + " "
    requires m[11 + |D| + 9 + |I| + 7 + |kind| + 1..11 + |D| + 9 + |I| + 7 + |kind| + 1 + |V|] == V
    ensures forall j :: 0 <= j < 11 + |D| + 9 + |I| + 7 + |kind| + 1 + |V| ==> !OccursAt(m, " pv ", j)
  {
    var o2 := 11 + |D|;
    var o3 := o2 + 9;
    var o4 := o3 + |I|;
    var o5 := o4 + 7;
    var o7 := o5 + |kind| + 1;
    forall j | 0 <= j < o7 + |V| ensures !OccursAt(m, " pv ", j) {
      if j < 11 {
        PieceAt(m, 0, "info depth ");
        PieceAt(m, 11, D);
      } else if j < o2 {
        PieceAt(m, 11, D);
      } else if j < o3 {
        PieceAt(m, o2, " multipv ");
        PieceAt(m, o3, I);
      } else if j < o4 {
        PieceAt(m, o3, I);
      } else if j < o5 {
        PieceAt(m, o4, " score ");
        PieceAt(m, o5, kind + " ");
      } else if j < o7 {
        PieceAt(m, o5, kind + " ");
        PieceAt(m, o7, V);
      } else {
        PieceAt(m, o7, V);
      }
      if OccursAt(m, " pv ", j) {
        OccursAtFirstTwo(m, " pv ", j);
      }
    }
  }

  /** The pv capture of a line laid out as "info depth D multipv I score KIND V pv MOVE" + `rest`. */
  lemma PvCaptureOf(m: string, D: string, I: string, kind: string, V: string, move: string, rest: string)
    requires |D| > 0 && AllDigits(D) && |I| > 0 && AllDigits(I) && (kind == "cp" || kind == "mate")
    requires |V| > 0 && forall i :: 0 <= i < |V| ==> InClass(V[i], DigitOrMinus)
    requires |move| > 0 && forall i :: 0 <= i < |move| ==> move[i] != ' ' && !IsLineTerminator(move[i])
    requires rest == [] || rest[0] == ' '
    requires 11 + |D| + 9 + |I| + 7 + |kind| + 1 + |V| <= |m|
    requires m[..11] == "info depth " && m[11..11 + |D|] == D
    requires m[11 + |D|..11 + |D| + 9] == " multipv "
    requires m[11 + |D| + 9..11 + |D| + 9 + |I|] == I
    requires m[11 + |D| + 9 + |I|..11 + |D| + 9 + |I| + 7] == " score "
    requires m[11 + |D| + 9 + |I| + 7..11 + |D| + 9 + |I| + 7 + |kind| + 1] == kind + " "
    requires m[11 + |D| + 9 + |I| + 7 + |kind| + 1..11 + |D| + 9 + |I| + 7 + |kind| + 1 + |V|] == V
    requires m[11 + |D| + 9 + |I| + 7 + |kind| + 1 + |V|..] == " pv " + (move + rest)
    ensures CaptureOf(m, PvPattern) == Some(move)
  {
    var o8 := 11 + |D| + 9 + |I| + 7 + |kind| + 1 + |V|;
    Peel(m, o8, " pv ", move + rest);
    Peel(m, o8 + 4, move, rest);
    NoPvBefore(m, D, I, kind, V);
    if rest != [] {
      assert m[o8 + 4 + |move|] == ' ' by { assert m[o8 + 4 + |move|..][0] == rest[0]; }
    }
    PvCaptureAt(m, o8, move);
  }

  /** The pv pattern reads the head move back, when the move is one token and a space or the end follows it. */
  lemma PvField(d: nat, id: nat, kind: string, v: int, move: string, rest: string)
    requires kind == "cp" || kind == "mate"
    requires |move| > 0 && forall i :: 0 <= i < |move| ==> move[i] != ' ' && !IsLineTerminator(move[i])
    requires rest == [] || rest[0] == ' '
    ensures CaptureOf(InfoMessage(d, id, kind, v, move, rest), PvPattern) == Some(move)
  {
    var m := InfoMessage(d, id, kind, v, move, rest);
    var D := NatToString(d);
    var I := NatToString(id);
    var V := IntToString(v);
    InfoLayout(m, D, I, kind, V, " pv " + (move + rest));
    IntToStringChars(v);
    PvCaptureOf(m, D, I, kind, V, move, rest);
  }

  /** `ParseInfo` assembled from the four captures. */
  lemma ParseInfoOfFields(m: string, id: nat, d: nat, move: string, V: string, v: int)
    requires StartsWith(m, "info depth")
    requires DigitField(m, MultipvPattern) == Some(id) && DigitField(m, DepthPattern) == Some(d)
    requires CaptureOf(m, PvPattern) == Some(move)
    requires CaptureOf(m, ScorePattern) == Some(V) && ParseInt(V) == Num(v)
    ensures ParseInfo(m) == Some(Info(id, d, move, Evaluation(if Contains(m, " cp ") then "cp" else "mate", Num(v))))
  {
  }

  /** A centipawn line contains " cp ", so its score is read as "cp". */
  lemma CpLineContainsCp(d: nat, id: nat, v: int, move: string, rest: string)
    ensures Contains(InfoMessage(d, id, "cp", v, move, rest), " cp ")
  {
    var m := InfoMessage(d, id, "cp", v, move, rest);
    var D := NatToString(d);
    var I := NatToString(id);
    InfoLayout(m, D, I, "cp", IntToString(v), " pv " + (move + rest));
    var o4 := 11 + |D| + 9 + |I|;
    JoinSlices(m, o4 + 6, o4 + 7, o4 + 10);
    assert m[o4 + 6..o4 + 10] == " cp ";
    ContainsIff(m, " cp ");
    assert OccursAt(m, " cp ", o4 + 6);
  }

  /**
   * The score type "mate", its value and what follows hold no 'c' followed by 'p' when
   * none of `mid`, the move and `rest` does.
   */
  lemma MateTailNoCp(V: string, mid: string, move: string, rest: string)
    requires |V| > 0 && forall i :: 0 <= i < |V| ==> InClass(V[i], DigitOrMinus)
    requires NoPair(mid, 'c', 'p') && NoPair(move, 'c', 'p') && NoPair(rest, 'c', 'p')
    requires rest == [] || rest[0] == ' '
    ensures NoPair("mate" + (" " + (V + (mid + (" pv " + (move + rest))))), 'c', 'p')
  {
    assert NoPair(V, 'c', 'p');
    var Y := " pv " + (move + rest);
    NoPairAppend(move, rest, 'c', 'p');
    NoPairAppend(" pv ", move + rest, 'c', 'p');
    NoPairAppend(mid, Y, 'c', 'p');
    NoPairAppend(V, mid + Y, 'c', 'p');
    NoPairAppend(" ", V + (mid + Y), 'c', 'p');
    NoPairAppend("mate", " " + (V + (mid + Y)), 'c', 'p');
  }

  /**
   * A mate line in the compact layout holds no " cp " when neither the move nor `rest`
   * has "cp", so its score is read as "mate".
   */
  lemma CompactMateLine(d: nat, id: nat, v: int, move: string, rest: string)
    requires NoPair(move, 'c', 'p') && NoPair(rest, 'c', 'p')
    requires rest == [] || rest[0] == ' '
    ensures !Contains(InfoMessage(d, id, "mate", v, move, rest), " cp ")
  {
    var D := NatToString(d);
    var I := NatToString(id);
    var V := IntToString(v);
    var Y := " pv " + (move + rest);
    var P := "info depth " + (D + (" multipv " + (I + " score ")));
    var X := "mate" + (" " + (V + Y));
    Regroup5("info depth ", D, " multipv ", I, " score ", X);
    assert NoPair(D, 'c', 'p') && NoPair(I, 'c', 'p');
    NoPairAppend(I, " score ", 'c', 'p');
    NoPairAppend(" multipv ", I + " score ", 'c', 'p');
    NoPairAppend(D, " multipv " + (I + " score "), 'c', 'p');
    NoPairAppend("info depth ", D + (" multipv " + (I + " score ")), 'c', 'p');
    IntToStringChars(v);
    assert [] + Y == Y;
    MateTailNoCp(V, [], move, rest);
    NoPairAppend(P, X, 'c', 'p');
    assert " cp "[1] == 'c' && " cp "[2] == 'p';
    NotContainsByPair(P + X, " cp ", 1);
  }

  /**
   * Parsing an engine-printed `info` line gives back its rank, depth, head move and score
   * value; a centipawn score keeps its type, and so does a mate score when no "cp" follows
   * it. The move must be a single token (no space, no line terminator) and whatever follows
   * it must start with a space.
   */
  lemma ParseInfoRoundTrip(d: nat, id: nat, kind: string, v: int, move: string, rest: string)
    requires kind == "cp" || kind == "mate"
    requires |move| > 0 && forall i :: 0 <= i < |move| ==> move[i] != ' ' && !IsLineTerminator(move[i])
    requires rest == [] || rest[0] == ' '
    ensures var r := ParseInfo(InfoMessage(d, id, kind, v, move, rest));
            && r.Some? && r.value.id == id && r.value.depth == d && r.value.move == move
            && r.value.score.value == Num(v)
            && (kind == "cp" ==> r.value.score.kind == "cp")
            && (kind == "mate" && NoPair(move, 'c', 'p') && NoPair(rest, 'c', 'p') ==> r.value.score.kind == "mate")
  {
    var m := InfoMessage(d, id, kind, v, move, rest);
    assert m[..10] == "info depth";
    HeaderFields(d, id, " score " + (kind + (" " + (IntToString(v) + (" pv " + (move + rest))))));
    PvField(d, id, kind, v, move, rest);
    ScoreField(d, id, kind, v, move, rest);
    ParseIntOfIntToString(v);
    ParseInfoOfFields(m, id, d, move, IntToString(v), v);
    if kind == "cp" {
      CpLineContainsCp(d, id, v, move, rest);
    } else if NoPair(move, 'c', 'p') && NoPair(rest, 'c', 'p') {
      CompactMateLine(d, id, v, move, rest);
    }
  }

  // ---------------------------------------------------------------------------------
  // Reading back an `info` line in Stockfish's layout

  /**
   * An `info` line as Stockfish prints it: "info depth D seldepth S multipv I score KIND V",
   * then `mid` (fields such as " nodes N nps R hashfull H tbhits T time T", or a bound
   * marker), then " pv MOVE" and `rest` (the further moves of the variation).
   */
  function StockfishInfo(d: nat, sel: nat, id: nat, kind: string, v: int, mid: string, move: string, rest: string)
    : string
  {
    "info depth " + (NatToString(d) + (" seldepth " + (NatToString(sel) + (" multipv " + (NatToString(id) +
      (" score " + (kind + (" " + (IntToString(v) + (mid + (" pv " + (move + rest))))))))))))
  }

  /** The header in front of the score type: "info depth D seldepth S multipv I score ". */
  function StockfishScorePrefix(d: nat, sel: nat, id: nat): string {
    "info depth " + (NatToString(d) + (" seldepth " + (NatToString(sel) + (" multipv " + (NatToString(id) + " score ")))))
  }

  /**
   * Text made of three non-empty digit runs between four pieces has no pair of two
   * non-digits that none of the pieces has.
   */
  lemma HeaderNoPair(p1: string, D: string, p2: string, S: string, p3: string, I: string, p4: string, a: char, b: char)
    requires |D| > 0 && AllDigits(D) && |S| > 0 && AllDigits(S) && |I| > 0 && AllDigits(I)
    requires !IsDigit(a) && !IsDigit(b)
    requires NoPair(p1, a, b) && NoPair(p2, a, b) && NoPair(p3, a, b) && NoPair(p4, a, b)
    ensures NoPair(p1 + (D + (p2 + (S + (p3 + (I + p4))))), a, b)
  {
    assert NoPair(D, a, b) && NoPair(S, a, b) && NoPair(I, a, b);
    NoPairAppend(I, p4, a, b);
    NoPairAppend(p3, I + p4, a, b);
    NoPairAppend(S, p3 + (I + p4), a, b);
    NoPairAppend(p2, S + (p3 + (I + p4)), a, b);
    NoPairAppend(D, p2 + (S + (p3 + (I + p4))), a, b);
    NoPairAppend(p1, D + (p2 + (S + (p3 + (I + p4)))), a, b);
  }

  /** Neither "cp" nor "ma" nor " p" occurs in Stockfish's header before the score type. */
  lemma ScorePrefixNoPairs(d: nat, sel: nat, id: nat)
    ensures var P := StockfishScorePrefix(d, sel, id);
            NoPair(P, 'c', 'p') && NoPair(P, 'm', 'a') && NoPair(P, ' ', 'p')
  {
    var D := NatToString(d);
    var S := NatToString(sel);
    var I := NatToString(id);
    HeaderNoPair("info depth ", D, " seldepth ", S, " multipv ", I, " score ", 'c', 'p');
    HeaderNoPair("info depth ", D, " seldepth ", S, " multipv ", I, " score ", 'm', 'a');
    HeaderNoPair("info depth ", D, " seldepth ", S, " multipv ", I, " score ", ' ', 'p');
  }

  /**
   * The score pattern reads V back from `pre + KIND + " " + V + tail` when `pre` has no
   * "cp" and no "ma" (so no score keyword starts in it) and no digit or '-' follows V.
   */
  lemma ScoreAfterPrefix(pre: string, kind: string, V: string, tail: string)
    requires NoPair(pre, 'c', 'p') && NoPair(pre, 'm', 'a')
    requires kind == "cp" || kind == "mate"
    requires |V| > 0 && forall i :: 0 <= i < |V| ==> InClass(V[i], DigitOrMinus)
    requires tail == [] || tail[0] == ' '
    ensures CaptureOf(pre + (kind + (" " + (V + tail))), ScorePattern) == Some(V)
  {
    var m := pre + (kind + (" " + (V + tail)));
    var o := |pre|;
    var k1 := kind + " ";
    assert m[..o] == pre;
    assert m[o..] == k1 + (V + tail);
    Peel(m, o, k1, V + tail);
    Peel(m, o + |k1|, V, tail);
    if tail != [] {
      assert m[o + |k1| + |V|] == ' ' by { assert m[o + |k1| + |V|..][0] == tail[0]; }
    }
    assert m[o] == kind[0] by { assert m[o..o + |k1|][0] == k1[0]; }
    var alts := ["cp ", "mate "];
    forall j, y | 0 <= j < o && 0 <= y < |alts| ensures !OccursAt(m, alts[y], j) {
      if j + 1 < o {
        assert m[j] == pre[j] && m[j + 1] == pre[j + 1];
      }
      NotOccursAtByPair(m, alts[y], j);
    }
    if kind == "cp" {
      CaptureAfterAlts(m, o, alts, 0, V, DigitOrMinus);
    } else {
      NotOccursAtByPair(m, "cp ", o);
      CaptureAfterAlts(m, o, alts, 1, V, DigitOrMinus);
    }
  }

  /**
   * The pv pattern reads MOVE back from `pre + " pv " + MOVE + rest` when no space in
   * `pre` is followed by 'p' (so no " pv " starts in it), MOVE is one token and a space
   * or the end follows it.
   */
  lemma PvAfterPrefix(pre: string, move: string, rest: string)
    requires NoPair(pre, ' ', 'p')
    requires |move| > 0 && forall i :: 0 <= i < |move| ==> move[i] != ' ' && !IsLineTerminator(move[i])
    requires rest == [] || rest[0] == ' '
    ensures CaptureOf(pre + (" pv " + (move + rest)), PvPattern) == Some(move)
  {
    var m := pre + (" pv " + (move + rest));
    var o := |pre|;
    assert m[o..] == " pv " + (move + rest);
    Peel(m, o, " pv ", move + rest);
    Peel(m, o + 4, move, rest);
    assert m[o] == ' ' by { assert m[o..o + 4][0] == ' '; }
    forall j | 0 <= j < o ensures !OccursAt(m, " pv ", j) {
      if j + 1 < o {
        assert m[j] == pre[j] && m[j + 1] == pre[j + 1];
      }
      NotOccursAtByPair(m, " pv ", j);
    }
    if rest != [] {
      assert m[o + 4 + |move|] == ' ' by { assert m[o + 4 + |move|..][0] == rest[0]; }
    }
    PieceAt(m, o, " pv ");
    assert OccursAt(m, " pv ", o);
    PvCaptureAt(m, o, move);
  }

  /** The score value of a Stockfish line reads back. */
  lemma StockfishScore(d: nat, sel: nat, id: nat, kind: string, v: int, mid: string, move: string, rest: string)
    requires kind == "cp" || kind == "mate"
    requires mid == [] || mid[0] == ' '
    ensures CaptureOf(StockfishInfo(d, sel, id, kind, v, mid, move, rest), ScorePattern) == Some(IntToString(v))
  {
    var V := IntToString(v);
    var tail := mid + (" pv " + (move + rest));
    Regroup7("info depth ", NatToString(d), " seldepth ", NatToString(sel), " multipv ", NatToString(id), " score ",
             kind + (" " + (V + tail)));
    ScorePrefixNoPairs(d, sel, id);
    IntToStringChars(v);
    ScoreAfterPrefix(StockfishScorePrefix(d, sel, id), kind, V, tail);
  }

  /** The head move of a Stockfish line reads back, when no field of `mid` starts with 'p'. */
  lemma StockfishPv(d: nat, sel: nat, id: nat, kind: string, v: int, mid: string, move: string, rest: string)
    requires kind == "cp" || kind == "mate"
    requires NoPair(mid, ' ', 'p')
    requires |move| > 0 && forall i :: 0 <= i < |move| ==> move[i] != ' ' && !IsLineTerminator(move[i])
    requires rest == [] || rest[0] == ' '
    ensures CaptureOf(StockfishInfo(d, sel, id, kind, v, mid, move, rest), PvPattern) == Some(move)
  {
    var P := StockfishScorePrefix(d, sel, id);
    var V := IntToString(v);
    var Y := " pv " + (move + rest);
    Regroup7("info depth ", NatToString(d), " seldepth ", NatToString(sel), " multipv ", NatToString(id), " score ",
             kind + (" " + (V + (mid + Y))));
    Regroup5(P, kind, " ", V, mid, Y);
    ScorePrefixNoPairs(d, sel, id);
    IntToStringChars(v);
    ValueFieldNoPair(P, kind, V, mid);
    PvAfterPrefix(P + (kind + (" " + (V + mid))), move, rest);
  }

  /** Score type, value and `mid` add no space followed by 'p' to a header without one. */
  lemma ValueFieldNoPair(P: string, kind: string, V: string, mid: string)
    requires NoPair(P, ' ', 'p') && (P == [] || P[|P| - 1] == ' ')
    requires kind == "cp" || kind == "mate"
    requires |V| > 0 && forall i :: 0 <= i < |V| ==> InClass(V[i], DigitOrMinus)
    requires NoPair(mid, ' ', 'p')
    ensures NoPair(P + (kind + (" " + (V + mid))), ' ', 'p')
  {
    assert NoPair(V, ' ', 'p');
    NoPairAppend(V, mid, ' ', 'p');
    NoPairAppend(" ", V + mid, ' ', 'p');
    NoPairAppend(kind, " " + (V + mid), ' ', 'p');
    NoPairAppend(P, kind + (" " + (V + mid)), ' ', 'p');
  }

  /** A centipawn line in Stockfish's layout contains " cp ", so its score is read as "cp". */
  lemma StockfishCpLine(d: nat, sel: nat, id: nat, v: int, mid: string, move: string, rest: string)
    ensures Contains(StockfishInfo(d, sel, id, "cp", v, mid, move, rest), " cp ")
  {
    var P := StockfishScorePrefix(d, sel, id);
    var X := "cp" + (" " + (IntToString(v) + (mid + (" pv " + (move + rest)))));
    var m := StockfishInfo(d, sel, id, "cp", v, mid, move, rest);
    Regroup7("info depth ", NatToString(d), " seldepth ", NatToString(sel), " multipv ", NatToString(id), " score ", X);
    assert m == P + X;
    var o := |P| - 1;
    assert m[o] == ' ' by { assert P[o] == ' '; }
    assert m[o + 1..o + 4] == "cp " by { assert m[|P|..] == X; assert X[..3] == "cp "; }
    assert m[o..o + 4] == " cp ";
    assert OccursAt(m, " cp ", o);
    ContainsIff(m, " cp ");
  }

  /**
   * A mate line in Stockfish's layout holds no " cp " when none of `mid`, the move and
   * `rest` has "cp", so its score is read as "mate".
   */
  lemma StockfishMateLine(d: nat, sel: nat, id: nat, v: int, mid: string, move: string, rest: string)
    requires NoPair(mid, 'c', 'p') && NoPair(move, 'c', 'p') && NoPair(rest, 'c', 'p')
    requires rest == [] || rest[0] == ' '
    ensures !Contains(StockfishInfo(d, sel, id, "mate", v, mid, move, rest), " cp ")
  {
    var P := StockfishScorePrefix(d, sel, id);
    var V := IntToString(v);
    var X := "mate" + (" " + (V + (mid + (" pv " + (move + rest)))));
    Regroup7("info depth ", NatToString(d), " seldepth ", NatToString(sel), " multipv ", NatToString(id), " score ", X);
    ScorePrefixNoPairs(d, sel, id);
    IntToStringChars(v);
    MateTailNoCp(V, mid, move, rest);
    NoPairAppend(P, X, 'c', 'p');
    assert " cp "[1] == 'c' && " cp "[2] == 'p';
    NotContainsByPair(P + X, " cp ", 1);
  }

  /**
   * Parsing an `info` line in Stockfish's layout gives back its rank, depth, head move and
   * score value; a centipawn score keeps its type, and so does a mate score when no "cp"
   * follows it. The fields between the score and "pv" must start with a space and none may
   * start with 'p'; the move must be one token.
   */
  lemma StockfishInfoRoundTrip(d: nat, sel: nat, id: nat, kind: string, v: int, mid: string, move: string, rest: string)
    requires kind == "cp" || kind == "mate"
    requires mid == [] || mid[0] == ' '
    requires NoPair(mid, ' ', 'p')
    requires |move| > 0 && forall i :: 0 <= i < |move| ==> move[i] != ' ' && !IsLineTerminator(move[i])
    requires rest == [] || rest[0] == ' '
    ensures var r := ParseInfo(StockfishInfo(d, sel, id, kind, v, mid, move, rest));
            && r.Some? && r.value.id == id && r.value.depth == d && r.value.move == move
            && r.value.score.value == Num(v)
            && (kind == "cp" ==> r.value.score.kind == "cp")
            && (kind == "mate" && NoPair(mid, 'c', 'p') && NoPair(move, 'c', 'p') && NoPair(rest, 'c', 'p') ==>
                  r.value.score.kind == "mate")
  {
    var m := StockfishInfo(d, sel, id, kind, v, mid, move, rest);
    assert m[..10] == "info depth";
    StockfishHeaderFields(d, sel, id, " score " + (kind + (" " + (IntToString(v) + (mid + (" pv " + (move + rest)))))));
    StockfishScore(d, sel, id, kind, v, mid, move, rest);
    StockfishPv(d, sel, id, kind, v, mid, move, rest);
    ParseIntOfIntToString(v);
    ParseInfoOfFields(m, id, d, move, IntToString(v), v);
    if kind == "cp" {
      StockfishCpLine(d, sel, id, v, mid, move, rest);
    } else if NoPair(mid, 'c', 'p') && NoPair(move, 'c', 'p') && NoPair(rest, 'c', 'p') {
      StockfishMateLine(d, sel, id, v, mid, move, rest);
    }
  }

  // ---------------------------------------------------------------------------------
  // The terminal `bestmove` message

  predicate IsFile(c: char) { 'a' <= c <= 'h' }
  predicate IsRank(c: char) { '1' <= c <= '8' }
  predicate IsPromotionPiece(c: char) { c == 'q' || c == 'r' || c == 'b' || c == 'n' }

  /** A coordinate square such as "e2". */
  predicate IsSquare(sq: string) {
    |sq| == 2 && IsFile(sq[0]) && IsRank(sq[1])
  }

  /** The groups of `/^bestmove ([a-h][1-8])([a-h][1-8])([qrbn])?/`. */
  datatype BestMove = BestMove(from: string, to: string, promotion: Option<string>)

  /** `message.match(/^bestmove ([a-h][1-8])([a-h][1-8])([qrbn])?/)`, `None` for null. */
  function ParseBestMove(m: string): (r: Option<BestMove>)
    ensures r.Some? ==> StartsWith(m, "bestmove ") && IsSquare(r.value.from) && IsSquare(r.value.to)
    ensures r.Some? && r.value.promotion.Some? ==>
              |r.value.promotion.value| == 1 && IsPromotionPiece(r.value.promotion.value[0])
    ensures !StartsWith(m, "bestmove ") ==> r.None?
  {
    if |m| >= 13 && StartsWith(m, "bestmove ") && IsFile(m[9]) && IsRank(m[10]) && IsFile(m[11]) && IsRank(m[12]) then
      var promotion := if |m| > 13 && IsPromotionPiece(m[13]) then Some([m[13]]) else None;
      Some(BestMove(m[9..11], m[11..13], promotion))
    else None
  }

  /** The text of a `bestmove` message for a move, with whatever follows it (e.g. " ponder e7e5"). */
  function BestMoveMessage(from: string, to: string, promotion: Option<string>, rest: string): string {
    "bestmove " + from + to + promotion.GetOr("") + rest
  }

  /**
   * Parsing a `bestmove` message gives back its squares and promotion letter, whatever
   * follows the move as long as it does not start with a promotion letter itself.
   */
  lemma ParseBestMoveRoundTrip(from: string, to: string, promotion: Option<string>, rest: string)
    requires IsSquare(from) && IsSquare(to)
    requires promotion.Some? ==> |promotion.value| == 1 && IsPromotionPiece(promotion.value[0])
    requires promotion.None? && |rest| > 0 ==> !IsPromotionPiece(rest[0])
    ensures ParseBestMove(BestMoveMessage(from, to, promotion, rest)) == Some(BestMove(from, to, promotion))
  {
    var m := BestMoveMessage(from, to, promotion, rest);
    assert m[..9] == "bestmove ";
    assert m[9..11] == from && m[11..13] == to;
    if promotion.Some? {
      assert m[13] == promotion.value[0];
      assert [m[13]] == promotion.value;
    } else if |rest| > 0 {
      assert m[13] == rest[0];
    }
  }
}
