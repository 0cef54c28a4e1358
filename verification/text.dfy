/**
 * The JavaScript string primitives the extension relies on, stated over `seq<char>`:
 * prefix and substring tests, the leftmost-match search that the engine parser's regular
 * expressions perform, `String.prototype.substring`, `split(" ")[1]`, `parseInt`, and the
 * decimal rendering of integers and of `ms / 1000`.
 */
module Text {
  import opened Wrappers

  /** `s.startsWith(p)` */
  predicate StartsWith(s: string, p: string) {
    |p| <= |s| && s[..|p|] == p
  }

  /** `p` occurs in `s` starting at index `i`. */
  predicate OccursAt(s: string, p: string, i: int) {
    0 <= i && i + |p| <= |s| && s[i..i + |p|] == p
  }

  predicate IsDigit(c: char) {
    '0' <= c <= '9'
  }

  /** The characters that the regular-expression `.` does not match (ECMAScript line terminators). */
  predicate IsLineTerminator(c: char) {
    c == '\n' || c == '\r' || c == '\U{2028}' || c == '\U{2029}'
  }

  /** The two character classes the parser's expressions repeat: `\d` and `[\d-]`. */
  datatype CharClass = Digit | DigitOrMinus

  predicate InClass(c: char, k: CharClass) {
    match k
    case Digit => IsDigit(c)
    case DigitOrMinus => IsDigit(c) || c == '-'
  }

  /** End of the greedy run `k+` starting at `j`: the run is maximal. */
  function RunEnd(s: string, j: nat, k: CharClass): (e: nat)
    requires j <= |s|
    ensures j <= e <= |s|
    ensures forall m :: j <= m < e ==> InClass(s[m], k)
    ensures e == |s| || !InClass(s[e], k)
    decreases |s| - j
  {
    if j < |s| && InClass(s[j], k) then RunEnd(s, j + 1, k) else j
  }

  /**
   * Continuation of the lazy `.+?(?= |$)` after at least one character: the first index
   * from `k` on that is the end of the input or a space, provided no line terminator
   * comes before it.
   */
  function TokenStop(s: string, k: nat): (r: Option<nat>)
    requires k <= |s|
    ensures r.Some? ==> k <= r.value <= |s| && (r.value == |s| || s[r.value] == ' ')
    ensures r.Some? ==> forall m :: k <= m < r.value ==> s[m] != ' ' && !IsLineTerminator(s[m])
    ensures r.None? ==> exists m :: k <= m < |s| && IsLineTerminator(s[m])
    decreases |s| - k
  {
    if k == |s| || s[k] == ' ' then Some(k)
    else if IsLineTerminator(s[k]) then None
    else TokenStop(s, k + 1)
  }

  /**
   * End of the lazy token `.+?(?= |$)` starting at `t`: at least one character that is not
   * a line terminator (a space is allowed first), then up to the first space or the end.
   */
  function LazyTokenEnd(s: string, t: nat): (r: Option<nat>)
    requires t <= |s|
    ensures r.Some? ==> t < r.value <= |s| && (r.value == |s| || s[r.value] == ' ')
    ensures r.Some? ==> forall m :: t < m < r.value ==> s[m] != ' '
    ensures r.Some? ==> forall m :: t <= m < r.value ==> !IsLineTerminator(s[m])
    ensures r.None? <==> t == |s| || exists m :: t <= m < |s| && IsLineTerminator(s[m]) &&
                                       forall m' :: t < m' < m ==> s[m'] != ' '
  {
    if t == |s| || IsLineTerminator(s[t]) then None
    else
      var r := TokenStop(s, t + 1);
      assert r.None? ==> exists m :: t <= m < |s| && IsLineTerminator(s[m]) &&
                                  forall m' :: t < m' < m ==> s[m'] != ' ' by {
        if r.None? { FirstTerminatorBeforeSpace(s, t + 1); }
      }
      r
  }

  /** When the token search fails, a line terminator precedes every space after `k`. */
  lemma {:induction false} FirstTerminatorBeforeSpace(s: string, k: nat)
    requires k <= |s|
    requires TokenStop(s, k).None?
    ensures exists m :: k <= m < |s| && IsLineTerminator(s[m]) && forall m' :: k <= m' < m ==> s[m'] != ' '
    decreases |s| - k
  {
    if IsLineTerminator(s[k]) {
      assert k <= k < |s| && IsLineTerminator(s[k]);
    } else {
      FirstTerminatorBeforeSpace(s, k + 1);
      var m :| k + 1 <= m < |s| && IsLineTerminator(s[m]) && forall m' :: k + 1 <= m' < m ==> s[m'] != ' ';
      assert forall m' :: k <= m' < m ==> s[m'] != ' ';
    }
  }

  /**
   * The regular-expression shapes used by the engine parser:
   *  - `Literal(p)`: the fixed text `p` (`includes`, `indexOf`, `split`);
   *  - `Capture(alts, k)`: one of the literals `alts` (tried in order) followed by `k+`,
   *    as in `(?:depth )(\d+)` or `(?:(?:cp )|(?:mate ))([\d-]+)`;
   *  - `Token(p)`: the literal `p` followed by `.+?(?= |$)`, as in `(?: pv )(.+?)(?= |$)`.
   */
  datatype Pattern = Literal(lit: string) | Capture(alts: seq<string>, cls: CharClass) | Token(prefix: string)

  /** Alternative `a` followed by at least one character of class `k` matches at `i`. */
  predicate AltMatches(s: string, a: string, k: CharClass, i: nat) {
    i + |a| < |s| && s[i..i + |a|] == a && InClass(s[i + |a|], k)
  }

  /** Index of the first alternative, from `n` on, that matches at `i`. */
  function FirstAlt(s: string, alts: seq<string>, k: CharClass, i: nat, n: nat): (r: Option<nat>)
    requires n <= |alts|
    ensures r.Some? ==> n <= r.value < |alts| && AltMatches(s, alts[r.value], k, i)
    ensures r.Some? ==> forall x :: n <= x < r.value ==> !AltMatches(s, alts[x], k, i)
    ensures r.None? ==> forall x :: n <= x < |alts| ==> !AltMatches(s, alts[x], k, i)
    decreases |alts| - n
  {
    if n == |alts| then None
    else if AltMatches(s, alts[n], k, i) then Some(n)
    else FirstAlt(s, alts, k, i, n + 1)
  }

  /** Pattern `pat` matches the input at position `i`. */
  predicate MatchesAt(s: string, pat: Pattern, i: int) {
    0 <= i <= |s| &&
    match pat
    case Literal(p) => OccursAt(s, p, i)
    case Capture(alts, k) => FirstAlt(s, alts, k, i, 0).Some?
    case Token(p) => OccursAt(s, p, i) && LazyTokenEnd(s, i + |p|).Some?
  }

  /** Leftmost position, from `i` on, where `pat` matches: the search a non-global `match` performs. */
  function FindFirst(s: string, pat: Pattern, i: nat): (r: Option<nat>)
    requires i <= |s|
    ensures r.Some? ==> i <= r.value <= |s| && MatchesAt(s, pat, r.value)
    ensures r.Some? ==> forall j :: i <= j < r.value ==> !MatchesAt(s, pat, j)
    ensures r.None? ==> forall j :: i <= j <= |s| ==> !MatchesAt(s, pat, j)
    decreases |s| - i
  {
    if MatchesAt(s, pat, i) then Some(i)
    else if i == |s| then None
    else FindFirst(s, pat, i + 1)
  }

  /** Text of capture group 1 of the leftmost match of `pat`, or `None` when `match` returns null. */
  function CaptureOf(s: string, pat: Pattern): (r: Option<string>)
    requires !pat.Literal?
    ensures r.Some? <==> exists j :: 0 <= j <= |s| && MatchesAt(s, pat, j)
    ensures r.Some? ==> |r.value| > 0
  {
    match FindFirst(s, pat, 0)
    case None => None
    case Some(i) => Some(CaptureAt(s, pat, i))
  }

  /** Text of capture group 1 of the match of `pat` at `i`. */
  function CaptureAt(s: string, pat: Pattern, i: nat): (c: string)
    requires !pat.Literal? && MatchesAt(s, pat, i)
    ensures |c| > 0
  {
    match pat
    case Capture(alts, k) =>
      var a := FirstAlt(s, alts, k, i, 0).value;
      s[i + |alts[a]|..RunEnd(s, i + |alts[a]|, k)]
    case Token(p) =>
      s[i + |p|..LazyTokenEnd(s, i + |p|).value]
  }

  /** `s.includes(p)` */
  predicate Contains(s: string, p: string) {
    FindFirst(s, Literal(p), 0).Some?
  }

  /** `includes` holds exactly when the literal occurs somewhere. */
  lemma ContainsIff(s: string, p: string)
    ensures Contains(s, p) <==> exists i :: OccursAt(s, p, i)
  {
    if exists i :: OccursAt(s, p, i) {
      var i :| OccursAt(s, p, i);
      assert MatchesAt(s, Literal(p), i);
    }
  }

  // ---------------------------------------------------------------------------------
  // Reading a match off a string whose layout is known

  /** An occurrence of `p` at `j` puts `p[off]` at `j + off`. */
  lemma OccursAtChar(s: string, p: string, j: int, off: nat)
    requires OccursAt(s, p, j) && off < |p|
    ensures s[j + off] == p[off]
  {
    assert s[j..j + |p|][off] == s[j + off];
  }

  /** An occurrence of `p` at `j` puts its first two characters at `j` and `j + 1`. */
  lemma OccursAtFirstTwo(s: string, p: string, j: int)
    requires OccursAt(s, p, j) && |p| >= 2
    ensures s[j] == p[0] && s[j + 1] == p[1]
  {
    OccursAtChar(s, p, j, 0);
    OccursAtChar(s, p, j, 1);
  }

  /** An occurrence that starts after `head` is an occurrence in `tail`. */
  lemma OccursInTail(head: string, tail: string, p: string, i: int)
    requires |head| <= i
    ensures OccursAt(head + tail, p, i) ==> OccursAt(tail, p, i - |head|)
  {
    if OccursAt(head + tail, p, i) {
      assert (head + tail)[i..i + |p|] == tail[i - |head|..i - |head| + |p|];
    }
  }

  /** An occurrence that ends inside a prefix of `s` is an occurrence in that prefix. */
  lemma OccursInPrefix(s: string, pre: string, p: string, i: int)
    requires |pre| <= |s| && s[..|pre|] == pre && i + |p| <= |pre|
    ensures OccursAt(s, p, i) ==> OccursAt(pre, p, i)
  {
    if OccursAt(s, p, i) {
      assert s[..|pre|][i..i + |p|] == s[i..i + |p|];
    }
  }

  /** An occurrence of `p + q` is an occurrence of `p`. */
  lemma OccursOfLonger(s: string, p: string, q: string, i: int)
    ensures OccursAt(s, p + q, i) ==> OccursAt(s, p, i)
  {
    if OccursAt(s, p + q, i) {
      assert s[i..i + |p|] == s[i..i + |p + q|][..|p|];
    }
  }

  /** No index of `s` holds `a` immediately followed by `b`. */
  predicate NoPair(s: string, a: char, b: char) {
    forall i :: 0 <= i < |s| - 1 ==> !(s[i] == a && s[i + 1] == b)
  }

  /** Two texts without the pair join into one without it, unless the pair spans the seam. */
  lemma NoPairAppend(x: string, y: string, a: char, b: char)
    requires NoPair(x, a, b) && NoPair(y, a, b)
    requires x == [] || y == [] || !(x[|x| - 1] == a && y[0] == b)
    ensures NoPair(x + y, a, b)
  {
    var s := x + y;
    forall i | 0 <= i < |s| - 1 ensures !(s[i] == a && s[i + 1] == b) {
      if i + 1 < |x| {
        assert s[i] == x[i] && s[i + 1] == x[i + 1];
      } else if i >= |x| {
        assert s[i] == y[i - |x|] && s[i + 1] == y[i + 1 - |x|];
      } else {
        assert s[i] == x[|x| - 1] && s[i + 1] == y[0];
      }
    }
  }

  /** A word does not start where its first two characters are not found. */
  lemma NotOccursAtByPair(s: string, p: string, j: int)
    requires |p| >= 2
    requires j < 0 || j + 1 >= |s| || !(s[j] == p[0] && s[j + 1] == p[1])
    ensures !OccursAt(s, p, j)
  {
    if OccursAt(s, p, j) {
      OccursAtFirstTwo(s, p, j);
    }
  }

  /** A word never occurs in a text that lacks two of its adjacent characters side by side. */
  lemma NotContainsByPair(s: string, p: string, k: nat)
    requires k + 1 < |p| && NoPair(s, p[k], p[k + 1])
    ensures !Contains(s, p)
  {
    forall i ensures !OccursAt(s, p, i) {
      if OccursAt(s, p, i) {
        OccursAtPair(s, p, i, k);
      }
    }
    ContainsIff(s, p);
  }

  /** An occurrence of `p` at `j` puts `p[k]` and `p[k + 1]` side by side at `j + k`. */
  lemma OccursAtPair(s: string, p: string, j: int, k: nat)
    requires OccursAt(s, p, j) && k + 1 < |p|
    ensures s[j + k] == p[k] && s[j + k + 1] == p[k + 1]
  {
    OccursAtChar(s, p, j, k);
    OccursAtChar(s, p, j, k + 1);
  }

  /** Regrouping a concatenation of seven pieces and a tail. */
  lemma Regroup7(p1: string, p2: string, p3: string, p4: string, p5: string, p6: string, p7: string, t: string)
    ensures p1 + (p2 + (p3 + (p4 + (p5 + (p6 + (p7 + t)))))) == (p1 + (p2 + (p3 + (p4 + (p5 + (p6 + p7)))))) + t
  {
  }

  /** Regrouping a concatenation of five pieces and a tail. */
  lemma Regroup5(p1: string, p2: string, p3: string, p4: string, p5: string, t: string)
    ensures p1 + (p2 + (p3 + (p4 + (p5 + t)))) == (p1 + (p2 + (p3 + (p4 + p5)))) + t
  {
  }

  /** `piece` sits at `o` in `s`: each of its characters is found there. */
  lemma PieceAt(s: string, o: nat, piece: string)
    requires o + |piece| <= |s| && s[o..o + |piece|] == piece
    ensures forall i :: o <= i < o + |piece| ==> s[i] == piece[i - o]
  {
    forall i | o <= i < o + |piece| ensures s[i] == piece[i - o] {
      assert s[o..o + |piece|][i - o] == s[i];
    }
  }

  /** A suffix written as `p + t` holds `p` first and then the suffix `t`. */
  lemma Peel(s: string, o: nat, p: string, t: string)
    requires o <= |s| && s[o..] == p + t
    ensures |s| == o + |p| + |t|
    ensures s[o..o + |p|] == p && s[o + |p|..] == t
  {
    assert s[o..][..|p|] == p;
    assert s[o..][|p|..] == t;
  }

  /** Adjacent slices join. */
  lemma JoinSlices(s: string, a: nat, b: nat, c: nat)
    requires a <= b <= c <= |s|
    ensures s[a..c] == s[a..b] + s[b..c]
  {
  }

  /** A maximal run of class `k` from `st` to `e` is the run `RunEnd` finds. */
  lemma {:induction false} RunEndAt(s: string, st: nat, e: nat, k: CharClass)
    requires st <= e <= |s|
    requires forall i :: st <= i < e ==> InClass(s[i], k)
    requires e == |s| || !InClass(s[e], k)
    ensures RunEnd(s, st, k) == e
    decreases e - st
  {
    if st < e {
      RunEndAt(s, st + 1, e, k);
    }
  }

  /** A run of ordinary characters ended by a space or the end is where `TokenStop` stops. */
  lemma {:induction false} TokenStopAt(s: string, k: nat, e: nat)
    requires k <= e <= |s|
    requires forall i :: k <= i < e ==> s[i] != ' ' && !IsLineTerminator(s[i])
    requires e == |s| || s[e] == ' '
    ensures TokenStop(s, k) == Some(e)
    decreases e - k
  {
    if k < e {
      TokenStopAt(s, k + 1, e);
    }
  }

  /** `FirstAlt` picks the first alternative that matches. */
  lemma {:induction false} FirstAltAt(s: string, alts: seq<string>, k: CharClass, at: nat, x: nat, n: nat)
    requires n <= x < |alts|
    requires AltMatches(s, alts[x], k, at)
    requires forall y :: 0 <= y < x ==> !AltMatches(s, alts[y], k, at)
    ensures FirstAlt(s, alts, k, at, n) == Some(x)
    decreases x - n
  {
    if n < x {
      FirstAltAt(s, alts, k, at, x, n + 1);
    }
  }

  /** The search finds the first position where the pattern matches. */
  lemma {:induction false} FindFirstAt(s: string, pat: Pattern, at: nat, i: nat)
    requires i <= at <= |s| && MatchesAt(s, pat, at)
    requires forall j :: i <= j < at ==> !MatchesAt(s, pat, j)
    ensures FindFirst(s, pat, i) == Some(at)
    decreases at - i
  {
    if i < at {
      FindFirstAt(s, pat, at, i + 1);
    }
  }

  /** Group 1 of a capture pattern whose leftmost match and alternative are known. */
  lemma CaptureOfCapture(s: string, alts: seq<string>, k: CharClass, at: nat, x: nat)
    requires at <= |s| && FindFirst(s, Capture(alts, k), 0) == Some(at)
    requires FirstAlt(s, alts, k, at, 0) == Some(x)
    ensures x < |alts| && at + |alts[x]| <= |s|
    ensures CaptureOf(s, Capture(alts, k)) == Some(s[at + |alts[x]|..RunEnd(s, at + |alts[x]|, k)])
  {
    CaptureOfFound(s, Capture(alts, k), at);
    CaptureAtCapture(s, alts, k, at, x);
  }

  /** The capture is read off the leftmost match. */
  lemma CaptureOfFound(s: string, pat: Pattern, at: nat)
    requires !pat.Literal? && FindFirst(s, pat, 0) == Some(at)
    ensures CaptureOf(s, pat) == Some(CaptureAt(s, pat, at))
  {
  }

  /** A capture pattern captures the class run after the first alternative that matches. */
  lemma CaptureAtCapture(s: string, alts: seq<string>, k: CharClass, at: nat, x: nat)
    requires at <= |s| && FirstAlt(s, alts, k, at, 0) == Some(x)
    ensures x < |alts| && at + |alts[x]| <= |s|
    ensures CaptureAt(s, Capture(alts, k), at) == s[at + |alts[x]|..RunEnd(s, at + |alts[x]|, k)]
  {
  }

  /** A token pattern captures from the end of its prefix up to where the lazy token ends. */
  lemma CaptureAtToken(s: string, p: string, at: nat, e: nat)
    requires at + |p| <= |s| && MatchesAt(s, Token(p), at) && LazyTokenEnd(s, at + |p|) == Some(e)
    ensures CaptureAt(s, Token(p), at) == s[at + |p|..e]
  {
  }

  /** No alternative occurring before `at` means the capture pattern does not match there. */
  lemma NoCaptureMatchBefore(s: string, alts: seq<string>, k: CharClass, at: nat)
    requires forall j, y :: 0 <= j < at && 0 <= y < |alts| ==> !OccursAt(s, alts[y], j)
    ensures forall j :: 0 <= j < at ==> !MatchesAt(s, Capture(alts, k), j)
  {
    forall j | 0 <= j < at ensures !MatchesAt(s, Capture(alts, k), j) {
      forall y | 0 <= y < |alts| ensures !AltMatches(s, alts[y], k, j) {
        assert !OccursAt(s, alts[y], j);
      }
    }
  }

  /** The leftmost match of the capture pattern is at `at`, through alternative `x`. */
  lemma CaptureMatchAt(s: string, alts: seq<string>, k: CharClass, at: nat, x: nat)
    requires x < |alts| && AltMatches(s, alts[x], k, at)
    requires forall y :: 0 <= y < x ==> !OccursAt(s, alts[y], at)
    requires forall j, y :: 0 <= j < at && 0 <= y < |alts| ==> !OccursAt(s, alts[y], j)
    ensures FindFirst(s, Capture(alts, k), 0) == Some(at) && FirstAlt(s, alts, k, at, 0) == Some(x)
  {
    NoCaptureMatchBefore(s, alts, k, at);
    forall y | 0 <= y < x ensures !AltMatches(s, alts[y], k, at) {
      assert !OccursAt(s, alts[y], at);
    }
    FirstAltAt(s, alts, k, at, x, 0);
    FindFirstAt(s, Capture(alts, k), at, 0);
  }

  /**
   * The capture of `Capture(alts, k)` is `run` when `alts[x]` sits at `at` followed by the
   * maximal class-`k` run `run`, no earlier alternative matches there, and no alternative
   * occurs anywhere before `at`.
   */
  lemma CaptureAfterAlts(s: string, at: nat, alts: seq<string>, x: nat, run: string, k: CharClass)
    requires x < |alts| && |run| > 0 && at + |alts[x]| + |run| <= |s|
    requires s[at..at + |alts[x]|] == alts[x] && s[at + |alts[x]|..at + |alts[x]| + |run|] == run
    requires forall y :: 0 <= y < x ==> !OccursAt(s, alts[y], at)
    requires forall i :: 0 <= i < |run| ==> InClass(run[i], k)
    requires at + |alts[x]| + |run| == |s| || !InClass(s[at + |alts[x]| + |run|], k)
    requires forall j, y :: 0 <= j < at && 0 <= y < |alts| ==> !OccursAt(s, alts[y], j)
    ensures CaptureOf(s, Capture(alts, k)) == Some(run)
  {
    var st := at + |alts[x]|;
    PieceAt(s, st, run);
    CaptureMatchAt(s, alts, k, at, x);
    CaptureRunAt(s, alts, k, at, x, run);
    CaptureOfFound(s, Capture(alts, k), at);
  }

  /** After the alternative that matched, the capture is the maximal class run `run`. */
  lemma CaptureRunAt(s: string, alts: seq<string>, k: CharClass, at: nat, x: nat, run: string)
    requires at <= |s| && FirstAlt(s, alts, k, at, 0) == Some(x)
    requires at + |alts[x]| + |run| <= |s| && s[at + |alts[x]|..at + |alts[x]| + |run|] == run
    requires forall i :: 0 <= i < |run| ==> InClass(run[i], k)
    requires at + |alts[x]| + |run| == |s| || !InClass(s[at + |alts[x]| + |run|], k)
    ensures CaptureAt(s, Capture(alts, k), at) == run
  {
    var st := at + |alts[x]|;
    PieceAt(s, st, run);
    RunEndAt(s, st, st + |run|, k);
    CaptureAtCapture(s, alts, k, at, x);
  }

  /** Clamp an index into `[0, n]`, as `String.prototype.substring` does with its arguments. */
  function Clamp(x: int, n: nat): (r: nat)
    ensures r <= n
    ensures 0 <= x <= n ==> r == x
  {
    if x < 0 then 0 else if x > n then n else x
  }

  /** `s.substring(start, end)`: both ends clamped to the string, swapped when reversed. */
  function Substring(s: string, start: int, end: int): (r: string)
    ensures |r| <= |s|
    ensures 0 <= start <= end <= |s| ==> r == s[start..end]
    ensures 0 <= start <= |s| <= end ==> r == s[start..]
    ensures |s| <= start && |s| <= end ==> r == ""
  {
    var a := Clamp(start, |s|);
    var b := Clamp(end, |s|);
    if a <= b then s[a..b] else s[b..a]
  }

  /** `s.split(" ")[1]`: the text between the first and the second space (or the end). */
  function SecondField(s: string): (r: Option<string>)
    ensures r.None? <==> forall i :: 0 <= i < |s| ==> s[i] != ' '
    ensures r.Some? ==> forall i :: 0 <= i < |r.value| ==> r.value[i] != ' '
  {
    match FindFirst(s, Literal(" "), 0)
    case None =>
      assert forall i :: 0 <= i < |s| ==> s[i] != ' ' by {
        forall i | 0 <= i < |s| ensures s[i] != ' ' {
          assert !MatchesAt(s, Literal(" "), i);
          assert s[i..i + 1] == [s[i]];
        }
      }
      None
    case Some(i) =>
      assert s[i..i + 1] == " ";
      assert s[i] == ' ';
      var rest := s[i + 1..];
      var e := RunEndNoSpace(rest, 0);
      Some(rest[..e])
  }

  /** End of the run of non-space characters starting at `j`. */
  function RunEndNoSpace(s: string, j: nat): (e: nat)
    requires j <= |s|
    ensures j <= e <= |s|
    ensures forall m :: j <= m < e ==> s[m] != ' '
    ensures e == |s| || s[e] == ' '
    decreases |s| - j
  {
    if j < |s| && s[j] != ' ' then RunEndNoSpace(s, j + 1) else j
  }

  /** `split(" ")[1]` reads back the field written between the first two spaces. */
  lemma {:induction false} SecondFieldOf(head: string, field: string, tail: string)
    requires forall i :: 0 <= i < |head| ==> head[i] != ' '
    requires forall i :: 0 <= i < |field| ==> field[i] != ' '
    requires tail == [] || tail[0] == ' '
    ensures SecondField(head + " " + field + tail) == Some(field)
  {
    var s := head + " " + field + tail;
    forall j | 0 <= j < |head| ensures !MatchesAt(s, Literal(" "), j) {
      assert s[j..j + 1] == [head[j]];
    }
    assert MatchesAt(s, Literal(" "), |head|) by { assert s[|head|..|head| + 1] == " "; }
    assert FindFirst(s, Literal(" "), 0) == Some(|head|);
    var rest := s[|head| + 1..];
    assert rest == field + tail;
    NoSpaceRun(rest, field, 0);
  }

  /** The non-space run of `field + tail` is `field` when `tail` is empty or starts with a space. */
  lemma {:induction false} NoSpaceRun(rest: string, field: string, j: nat)
    requires |field| <= |rest| && rest[..|field|] == field
    requires forall i :: 0 <= i < |field| ==> field[i] != ' '
    requires |rest| == |field| || rest[|field|] == ' '
    requires j <= |field|
    ensures RunEndNoSpace(rest, j) == |field|
    decreases |field| - j
  {
    if j < |field| {
      assert rest[j] == field[j];
      NoSpaceRun(rest, field, j + 1);
    }
  }

  // ---------------------------------------------------------------------------------
  // Numbers

  /** A JavaScript `number` produced by `parseInt`: an integer or `NaN`. */
  datatype ParsedInt = Num(n: int) | NaN {

    /** JavaScript truthiness: `NaN` and `0` are falsy. */
    predicate Truthy() {
      Num? && n != 0
    }

    /** `x * -1` */
    function Negate(): (r: ParsedInt)
      ensures r.NaN? <==> NaN?
      ensures Num? ==> r.n + n == 0
    {
      match this
      case NaN => NaN
      case Num(v) => Num(-v)
    }
  }

  predicate AllDigits(s: string) {
    forall i :: 0 <= i < |s| ==> IsDigit(s[i])
  }

  function DigitValue(c: char): (d: nat)
    requires IsDigit(c)
    ensures d < 10
  {
    (c as int) - ('0' as int)
  }

  function DigitChar(d: nat): (c: char)
    requires d < 10
    ensures IsDigit(c) && DigitValue(c) == d
  {
    (('0' as int) + d) as char
  }

  /** Decimal value of a string of digits (leading zeros allowed, as `parseInt` reads them). */
  function DigitsValue(s: string): nat
    requires AllDigits(s)
  {
    if s == [] then 0 else DigitsValue(s[..|s| - 1]) * 10 + DigitValue(s[|s| - 1])
  }

  /** Decimal rendering of a natural number, as `String(n)` prints it: no leading zero. */
  function NatToString(n: nat): (r: string)
    ensures |r| > 0 && AllDigits(r)
    ensures |r| > 1 ==> r[0] != '0'
  {
    if n < 10 then [DigitChar(n)] else NatToString(n / 10) + [DigitChar(n % 10)]
  }

  /** Decimal rendering of an integer, with a leading `-` when negative. */
  function IntToString(n: int): (r: string)
    ensures |r| > 0
    ensures n < 0 <==> r[0] == '-'
    ensures n >= 0 ==> AllDigits(r)
  {
    if n < 0 then "-" + NatToString(-n) else NatToString(n)
  }

  /** Every character of a printed integer is a digit or the minus sign. */
  lemma IntToStringChars(n: int)
    ensures forall i :: 0 <= i < |IntToString(n)| ==> InClass(IntToString(n)[i], DigitOrMinus)
  {
    if n < 0 {
      var t := NatToString(-n);
      assert IntToString(n) == "-" + t;
      forall i | 0 <= i < |IntToString(n)| ensures InClass(IntToString(n)[i], DigitOrMinus) {
        if i > 0 { assert IntToString(n)[i] == t[i - 1]; }
      }
    }
  }

  /** Reading the digits back gives the number: decimal rendering is lossless. */
  lemma {:induction false} DigitsValueOfNatToString(n: nat)
    ensures DigitsValue(NatToString(n)) == n
  {
    if n >= 10 {
      var s := NatToString(n);
      assert s[..|s| - 1] == NatToString(n / 10);
      DigitsValueOfNatToString(n / 10);
    }
  }

  /**
   * `parseInt(s)` in base 10: an optional sign, then the longest run of digits; `NaN` when
   * there is no digit. Leading white space and a `0x` prefix are not modelled.
   */
  function ParseInt(s: string): (r: ParsedInt)
    ensures r.Num? <==> (|s| > 0 && IsDigit(s[0])) || (|s| > 1 && (s[0] == '-' || s[0] == '+') && IsDigit(s[1]))
    ensures r.Num? && |s| > 0 && s[0] == '-' ==> r.n <= 0
    ensures r.Num? && |s| > 0 && s[0] != '-' ==> r.n >= 0
  {
    var signed := |s| > 0 && (s[0] == '-' || s[0] == '+');
    var body := if signed then s[1..] else s;
    var e := RunEnd(body, 0, Digit);
    if e == 0 then NaN
    else
      var v: int := DigitsValue(body[..e]);
      Num(if |s| > 0 && s[0] == '-' then -v else v)
  }

  /** `parseInt` reads back what `String` printed, for every integer. */
  lemma ParseIntOfIntToString(n: int)
    ensures ParseInt(IntToString(n)) == Num(n)
  {
    var m: nat := if n < 0 then -n else n;
    var d := NatToString(m);
    var s := IntToString(n);
    var body := if n < 0 then s[1..] else s;
    assert body == d;
    AllDigitsRunEnd(d, 0);
    assert d[..|d|] == d;
    DigitsValueOfNatToString(m);
  }

  /** On a string of digits the digit run from `j` reaches the end. */
  lemma {:induction false} AllDigitsRunEnd(s: string, j: nat)
    requires j <= |s| && AllDigits(s)
    ensures RunEnd(s, j, Digit) == |s|
    decreases |s| - j
  {
    if j < |s| { AllDigitsRunEnd(s, j + 1); }
  }

  /** On a non-empty run of digits `parseInt` is the plain decimal value. */
  lemma ParseIntOfDigits(s: string)
    requires |s| > 0 && AllDigits(s)
    ensures ParseInt(s) == Num(DigitsValue(s))
  {
    AllDigitsRunEnd(s, 0);
    assert s[..|s|] == s;
  }

  /** The digits after the decimal point of `f / 1000` for `0 < f < 1000`, without trailing zeros. */
  function FractionDigits(f: nat): (r: string)
    requires 0 < f < 1000
    ensures 1 <= |r| <= 3 && AllDigits(r) && r[|r| - 1] != '0'
  {
    var d1 := f / 100;
    var d2 := (f / 10) % 10;
    var d3 := f % 10;
    if d3 != 0 then [DigitChar(d1), DigitChar(d2), DigitChar(d3)]
    else if d2 != 0 then [DigitChar(d1), DigitChar(d2)]
    else [DigitChar(d1)]
  }

  /**
   * `String(ms / 1000)` for an integer number of milliseconds: whole seconds, and a decimal
   * point followed by the significant thousandths when the division is not exact.
   */
  function MillisToSecondsText(ms: int): (r: string)
    ensures ms % 1000 == 0 ==> r == IntToString(ms / 1000)
    ensures ms % 1000 != 0 ==> exists i :: 0 < i < |r| && r[i] == '.'
  {
    var a: nat := if ms < 0 then -ms else ms;
    var whole := NatToString(a / 1000);
    var sign := if ms < 0 && a / 1000 == 0 && a % 1000 == 0 then "" else if ms < 0 then "-" else "";
    if a % 1000 == 0 then
      assert ms < 0 ==> -(a / 1000) == ms / 1000;
      sign + whole
    else
      var r := sign + whole + "." + FractionDigits(a % 1000);
      assert r[|sign + whole|] == '.';
      r
  }
}
