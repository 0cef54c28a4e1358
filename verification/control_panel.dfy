/**
 * UI/ControlPanel.ts, reduced to the values the decision loop reads and writes: the
 * delay bounds and their input coercion, the search depth, the random delay and the text
 * of the "calculated move" display. Building, styling and dragging the panel is DOM work
 * outside the model.
 */
module ControlPanel {
  import opened Text

  const DefaultDelayMin: int := 1
  const DefaultDelayMax: int := 5
  const DefaultDepth: int := 15
  const NoMove: string := "none"

  /**
   * The panel's fields: delay bounds in seconds, the depth as the slider's `parseInt`
   * left it, and the text shown in the move display.
   */
  datatype Panel = Panel(delayMin: int, delayMax: int, depth: ParsedInt, display: string)

  /** The panel as constructed. */
  function NewPanel(): (p: Panel)
    ensures p.delayMin == 1 && p.delayMax == 5 && p.depth == Num(15) && p.display == "none"
  {
    Panel(DefaultDelayMin, DefaultDelayMax, Num(DefaultDepth), NoMove)
  }

  /** `parseInt(value) || 0`: anything that does not parse, and 0 itself, becomes 0. */
  function CoerceBound(value: string): (n: int)
    ensures ParseInt(value).NaN? ==> n == 0
    ensures ParseInt(value).Num? ==> n == ParseInt(value).n
  {
    match ParseInt(value)
    case NaN => 0
    case Num(v) => v
  }

  /** Typing a number into a bound input stores exactly that number. */
  lemma CoerceBoundReadsNumber(n: int)
    ensures CoerceBound(IntToString(n)) == n
  {
    ParseIntOfIntToString(n);
  }

  /** An emptied bound input (the browser's value for a non-number) stores 0. */
  lemma CoerceBoundOfEmpty()
    ensures CoerceBound("") == 0
  {
  }

  /** The min-delay input's `input` event: the parsed number, or 0, becomes the minimum. */
  function OnMinDelayInput(p: Panel, value: string): (r: Panel)
    ensures ParseInt(value).Num? ==> r.delayMin == ParseInt(value).n
    ensures ParseInt(value).NaN? ==> r.delayMin == 0
    ensures r.delayMax == p.delayMax && r.depth == p.depth && r.display == p.display
  {
    p.(delayMin := CoerceBound(value))
  }

  /** The max-delay input's `input` event: the parsed number, or 0, becomes the maximum. */
  function OnMaxDelayInput(p: Panel, value: string): (r: Panel)
    ensures ParseInt(value).Num? ==> r.delayMax == ParseInt(value).n
    ensures ParseInt(value).NaN? ==> r.delayMax == 0
    ensures r.delayMin == p.delayMin && r.depth == p.depth && r.display == p.display
  {
    p.(delayMax := CoerceBound(value))
  }

  /** The depth slider's `input` event: `parseInt(value)`, with no fallback to a number. */
  function OnDepthInput(p: Panel, value: string): (r: Panel)
    ensures r.depth == ParseInt(value)
    ensures r.delayMin == p.delayMin && r.delayMax == p.delayMax && r.display == p.display
  {
    p.(depth := ParseInt(value))
  }

  /**
   * Each input event sets its own field from the typed number and leaves the others;
   * an empty bound input stores 0. The depth slider is a range input and always holds a
   * number; text that `parseInt` rejects, such as "", would leave NaN in the depth.
   */
  lemma InputEventsReadNumbers(p: Panel, n: int)
    ensures OnMinDelayInput(p, IntToString(n)) == p.(delayMin := n)
    ensures OnMaxDelayInput(p, IntToString(n)) == p.(delayMax := n)
    ensures OnDepthInput(p, IntToString(n)) == p.(depth := Num(n))
    ensures OnMinDelayInput(p, "").delayMin == 0 && OnMaxDelayInput(p, "").delayMax == 0
    ensures OnDepthInput(p, "").depth == NaN
  {
    CoerceBoundReadsNumber(n);
    ParseIntOfIntToString(n);
  }

  /**
   * The integer `Math.floor(Math.random() * span)` can take, for `span = max - min + 1`:
   * `0 .. span - 1` for a positive span, `span .. 0` otherwise (a zero or negative span
   * multiplies a number in `[0, 1)` into `(span, 0]`).
   */
  predicate ValidDraw(min: int, max: int, k: int) {
    var span := max - min + 1;
    if span > 0 then 0 <= k < span else span <= k <= 0
  }

  /**
   * `getRandomDelay()`: `(k + min) * 1000` milliseconds for the draw `k`. With
   * `min <= max` it is a whole number of seconds between the bounds; with `max < min` it
   * falls between `max + 1` and `min` seconds.
   */
  function RandomDelay(min: int, max: int, k: int): (ms: int)
    requires ValidDraw(min, max, k)
    ensures ms % 1000 == 0
    ensures min <= max ==> min * 1000 <= ms <= max * 1000
    ensures max < min ==> (max + 1) * 1000 <= ms <= min * 1000
    ensures min == max ==> ms == min * 1000
  {
    (k + min) * 1000
  }

  /** Every whole number of seconds between the bounds is the outcome of exactly one draw. */
  lemma RandomDelayCoversRange(min: int, max: int, seconds: int)
    requires min <= seconds <= max
    ensures ValidDraw(min, max, seconds - min) && RandomDelay(min, max, seconds - min) == seconds * 1000
    ensures forall k :: ValidDraw(min, max, k) && RandomDelay(min, max, k) == seconds * 1000 ==> k == seconds - min
  {
  }

  /** With the constructor's bounds every delay lies in 1000..5000 ms. */
  lemma DefaultDelayRange(k: int)
    requires ValidDraw(DefaultDelayMin, DefaultDelayMax, k)
    ensures 1000 <= RandomDelay(DefaultDelayMin, DefaultDelayMax, k) <= 5000
  {
  }

  /**
   * The display text of `updateCalculatedMove(move, type, delay)`: "none" for the move
   * "none", otherwise the move, the score type and the delay in seconds, separated by " | ".
   * The second clause fixes that layout; `CalculatedMoveTextReadsBack` reads it back.
   */
  function CalculatedMoveText(move: string, kind: string, delayMs: int): (text: string)
    ensures move == NoMove ==> text == NoMove
    ensures move != NoMove ==> text == move + " | " + kind + " | " + MillisToSecondsText(delayMs) + "s"
    ensures move != NoMove && delayMs % 1000 == 0 ==>
              text == move + " | " + kind + " | " + IntToString(delayMs / 1000) + "s"
    ensures move != NoMove ==> StartsWith(text, move) && text[|text| - 1] == 's'
  {
    if move != NoMove then move + " | " + kind + " | " + MillisToSecondsText(delayMs) + "s" else NoMove
  }

  /** Index of the first '|' of `s`, or `|s|` when there is none. */
  function FirstBar(s: string): (i: nat)
    ensures i <= |s| && (i < |s| ==> s[i] == '|')
    ensures forall k :: 0 <= k < i ==> s[k] != '|'
  {
    if s == [] || s[0] == '|' then 0 else 1 + FirstBar(s[1..])
  }

  /** In `a + " | " + rest`, with no bar in `a`, the first bar follows `a + " "`. */
  lemma BarAfter(a: string, rest: string)
    requires forall k :: 0 <= k < |a| ==> a[k] != '|'
    ensures var t := a + " | " + rest;
            FirstBar(t) == |a| + 1 && t[..|a| + 1] == a + " " && t[|a| + 2..] == " " + rest
  {
    var t := a + " | " + rest;
    var i := FirstBar(t);
    assert t[|a| + 1] == '|';
    assert t[..|a| + 1] == a + " ";
    assert t[|a| + 2..] == " " + rest;
  }

  /**
   * `t` split at its bars: the text before the first bar is `a`, the text between the first
   * and the second bar is `b`, and the text after the second bar is `c`.
   */
  predicate SplitsInto(t: string, a: string, b: string, c: string) {
    && FirstBar(t) < |t| && t[..FirstBar(t)] == a
    && var u := t[FirstBar(t) + 1..];
       FirstBar(u) < |u| && u[..FirstBar(u)] == b && u[FirstBar(u) + 1..] == c
  }

  /**
   * The display text reads back: split at its bars, the first field is the move, the
   * second the score type and the third the delay in seconds with its "s", each with the
   * spaces around the bars. Moves and types hold no '|'.
   */
  lemma CalculatedMoveTextReadsBack(move: string, kind: string, delayMs: int)
    requires move != NoMove
    requires forall k :: 0 <= k < |move| ==> move[k] != '|'
    requires forall k :: 0 <= k < |kind| ==> kind[k] != '|'
    ensures SplitsInto(CalculatedMoveText(move, kind, delayMs),
                       move + " ", " " + kind + " ", " " + (MillisToSecondsText(delayMs) + "s"))
  {
    DisplayTextLayout(move, kind, delayMs);
    ThreeFields(move, kind, MillisToSecondsText(delayMs) + "s");
  }

  /** `a | b | c` splits at its bars into `a`, `b` and `c`, with the spaces around the bars. */
  lemma ThreeFields(a: string, b: string, c: string)
    requires forall k :: 0 <= k < |a| ==> a[k] != '|'
    requires forall k :: 0 <= k < |b| ==> b[k] != '|'
    ensures SplitsInto(a + " | " + (b + " | " + c), a + " ", " " + b + " ", " " + c)
  {
    BarAfter(a, b + " | " + c);
    assert " " + (b + " | " + c) == " " + b + " | " + c;
    BarAfter(" " + b, c);
  }

  /** The display text regrouped around its first bar. */
  lemma DisplayTextLayout(move: string, kind: string, delayMs: int)
    requires move != NoMove
    ensures CalculatedMoveText(move, kind, delayMs) ==
              move + " | " + (kind + " | " + (MillisToSecondsText(delayMs) + "s"))
  {
  }

  /** `updateCalculatedMove(move, type, delay)`: only the display changes. */
  function UpdateCalculatedMove(p: Panel, move: string, kind: string, delayMs: int): (r: Panel)
    ensures r.delayMin == p.delayMin && r.delayMax == p.delayMax && r.depth == p.depth
    ensures r.display == CalculatedMoveText(move, kind, delayMs)
  {
    p.(display := CalculatedMoveText(move, kind, delayMs))
  }
}
