/**
 * autoqueue.ts: `Queue.JoinGame()`, the retrying "start a new game" action, as a
 * transition on the remembered game path and attempt counter. What the page shows (a
 * board, whether its game is over, the current path, whether the two controls exist) is
 * an input; the clicks it performs are the output.
 */
module AutoQueue {

  /** `requeueLastGamePath` and `requeueAttempts`. */
  datatype QueueState = QueueState(lastGamePath: string, attempts: int)

  /** What `document.querySelector` and `window.location` report during one call. */
  datatype Page = Page(boardPresent: bool, gameOver: bool, pathname: string, tabFound: bool, buttonFound: bool)

  /** The two elements `JoinGame` clicks: the second tab, then the "new game" button. */
  datatype Click = TabClick | ButtonClick

  datatype JoinStep = JoinStep(state: QueueState, clicks: seq<Click>)

  /** Failed lookups tolerated before the retry state resets: it resets once attempts exceed this. */
  const MaxAttempts: int := 10

  /** The constructor's state. */
  const Initial: QueueState := QueueState("", 0)

  /**
   * One `JoinGame()` call. Without a board, or while the game is not over, nothing
   * happens. Otherwise the game path is remembered on first sight (attempts reset) or
   * forgotten when the page has moved on; while it matches the current path the tab and
   * then the button are clicked, and a missing element counts one failed attempt, or resets
   * the whole state once more than `MaxAttempts` have failed.
   */
  function JoinGame(q: QueueState, p: Page): (r: JoinStep)
    ensures !p.boardPresent || !p.gameOver ==> r == JoinStep(q, [])
    ensures p.boardPresent && p.gameOver && q.lastGamePath != "" && q.lastGamePath != p.pathname && p.pathname != "" ==>
              r == JoinStep(QueueState("", q.attempts), [])
    ensures p.boardPresent && p.gameOver && p.tabFound && p.buttonFound && q.lastGamePath == p.pathname && p.pathname != "" ==>
              r == JoinStep(q, [TabClick, ButtonClick])
    ensures p.boardPresent && p.gameOver && !(p.tabFound && p.buttonFound) &&
            q.lastGamePath == p.pathname && p.pathname != "" ==>
              r.state == (if q.attempts > MaxAttempts then Initial else QueueState(q.lastGamePath, q.attempts + 1))
    ensures p.boardPresent && p.gameOver && q.lastGamePath == "" ==>
              r.state == QueueState(p.pathname, if p.tabFound && p.buttonFound then 0 else 1) &&
              (p.tabFound <==> TabClick in r.clicks)
    ensures r.clicks == [] || r.clicks == [TabClick] || r.clicks == [TabClick, ButtonClick]
    ensures r.clicks == [TabClick] ==> !p.buttonFound && p.tabFound
    ensures r.clicks != [] ==> r.state.lastGamePath == "" || r.state.lastGamePath == p.pathname
    ensures 0 <= q.attempts <= MaxAttempts + 1 ==> 0 <= r.state.attempts <= MaxAttempts + 1
  {
    if !p.boardPresent || !p.gameOver then JoinStep(q, [])
    else
      var q1 :=
        if q.lastGamePath == "" then QueueState(p.pathname, 0)
        else if q.lastGamePath != p.pathname then QueueState("", q.attempts)
        else q;
      if q1.lastGamePath != p.pathname then JoinStep(q1, [])
      else
        var clicks := if p.tabFound then (if p.buttonFound then [TabClick, ButtonClick] else [TabClick]) else [];
        if p.tabFound && p.buttonFound then JoinStep(q1, clicks)
        else if q1.attempts > MaxAttempts then JoinStep(QueueState("", 0), clicks)
        else JoinStep(QueueState(q1.lastGamePath, q1.attempts + 1), clicks)
  }

  /** The state after a series of calls, one per page snapshot. */
  function Run(q: QueueState, pages: seq<Page>): QueueState
    decreases |pages|
  {
    if pages == [] then q else Run(JoinGame(q, pages[0]).state, pages[1..])
  }

  /** From the initial state the attempt counter stays within `0..MaxAttempts + 1`, whatever the page shows. */
  lemma {:induction false} AttemptsBounded(q: QueueState, pages: seq<Page>)
    requires 0 <= q.attempts <= MaxAttempts + 1
    ensures 0 <= Run(q, pages).attempts <= MaxAttempts + 1
    decreases |pages|
  {
    if pages != [] {
      AttemptsBounded(JoinGame(q, pages[0]).state, pages[1..]);
    }
  }

  /** The counter bound holds for every run that starts from the constructor's state. */
  lemma AttemptsBoundedFromStart(pages: seq<Page>)
    ensures 0 <= Run(Initial, pages).attempts <= MaxAttempts + 1
  {
    AttemptsBounded(Initial, pages);
  }

  /**
   * On a finished game whose controls never appear, the retry state cycles: the counter
   * climbs one per call until it passes `MaxAttempts`, and the next call resets it.
   */
  lemma {:induction false} FailingLookupsReset(q: QueueState, p: Page, n: nat)
    requires p.boardPresent && p.gameOver && !p.tabFound && p.pathname != ""
    requires q.lastGamePath == p.pathname && 0 <= q.attempts && n == MaxAttempts + 1 - q.attempts
    ensures Run(q, seq(n + 1, _ => p)) == Initial
    decreases n
  {
    var next := JoinGame(q, p).state;
    if n == 0 {
      assert seq(1, _ => p)[1..] == [];
    } else {
      assert next == QueueState(p.pathname, q.attempts + 1);
      assert seq(n + 1, _ => p)[1..] == seq(n, _ => p);
      FailingLookupsReset(next, p, n - 1);
    }
  }
}
