# Chess_Stockfish: a Dafny model of the analysis core

Chess_Stockfish is a browser extension for an online chess board. It runs the Stockfish
engine in a web worker and watches the board. Each time the position changes, it asks the
engine for the best line at a chosen depth. It classifies the answer, draws an arrow for the
suggested move and shows the move in a small control panel. It can also play the move after
a random delay, and it can queue for a new game when the current one is over.

This project models the decision core of that extension as pure functions over immutable
values and proves properties of them:

- `Text` (text.dfy) holds the JavaScript string primitives the core uses. These are prefix
  and substring tests, the leftmost-match search behind the parser's regular expressions,
  `substring`, `split(" ")[1]`, `parseInt`, and the decimal rendering of integers and of
  `ms / 1000`.
- `Protocol` (protocol.dfy) extracts the fields of one engine message: the `depth`,
  `multipv`, score and `pv` captures of an `info` line, and the squares and promotion letter
  of a `bestmove` line. A `bestmove` line reads back its move whatever follows it, as long
  as a move without promotion is not directly followed by a promotion letter. An `info`
  line reads back its rank, depth, head move, score value and score type both in
  Stockfish's layout ("depth, seldepth, multipv, score", then fields such as `nodes`, `nps`
  and `time`, then `pv`) and in the compact layout "depth, multipv, score, pv"; a mate
  line is classified `FORCED` and a centipawn line `BEST`.
- `Engine` (engine.dfy) models the engine session of engine.ts:
  - the command strings it sends;
  - the running depth maximum;
  - the `onmessage` handler of `evaluate`. `Collect` is a total function over the message
    history, most recent first, and models the handler's work on a terminal message.
    `OnMessage` and `Receive` model the promise.
- `Analysis` (analysis.dfy) is the classifier of an evaluation.
- `Board` (board.dfy) holds the turn check and the single remembered arrow of `createMark`.
- `AutoQueue` (autoqueue.dfy) is the retrying "new game" action, a transition on the
  remembered game path and the attempt counter.
- `ControlPanel` (control_panel.dfy) covers the delay bounds and their input coercion, the
  depth, the random delay and the move display text.
- `MainLoop` (main_loop.dfy) covers the 20 ms render-loop tick and the handling of the
  engine's answer in index.ts. Side effects (join a game, evaluate, mark, show, schedule a
  move) are emitted as `Action` values.

`Math.random` becomes an integer draw `k`. The board, the page and the panel's DOM become
input values. Timers become emitted actions.

Behaviour of the code that the model keeps as it is:

- A message that contains `depth 0` ends a request just like `bestmove`.
- Every returned line carries the promotion letter of the terminal message, not only the
  line whose move it is.
- When the terminal message does not match `^bestmove ([a-h][1-8])([a-h][1-8])([qrbn])?`
  and some message qualifies, the handler reads a property of `null`. The model returns
  `Err(NullPromotionMatch)` and the promise stays pending.
  - A later terminal message can still settle it (`Engine.SettlesOnFirstSuccess`).
- A missing score reads as 0, and a score such as `--` reads as `NaN`.
- The sign is flipped whenever the FEN contains `" b "` anywhere.
- The display is updated once per line, so it ends up showing the last line. The auto-move
  plays `lines[0]`. Neither step sorts the lines by `multipv` rank.
- When the maximum delay is below the minimum, `getRandomDelay` returns between `max + 1`
  and `min` seconds. The code has no clamp to the minimum.
- An empty or non-numeric delay input stores 0. The depth control is a range input, so its
  value always parses. Text that `parseInt` rejects would give `NaN`, and the next request
  would then fall back to depth 15.

## Model

| member | source | states |
|---|---|---|
| Text.RunEnd | engine.ts:60 | the greedy `\d+` / `[\d-]+` run is maximal: every character inside is in the class, and the one after it is not (or the input ends) |
| Text.LazyTokenEnd | engine.ts:76 | the lazy token after " pv " stops at the first space after its first character, or at the end; it fails exactly when the input is exhausted or a line terminator comes first |
| Text.FindFirst | engine.ts:74-80 | a non-global `match` finds the leftmost position where the pattern matches; no earlier position matches, and `None` means no position matches |
| Text.CaptureOf | engine.ts:74-80 | capture group 1 is present exactly when the pattern matches somewhere, and it is never empty |
| Text.ContainsIff | engine.ts:64 | `includes(p)` holds exactly when `p` occurs at some index |
| Text.Substring | engine.ts:102 | `substring(start, end)` is the slice for in-range indices, is cut at the end of the string, and is empty past it |
| Text.SecondField | board.ts:85 | `split(" ")[1]` is undefined exactly when there is no space, and the field it returns contains no space |
| Text.SecondFieldOf | board.ts:85 | for a FEN laid out as first field, space, field, then a space or the end, `split(" ")[1]` returns that field |
| Text.ParseInt | engine.ts:59-61 | `parseInt` is a number exactly when the text starts with a digit or with a sign and a digit; the sign decides the sign of the result |
| Text.ParseIntOfIntToString | engine.ts:50 | `parseInt` reads back every integer printed in decimal |
| Text.MillisToSecondsText | UI/ControlPanel.ts:301-302 | `delay / 1000` prints as a whole number for whole seconds, and with a decimal point otherwise |
| Protocol.DigitField | engine.ts:74-75 | the `multipv` / `depth` capture yields a number exactly when its expression matches the message |
| Protocol.CaptureIsDigits | engine.ts:74-75 | what `(\d+)` captures is a non-empty run of digits |
| Protocol.ReportedDepth | engine.ts:59-61 | a message without `depth <digits>` reports depth 0 |
| Protocol.RawEvaluation | engine.ts:77-82 | the score type is "cp" exactly when the message contains " cp ", otherwise "mate"; without a score match the value is 0 |
| Protocol.ParseInfo | engine.ts:65-88 | a usable line starts with "info depth" and has a non-empty move with no space after its first character; a rejected line lacks the `multipv` id, the depth or the `pv` token |
| Protocol.PvTokenHasNoInnerSpace | engine.ts:76 | the move taken after " pv " runs up to the next space and is shorter than the message |
| Text.CaptureAfterAlts | engine.ts:74-80 | when the first alternative that matches sits at `at`, no alternative occurs earlier, and a maximal class run follows it, capture group 1 is exactly that run |
| Protocol.DepthField | engine.ts:75 | the depth expression reads back D from any line that starts with "info depth D" followed by a non-digit or the end, whatever fields come after |
| Protocol.MultipvField | engine.ts:74 | the `multipv` expression reads back I from the first " multipv I" of a line, when the text before it does not contain "multipv" and a non-digit or the end follows I |
| Protocol.StockfishHeaderFields | engine.ts:74-75 | in Stockfish's layout "info depth D seldepth S multipv I ..." the depth reads back as D and the rank as I |
| Protocol.HeaderFields | engine.ts:74-75 | in the compact layout "info depth D multipv I ..." the depth reads back as D and the rank as I |
| Protocol.ScoreField | engine.ts:80 | the score expression captures the printed value, for "cp" and for "mate" scores, including negative values |
| Protocol.PvField | engine.ts:76 | the pv expression captures the head move when it is a single token and a space or the end follows it |
| Protocol.ParseInfoRoundTrip | engine.ts:64-88 | parsing a line in the compact layout gives back its rank, depth, head move and score value; a centipawn score keeps the type "cp", and a mate score keeps the type "mate" when neither the move nor the text after it holds "cp" |
| Protocol.CompactMateLine | engine.ts:78 | a mate line in the compact layout holds no " cp " when neither the move nor the text after it holds "cp", so `includes(" cp ")` is false |
| Protocol.ScoreAfterPrefix | engine.ts:80 | the score expression captures the value after "cp " or "mate " when no "cp" or "ma" occurs before the score type and no digit or '-' follows the value |
| Protocol.PvAfterPrefix | engine.ts:76 | the pv expression captures the head move after " pv " when no space before it is followed by 'p' and the move is one token |
| Protocol.StockfishInfoRoundTrip | engine.ts:64-88 | parsing a line in Stockfish's layout "info depth D seldepth S multipv I score KIND V ... pv MOVE ..." gives back its rank, depth, head move and score value, whatever fields stand between the score and "pv" as long as none starts with 'p'; a centipawn score keeps the type "cp", and a mate score keeps the type "mate" when nothing after it holds "cp" |
| Protocol.StockfishMateLine | engine.ts:78 | a mate line in Stockfish's layout holds no " cp " when none of the fields after the score, the move and the further moves holds "cp" |
| Protocol.ParseBestMove | engine.ts:69-71 | a `bestmove` match carries two squares and at most a `q`/`r`/`b`/`n` promotion letter; a message not starting with "bestmove " never matches |
| Protocol.ParseBestMoveRoundTrip | engine.ts:69-71 | parsing the `bestmove` message of a move gives back its squares and promotion letter, whatever follows the move, as long as a move without promotion is not directly followed by a promotion letter |
| Engine.EvaluateCommands | engine.ts:48-50 | `evaluate` sends "position fen" with the FEN, then "go depth" with a number that `parseInt` reads back as the target depth |
| Engine.IsTerminal | engine.ts:64 | a message ends the request exactly when it starts with "bestmove" or "depth 0" occurs at some index of it |
| Engine.TerminalMessages | engine.ts:64 | every `bestmove` answer ends the request, and so does an `info depth 0` line |
| Engine.MostRecent | engine.ts:93 | the reference for "last update wins": some message exists for an id exactly when the id qualifies, and it reports that id at the target depth |
| Engine.Select | engine.ts:73-105 | the kept lines are at the target depth and have pairwise distinct ids; each is the most recent qualifying message for its id; their ids are exactly the qualifying ids not yet taken |
| Engine.DistinctIdsCount | engine.ts:93 | lines with distinct ids are as many as their ids |
| Engine.SelectFirst | engine.ts:73-104 | the lines are kept in the order of the history, newest first: the selection is the most recent message that qualifies with an id not yet taken, followed by the selection of the older messages with that id taken; applied again, this fixes every position, the last line included |
| Engine.SelectSkipPrefix | engine.ts:88-95 | messages that do not qualify, or whose id is already taken, can be dropped from the front of the history without changing the selection |
| Engine.Normalize | engine.ts:84-86 | the score is negated exactly when the FEN contains " b "; the type never changes |
| Engine.NormalizeFollowsActiveColour | engine.ts:84-86 | for a FEN "placement active rest" whose later fields do not contain " b ", the score is negated exactly when the active colour, the field `isMyTurn` reads, is "b" |
| Engine.NormalizeTwoFieldFen | engine.ts:84 | a FEN that ends right after the active colour "b" has Black to move, yet its score is not negated |
| Engine.Stamp | engine.ts:97-104 | a pushed line keeps id, depth and move, has the normalised score, `moveSAN` = characters 2..4 of the move, and the given promotion |
| Engine.Collect | engine.ts:64-107 | throws exactly when `bestmove` does not match and some message qualifies; otherwise it returns one line per qualifying id, all at the target depth with distinct ids, each stamped from the most recent message for its id, all with the `bestmove` promotion |
| Engine.CollectedLines | engine.ts:93-104 | stamping the selection keeps one line per qualifying id, the depth, the promotion and the "most recent" provenance |
| Engine.CollectFirstLine | engine.ts:64-107 | with a matching `bestmove`, the first returned line, the one the auto-move plays, is stamped from the most recent qualifying message |
| Engine.NewSession | engine.ts:14-40 | a fresh session has depth 20 and has sent "uci" and the three `setoption` commands for MultiPV 1, Hash 256 and Ponder true |
| Engine.Evaluate | engine.ts:48-55 | a request appends its two commands to those sent, keeps the session depth, and starts with no messages and a pending promise |
| Engine.OnMessage | engine.ts:56-109 | a message is put in front of the history; the depth becomes the larger of the two; a non-terminal message, or a settled promise, leaves the promise alone; a terminal message settles it with the collected lines unless collection throws |
| Engine.Receive | engine.ts:56-62 | a series of messages never lowers the depth, posts no command, adds one history entry per message and never changes a settled promise |
| Engine.ReceiveDepths | engine.ts:59-62 | after a series of messages the depth is at least every depth one of them reported |
| Engine.ReceiveQuiet | engine.ts:56-62 | without a terminal message the promise is unchanged |
| Engine.FreshSessionRequest | engine.ts:14-50 | a fresh session has sent the four setup commands, then the two request commands, and its depth stays at least 20 |
| Engine.ReceiveSettles | engine.ts:56-107 | a pending promise ends up as the reference scan `Engine.FirstSettlement` says: fulfilled with the lines of the first terminal message whose collection succeeds, and pending when there is none |
| Engine.FirstSettlementAt | engine.ts:64-107 | the reference scan stops at the first terminal message whose collection succeeds and returns the lines collected with the history at that point |
| Engine.SettlesOnFirstSuccess | engine.ts:64-107 | the promise settles on the first terminal message whose collection succeeds, with exactly the lines collected then |
| Engine.Reverse | engine.ts:57 | `unshift` keeps the messages newest first |
| Analysis.Analyse | analysis.ts:4-19 | mate is `FORCED`, cp is `BEST`; a missing evaluation or any other type has no classification, and `BOOK` is never returned |
| Analysis.AnalyseIgnoresValue | analysis.ts:8-18 | the classification depends on the score type only, never on its value |
| Analysis.StockfishLineClassified | analysis.ts:10-16 | an `info` line in Stockfish's layout parses, and its classification follows the printed score type: `FORCED` for "score mate N", `BEST` for "score cp N" |
| Analysis.CollectedLinesAreClassified | analysis.ts:10-16 | every line the collector returns is classified, because its type is "cp" or "mate" |
| Board.PlayerColor | board.ts:84 | 1 is "w", 2 is "b", anything else has no colour |
| Board.IsMyTurn | board.ts:80-86 | false without a board or FEN; true when the user's colour is unknown; otherwise true exactly when the FEN's second field is the user's colour |
| Board.IsMyTurnReadsActiveColor | board.ts:85 | for a FEN of placement, active colour and the rest, it is the user's turn exactly when the active colour is the user's |
| Board.ColorOf | board.ts:101 | the arrow colour is the mapped colour, or "#000000" when the map has none |
| Board.RemoveOne | board.ts:99 | removing a marking takes out one copy of it, and only it |
| Board.CreateMark | board.ts:96-118 | on the user's turn the remembered arrow is replaced by the new one and the other markings stay; otherwise all markings are cleared and the remembered arrow is kept |
| AutoQueue.JoinGame | autoqueue.ts:21-66 | covers each case: nothing without a finished game; forgets a stale path without clicking; clicks the tab and then the button on the remembered path; on a failed lookup counts one attempt, or resets after more than 10; the tab is clicked even when the button is missing |
| AutoQueue.AttemptsBounded | autoqueue.ts:56-64 | any series of calls keeps the counter in 0..11 |
| AutoQueue.AttemptsBoundedFromStart | autoqueue.ts:8-12 | from the constructor's state the counter never exceeds 11 |
| AutoQueue.FailingLookupsReset | autoqueue.ts:56-64 | on a finished game whose controls never appear, the counter climbs to 11 and the next call resets the state |
| ControlPanel.NewPanel | UI/ControlPanel.ts:6-9 | the defaults are delays of 1 and 5 seconds, depth 15 and the display "none" |
| ControlPanel.CoerceBound | UI/ControlPanel.ts:256 | text that does not parse becomes 0, and a number stays itself |
| ControlPanel.CoerceBoundReadsNumber | UI/ControlPanel.ts:255-261 | typing any integer into a bound input stores that integer |
| ControlPanel.CoerceBoundOfEmpty | UI/ControlPanel.ts:256 | an empty bound input stores 0 |
| ControlPanel.OnMinDelayInput | UI/ControlPanel.ts:254-256 | the minimum becomes the parsed number, or 0 when the text does not parse; the other fields are unchanged |
| ControlPanel.OnMaxDelayInput | UI/ControlPanel.ts:258-260 | the maximum becomes the parsed number, or 0 when the text does not parse; the other fields are unchanged |
| ControlPanel.OnDepthInput | UI/ControlPanel.ts:262-265 | the depth becomes the `parseInt` result with no fallback, so text that does not parse leaves `NaN`; the other fields are unchanged |
| ControlPanel.InputEventsReadNumbers | UI/ControlPanel.ts:255-266 | each input event sets only its own field to the typed number; an empty bound stores 0, and text `parseInt` rejects would leave `NaN` in the depth |
| ControlPanel.RandomDelay | UI/ControlPanel.ts:292-294 | the delay is a whole number of seconds between the bounds; with max < min it lies between max + 1 and min seconds; equal bounds give exactly min seconds |
| ControlPanel.RandomDelayCoversRange | UI/ControlPanel.ts:293 | every whole number of seconds between the bounds comes from exactly one draw |
| ControlPanel.DefaultDelayRange | UI/ControlPanel.ts:6-7 | with the default bounds every delay is between 1000 and 5000 ms |
| ControlPanel.CalculatedMoveText | UI/ControlPanel.ts:300-302 | the move "none" shows "none"; any other move shows move, type and seconds separated by vertical bars, with a trailing "s" |
| ControlPanel.CalculatedMoveTextReadsBack | UI/ControlPanel.ts:300-302 | split at its bars, the display text gives back the move, the score type and the delay in seconds, for moves and types without a bar |
| ControlPanel.UpdateCalculatedMove | UI/ControlPanel.ts:300-305 | only the display text changes |
| MainLoop.NewApp | index.ts:32-44 | the application starts with no FEN seen and all three toggles off |
| MainLoop.RequestDepth | index.ts:53 | the requested depth is the panel's depth, or 15 when the panel is missing or its depth is 0 or `NaN`; it is never 0 |
| MainLoop.RequestDelay | index.ts:52 | the delay is 1000 without a panel, never 0, always whole seconds, and between the bounds when they are positive and ordered |
| MainLoop.Tick | index.ts:99-112 | `JoinGame` comes first exactly when auto-queue is on; no FEN, an empty one or the known one evaluates nothing and changes nothing; a new FEN is evaluated once and remembered; there is exactly one evaluation when the FEN is new and none otherwise, and every other action is the `JoinGame` |
| MainLoop.UnchangedFenEvaluatesOnce | index.ts:104-110 | two ticks on the same FEN request at most one evaluation between them |
| MainLoop.MarkClassification | index.ts:58-62 | the arrow is coloured by the classification, or as `BOOK` when there is none |
| MainLoop.LineActions | index.ts:56-69 | per line: a mark from characters 0..2 to 2..4 of the move when marking is on, then a display update when there is a panel |
| MainLoop.LinesActions | index.ts:56-69 | one mark per line when marking is on and one display update per line when there is a panel; the last update shows the last line |
| MainLoop.ResultActions | index.ts:51-91 | every action is a mark, a display update or a scheduled move; besides the per-line actions, exactly one move is scheduled when auto-move is on and there is a line: `lines[0]`'s squares, its promotion or "", and the sampled delay; otherwise none is |
| MainLoop.ApplyShows | UI/ControlPanel.ts:300-305 | after the display updates the panel shows the text of the last one and its other fields are unchanged |
| MainLoop.DisplayShowsLastLine | index.ts:56-69 | after an answer the panel shows the last line's move, type and delay, not those of the first line |
| MainLoop.ApplyMarks | index.ts:62 | marking keeps the board, its FEN and the player's colour |
| MainLoop.ArrowReplacedTwice | board.ts:99-112 | two arrow replacements in a row leave only the second arrow |
| MainLoop.MarksLeaveOneArrow | board.ts:96-112 | on the user's turn a series of actions with at least one mark leaves only the arrow of its last mark; the earlier markings keep their multiplicity, less the arrow remembered before |
| MainLoop.LinesLastMark | index.ts:56-62 | with marking on, the last mark of the loop is the arrow of the last line: characters 0..2 to 2..4 of its move, coloured by its classification |
| MainLoop.AnswerLeavesLastLineArrow | index.ts:56-87 | on the user's turn with marking on, the answer's marks replace the remembered arrow by the last line's arrow, whatever auto-move schedules |
| MainLoop.ToggleAutoMove | UI/ControlPanel.ts:243-249 | the toggle sets auto-move; switching it off resets the display to "none"; switching it on leaves the panel alone |

## Left out

- The worker plumbing is not modelled: `STOCKFISH()`, `postMessage` transport, `onerror` logging and the construction of the promise. Outgoing commands are recorded as data in `Session.sent`.
- Overlapping `evaluate` calls are not modelled. The next call replaces the single `onmessage` slot and orphans the earlier promise. The model assumes one request at a time, since the overlap is an interleaving question.
- `setInterval` and `setTimeout` are not modelled. A tick is one function call, and a scheduled move is a `ScheduleMove` action. Whether the board accepts that move is not modelled.
- `Math.random` is not modelled: it returns a float. It is replaced by the integer draw `k` that `Math.floor(Math.random() * span)` produces (`ControlPanel.ValidDraw`).
- DOM work is not modelled. This covers:
  - panel construction, CSS and dragging;
  - `document.querySelector`, `.click()`, `window.location` and `window.main`;
  - the visibility of the delay settings;
  - the text of the depth label.
  The page and the board are input values, and the clicks are outputs.
- The auto-queue and marking toggles are not modelled. Each only copies the checkbox into its application field.
- Console logging and the `.catch` handler of `getBestMove` are not modelled. They only log.
- The `classification` module is not part of this model. `Classification` is the closed datatype `Forced | Best | Book`, and the colour map is a parameter. If that module used a numeric enum with a falsy first member, index.ts would turn that classification into `BOOK`. The model assumes truthy values.
- The unused `positions`, `elo` and `skill` fields are left out, and so is the engine's `onerror` handler.
- Text.ParseInt: skipping leading white space, other radixes and the `0x` prefix are not modelled. The engine's captures are digit runs and the number inputs hold decimal text.
- JavaScript numbers are doubles, so integers beyond 2^53 lose precision; the model's integers are unbounded.
- `-0` is not modelled. Negating a zero score gives `-0` in JavaScript, and the model gives 0.
- Board.RemoveOne: `markings.removeOne` belongs to the board widget, whose code is not available. The model assumes it removes the first equal marking.
- Board.CreateMark: `markings.addOne` belongs to the same widget. The model assumes it appends the new arrow at the end of the markings, so the new arrow is the last one.
- Engine.NormalizeFollowsActiveColour: the later fields must not contain " b ", and there must be at least one. A real FEN has six fields and none of the later ones is "b". A FEN cut after its active colour is not negated (`Engine.NormalizeTwoFieldFen`).
- Text.MillisToSecondsText: for a delay that is not whole seconds, the contract only states that a decimal point appears. Delays from `getRandomDelay` are always whole seconds.
- MainLoop.RequestDelay: the range is stated only for positive, ordered bounds. With a minimum of 0, a draw of 0 gives the fallback 1000 ms instead of 0.
- Protocol.ParseInfo: the contract does not restate the whole grammar. The field values are characterised through `Protocol.DigitField`, `Text.CaptureOf` and `Protocol.RawEvaluation`. `Protocol.ParseInfoRoundTrip` shows that they are read back from a line in the compact layout.
- Protocol.ParseInfoRoundTrip: the type of a mate score is stated only when neither the move nor the text after it holds "cp". The source reads the type from " cp " anywhere in the line, so text after the move such as " cp 3" would turn a mate score into a centipawn score; UCI moves never hold "cp". The round trip covers lines whose fields come in the order depth, multipv, score, pv with nothing between them; `Protocol.StockfishInfoRoundTrip` covers Stockfish's own layout.
- Protocol.StockfishInfoRoundTrip: the fields between the score and "pv" must not contain a space followed by 'p', so a field named like "pv" cannot come first; Stockfish's `nodes`, `nps`, `hashfull`, `tbhits`, `time` and the bound markers satisfy this. The type "mate" is stated only when no field after the score, no move and no further move holds "cp", for the reason given for `Protocol.ParseInfoRoundTrip`. Lines without `seldepth`, or with other fields between depth and multipv, are left to `Protocol.DepthField` and `Protocol.MultipvField`, which read back only the depth and the rank.
