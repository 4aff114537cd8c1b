# wiki-plugin-chess: a verified model of the client core

The plugin shows a playable chess board inside a wiki page. Chess rules come from an external rules engine, and drawing comes from an external board widget. This project models the plugin's own logic in `src/client/chess.js`:

- **`expand`** (`expand.dfy`, module `Expand`). It HTML-escapes `&`, `<` and `>`, in that order. It then turns every `*...*` run into `<i>...</i>`. The global regular expression `\*(.+?)\*` is modelled step by step:
  - `.` refuses JavaScript's line terminators.
  - The lazy `+?` closes a run at the first `*` at least two places after the opening one.
  - A failed start moves the scan on by one character.
  - A match resumes the scan after its closing `*`.

  The scan is written as `Pieces`, which splits a text into plain characters and matched runs. The main result is `PiecesOfEscaped`: scanning the escaped text finds the escaped pieces of the original text. So which `*` characters pair up depends only on the original text. It is proved for any per-character substitution that neither hides nor invents a `*` or a line terminator (`Transparent`), and escaping is one (`EntityTransparent`).
- **The status cascade of `updateStatus`** (`status.dfy`, module `GameStatus`). It maps the engine's flags and the side to move to one of eight outcomes, first match wins, and gives each outcome its message.
- **The move-input controller** (`controller.dfy`, module `MoveInput`). The class `Controller` holds:
  - the engine's game;
  - whether the board accepts input;
  - the legal-move markers;
  - the pending promotion dialog;
  - the human moves whose board animation has not finished;
  - the queued engine replies;
  - the status last written.

  Its methods are the input handler, the promotion dialog's callback, `makeEngineMove`, the settle step `BoardSettled` (the board has finished showing a human move, lines 163-166), and the reply timer. The rules engine is an oracle `Rules` with three functions: the legal moves of the side to move, the position after a move (`None` where the engine throws), and the status flags.

Points where the code's behaviour is easy to misread:
- `validateMoveInput` returns `undefined` even when the engine accepts the move (line 188). There is no "applied" answer; the model returns `None`.
- `makeEngineMove` writes the status before its deferred reply is played (line 144), and nothing writes it afterwards. After a reply the status can describe the position before the reply.
- Input is disabled only when the board reports a finished legal move (line 191). Nothing re-enables it after an engine reply, because line 141 is commented out; only a cancelled promotion re-enables it (line 180). The handler itself never checks for a pending reply, so whether input stops depends on the `legalMove` the board reports after the handler answered `undefined` (line 188) or `true` (line 184). Replies are modelled as a queue of timers.
- The promotion dialog is opened for the target square. No list of candidate pieces is computed.
- The engine reply is played as `{from, to}` only (line 139), without the listed move's promotion piece. Whether the engine then accepts a promoting reply is up to the oracle. If it refuses, the timer callback throws and nothing is played.
- In the dialog callback, a refused promotion move throws before `makeEngineMove` (line 175). The model then changes nothing except closing the dialog.

## Model

| member | source | states |
|---|---|---|
| `Expand.ReplaceChar` | src/client/chess.js:13-15 | a one-character global replacement leaves a text without that character unchanged, and removes the character when the replacement does not contain it |
| `Expand.ReplaceCharIsSubst` | src/client/chess.js:13-15 | a one-character global replacement equals the per-character substitution in which that character becomes the replacement and every other character stays, left to right |
| `Expand.Escape` | src/client/chess.js:12-15 | the chain of three global replacements, `&` first; what it computes is stated by `EscapeIsEntityPerChar` (each character replaced by its entity once), `UnescapeEscape` (nothing lost) and `EscapeHasNoAngle` |
| `Expand.EscapeIsEntityPerChar` | src/client/chess.js:12-15 | the chain `&`, then `<`, then `>` replaces every character by its entity exactly once, so no entity it makes is escaped again |
| `Expand.UnescapeEscape` | src/client/chess.js:12-15 | decoding `&amp;`, `&lt;`, `&gt;` gives back the input: every `&`, `<`, `>` appears exactly as its entity and nothing is lost |
| `Expand.EscapeHasNoAngle` | src/client/chess.js:14-15 | escaped text holds no raw `<` or `>` |
| `Expand.EscapeKeepsMarks` | src/client/chess.js:12-16 | the escaped text holds a `*` (a line terminator) exactly when the original does |
| `Expand.EscapeCountsMarks` | src/client/chess.js:12-16 | escaping neither creates nor removes a `*` or a line terminator: each occurs in the escaped text exactly as often as in the original |
| `Expand.EntityMarks` | src/client/chess.js:13-15 | an entity starts with `*` or a line terminator exactly when its character is one, and its other characters are neither |
| `Expand.CloseAt` | src/client/chess.js:16 | the search for the closing `*` of the lazy `.+?`: a reported index holds a `*`; `CloseAtSound` and `CloseAtFindsFirst` state that it is the first `*` reached without crossing a line terminator |
| `Expand.CloseAtSound` | src/client/chess.js:16 | the closing search finds a `*` with no `*` and no line terminator before it |
| `Expand.CloseAtFindsFirst` | src/client/chess.js:16 | the closing search stops at the first admissible `*` |
| `Expand.MatchAt` | src/client/chess.js:16 | the regular expression tried at one position: a reported match opens with `*` and closes on a `*` at least two places on; with `MatchAtSound` and `MatchAtFindsEveryMatch` it reports exactly the lazy matches |
| `Expand.MatchAtSound` | src/client/chess.js:16 | a reported match opens with `*`, closes with the first `*` at least two places on, and spans no line terminator |
| `Expand.MatchAtFindsEveryMatch` | src/client/chess.js:16 | every lazy match at a position is the one reported there, so matching and the lazy-match predicate agree in both directions |
| `Expand.Pieces` | src/client/chess.js:16 | the global replacement's scan; `UnparsePieces` states it consumes the whole text, `RunsAreLazy` what a matched run holds, `PiecesSkipStarless` that text without `*` passes through character by character |
| `Expand.RunsAreLazy` | src/client/chess.js:16 | every matched run has a non-empty body without line terminators and with no `*` after its first character |
| `Expand.UnparsePieces` | src/client/chess.js:16 | putting the delimiters back around the runs gives the scanned text: the scan consumes all of it |
| `Expand.PiecesSkipStarless` | src/client/chess.js:16 | a stretch without `*` cannot start a match, so the scan passes over it character by character |
| `Expand.EntityTransparent` | src/client/chess.js:13-15 | escaping is a substitution that keeps the markers: `*` stays `*`, no other character yields a `*`, and only a line terminator yields one |
| `Expand.CloseAtSubst` | src/client/chess.js:12-16 | under a substitution that keeps the markers, the closing search fails on the substituted text exactly when it fails on the original, and otherwise stops at the image of the same `*` |
| `Expand.MatchAtSubst` | src/client/chess.js:12-16 | under such a substitution, the regular expression matches at the start of the substituted text exactly when it matches at the start of the original, closing at the image of the same `*` |
| `Expand.PiecesOfSubst` | src/client/chess.js:12-16 | under such a substitution, scanning the substituted text yields the substituted pieces of the original text |
| `Expand.PiecesOfEscaped` | src/client/chess.js:11-17 | scanning the escaped text yields the escaped pieces of the original text: the pairing of `*` depends only on the original |
| `Expand.Italicize` | src/client/chess.js:16 | the global `<i>$1</i>` replacement: the scan `Pieces` written out by `Render`; `ExpandViaPieces`, `ExpandRun` and `ExpandNoRun` state its effect on escaped text |
| `Expand.ExpandText` | src/client/chess.js:11-17 | `expand`: escaping, then the `<i>$1</i>` replacement; its behaviour is stated by `ExpandViaPieces`, `ExpandRun`, `ExpandNoRun`, `ExpandWithoutStar` and `TagsAreTheOnlyAngles` |
| `Expand.ExpandViaPieces` | src/client/chess.js:11-17 | the output is the rendering of the escaped pieces of the original text |
| `Expand.ExpandRun` | src/client/chess.js:11-17 | a `*`-delimited run of the original text becomes `<i>`, its escaped body and `</i>`, and the rest is expanded on its own |
| `Expand.ExpandNoRun` | src/client/chess.js:11-17 | where no run starts, the first character is only escaped and the scan moves on by one |
| `Expand.ExpandWithoutStar` | src/client/chess.js:11-17 | text without `*` is only escaped |
| `Expand.Render` | src/client/chess.js:16 | writes each run as `<i>`, its group and `</i>` and each other character as it is; `StripRender` states that removing those tags gives back the pieces' text |
| `Expand.StripRender` | src/client/chess.js:16 | removing the inserted `<i>` and `</i>` tags from the rendered pieces leaves exactly their text |
| `Expand.TagsAreTheOnlyAngles` | src/client/chess.js:11-17 | after removing the inserted tags, the output holds no `<` or `>`: every raw angle bracket belongs to a tag |
| `GameStatus.Classify` | src/client/chess.js:212-228 | exactly one of eight outcomes, each characterised both ways by the flags: checkmate first (keyed on the side to move), then stalemate (keyed on the side to move), threefold, insufficient material, the generic draw, and ongoing when no flag is set |
| `GameStatus.Message` | src/client/chess.js:213-227 | the text for each outcome, as `StatusText` states per flag case; `MessageInjective` states that no two outcomes share a text |
| `GameStatus.StatusText` | src/client/chess.js:209-228 | a mate with white to move reads "Game over: white is in checkmate. Black wins!", with black to move "Game over: black is in checkmate. White wins!"; stalemate (without mate) reads "Game is drawn. White is stalemated." or "Game is drawn. Black is stalemated." after the side to move; otherwise threefold repetition reads "Game is drawn by threefold repetition rule.", then insufficient material "Game is drawn by insufficient material.", then any other draw "Game is drawn by fifty-move rule."; no flag gives "Game is ongoing." |
| `GameStatus.MessageInjective` | src/client/chess.js:212-228 | the eight texts are pairwise distinct, so the status line tells which outcome was reached |
| `MoveInput.MovesFrom` | src/client/chess.js:156 | the moves listed for a square are exactly the legal moves starting there |
| `MoveInput.FindPromotion` | src/client/chess.js:170-186 | the loop finds a move exactly when some listed move promotes on the target square |
| `MoveInput.Attempt` | src/client/chess.js:159-188 | a request is applied exactly when the engine accepts it; otherwise a promotion is required exactly when some legal move from the origin promotes on the target; otherwise it is rejected |
| `MoveInput.Reply` | src/client/chess.js:134-139 | no reply without legal moves; otherwise the chosen move's origin and target, with no promotion piece |
| `MoveInput.PromotionMove` | src/client/chess.js:175 | the move played for a selected piece: the pending origin and target with the piece's kind (`result.piece.charAt(1)`) as promotion, as `PromotionDialogClosed` states |
| `MoveInput.Controller.constructor` | src/client/chess.js:130-131 | a fresh game: the status is written for the starting position (line 131), input is enabled for white as `board.enableMoveInput` does at line 207, no markers, no dialog, no pending reply |
| `MoveInput.Controller.HandleInput` | src/client/chess.js:147-194 | called only while input is enabled, as the board calls a registered handler (lines 180, 191, 207); hovering changes nothing; every other event except the end of input clears the markers; a started move marks the square's legal moves and answers whether there is one, leaving the game as it was; a validated move is applied, opens the promotion dialog and answers true, or is rejected, as `Attempt` says; a finished legal move disables input |
| `MoveInput.Controller.MakeEngineMove` | src/client/chess.js:133-145 | the status is recomputed for the current position at once; with legal moves, exactly the chosen move's origin and target are queued, otherwise nothing; the game itself is unchanged |
| `MoveInput.Controller.BoardSettled` | src/client/chess.js:163-166 | once a human move has been shown, the engine reply is made for the new position |
| `MoveInput.Controller.ReplyTimerFired` | src/client/chess.js:138-142 | the oldest queued reply is played if the engine accepts it; the status is not recomputed |
| `MoveInput.Controller.PromotionDialogClosed` | src/client/chess.js:173-183 | a selected piece plays exactly the pending move with that piece's kind and makes the engine reply; cancelling leaves the game unchanged and re-enables input for white |

## Left out

- Chess rules, FEN and PGN belong to the external rules engine. They are the oracle `Rules`, and the model does not define them.
- Board rendering, marker drawing, animations and `setPosition` (lines 163-166, 176, 181, 196-207) are board-widget internals. The promise chain after an accepted move becomes one step, `BoardSettled`.
- The board widget's own order of events (a move started, validated, then finished) is not enforced. The model only requires that the handler is registered (`inputEnabled`) when an event arrives.
- The 500 ms delay and `Math.random` (lines 136-142) are replaced by an explicit choice index and a FIFO queue of replies.
- `MakeEngineMove`, `BoardSettled` and `PromotionDialogClosed` take the choice index with a precondition that keeps it in range. This is the range `Math.floor(Math.random() * n)` produces.
- `emit` and its stylesheet injection (lines 44-61), the `message` template (lines 34-42), the status DOM write and the game-over console log (lines 230-231) are browser output.
- The double-click editor hook, the `download` helper and the commented-out click, zoom and popup actions (lines 63-110) are wiki and browser glue.
- `makepgn` and `cleanBeforeMakepgn` (lines 19-32) compute nothing. The error path of `bind` (lines 234-237) only displays a message.
- `chessListener` and plugin registration (lines 240-278) are cross-window messaging and global registration.
- The side to move is a two-valued `Color`. The engine only reports `'w'` or `'b'`, so the comparisons in lines 212-219 cannot fall through on another value.
- Strings are sequences of characters. The source's UTF-16 code units are not modelled.
