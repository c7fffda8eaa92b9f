# Snake over an editor: a Dafny model of the game engine and its controller

This project models the core of a snake game that is played on top of a text editor. The editor's
visible characters are the board. Whitespace is empty ground. The characters `{`, `}` and `;` are
food. Every other character is a wall. Leaving the visible area ends the game, and so does running
into the snake's own body.

Two Kotlin classes make up the core.

- `GameModel` is the engine (module `Engine`, class `Engine.GameModel`). It keeps the body as a
  deque with the head at the front, a set of eaten food cells, a lazily filled character cache and
  the head direction. Its setter refuses a reversal. The model has the initial placement scan, the
  move rule and the cell classification.
- `GameController` is the controller (module `Controller`, class `Controller.GameController`). It
  keeps the flags `alive`, `pause`, `highSpeed`, `debug` and `active`, and a direction buffer that
  holds at most two entries. It has the key handler, `start`, `stop`, `activate` and `deactivate`,
  and the timer tick. The tick consumes one buffered direction, moves the snake and computes the
  next delay. The delay arithmetic is in module `Speed`.

The editor is replaced by a value, `Host.Editor`. It holds the character at each visual position,
the visible line range, the visible column range, and the column width and line height in pixels.
Every operation that reads the editor receives the snapshot of that moment, because the view can
scroll between ticks. The character cache therefore matters: positions already read keep their
cached character whatever the editor shows later.

Each mutating Kotlin method is a Dafny method on the class. Its `ensures` ties the new state to a
pure function of the old state. Examples are `State() == MoveStep(old(State()), ed)` and
`tail == BestSnakePosition(old(charCache), …)`. The source's promises are proved as lemmas about
those functions (module `EngineProperties`, and the lemmas in `Speed` and `Controller`). The
scans in `FindBestSnakePosition`, `CountEmptyColumnsAfter` and the panel's painting are loops with
invariants, as they are in the source.

Painting matters to the game, not only to the screen. `paintComponent` asks for the type of every
visible cell, and each such query caches the cell's character unless the body covers it. The
model has this as `Controller.GameController.Paint`, an event of its own: `repaint()` only
schedules a paint, so a paint can fall between any two other events.

Some consequences of the code are easy to miss.

- Vertical delays scale by `lineHeight / columnWidth`, because the code divides the timeout by
  `columnWidth / lineHeight`.
- The delay only never increases as the snake grows, because the code truncates. Lengths 1000
  and 1001 both give 10 (`Speed.BaseTimeoutNotStrictlyDecreasing`).
- After a failed move the tick calls `stop()` and then restarts the timer. The new delay is
  computed after `stop()` has cleared `highSpeed`.
- A game always starts unpaused. `pause` only toggles while the game is alive, and `alive` is
  cleared only by `stop()`, which runs only in a tick that is not paused. So a game that is not
  alive is never paused. `Controller.GameController.Valid` carries this as `!alive ==> !pause`.
  In the program `activate()` runs once, on a new controller; a second `Activate` on a live,
  paused controller, which only the model allows, would start a new game that is paused.

## Model

| member | source | states |
|---|---|---|
| `Engine.Opposite` | src/main/kotlin/com/jetbrains/hackathon2015/s/GameModel.kt:23-29 | the opposite direction is never the direction itself and lies on the same axis |
| `EngineProperties.OppositeIsInvolution` | src/main/kotlin/com/jetbrains/hackathon2015/s/GameModel.kt:23-29 | taking the opposite twice gives the direction back; UP pairs with DOWN and RIGHT with LEFT |
| `Engine.Turn` | src/main/kotlin/com/jetbrains/hackathon2015/s/GameModel.kt:39-44 | the setter keeps either the old or the requested direction, never the reverse of the old one, and takes every request that is not a reversal |
| `Engine.GameModel.SetHeadDirection` | src/main/kotlin/com/jetbrains/hackathon2015/s/GameModel.kt:39-44 | the stored direction after the setter is `Turn(old direction, request)`; nothing else changes |
| `EngineProperties.ReversalsAreIgnored` | src/main/kotlin/com/jetbrains/hackathon2015/s/GameModel.kt:39-44 | any number of requests for the reverse direction leaves the direction unchanged |
| `EngineProperties.LastTurnNeverReverses` | src/main/kotlin/com/jetbrains/hackathon2015/s/GameModel.kt:39-44 | after any run of requests, the last one never reverses the direction it found |
| `Engine.PlacementShape` | src/main/kotlin/com/jetbrains/hackathon2015/s/GameModel.kt:57-59 | n cells pushed at the front with columns tail+0 … tail+n-1 give a body whose k-th cell is at column tail+n-1-k on the tail's line |
| `EngineProperties.InitialBodyShape` | src/main/kotlin/com/jetbrains/hackathon2015/s/GameModel.kt:55-60 | the initial body has 3 distinct cells on one line at consecutive columns, with the head (tail.column+2) first and the tail last |
| `Engine.GameModel.constructor` | src/main/kotlin/com/jetbrains/hackathon2015/s/GameModel.kt:39-60 | a new model faces RIGHT, has eaten nothing, and places the initial body at the best snake position; the cache holds only editor characters |
| `Engine.GameModel.SnakeLength` | src/main/kotlin/com/jetbrains/hackathon2015/s/GameModel.kt:46-49 | the score is the body's length, which is at least the initial length 3 in every valid state |
| `Engine.GameModel.GetCharAt` | src/main/kotlin/com/jetbrains/hackathon2015/s/GameModel.kt:138-147 | returns the cached character when there is one and otherwise the editor's, and caches it: the map gains exactly that entry |
| `EngineProperties.CachedCharIsKept` | src/main/kotlin/com/jetbrains/hackathon2015/s/GameModel.kt:138-147 | once cached, a position's character is what the model sees from then on, whatever the editor shows later |
| `Engine.RunStable` | src/main/kotlin/com/jetbrains/hackathon2015/s/GameModel.kt:66-78 | filling the cache from the editor never changes the whitespace run seen from any position |
| `Engine.Run` | src/main/kotlin/com/jetbrains/hackathon2015/s/GameModel.kt:66-78 | the specification of the run count: whitespace cells from a column to the view's right edge, stopping at the first other character (its meaning is proved in `EngineProperties.RunIsMaximalWhitespace`) |
| `EngineProperties.RunIsMaximalWhitespace` | src/main/kotlin/com/jetbrains/hackathon2015/s/GameModel.kt:66-78 | the run is the longest whitespace stretch from the column: every cell in it is whitespace, it stays inside the view, and it ends at the edge or at a cell that is not whitespace |
| `Engine.GameModel.CountEmptyColumnsAfter` | src/main/kotlin/com/jetbrains/hackathon2015/s/GameModel.kt:66-78 | counts the whitespace cells from the start column to the last visible column, stopping at the first other character; the cache gains exactly the cells read, from the start column through the first non-whitespace visible cell, each with the editor's character |
| `Engine.GameModel.FindBestSnakePosition` | src/main/kotlin/com/jetbrains/hackathon2015/s/GameModel.kt:65-89 | the nested row-major loops return `BestSnakePosition` of the cache as it was on entry |
| `Engine.ScanFrom` | src/main/kotlin/com/jetbrains/hackathon2015/s/GameModel.kt:80-87 | the specification of the row-major scan, from a given line and column, for a position whose run is at least 6 (proved correct in `EngineProperties.ScanFromFindsFirst`) |
| `Engine.BestSnakePosition` | src/main/kotlin/com/jetbrains/hackathon2015/s/GameModel.kt:65-89 | the specification of the tail position: the scan's result from the top-left, else the top-left position (proved correct in `EngineProperties.BestSnakePositionIsFirstFit`) |
| `EngineProperties.ScanFromFindsFirst` | src/main/kotlin/com/jetbrains/hackathon2015/s/GameModel.kt:80-87 | the scan from (line, col) returns the first visible position at or after it, in row-major order, whose run is at least 6; if it returns nothing, no such position exists |
| `EngineProperties.BestSnakePositionIsFirstFit` | src/main/kotlin/com/jetbrains/hackathon2015/s/GameModel.kt:65-89 | if some visible position has a run of at least 6, the tail goes to the first one in row-major order; otherwise it goes to the top-left visible position |
| `Engine.CharCellType` | src/main/kotlin/com/jetbrains/hackathon2015/s/GameModel.kt:128-133 | a cell that is not covered is never SNAKE; it is EMPTY exactly when whitespace or eaten, and FOOD exactly when neither and one of `{ } ;` |
| `Engine.CellAt` | src/main/kotlin/com/jetbrains/hackathon2015/s/GameModel.kt:124-134 | the specification of a cell's type in a state, with SNAKE first and then the cached or current character (its precedence is proved in `EngineProperties.CellPrecedence`) |
| `EngineProperties.CellPrecedence` | src/main/kotlin/com/jetbrains/hackathon2015/s/GameModel.kt:124-134 | a cell's type follows the precedence SNAKE, then EMPTY (whitespace or eaten), then FOOD, then WALL, each as an if-and-only-if |
| `Engine.GameModel.GetCellType` | src/main/kotlin/com/jetbrains/hackathon2015/s/GameModel.kt:124-134 | returns `CellAt` of the current state; the body and the eaten cells cannot change, and the cache gains the position only when the body does not cover it |
| `Engine.GameModel.Move` | src/main/kotlin/com/jetbrains/hackathon2015/s/GameModel.kt:94-122 | returns whether the attempt succeeds; the new state is `MoveStep` of the old one, and the body stays of length at least 3 without duplicates |
| `Engine.NextHead` | src/main/kotlin/com/jetbrains/hackathon2015/s/GameModel.kt:95-101 | the specification of the new head cell one step along the direction (its adjacency is proved in `EngineProperties.NextHeadIsAdjacent`) |
| `EngineProperties.NextHeadIsAdjacent` | src/main/kotlin/com/jetbrains/hackathon2015/s/GameModel.kt:95-101 | the new head differs from the old one, moves only along the direction's axis, and stepping back the opposite way returns to the old head |
| `Engine.Attempt` | src/main/kotlin/com/jetbrains/hackathon2015/s/GameModel.kt:94-122 | the specification of how a move ends: out of view, self-collision, wall, food or empty, in the source's order of checks (each case characterised in `EngineProperties.AttemptCases`) |
| `Engine.MoveStep` | src/main/kotlin/com/jetbrains/hackathon2015/s/GameModel.kt:94-122 | the specification of the state after a move: failure keeps the body, food pushes the head and marks it eaten, empty drops the tail and pushes the head (see the move lemmas below) |
| `Engine.MoveKeepsDistinct` | src/main/kotlin/com/jetbrains/hackathon2015/s/GameModel.kt:106-120 | a move keeps a duplicate-free body duplicate-free |
| `EngineProperties.AttemptCases` | src/main/kotlin/com/jetbrains/hackathon2015/s/GameModel.kt:102-119 | a move leaves the view exactly when the new head is outside the visible ranges, collides exactly when the head is already in the body, and otherwise ends as the new head's cell type says (WALL, FOOD, EMPTY) |
| `EngineProperties.MoveIntoTailFails` | src/main/kotlin/com/jetbrains/hackathon2015/s/GameModel.kt:106-108 | moving into the current tail cell fails and changes nothing, because the collision check uses the body before the tail is removed |
| `EngineProperties.FailedMoveKeepsBody` | src/main/kotlin/com/jetbrains/hackathon2015/s/GameModel.kt:102-116 | a failed move leaves the body, the eaten cells and the direction unchanged |
| `EngineProperties.EmptyMoveKeepsLength` | src/main/kotlin/com/jetbrains/hackathon2015/s/GameModel.kt:110-121 | a move onto an EMPTY cell drops the tail and pushes the new head; the length and the eaten cells are unchanged |
| `EngineProperties.FoodMoveGrows` | src/main/kotlin/com/jetbrains/hackathon2015/s/GameModel.kt:117-120 | a move onto FOOD keeps the whole body, pushes the new head, grows the length by one and adds the cell to the eaten cells |
| `EngineProperties.LengthGrowsOnlyOnFood` | src/main/kotlin/com/jetbrains/hackathon2015/s/GameModel.kt:110-121 | the length grows by exactly one when the move eats food and is unchanged otherwise |
| `EngineProperties.MoveKeepsHistory` | src/main/kotlin/com/jetbrains/hackathon2015/s/GameModel.kt:109-120 | a move never changes the direction, never forgets an eaten cell, and only adds editor characters to the cache |
| `EngineProperties.EatenCellIsEmpty` | src/main/kotlin/com/jetbrains/hackathon2015/s/GameModel.kt:130 | an eaten cell the body does not cover is EMPTY, whatever the editor shows there |
| `EngineProperties.EatenFoodStaysEmpty` | src/main/kotlin/com/jetbrains/hackathon2015/s/GameModel.kt:117-130 | once food is eaten, its cell is EMPTY in every later state that keeps the eaten cells and does not cover it |
| `EngineProperties.StepRightExample` | src/main/kotlin/com/jetbrains/hackathon2015/s/GameModel.kt:110-121 | the body (0,2),(0,1),(0,0) facing right moves onto an empty (0,3) and becomes (0,3),(0,2),(0,1) |
| `Speed.TurboTimeout` | src/main/kotlin/com/jetbrains/hackathon2015/s/GameController.kt:236 | turbo never raises the timeout, caps it at 50, and lowers it only to exactly 50; without turbo it is unchanged |
| `Speed.BaseTimeout` | src/main/kotlin/com/jetbrains/hackathon2015/s/GameController.kt:233-235 | the specification of the length-based timeout, 280 · 40 / (40 + length) in integers (its relation to the double formula is proved in `Speed.BaseTimeoutIsTruncatedQuotient`) |
| `Speed.IsotropicTimeout` | src/main/kotlin/com/jetbrains/hackathon2015/s/GameController.kt:227-237 | the specification of the axis scaling: unchanged horizontally; vertically timeout · lineHeight / columnWidth, saturated at Int.MAX_VALUE; a zero line height gives 0 (division by infinity); a zero column width gives Int.MAX_VALUE for a positive timeout and 0 (NaN) otherwise (properties in `Speed.VerticalDelayScaledByAspect` and `Speed.IsotropicTimeoutMonotone`) |
| `Speed.RepaintTimeout` | src/main/kotlin/com/jetbrains/hackathon2015/s/GameController.kt:227-237 | the specification of the tick's delay: the base timeout, capped by turbo, then scaled for the axis (properties in `Speed.RepaintTimeoutNonIncreasing`, `Speed.TurboCapsDelay` and `Speed.HorizontalDelayUnscaled`) |
| `Speed.BaseTimeoutIsTruncatedQuotient` | src/main/kotlin/com/jetbrains/hackathon2015/s/GameController.kt:233-235 | the integer timeout is the truncation of the real quotient 280 / (1 + n / 40) |
| `Speed.BaseTimeoutAnchors` | src/main/kotlin/com/jetbrains/hackathon2015/s/GameController.kt:233-235 | the timeout is 280 at length 0, halves to 140 at length 40, and never exceeds 280 |
| `Speed.BaseTimeoutNonIncreasing` | src/main/kotlin/com/jetbrains/hackathon2015/s/GameController.kt:233-235 | a longer snake never gets a longer timeout |
| `Speed.BaseTimeoutNotStrictlyDecreasing` | src/main/kotlin/com/jetbrains/hackathon2015/s/GameController.kt:233-235 | truncation makes the decrease non-strict: lengths 1000 and 1001 both give 10 |
| `Speed.TurboCapsDelay` | src/main/kotlin/com/jetbrains/hackathon2015/s/GameController.kt:236 | with turbo on, a horizontal delay is at most 50, and turbo never slows the snake |
| `Speed.HorizontalDelayUnscaled` | src/main/kotlin/com/jetbrains/hackathon2015/s/GameController.kt:227-237 | a horizontal move uses the (possibly capped) timeout unchanged |
| `Speed.VerticalDelayScaledByAspect` | src/main/kotlin/com/jetbrains/hackathon2015/s/GameController.kt:227-237 | a vertical delay is the truncation of the horizontal one times lineHeight / columnWidth, and never exceeds Int.MAX_VALUE |
| `Speed.IsotropicTimeoutMonotone` | src/main/kotlin/com/jetbrains/hackathon2015/s/GameController.kt:227-237 | scaling for the move's axis keeps the order of two timeouts |
| `Speed.RepaintTimeoutNonIncreasing` | src/main/kotlin/com/jetbrains/hackathon2015/s/GameController.kt:227-237 | with the flags, direction and cell size fixed, the delay never grows with the length |
| `Controller.Pushed` | src/main/kotlin/com/jetbrains/hackathon2015/s/GameController.kt:56-61 | a pressed direction goes to the front; the buffer keeps at most 2 entries, the newest ones, and evicts from the back |
| `Controller.KeyDirection` | src/main/kotlin/com/jetbrains/hackathon2015/s/GameController.kt:48-54 | the arrow keys map to DOWN, LEFT, RIGHT and UP, and every other key to no direction |
| `Controller.BufferNeverOverflows` | src/main/kotlin/com/jetbrains/hackathon2015/s/GameController.kt:56-61 | however many directions are pressed between ticks, the buffer never holds more than 2 |
| `Controller.BufferKeepsNewest` | src/main/kotlin/com/jetbrains/hackathon2015/s/GameController.kt:56-61 | after two or more presses the buffer is exactly the last two, the newest in front |
| `Controller.ConsumedTakesOldest` | src/main/kotlin/com/jetbrains/hackathon2015/s/GameController.kt:220 | a tick removes exactly the back (oldest) entry |
| `Controller.Consumed` | src/main/kotlin/com/jetbrains/hackathon2015/s/GameController.kt:220 | the specification of the buffer after a tick's `pollLast`: the oldest entry removed, an empty buffer left empty (proved in `Controller.ConsumedTakesOldest`) |
| `Controller.Steered` | src/main/kotlin/com/jetbrains/hackathon2015/s/GameController.kt:220-223 | the specification of the engine state once the oldest buffered direction went through the setter (proved in `Controller.SteeredChangesOnlyHeading`) |
| `Controller.SteeredChangesOnlyHeading` | src/main/kotlin/com/jetbrains/hackathon2015/s/GameController.kt:220-223 | applying a buffered direction changes only the head direction, never to the reverse, and not at all when the buffer is empty |
| `Controller.GameController.constructor` | src/main/kotlin/com/jetbrains/hackathon2015/s/GameController.kt:19-41 | a new controller has every flag false, an empty buffer, no model, and a stopped timer with delay 280 |
| `Controller.GameController.KeyPressed` | src/main/kotlin/com/jetbrains/hackathon2015/s/GameController.kt:46-86 | the new controller state is `AfterKey` of the old one; a start key pressed while not alive installs a fresh model built on the editor, and every other key keeps the model |
| `Controller.GameController.SaveDirection` | src/main/kotlin/com/jetbrains/hackathon2015/s/GameController.kt:56-61 | the loop that trims the buffer after the new direction went to its front leaves exactly `Pushed` of the old buffer |
| `Controller.GameController.HandleCommand` | src/main/kotlin/com/jetbrains/hackathon2015/s/GameController.kt:63-85 | the `when` over the command keys leaves `Command` of the state it found, and replaces the model exactly when it starts a game |
| `Controller.AfterKey` | src/main/kotlin/com/jetbrains/hackathon2015/s/GameController.kt:46-86 | the specification of the key handler: an arrow key is buffered while alive, then `Command` applies (its cases are proved in the key lemmas below) |
| `Controller.Command` | src/main/kotlin/com/jetbrains/hackathon2015/s/GameController.kt:63-85 | the specification of the command keys' effect on the controller state (its cases are proved in the key lemmas below) |
| `Controller.StartsGame` | src/main/kotlin/com/jetbrains/hackathon2015/s/GameController.kt:72-77 | the condition under which a key starts a game: Enter or Space while not alive (used by `Controller.StartKeyStartsGame` and `Controller.GameController.KeyPressed`) |
| `Controller.OnlyArrowKeysTouchBuffer` | src/main/kotlin/com/jetbrains/hackathon2015/s/GameController.kt:56-61 | no key overfills a buffer of at most 2 entries, and the buffer changes only when an arrow key is pressed while alive |
| `Controller.ArrowKeyOnlyBuffers` | src/main/kotlin/com/jetbrains/hackathon2015/s/GameController.kt:48-61 | an arrow key pushes its direction while alive and otherwise changes nothing; it never touches a flag or the timer |
| `Controller.PauseToggles` | src/main/kotlin/com/jetbrains/hackathon2015/s/GameController.kt:72-74 | while alive, Enter or Space flip only the pause flag, and pressing twice restores the state |
| `Controller.StartKeyStartsGame` | src/main/kotlin/com/jetbrains/hackathon2015/s/GameController.kt:72-77 | while not alive, Enter or Space set alive and start the timer, keeping the pause flag, the buffer and everything else |
| `Controller.EscapeDeactivates` | src/main/kotlin/com/jetbrains/hackathon2015/s/GameController.kt:64-68 | Escape clears active and stops the timer when active, does nothing otherwise, and a second Escape changes nothing more |
| `Controller.FlagKeys` | src/main/kotlin/com/jetbrains/hackathon2015/s/GameController.kt:69-85 | D flips only debug, A sets only turbo, Z clears only turbo, and any other key changes nothing |
| `Controller.GameController.Start` | src/main/kotlin/com/jetbrains/hackathon2015/s/GameController.kt:189-194 | sets alive with a fresh model built on the editor, starts the timer, and changes nothing else |
| `Controller.GameController.Stop` | src/main/kotlin/com/jetbrains/hackathon2015/s/GameController.kt:196-201 | clears alive and turbo, empties the buffer, stops the timer, and changes nothing else; it is called only while not paused (GameController.kt:219-226), which keeps a stopped game unpaused |
| `Controller.GameController.Activate` | src/main/kotlin/com/jetbrains/hackathon2015/s/GameController.kt:161-187 | sets active and starts a game |
| `Controller.GameController.Deactivate` | src/main/kotlin/com/jetbrains/hackathon2015/s/GameController.kt:203-215 | stops the timer, clears active, and changes nothing else |
| `Controller.GameController.Paint` | src/main/kotlin/com/jetbrains/hackathon2015/s/GameController.kt:97-139 | painting classifies every visible cell, so the model's cache gains exactly the visible cells outside the body, each with the editor's character; the body, the eaten cells, the direction and the controller are unchanged |
| `Controller.DeactivateIsIdempotent` | src/main/kotlin/com/jetbrains/hackathon2015/s/GameController.kt:203-215 | deactivating twice has the same effect as deactivating once |
| `Controller.GameController.MoveSnakeAndRepaint` | src/main/kotlin/com/jetbrains/hackathon2015/s/GameController.kt:217-244 | when not alive, or alive and paused, nothing changes; otherwise the oldest buffered direction goes through the setter, the model takes `MoveStep`, a failed move clears alive, turbo and the buffer, and the timer restarts with `RepaintTimeout` of the new length, the direction and the turbo flag left after the move |

## Left out

- The drawing in `paintComponent` and `drawMessage` (colours, fonts, rectangles, the game-over and pause messages) and the focus request in `repaint()` are left out. What painting does to the cache is modelled by `Controller.GameController.Paint`.
- The glass-pane attach and restore, the resize listener that deactivates, the mouse-wheel listener and the focus requests in `activate` and `deactivate` are Swing plumbing. Only the `active` flag is kept.
- The Swing `Timer` is reduced to `timerRunning` and `timerInitialDelay`. Its repeat delay and the firing of ticks are not modelled. The model shows that a tick restarts the timer even after `stop()`.
- `Speed.IsotropicTimeout`: uses exact integer arithmetic where the program divides doubles, and so differs at some whole-number cell sizes. For example, `7 / (7.0 / 25)` is 24.999999999999996 in double arithmetic, so the program gets 24 where `IsotropicTimeout(7, Up, 7, 25)` is 25. The double rounding is not modelled.
- `Speed.BaseTimeout`: the program's double computation `(280 / (1.0 + n / 40.0)).toInt()` agrees with `11200 / (40 + n)` for every length n up to 20000. Beyond that the double rounding is not modelled.
- How the editor maps a visual position to a document offset and a character (`editor.kt`, soft wraps, folding, the document's length) is not part of this model. `Host.Editor.charAt` stands for it.
- The placement of the editor's top-left visible position, visible line count and visible column count (`editor.kt`) enter only through the two ranges of `Host.Editor`.
- Positions are unbounded integers. The 32-bit wrap-around of a column or line at `Int.MAX_VALUE`, which a visible range never reaches, is not modelled.
- `Engine.GameModel.FindBestSnakePosition`: its contract does not say which positions the scan adds to the cache, only that every added entry is the editor's character.
- `Engine.GameModel.constructor`: like the scan it calls, it does not say which positions are cached.
- The `?.` and `?:` fallbacks in the tick (a missing model, `RIGHT`, length 0) are unreachable, because `Valid()` makes `alive` imply a model. The model has no branch for them.
- `RegisterOnTypeLauncher.kt` (watching documents for a trigger word) and `RunSnakeAction.kt` (the IDE action) are host integration and are not part of this model.
