# Snake: the grid simulation, verified

This project models the game logic of a macOS Snake game. The game runs the
snake on a board of cells and advances it one cell per logical step. A step
ends the game on a wall hit or on a hit against the body. Otherwise the snake
either grows onto food, which scores 10 and respawns the food, or drops its
tail. The repository holds this logic twice, and both copies are modelled:

- **`SnakeScene`** (module `Scene`, `scene.dfy`) is the copy that the app runs.
  It has a 20 x 20 board, direction vectors, a score, and a step gate in
  `updateStep`. The gate snapshots the body into `previousSnake` and steps once
  the step progress reaches 1. Class `Scene.SnakeScene` has the scene's
  game-state fields, and its methods update them in place.
- **`SnakeModel`** (module `Model`, `model.dfy`) is the standalone copy. It has
  a 40 x 40 board, the enumeration `Direction`, and a `Bool` result from
  `step`. It keeps no score. Class `Model.SnakeModel` mirrors it.
- **`Board`** (`board.dfy`) holds what both copies do the same way. That is
  the cells, a well-formed body, the row-by-row empty-cell scan (the method
  `CollectEmpty` runs the nested loops), the food pick with its fallback cell,
  and `Advance`, one move of the body with its checks in source order: wall,
  then the whole current body, then food.
- **`Variants`** (`variants.dfy`) proves that the two turn rules agree on the
  four directions that the buttons and arrow keys send.

Each class has a `State()` value and a `Valid()` invariant. Each method is
proved to leave `State()` equal to a pure transition function of the old state
(`Scene.Stepped`, `Scene.Updated`, `Scene.Reset`, `Model.Stepped`, ...). The
properties are proved about those functions: the invariants a step keeps, the
growth law, which collisions end the game, food placement and the turn rules.

The random food choice (`randomElement()`) is modelled as a parameter `choice`.
It is an index into the list of empty cells, and it must be in range whenever
that list is non-empty (`Board.ChoiceFits`).

Cells are integer pairs. The source stores them as `CGPoint`, but every
coordinate it ever holds is a whole number.

Behaviour of the code that is easy to miss:

- `changeDirection` writes `direction` at once. There is no pending
  direction and no game-over check. It takes a request only if the request
  has a horizontal part and the current direction has none, or a vertical part
  and the current direction has none. So, for unit vectors, it also ignores a
  repeat of the current direction, not only a reversal.
- `logicalStep` has no game-over guard of its own. The guard is in
  `updateStep`, which does nothing once the game is over.
- `resetGame` changes neither `stepProgress` nor `previousSnake`. Until the
  next step completes, the restarted head is drawn blending from the old
  snapshot's head cell (`Scene.ResetKeepsSnapshot`).
- `SnakeModel` starts at (10, 10) on a 40 x 40 board, which is not the centre.
  Its food fallback is (5, 5), where the scene's is (0, 0).

The scene also keeps an invariant that the source does not state: the score is
always 10 times the number of segments beyond the head.

## Model

| member | source | states |
|---|---|---|
| Board.EmptyCellsMembership | Snake/Snake/SnakeScene.swift:201-208 | a cell is in the scanned empty list exactly when it is on the board and not under the body |
| Board.EmptyCellsAt | Snake/Snake/SnakeScene.swift:201-208 | every cell at a position of the scanned list is on the board and not under the body |
| Board.EmptyCellsIndexOf | Snake/Snake/SnakeScene.swift:201-208 | every free board cell sits at some position of the scanned list |
| Board.EmptyCellsRowMajor | Snake/Snake/SnakeScene.swift:203-207 | the scan lists the free cells in row-major order (row by row, each row left to right), each cell once |
| Board.EmptyCellsNoneIffFull | Snake/Snake/SnakeScene.swift:209 | the scan is empty exactly when the body covers every board cell, which is the only case in which the fallback is used |
| Board.CollectEmpty | Snake/Snake/SnakeModel.swift:100-106 | the nested row/column loops build exactly the row-major list of free cells |
| Board.PickFood | Snake/Snake/SnakeScene.swift:209 | the pick is one of the empty cells, or the fallback cell when there are none |
| Board.SpawnedFoodPlaced | Snake/Snake/SnakeScene.swift:201-210 | spawned food is on the board; it is off the body whenever a free cell exists, and it is the fallback cell otherwise |
| Board.Advance | Snake/Snake/SnakeScene.swift:116-138 | a wall hit exactly when the head leaves the board, checked first; a self-hit exactly when the head is on the board and on any current segment, the tail included; eating exactly when neither holds and the head is the food; eating keeps the old body as the suffix (length + 1), a plain move drops the tail (same length); both keep the body well formed |
| Board.SlideKeepsFoodPlaced | Snake/Snake/SnakeScene.swift:130-137 | a plain move keeps the food where it was, still on the board and off the new body |
| Scene.Stepped | Snake/Snake/SnakeScene.swift:110-142 | wall or self hit: game over, and body, score, food and direction unchanged; eating: length + 1, old body as the suffix, score + 10; otherwise `[newHead] + body[..n-1]` with score and food kept |
| Scene.SteppedKeepsInvariant | Snake/Snake/SnakeScene.swift:112-138 | a step keeps the body non-empty, duplicate-free and on the board, the food placed, and score = 10 x (length - 1); new food is off the grown body unless the board is full |
| Scene.TailCellCountsAsBody | Snake/Snake/SnakeScene.swift:123-127 | a head that moves onto the current tail cell ends the game, although the tail would have moved away, and leaves the body unchanged |
| Scene.RightWallEndsGame | Snake/Snake/SnakeScene.swift:116-121 | from (19, 10) moving right, the game ends and no head is inserted |
| Scene.FirstStepFromStart | Snake/Snake/SnakeScene.swift:129-138 | from the start cell (10, 10) moving right onto a free cell, the body becomes [(11, 10)] with score 0 |
| Scene.Turned | Snake/Snake/SnakeScene.swift:240-246 | the direction either stays or becomes the request, and never becomes the zero vector |
| Scene.TurnedAcceptsPerpendicular | Snake/Snake/SnakeScene.swift:240-246 | on unit vectors, a request is taken exactly when it is perpendicular to the current direction (dot product 0) |
| Scene.TurnedNeverReverses | Snake/Snake/SnakeScene.swift:240-246 | on unit vectors, a reversal or a repeat is a no-op, the result is a unit vector, and it is never the negation of the current direction |
| Scene.Reset | Snake/Snake/SnakeScene.swift:251-271 | score 0, not over, direction (1, 0), snake [(10, 10)], food on the board and off the snake, invariant holds, stepProgress and previousSnake untouched |
| Scene.ResetIdempotent | Snake/Snake/SnakeScene.swift:251-271 | resetting twice gives the same state as resetting once |
| Scene.ResetKeepsSnapshot | Snake/Snake/SnakeScene.swift:251-271 | after a reset, the restarted head still blends from the old snapshot's head cell |
| Scene.Updated | Snake/Snake/SnakeScene.swift:86-101 | once the game is over nothing changes; below a full step only the progress grows; on a full step the progress becomes 0 and previousSnake becomes the pre-step body |
| Scene.UpdatedStepsOnce | Snake/Snake/SnakeScene.swift:92-101 | a due gate performs exactly one logical step on the body, food, score and game-over flag of the state before it |
| Scene.UpdatedKeepsInvariant | Snake/Snake/SnakeScene.swift:86-101 | the gate keeps the invariant |
| Scene.UpdatedProgressAndScore | Snake/Snake/SnakeScene.swift:89-94 | with non-negative increments the progress stays in [0, 1), and the score never decreases |
| Scene.InterpolationAfterStep | Snake/Snake/SnakeScene.swift:169-172 | after a due step, the head blends from the old head to the cell one direction away, every other segment blends from its old cell into its predecessor's old cell, and a segment added by eating is drawn at rest; after a collision every segment is at rest |
| Scene.SnakeScene.constructor | Snake/Snake/SnakeScene.swift:33-46 | the initial field values, which satisfy the invariant |
| Scene.SnakeScene.DidMove | Snake/Snake/SnakeScene.swift:55-58 | places the first food and keeps the invariant |
| Scene.SnakeScene.SpawnFood | Snake/Snake/SnakeScene.swift:201-210 | food is the chosen empty cell, or (0, 0) if none; on the board, and off the snake whenever a free cell exists |
| Scene.SnakeScene.EndGame | Snake/Snake/SnakeScene.swift:215-216 | sets the game-over flag and changes no other game state |
| Scene.SnakeScene.LogicalStep | Snake/Snake/SnakeScene.swift:110-142 | the in-place step yields `Stepped` of the old state and keeps `Valid()` |
| Scene.SnakeScene.ChangeDirection | Snake/Snake/SnakeScene.swift:240-246 | writes `Turned(old direction, request)` into `direction` immediately and changes nothing else |
| Scene.SnakeScene.ResetGame | Snake/Snake/SnakeScene.swift:251-271 | the in-place reset yields `Reset` of the old state |
| Scene.SnakeScene.UpdateStep | Snake/Snake/SnakeScene.swift:86-101 | the in-place gate yields `Updated` of the old state and keeps `Valid()` |
| Scene.SnakeScene.PreviousPositions | Snake/Snake/SnakeScene.swift:171-172 | for each segment index, `previousSnake[i]` if that index exists, else the current cell |
| Model.Delta | Snake/Snake/SnakeModel.swift:63-68 | each direction moves the head by a unit vector: up y+1, down y-1, left x-1, right x+1 |
| Model.Turned | Snake/Snake/SnakeModel.swift:46-53 | the direction stays exactly when the request is the current direction or its exact reversal, and otherwise becomes the request; it is never reversed |
| Model.Initial | Snake/Snake/SnakeModel.swift:27-41 | `init` leaves snake [(10, 10)], direction right, not over, and food on a free board cell |
| Model.Stepped | Snake/Snake/SnakeModel.swift:58-96 | once over: returns false, no change; returns true exactly when the head is on the board and off the whole body; a collision sets game over and changes nothing else; a success grows by one exactly on food, otherwise drops the tail |
| Model.SteppedKeepsInvariant | Snake/Snake/SnakeModel.swift:58-96 | a step keeps the body well formed on the 40 x 40 board and the food placed; new food is off the grown body unless the board is full |
| Model.SnakeModel.constructor | Snake/Snake/SnakeModel.swift:41 | construction yields `Initial` and `Valid()` |
| Model.SnakeModel.Turn | Snake/Snake/SnakeModel.swift:46-53 | sets `dir` to `Turned(old dir, request)` |
| Model.SnakeModel.Step | Snake/Snake/SnakeModel.swift:58-96 | the in-place step returns the flag and leaves the state of `Stepped`, keeping `Valid()` |
| Model.SnakeModel.PlaceFood | Snake/Snake/SnakeModel.swift:99-108 | food is the chosen empty cell, or (5, 5) if none; on the board, and off the snake whenever a free cell exists |
| Variants.DeltasAreSceneVectors | Snake/Snake/ContentView.swift:4-9 | the model's four head movements are the scene's four button vectors |
| Variants.TurnRulesAgree | Snake/Snake/SnakeModel.swift:46-53 | the scene's and the model's turn rules give the same direction for every pair of the four directions |

## Left out

- Drawing is not modelled: the SpriteKit nodes, colours, the border and the "YOU DIED" label. This is presentation.
- The interpolation arithmetic is not modelled: the lerp values and `pointForGrid`. These are floating-point numerics, and only the index rule that picks the previous cell is kept.
- Scene.Updated: `stepProgress` is a `real`, and the increment `delta / stepDuration` is a parameter. CGFloat rounding is not modelled.
- Timers are not modelled: `startTimer`, `moveTimer?.invalidate()` in `endGame` and `resetGame`, and the run-loop scheduling. These are platform plumbing. The gate's game-over guard already stops further steps.
- `notifyUI`, the `onUpdate` closure and its `DispatchQueue.main.async` hop are not modelled. These are UI callbacks.
- `keyDown`, `ContentView`, `GameViewController` and `AppDelegate` are not modelled. These are input, view and window wiring.
- Randomness is not modelled: `randomElement()` is replaced by the `choice` index parameter.
- Scene.SnakeScene.ChangeDirection: directions are integer vectors. A fractional `CGVector`, which no caller passes, is not represented.
- Scene.Stepped: the score is an unbounded integer. Swift's 64-bit `Int` would trap on overflow, but the invariant ties the score to the body length.
