# Snake game state machine

A Dafny model of the game logic of a browser snake game (`script.js`). The
snake moves one cell per timer tick on a 20 × 20 board. It dies on leaving the
board or on running into its own body, and it grows by one part per apple
eaten. The arrow keys turn it, but only perpendicular to its current motion
(or in any direction from a standstill). A restart puts every variable back to
its starting value.

The project has three modules:

- `SnakeSpec` (`snake_spec.dfy`) holds the game's variables as one value
  (`Game`). It gives the reference definitions of a restart (`Start`), one tick
  (`Step`, built from the script's sub-steps `Moved`, `Crashes`, `PushHead` and
  `EatApple`), a key press (`Turn`) and a run of ticks and key presses (`Run`).
  It also defines the invariant `Inv` that every reachable game keeps.
- `SnakeProps` (`snake_props.dfy`) proves what the game promises about those
  definitions.
- `SnakeGame` (`snake_game.dfy`) is the game as the script runs it. The class
  `Snake` has one field per game-state variable of the script (head,
  velocity, body, tail length, score, apple), plus `stopped` for the interval
  handle; its methods update those fields in place. The canvas, its context,
  the score element and the tile size have no field, and the board size is
  the constant `TileCount`. Each method of the class is proved to leave the
  object in the state the matching `SnakeSpec` function gives. The two loops
  of a tick, the game-over scan and the push/trim, are module-level methods
  whose results are stated in closed form.

Where the model stands in for the script's surroundings:

- The cleared game-loop timer is the `stopped` flag. Once it is set, a tick
  changes nothing.
- `Math.random` is replaced by a caller-supplied apple cell in `[0, 20)²` on
  every tick. That cell is used only when the apple is eaten.
- A key press is one of four `Direction` values.

Behaviour of the code that a reader might not expect (the model follows the
code in each case):

- A fresh body is empty, not two cells. Right after a restart, one tick
  leaves a body of one part (`FirstMoveRight`).
- The new apple is drawn without regard to the body and may land on it
  (`AppleMayLandOnBody`).
- Growth shows one tick late. The body is trimmed to the old tail length
  before the tail length rises, so the body length is at most `tailLength`,
  not always equal to it (`GrowthLags`).
- On the tick that ends the game, the head has already moved, possibly off
  the board. The body, score, tail length and apple stay as they were
  (`CrashKeepsBody`).
- Moving onto the oldest body part ends the game, even though this tick's
  trim would have freed that cell (`OldestPartIsFatal`).
- The key handler is not switched off by game over: keys still change the
  velocity, and nothing else (`StoppedIsFinal`).
- At a standstill the game-over check is skipped. The head stays put, copies
  of it fill the body, and an apple on the head's cell is eaten.
- The key guard reads the current velocity, so two keys between ticks can
  reverse the snake (`TwoKeysReverse`).

## Model

| member | source | states |
|---|---|---|
| `SnakeSpec.Start` | script.js:24-35 | the starting game (head (10,10), no velocity, empty body, tail length 2, score 0, apple as drawn, running) satisfies the game invariant |
| `SnakeGame.Snake.constructor` | script.js:156 | page load starts the game in the fixed starting state, which satisfies the invariant |
| `SnakeGame.Snake.Reset` | script.js:121-124 | restart stops the loop and sets every field back to the starting state with the freshly drawn apple; the invariant holds afterwards |
| `SnakeSpec.Moved` | script.js:81-84 | the head moves by the velocity: it stays put at a standstill and lands on a neighbouring cell under a unit velocity; nothing else changes |
| `SnakeSpec.Crashes` | script.js:91-108 | the game-over verdict on the moved head: never at a standstill; always when moving off the board; on the board only when some body part (before push and trim) equals the head, and then always when moving |
| `SnakeSpec.PushHead` | script.js:72-75 | push and trim: the body keeps min(old length + 1, tailLength) parts, is the old body plus the head with parts removed from the front only, ends in the head, and nothing else changes |
| `SnakeSpec.EatApple` | script.js:51-57 | with the head on the apple, score and tail length rise by one and the apple becomes the drawn cell; otherwise they are unchanged; head, body, velocity and the stopped flag never change |
| `SnakeSpec.Turn` | script.js:127-154 | a key press changes only the velocity, keeps it zero or a unit along one axis, and either leaves it as it was or leaves the snake moving |
| `SnakeSpec.Step` | script.js:42-58 | a tick never lowers tail length or score, and tail length minus score never changes |
| `SnakeSpec.Run` | script.js:39 | over any run of ticks and key presses the tail length never decreases |
| `SnakeGame.Snake.ChangeSnakePosition` | script.js:81-84 | the head moves by the velocity; nothing else changes |
| `SnakeGame.CheckGameOver` | script.js:91-118 | game over exactly when the snake is moving and the moved head is off the board or equal to some body part (scanned by a loop that stops at the first hit) |
| `SnakeGame.PushAndTrim` | script.js:72-75 | the new body has length min(old length + 1, tailLength) and is the old body plus the head with parts removed from the front only |
| `SnakeGame.Snake.DrawSnake` | script.js:65-79 | the body becomes the old body plus the head, trimmed from the oldest end to tailLength; nothing else changes |
| `SnakeGame.Snake.TryEat` | script.js:51-57 | on the apple: new apple from the drawn cell, tail length and score up by one; otherwise nothing changes |
| `SnakeGame.Snake.DrawGame` | script.js:42-58 | one tick takes the object to `Step` of its old state, and the invariant still holds |
| `SnakeGame.Snake.KeyDown` | script.js:127-154 | a key press takes the object to `Turn` of its old state, changing only the velocity, and the invariant still holds |
| `SnakeProps.StepPreservesInv` | script.js:42-58 | a tick keeps the invariant: tailLength == score + 2, score ≥ 0, body length ≤ tailLength, every body part and the apple on the board, velocity zero or one unit along one axis, and in a running game the head on the board and equal to the newest body part |
| `SnakeProps.PushHeadPreservesInv` | script.js:72-75 | push and trim leave every part on the board, at most tailLength parts, and the head as the newest part |
| `SnakeProps.TurnPreservesInv` | script.js:127-154 | a key press keeps the invariant |
| `SnakeProps.RunPreservesInv` | script.js:42-58 | every game reached by ticks and key presses from a game satisfying the invariant satisfies it |
| `SnakeProps.StoppedIsFinal` | script.js:110-115 | once the game is over, any later ticks and key presses leave it over with the same head, body, score, tail length and apple |
| `SnakeProps.StopsExactlyWhen` | script.js:94-108 | a running game stops on a tick if and only if it is moving and the moved head is off the board or on a part of the body as it was before the tick |
| `SnakeProps.CrashKeepsBody` | script.js:42-45 | the tick that ends the game moves the head by the velocity but leaves body, score, tail length and apple unchanged |
| `SnakeProps.OldestPartIsFatal` | script.js:102-108 | moving onto the oldest part of a full body ends the game, although the trim would have freed that cell |
| `SnakeProps.StillStep` | script.js:94 | at a standstill a tick does not end the game, keeps the head in place, and the body grows by one up to tailLength |
| `SnakeProps.StillTickFills` | script.js:81-84 | one tick from a standstill with a body made only of the head keeps the invariant, the game running and still, the head in place and every body part equal to the head |
| `SnakeProps.StillFillsWithHead` | script.js:81-84 | from a standstill with a body made only of the head, any number of ticks keeps the game running, the head in place and every body part equal to the head |
| `SnakeProps.MoveStep` | script.js:72-75 | after a tick that does not end the game, the newest body part is the moved head, the length is min(old length + 1, tailLength), and only the oldest parts were removed |
| `SnakeProps.ScoreOnlyByEating` | script.js:51-57 | score and tail length rise by exactly one on a tick that eats and are unchanged on any other tick; the apple moves to the drawn cell exactly when eaten |
| `SnakeProps.GrowthLags` | script.js:54 | on a tick that eats with a full body, the body ends one part short of the new tail length |
| `SnakeProps.AppleMayLandOnBody` | script.js:52-53 | there is a running game in which eating draws an apple onto a body part |
| `SnakeProps.TurnGuard` | script.js:127-154 | Up/Down is taken exactly when there is no vertical velocity, Left/Right exactly when there is no horizontal velocity; a taken key sets the unit velocity of its direction, a refused key changes nothing, and only the velocity ever changes |
| `SnakeProps.TurnGivesUnitVelocity` | script.js:130-151 | a key that changes the velocity leaves one unit of velocity along one axis |
| `SnakeProps.TwoKeysReverse` | script.js:130-151 | moving right, Up then Left before the next tick leaves the snake moving left |
| `SnakeProps.FirstMoveRight` | script.js:24-35 | from a fresh game, Right and one tick put the head at (11,10) with a body of exactly that one cell, still running |

## Left out

- Canvas drawing: clearing the screen, drawing the apple and the body, the head
  highlight and the game-over banner, and the pixel size of a tile. These are
  output only.
- The DOM: looking up the canvas and the score element, and writing the score
  into the page. This is output only.
- Timer plumbing (`setInterval`, `clearInterval`). Ticks are explicit calls to
  `DrawGame`, and the cleared interval is the `stopped` flag.
- `Math.random`. Each tick takes the apple cell the random source would
  produce, as a parameter constrained to the board.
- Key-code decoding. Keys other than the four arrows do nothing in the
  script and have no `Direction` here.
- High score, difficulty levels, audio, free-cell apple placement and a win
  on a full board. The script has none of these.
