/**
 * The state of the snake game and its transitions, as values.
 *
 * A `Game` holds the game-state variables of the script (head, velocity,
 * body, tail length, score, apple) plus a `stopped` flag that stands for the
 * cleared game-loop timer; the canvas, the page elements and the board size
 * are not part of it. `Start`, `Step` and `Turn` are the
 * reference definitions the imperative class in module SnakeGame is proved
 * against; module SnakeProps proves what the game promises about them.
 */
module SnakeSpec {

  /** Cells per side of the square board. */
  const TileCount: int := 20

  /** Fixed starting head and starting tail length. */
  const StartX: int := 10
  const StartY: int := 10
  const StartTailLength: int := 2

  /** One occupied cell of the body; the newest part is the last element. */
  datatype Part = Part(x: int, y: int)

  /** The four arrow keys the game reacts to. */
  datatype Direction = Up | Down | Left | Right

  datatype Game = Game(
    snakeX: int, snakeY: int,          // head
    xVelocity: int, yVelocity: int,    // cells moved per tick
    snakeParts: seq<Part>,             // body, oldest first
    tailLength: int,                   // the most parts the body keeps after a trim
    score: int,
    appleX: int, appleY: int,
    stopped: bool)                     // the game loop has been cleared

  /** A player input or a timer tick; a tick carries the apple cell the
      random source would draw if the apple is eaten on that tick. */
  datatype Event = Tick(appleX: int, appleY: int) | Key(d: Direction)

  function Min(a: int, b: int): int { if a <= b then a else b }

  predicate OnBoard(x: int, y: int) {
    0 <= x < TileCount && 0 <= y < TileCount
  }

  predicate Still(g: Game) { g.xVelocity == 0 && g.yVelocity == 0 }

  /** Zero, or one cell along exactly one axis. */
  predicate UnitOrStill(vx: int, vy: int) {
    (vx == 0 && vy == 0) ||
    (vx == 0 && (vy == 1 || vy == -1)) ||
    (vy == 0 && (vx == 1 || vx == -1))
  }

  /** What every reachable game satisfies. */
  predicate Inv(g: Game) {
    && g.score >= 0
    && g.tailLength == g.score + StartTailLength
    && |g.snakeParts| <= g.tailLength
    && (forall p :: p in g.snakeParts ==> OnBoard(p.x, p.y))
    && OnBoard(g.appleX, g.appleY)
    && UnitOrStill(g.xVelocity, g.yVelocity)
    && (!g.stopped ==> OnBoard(g.snakeX, g.snakeY))
    && (!g.stopped && g.snakeParts != [] ==>
          g.snakeParts[|g.snakeParts| - 1] == Part(g.snakeX, g.snakeY))
  }

  /** The state a fresh or restarted game is in; (ax, ay) is the random apple. */
  function Start(ax: int, ay: int): (g: Game)
    requires OnBoard(ax, ay)
    ensures Inv(g) && !g.stopped && Still(g)
  {
    Game(StartX, StartY, 0, 0, [], StartTailLength, 0, ax, ay, false)
  }

  /** Everything but the velocity is the same. */
  predicate FrozenAs(a: Game, b: Game) {
    a.snakeX == b.snakeX && a.snakeY == b.snakeY && a.snakeParts == b.snakeParts &&
    a.tailLength == b.tailLength && a.score == b.score &&
    a.appleX == b.appleX && a.appleY == b.appleY && a.stopped == b.stopped
  }

  /** The head moved one tick along the velocity: it stays put at a
      standstill and lands on a neighbouring cell otherwise. */
  function Moved(g: Game): (m: Game)
    ensures Still(g) ==> m == g
    ensures UnitOrStill(g.xVelocity, g.yVelocity) && !Still(g) ==>
      (if m.snakeX == g.snakeX then 0 else 1) + (if m.snakeY == g.snakeY then 0 else 1) == 1 &&
      -1 <= m.snakeX - g.snakeX <= 1 && -1 <= m.snakeY - g.snakeY <= 1
    ensures m.snakeParts == g.snakeParts && m.xVelocity == g.xVelocity && m.yVelocity == g.yVelocity
    ensures m.tailLength == g.tailLength && m.score == g.score
    ensures m.appleX == g.appleX && m.appleY == g.appleY && m.stopped == g.stopped
  {
    g.(snakeX := g.snakeX + g.xVelocity, snakeY := g.snakeY + g.yVelocity)
  }

  /** The verdict of the game-over check on a game whose head has just moved:
      never at a standstill; otherwise the head is off the board or on a part
      of the body, which has not yet been pushed to or trimmed. */
  predicate Crashes(g: Game): (r: bool)
    ensures r ==> !Still(g)
    ensures !Still(g) && !OnBoard(g.snakeX, g.snakeY) ==> r
    ensures r && OnBoard(g.snakeX, g.snakeY) ==>
      exists i :: 0 <= i < |g.snakeParts| && g.snakeParts[i] == Part(g.snakeX, g.snakeY)
    ensures !Still(g) ==> forall i :: 0 <= i < |g.snakeParts| && g.snakeParts[i] == Part(g.snakeX, g.snakeY) ==> r
  {
    !Still(g) && (!OnBoard(g.snakeX, g.snakeY) || Part(g.snakeX, g.snakeY) in g.snakeParts)
  }

  /** The body after dropping oldest parts until at most `n` remain. */
  function KeepNewest(s: seq<Part>, n: int): seq<Part>
    requires n >= 0
  {
    if |s| > n then s[|s| - n..] else s
  }

  /** The head pushed onto the body, then the body trimmed to `tailLength`:
      the body gains the head as its newest part, loses parts from the front
      only, and keeps min(old length + 1, tailLength) parts; nothing else
      changes. */
  function PushHead(g: Game): (h: Game)
    requires g.tailLength >= 0
    ensures |h.snakeParts| == Min(|g.snakeParts| + 1, g.tailLength)
    ensures h.snakeParts == (g.snakeParts + [Part(g.snakeX, g.snakeY)])[|g.snakeParts| + 1 - |h.snakeParts|..]
    ensures g.tailLength > 0 ==> h.snakeParts[|h.snakeParts| - 1] == Part(g.snakeX, g.snakeY)
    ensures h == g.(snakeParts := h.snakeParts)
  {
    g.(snakeParts := KeepNewest(g.snakeParts + [Part(g.snakeX, g.snakeY)], g.tailLength))
  }

  /** With the head on the apple: a new apple at (ax, ay), one more point and
      one more part allowed in the body. */
  function EatApple(g: Game, ax: int, ay: int): (e: Game)
    ensures var eaten := g.snakeX == g.appleX && g.snakeY == g.appleY;
      && e.score == g.score + (if eaten then 1 else 0)
      && e.tailLength == g.tailLength + (if eaten then 1 else 0)
      && (e.appleX, e.appleY) == (if eaten then (ax, ay) else (g.appleX, g.appleY))
    ensures e.snakeParts == g.snakeParts && e.snakeX == g.snakeX && e.snakeY == g.snakeY
    ensures e.xVelocity == g.xVelocity && e.yVelocity == g.yVelocity && e.stopped == g.stopped
  {
    if g.snakeX == g.appleX && g.snakeY == g.appleY then
      g.(appleX := ax, appleY := ay, tailLength := g.tailLength + 1, score := g.score + 1)
    else g
  }

  /** One tick of the game loop: move, check for game over, push the head and
      trim the tail, then eat. (ax, ay) becomes the apple only if it is eaten. */
  function Step(g: Game, ax: int, ay: int): (g': Game)
    requires OnBoard(ax, ay)
    requires g.tailLength >= 0
    ensures g'.tailLength >= g.tailLength && g'.score >= g.score
    ensures g'.tailLength - g'.score == g.tailLength - g.score
  {
    if g.stopped then g
    else if Crashes(Moved(g)) then Moved(g).(stopped := true)
    else EatApple(PushHead(Moved(g)), ax, ay)
  }

  /** Whether the tick that runs on `g` ends with the head on the apple. */
  predicate Eats(g: Game) {
    !g.stopped && !Crashes(Moved(g)) &&
    Moved(g).snakeX == g.appleX && Moved(g).snakeY == g.appleY
  }

  /** The key handler: a vertical key is taken only while not moving
      vertically, a horizontal key only while not moving horizontally. */
  function Turn(g: Game, d: Direction): (t: Game)
    ensures FrozenAs(t, g)
    ensures UnitOrStill(g.xVelocity, g.yVelocity) ==> UnitOrStill(t.xVelocity, t.yVelocity)
    ensures (t.xVelocity, t.yVelocity) == (g.xVelocity, g.yVelocity) || !Still(t)
  {
    match d
    case Up => if g.yVelocity == 0 then g.(xVelocity := 0, yVelocity := -1) else g
    case Down => if g.yVelocity == 0 then g.(xVelocity := 0, yVelocity := 1) else g
    case Left => if g.xVelocity == 0 then g.(xVelocity := -1, yVelocity := 0) else g
    case Right => if g.xVelocity == 0 then g.(xVelocity := 1, yVelocity := 0) else g
  }

  /** Every apple a tick would draw lies on the board. */
  predicate Draws(events: seq<Event>) {
    forall i :: 0 <= i < |events| && events[i].Tick? ==>
      OnBoard(events[i].appleX, events[i].appleY)
  }

  /** What the draws of a sequence of events promise, its tail keeps. */
  lemma DrawsTail(events: seq<Event>)
    requires events != [] && Draws(events)
    ensures Draws(events[1..])
  {
    forall i | 0 <= i < |events[1..]| && events[1..][i].Tick?
      ensures OnBoard(events[1..][i].appleX, events[1..][i].appleY)
    {
      assert events[1..][i] == events[i + 1];
    }
  }

  /** The game after a sequence of ticks and key presses. */
  function Run(g: Game, events: seq<Event>): (g': Game)
    requires g.tailLength >= 0
    requires Draws(events)
    ensures g'.tailLength >= g.tailLength
    decreases |events|
  {
    if events == [] then g
    else
      DrawsTail(events);
      match events[0]
      case Tick(ax, ay) => Run(Step(g, ax, ay), events[1..])
      case Key(d) => Run(Turn(g, d), events[1..])
  }
}
