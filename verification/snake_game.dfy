/**
 * The game as the script runs it: one object with a field per game-state
 * variable of the script, plus `stopped` for the interval handle, updated in
 * place by the timer callback, the key handler and restart. Each method of
 * the class is proved to take the state where the matching function of
 * SnakeSpec says it goes; the two loops of a tick, the game-over scan and the
 * push/trim, are module-level methods whose results are stated in closed form.
 */
module SnakeGame {
  import opened SnakeSpec
  import SnakeProps

  /** The game-over check after the head has moved to (snakeX, snakeY): never
      at a standstill; otherwise off the board, or on a part of the body as it
      was before this tick's push and trim (its oldest part included). */
  method CheckGameOver(snakeX: int, snakeY: int, xVelocity: int, yVelocity: int,
                       snakeParts: seq<Part>) returns (gameOver: bool)
    ensures gameOver <==>
      !(xVelocity == 0 && yVelocity == 0) &&
      (!OnBoard(snakeX, snakeY) || Part(snakeX, snakeY) in snakeParts)
  {
    gameOver := false;
    if xVelocity == 0 && yVelocity == 0 {
      return false;
    }
    if snakeX < 0 || snakeX >= TileCount || snakeY < 0 || snakeY >= TileCount {
      gameOver := true;
    }
    for i := 0 to |snakeParts|
      invariant gameOver <==> !OnBoard(snakeX, snakeY)
      invariant forall j :: 0 <= j < i ==> snakeParts[j] != Part(snakeX, snakeY)
    {
      var part := snakeParts[i];
      if part.x == snakeX && part.y == snakeY {
        gameOver := true;
        break;
      }
    }
  }

  /** Pushes the head onto the body, then drops parts from the front, oldest
      first, until at most `tailLength` remain. */
  method PushAndTrim(snakeParts: seq<Part>, head: Part, tailLength: int) returns (parts: seq<Part>)
    requires tailLength >= 0
    ensures |parts| == Min(|snakeParts| + 1, tailLength)
    ensures parts == (snakeParts + [head])[|snakeParts| + 1 - |parts|..]
  {
    parts := snakeParts + [head];
    while |parts| > tailLength
      invariant Min(|snakeParts| + 1, tailLength) <= |parts| <= |snakeParts| + 1
      invariant parts == (snakeParts + [head])[|snakeParts| + 1 - |parts|..]
      decreases |parts|
    {
      parts := parts[1..];
    }
  }

  class Snake {
    var snakeX: int
    var snakeY: int
    var xVelocity: int
    var yVelocity: int
    var snakeParts: seq<Part>
    var tailLength: int
    var score: int
    var appleX: int
    var appleY: int
    var stopped: bool

    /** The fields as one value. */
    function State(): Game
      reads this
    {
      Game(snakeX, snakeY, xVelocity, yVelocity, snakeParts, tailLength, score,
           appleX, appleY, stopped)
    }

    /** Page load: the game starts at once. */
    constructor (ax: int, ay: int)
      requires OnBoard(ax, ay)
      ensures State() == Start(ax, ay) && Inv(State())
    {
      new;
      Reset(ax, ay);
    }

    /** Restart: stop the running loop and put every field back to its
        starting value, with (ax, ay) as the freshly drawn apple. */
    method Reset(ax: int, ay: int)
      requires OnBoard(ax, ay)
      modifies this
      ensures State() == Start(ax, ay) && Inv(State())
    {
      snakeX := StartX;
      snakeY := StartY;
      xVelocity := 0;
      yVelocity := 0;
      snakeParts := [];
      tailLength := StartTailLength;
      appleX := ax;
      appleY := ay;
      score := 0;
      stopped := false;
    }

    method ChangeSnakePosition()
      modifies this`snakeX, this`snakeY
      ensures State() == Moved(old(State()))
    {
      snakeX := snakeX + xVelocity;
      snakeY := snakeY + yVelocity;
    }

    /** The body update of the draw routine: push the head, trim the tail. */
    method DrawSnake()
      requires tailLength >= 0
      modifies this`snakeParts
      ensures State() == PushHead(old(State()))
    {
      ghost var body := snakeParts + [Part(snakeX, snakeY)];
      snakeParts := PushAndTrim(snakeParts, Part(snakeX, snakeY), tailLength);
      SnakeProps.NewestSuffix(body, tailLength, snakeParts);
    }

    /** With the head on the apple, draw a new apple and grow the score and
        the tail length by one. */
    method TryEat(ax: int, ay: int)
      modifies this`appleX, this`appleY, this`tailLength, this`score
      ensures State() == EatApple(old(State()), ax, ay)
    {
      if snakeX == appleX && snakeY == appleY {
        appleX := ax;
        appleY := ay;
        tailLength := tailLength + 1;
        score := score + 1;
      }
    }

    /** One tick of the game loop; a stopped loop no longer ticks. (ax, ay)
        is what the random source yields if the apple is eaten. */
    method DrawGame(ax: int, ay: int)
      requires Inv(State()) && OnBoard(ax, ay)
      modifies this
      ensures State() == Step(old(State()), ax, ay) && Inv(State())
    {
      ghost var g := State();
      SnakeProps.StepPreservesInv(g, ax, ay);
      if stopped {
        return;
      }
      ChangeSnakePosition();
      var isGameOver := CheckGameOver(snakeX, snakeY, xVelocity, yVelocity, snakeParts);
      if isGameOver {
        stopped := true;
        return;
      }
      DrawSnake();
      TryEat(ax, ay);
    }

    /** The key handler; it is not switched off by game over. */
    method KeyDown(d: Direction)
      requires Inv(State())
      modifies this`xVelocity, this`yVelocity
      ensures State() == Turn(old(State()), d) && Inv(State())
    {
      SnakeProps.TurnPreservesInv(State(), d);
      match d
      case Up =>
        if yVelocity == 0 {
          yVelocity := -1;
          xVelocity := 0;
        }
      case Down =>
        if yVelocity == 0 {
          yVelocity := 1;
          xVelocity := 0;
        }
      case Left =>
        if xVelocity == 0 {
          xVelocity := -1;
          yVelocity := 0;
        }
      case Right =>
        if xVelocity == 0 {
          xVelocity := 1;
          yVelocity := 0;
        }
    }
  }
}
