/**
 * What the game promises, proved about the reference definitions of
 * SnakeSpec: invariants kept by every tick and key press, when and how the
 * game ends, how the body moves and grows, and how the key guard behaves.
 */
module SnakeProps {
  import opened SnakeSpec

  /** Every part of a kept suffix was a part of the whole body. */
  lemma KeepNewestParts(s: seq<Part>, n: int)
    requires n >= 0
    ensures |KeepNewest(s, n)| == Min(|s|, n)
    ensures forall p :: p in KeepNewest(s, n) ==> p in s
    ensures |s| > 0 && n > 0 ==> KeepNewest(s, n)[|KeepNewest(s, n)| - 1] == s[|s| - 1]
  {
    if |s| > n {
      forall p | p in s[|s| - n..] ensures p in s {
        var k :| 0 <= k < n && s[|s| - n..][k] == p;
        assert s[|s| - n + k] == p;
      }
    }
  }

  /** The newest `n` parts of a body are its suffix of that length. */
  lemma NewestSuffix(s: seq<Part>, n: int, parts: seq<Part>)
    requires n >= 0
    requires |parts| == Min(|s|, n) && parts == s[|s| - |parts|..]
    ensures parts == KeepNewest(s, n)
  {
  }

  /** Pushing the new head and trimming keeps the body on the board, within
      `tailLength`, and ending in the head. */
  lemma PushHeadPreservesInv(m: Game)
    requires m.score >= 0 && m.tailLength == m.score + StartTailLength
    requires forall p :: p in m.snakeParts ==> OnBoard(p.x, p.y)
    requires OnBoard(m.snakeX, m.snakeY) && !m.stopped
    ensures var h := PushHead(m);
      && |h.snakeParts| <= h.tailLength
      && (forall p :: p in h.snakeParts ==> OnBoard(p.x, p.y))
      && h.snakeParts != [] && h.snakeParts[|h.snakeParts| - 1] == Part(m.snakeX, m.snakeY)
  {
    var body := m.snakeParts + [Part(m.snakeX, m.snakeY)];
    KeepNewestParts(body, m.tailLength);
    forall p | p in PushHead(m).snakeParts ensures OnBoard(p.x, p.y) {
      assert p in body;
    }
  }

  lemma StepPreservesInv(g: Game, ax: int, ay: int)
    requires Inv(g) && OnBoard(ax, ay)
    ensures Inv(Step(g, ax, ay))
  {
    if !g.stopped && !Crashes(Moved(g)) {
      var m := Moved(g);
      assert OnBoard(m.snakeX, m.snakeY);
      PushHeadPreservesInv(m);
    }
  }

  lemma TurnPreservesInv(g: Game, d: Direction)
    requires Inv(g)
    ensures Inv(Turn(g, d))
  {
  }

  lemma {:induction false} RunPreservesInv(g: Game, events: seq<Event>)
    requires Inv(g) && Draws(events)
    ensures Inv(Run(g, events))
    decreases |events|
  {
    if events != [] {
      DrawsTail(events);
      match events[0]
      case Tick(ax, ay) =>
        StepPreservesInv(g, ax, ay);
        RunPreservesInv(Step(g, ax, ay), events[1..]);
      case Key(d) =>
        TurnPreservesInv(g, d);
        RunPreservesInv(Turn(g, d), events[1..]);
    }
  }

  /** Once stopped, no tick changes anything and a key press changes only the
      velocity, so the game stays over with the same head, body, score,
      tail length and apple. */
  lemma {:induction false} StoppedIsFinal(g: Game, events: seq<Event>)
    requires g.stopped && g.tailLength >= 0 && Draws(events)
    ensures Run(g, events).stopped && FrozenAs(Run(g, events), g)
    decreases |events|
  {
    if events != [] {
      DrawsTail(events);
      match events[0]
      case Tick(ax, ay) =>
        StoppedIsFinal(Step(g, ax, ay), events[1..]);
      case Key(d) =>
        StoppedIsFinal(Turn(g, d), events[1..]);
    }
  }

  /** The game ends on a tick exactly when the loop is still running, the
      snake is moving, and the moved head is off the board or on a part of the
      body as it was before the tick. */
  lemma StopsExactlyWhen(g: Game, ax: int, ay: int)
    requires Inv(g) && OnBoard(ax, ay) && !g.stopped
    ensures Step(g, ax, ay).stopped <==>
      !Still(g) &&
      (!OnBoard(g.snakeX + g.xVelocity, g.snakeY + g.yVelocity) ||
       Part(g.snakeX + g.xVelocity, g.snakeY + g.yVelocity) in g.snakeParts)
  {
  }

  /** The tick that ends the game moves the head but leaves body, score,
      tail length and apple as they were. */
  lemma CrashKeepsBody(g: Game, ax: int, ay: int)
    requires Inv(g) && OnBoard(ax, ay) && !g.stopped
    requires Step(g, ax, ay).stopped
    ensures Step(g, ax, ay).snakeX == g.snakeX + g.xVelocity
    ensures Step(g, ax, ay).snakeY == g.snakeY + g.yVelocity
    ensures Step(g, ax, ay).snakeParts == g.snakeParts
    ensures Step(g, ax, ay).score == g.score && Step(g, ax, ay).tailLength == g.tailLength
    ensures Step(g, ax, ay).appleX == g.appleX && Step(g, ax, ay).appleY == g.appleY
  {
  }

  /** Moving onto the oldest part of a full body ends the game, although the
      trim of this very tick would have freed that cell. */
  lemma OldestPartIsFatal(g: Game, ax: int, ay: int)
    requires Inv(g) && OnBoard(ax, ay) && !g.stopped && !Still(g)
    requires |g.snakeParts| == g.tailLength
    requires g.snakeParts[0] == Part(g.snakeX + g.xVelocity, g.snakeY + g.yVelocity)
    ensures Step(g, ax, ay).stopped
  {
    assert g.snakeParts[0] in g.snakeParts;
  }

  /** At a standstill a tick never ends the game, keeps the head where it is
      and pushes another copy of it onto the body. */
  lemma StillStep(g: Game, ax: int, ay: int)
    requires Inv(g) && OnBoard(ax, ay) && !g.stopped && Still(g)
    ensures !Step(g, ax, ay).stopped && Still(Step(g, ax, ay))
    ensures Step(g, ax, ay).snakeX == g.snakeX && Step(g, ax, ay).snakeY == g.snakeY
    ensures |Step(g, ax, ay).snakeParts| == Min(|g.snakeParts| + 1, g.tailLength)
  {
    KeepNewestParts(g.snakeParts + [Part(g.snakeX, g.snakeY)], g.tailLength);
  }

  predicate AllTicks(events: seq<Event>) {
    forall i :: 0 <= i < |events| ==> events[i].Tick?
  }

  /** One tick from a standstill with a body made only of the head keeps
      both so. */
  lemma StillTickFills(g: Game, ax: int, ay: int)
    requires Inv(g) && !g.stopped && Still(g) && OnBoard(ax, ay)
    requires forall p :: p in g.snakeParts ==> p == Part(g.snakeX, g.snakeY)
    ensures var n := Step(g, ax, ay);
      && Inv(n) && !n.stopped && Still(n) && n.snakeX == g.snakeX && n.snakeY == g.snakeY
      && forall p :: p in n.snakeParts ==> p == Part(g.snakeX, g.snakeY)
  {
    var body := g.snakeParts + [Part(g.snakeX, g.snakeY)];
    assert Moved(g) == g && !Crashes(g);
    var h := PushHead(g);
    assert Step(g, ax, ay) == EatApple(h, ax, ay);
    KeepNewestParts(body, g.tailLength);
    assert h.snakeParts == KeepNewest(body, g.tailLength);
    StepPreservesInv(g, ax, ay);
  }

  /** From a standstill with a body made only of the head, any number of
      ticks keeps the head in place and the body made only of the head. */
  lemma {:induction false} StillFillsWithHead(g: Game, events: seq<Event>)
    requires Inv(g) && !g.stopped && Still(g) && Draws(events) && AllTicks(events)
    requires forall p :: p in g.snakeParts ==> p == Part(g.snakeX, g.snakeY)
    ensures !Run(g, events).stopped && Still(Run(g, events))
    ensures Run(g, events).snakeX == g.snakeX && Run(g, events).snakeY == g.snakeY
    ensures forall p :: p in Run(g, events).snakeParts ==> p == Part(g.snakeX, g.snakeY)
    decreases |events|
  {
    if events != [] {
      DrawsTail(events);
      assert AllTicks(events[1..]) by {
        forall i | 0 <= i < |events[1..]| ensures events[1..][i].Tick? {
          assert events[1..][i] == events[i + 1];
        }
      }
      assert events[0].Tick?;
      var ax, ay := events[0].appleX, events[0].appleY;
      assert Run(g, events) == Run(Step(g, ax, ay), events[1..]);
      StillTickFills(g, ax, ay);
      StillFillsWithHead(Step(g, ax, ay), events[1..]);
    }
  }

  /** A tick that does not end the game leaves the new head as the newest
      part, and the body is the old body plus the head with parts dropped
      from the front only, down to at most `tailLength`. */
  lemma MoveStep(g: Game, ax: int, ay: int)
    requires Inv(g) && OnBoard(ax, ay) && !g.stopped && !Step(g, ax, ay).stopped
    ensures var s := Step(g, ax, ay).snakeParts;
      && |s| == Min(|g.snakeParts| + 1, g.tailLength)
      && s[|s| - 1] == Part(g.snakeX + g.xVelocity, g.snakeY + g.yVelocity)
      && s == (g.snakeParts + [s[|s| - 1]])[|g.snakeParts| + 1 - |s|..]
  {
    var m := Moved(g);
    assert !Crashes(m);
    var h := PushHead(m);
    assert Step(g, ax, ay) == EatApple(h, ax, ay);
    assert Step(g, ax, ay).snakeParts == h.snakeParts;
  }

  /** Score and tail length go up by one exactly on a tick that eats, and
      only then does the apple move, to the drawn cell. */
  lemma ScoreOnlyByEating(g: Game, ax: int, ay: int)
    requires Inv(g) && OnBoard(ax, ay)
    ensures Step(g, ax, ay).score == g.score + (if Eats(g) then 1 else 0)
    ensures Step(g, ax, ay).tailLength == g.tailLength + (if Eats(g) then 1 else 0)
    ensures Eats(g) ==> Step(g, ax, ay).appleX == ax && Step(g, ax, ay).appleY == ay
    ensures !Eats(g) ==> Step(g, ax, ay).appleX == g.appleX && Step(g, ax, ay).appleY == g.appleY
  {
  }

  /** Growth shows one tick late: on the tick that eats, the body is trimmed
      to the old tail length before the tail length rises. */
  lemma GrowthLags(g: Game, ax: int, ay: int)
    requires Inv(g) && OnBoard(ax, ay) && Eats(g) && |g.snakeParts| == g.tailLength
    ensures |Step(g, ax, ay).snakeParts| == Step(g, ax, ay).tailLength - 1
  {
    KeepNewestParts(g.snakeParts + [Part(g.appleX, g.appleY)], g.tailLength);
  }

  /** The apple is drawn without regard to the body: a tick may eat and put
      the new apple on a part of the body. */
  lemma AppleMayLandOnBody()
    ensures var g := Game(10, 10, 1, 0, [Part(9, 10), Part(10, 10)], 2, 0, 11, 10, false);
      Inv(g) && Eats(g) &&
      Part(Step(g, 10, 10).appleX, Step(g, 10, 10).appleY) in Step(g, 10, 10).snakeParts
  {
    var g := Game(10, 10, 1, 0, [Part(9, 10), Part(10, 10)], 2, 0, 11, 10, false);
    assert Part(11, 10) !in g.snakeParts;
    assert Step(g, 10, 10).snakeParts == [Part(10, 10), Part(11, 10)];
  }

  /** The key guard: a key is taken exactly when the snake is not already
      moving along the key's axis; a taken key sets one unit of velocity in
      the key's direction; nothing but the velocity ever changes. */
  lemma TurnGuard(g: Game, d: Direction)
    ensures FrozenAs(Turn(g, d), g)
    ensures var vertical := d == Up || d == Down;
      var taken := if vertical then g.yVelocity == 0 else g.xVelocity == 0;
      var t := Turn(g, d);
      (taken ==>
        t.xVelocity == (if d == Left then -1 else if d == Right then 1 else 0) &&
        t.yVelocity == (if d == Up then -1 else if d == Down then 1 else 0)) &&
      (!taken ==> t.xVelocity == g.xVelocity && t.yVelocity == g.yVelocity)
  {
  }

  /** A taken key always leaves a unit velocity along one axis. */
  lemma TurnGivesUnitVelocity(g: Game, d: Direction)
    requires Turn(g, d).xVelocity != g.xVelocity || Turn(g, d).yVelocity != g.yVelocity
    ensures UnitOrStill(Turn(g, d).xVelocity, Turn(g, d).yVelocity) && !Still(Turn(g, d))
  {
  }

  /** The guard reads the current velocity, so two keys between ticks can
      reverse the snake: moving right, Up then Left leaves it moving left. */
  lemma TwoKeysReverse(g: Game)
    requires g.xVelocity == 1 && g.yVelocity == 0
    ensures Turn(Turn(g, Up), Left).xVelocity == -1 && Turn(Turn(g, Up), Left).yVelocity == 0
  {
  }

  /** From a fresh game, Right then one tick moves the head to (11, 10); the
      body then holds only the new head, since a fresh body is empty. */
  lemma FirstMoveRight(ax: int, ay: int)
    requires OnBoard(ax, ay) && (ax, ay) != (11, 10)
    ensures var g := Run(Start(ax, ay), [Key(Right), Tick(ax, ay)]);
      !g.stopped && g.snakeX == 11 && g.snakeY == 10 && g.snakeParts == [Part(11, 10)]
  {
    var s := Turn(Start(ax, ay), Right);
    assert Run(Start(ax, ay), [Key(Right), Tick(ax, ay)]) == Run(s, [Tick(ax, ay)]);
    assert Run(s, [Tick(ax, ay)]) == Run(Step(s, ax, ay), []);
  }
}
