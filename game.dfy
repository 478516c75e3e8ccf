/** The simulation: the snake with its direction buffer and deferred growth, the food, and
    one round of the poll loop with its fixed-timestep tick. */
module Game {
  import opened Grid
  import opened Clock
  import opened Menus

  /** Points for one food item, before the difficulty multiplier. */
  const PointsPerFood: int := 10

  /** The round starts with a single cell in the middle of the grid. */
  const Start: GridCell := Cell(Width / 2, Height / 2)

  predicate Distinct(s: seq<Cell>) {
    forall i, j :: 0 <= i < j < |s| ==> s[i] != s[j]
  }

  predicate AllInBounds(s: seq<Cell>) {
    forall i :: 0 <= i < |s| ==> InBounds(s[i])
  }

  /** A new head cell may be inserted in front of a body it does not meet. */
  lemma {:induction false} PrependKeepsDistinct(c: Cell, s: seq<Cell>)
    requires Distinct(s) && c !in s
    ensures Distinct([c] + s)
  {
    var r := [c] + s;
    forall i, j | 0 <= i < j < |r| ensures r[i] != r[j] {
      assert r[j] == s[j - 1];
      if i > 0 {
        assert r[i] == s[i - 1];
      }
    }
  }

  class Snake {
    /** The body, head first. */
    var positions: seq<Cell>
    var direction: Direction
    /** The direction to commit on the next tick. */
    var nextDirection: Direction
    /** The length the body is growing towards. */
    var length: int
    var score: int
    var baseFps: int
    var scoreMultiplier: int
    var difficultyName: string
    /** Ticks on which the tail is still to be kept. */
    var growPending: int

    ghost predicate Valid()
      reads this
    {
      && |positions| >= 1
      && AllInBounds(positions)
      && Distinct(positions)
      && growPending >= 0
      && |positions| + growPending == length
      && score == PointsPerFood * scoreMultiplier * (length - 1)
      && nextDirection != Reverse(direction)
    }

    constructor (difficulty: Difficulty)
      ensures Valid()
      ensures positions == [Start] && direction == Right && nextDirection == Right
      ensures length == 1 && score == 0 && growPending == 0
      ensures baseFps == difficulty.fps && scoreMultiplier == difficulty.scoreMultiplier
      ensures difficultyName == difficulty.name
    {
      new;
      Reset(difficulty);
    }

    /** A fresh one-cell snake in the middle of the grid, heading right. */
    method Reset(difficulty: Difficulty)
      modifies this
      ensures Valid()
      ensures positions == [Start] && direction == Right && nextDirection == Right
      ensures length == 1 && score == 0 && growPending == 0
      ensures baseFps == difficulty.fps && scoreMultiplier == difficulty.scoreMultiplier
      ensures difficultyName == difficulty.name
    {
      positions := [Start];
      direction := Right;
      nextDirection := Right;
      length := 1;
      score := 0;
      baseFps := difficulty.fps;
      scoreMultiplier := difficulty.scoreMultiplier;
      difficultyName := difficulty.name;
      growPending := 0;
    }

    function GetHeadPosition(): (h: Cell)
      requires Valid()
      reads this
      ensures InBounds(h) && h in positions
      ensures h !in positions[1..]
    {
      positions[0]
    }

    /** The cell the head moves to on the next tick. */
    function NextHead(): (h: Cell)
      requires Valid()
      reads this
      ensures InBounds(h) && h != positions[0]
    {
      Move(positions[0], nextDirection)
    }

    /** Queues a turn. A request to reverse the committed direction is ignored. */
    method UpdateDirection(requested: Direction)
      requires Valid()
      modifies this`nextDirection
      ensures Valid()
      ensures requested == Reverse(direction) ==> nextDirection == old(nextDirection)
      ensures requested != Reverse(direction) ==> nextDirection == requested
    {
      if !IsReversal(requested, direction) {
        nextDirection := requested;
      }
    }

    /** One tick: commit the queued direction, step the head with wrap-around, and stop on
        meeting any cell of the body behind the head, the tail included. Otherwise the new
        head goes in front, and the tail is dropped unless growth is pending. */
    method Update() returns (alive: bool)
      requires Valid()
      modifies this
      ensures Valid()
      ensures direction == old(nextDirection) && nextDirection == old(nextDirection)
      ensures direction != Reverse(old(direction))
      ensures alive <==> Move(old(positions[0]), old(nextDirection)) !in old(positions[1..])
      ensures !alive ==> positions == old(positions) && growPending == old(growPending)
      ensures alive ==> positions == [Move(old(positions[0]), old(nextDirection))]
                                   + if old(growPending) > 0 then old(positions)
                                     else old(positions[..|positions| - 1])
      ensures alive ==> growPending == if old(growPending) > 0 then old(growPending) - 1 else 0
      ensures alive ==> |positions| == |old(positions)| + (if old(growPending) > 0 then 1 else 0)
      ensures length == old(length) && score == old(score)
      ensures scoreMultiplier == old(scoreMultiplier) && baseFps == old(baseFps)
      ensures difficultyName == old(difficultyName)
    {
      direction := nextDirection;
      var newHead := NextHead();
      if newHead in positions[1..] {
        return false;
      }
      ghost var body := positions;
      assert body == [body[0]] + body[1..];
      PrependKeepsDistinct(newHead, body);
      positions := [newHead] + positions;
      if growPending > 0 {
        growPending := growPending - 1;
      } else if |positions| > length {
        positions := positions[..|positions| - 1];
        assert positions == [newHead] + body[..|body| - 1];
        assert Distinct(positions) by {
          forall i, j | 0 <= i < j < |positions| ensures positions[i] != positions[j] {
            assert positions[i] == ([newHead] + body)[i] && positions[j] == ([newHead] + body)[j];
          }
        }
      }
      return true;
    }

    /** Eating: the target length and the score go up at once, the body one tick later. */
    method Grow()
      requires Valid()
      modifies this`length, this`score, this`growPending
      ensures Valid()
      ensures length == old(length) + 1
      ensures score == old(score) + PointsPerFood * scoreMultiplier
      ensures growPending == old(growPending) + 1
    {
      length := length + 1;
      score := score + PointsPerFood * scoreMultiplier;
      growPending := growPending + 1;
    }
  }

  /** Deferred growth: a one-cell snake that eats, then moves twice, is two cells long. */
  method GrowthIsDeferred(difficulty: Difficulty) returns (afterFirst: int, afterSecond: int)
    ensures afterFirst == 2 && afterSecond == 2
  {
    var snake := new Snake(difficulty);
    assert Width == 30 && Height == 20 && Start == Cell(15, 10);
    snake.Grow();
    assert Move(Cell(15, 10), Right) == Cell(16, 10);
    var alive := snake.Update();
    assert snake.positions == [Cell(16, 10), Cell(15, 10)];
    afterFirst := |snake.positions|;
    assert Move(Cell(16, 10), Right) == Cell(17, 10);
    alive := snake.Update();
    assert alive;
    assert snake.positions == [Cell(17, 10), Cell(16, 10)];
    afterSecond := |snake.positions|;
  }

  /** Three ticks from the start heading right move the head three columns right. */
  method StraightRun() returns (head: Cell, size: int)
    ensures head == Cell(Start.x + 3, Start.y) && size == 1
  {
    var snake := new Snake(Easy);
    assert Width == 30 && Height == 20 && Start == Cell(15, 10);
    assert Move(Cell(15, 10), Right) == Cell(16, 10);
    var alive := snake.Update();
    assert snake.positions == [Cell(16, 10)];
    assert Move(Cell(16, 10), Right) == Cell(17, 10);
    alive := snake.Update();
    assert snake.positions == [Cell(17, 10)];
    assert Move(Cell(17, 10), Right) == Cell(18, 10);
    alive := snake.Update();
    assert snake.positions == [Cell(18, 10)];
    head := snake.GetHeadPosition();
    size := |snake.positions|;
  }

  /** The first half of the collision scenario: with three cells of growth pending, three
      ticks to the right lay the body out along the row behind the head. */
  method GrowAlongRow(snake: Snake)
    requires snake.Valid() && snake.positions == [Cell(15, 10)] && snake.growPending == 3
    requires snake.direction == Right && snake.nextDirection == Right
    modifies snake
    ensures snake.Valid() && snake.growPending == 0
    ensures snake.direction == Right && snake.nextDirection == Right
    ensures snake.positions == [Cell(18, 10), Cell(17, 10), Cell(16, 10), Cell(15, 10)]
  {
    assert Width == 30 && Height == 20;
    assert Move(Cell(15, 10), Right) == Cell(16, 10);
    var a := snake.Update();
    assert snake.positions == [Cell(16, 10), Cell(15, 10)];
    assert Move(Cell(16, 10), Right) == Cell(17, 10);
    a := snake.Update();
    assert snake.positions == [Cell(17, 10), Cell(16, 10), Cell(15, 10)];
    assert Move(Cell(17, 10), Right) == Cell(18, 10);
    a := snake.Update();
  }

  /** The second half: down, left, and up into the cell the tail occupies. */
  method TurnIntoTail(snake: Snake) returns (alive: bool)
    requires snake.Valid() && snake.growPending == 0
    requires snake.direction == Right && snake.nextDirection == Right
    requires snake.positions == [Cell(18, 10), Cell(17, 10), Cell(16, 10), Cell(15, 10)]
    modifies snake
    ensures !alive && |snake.positions| == 4
  {
    assert Width == 30 && Height == 20;
    snake.UpdateDirection(Down);
    assert Move(Cell(18, 10), Down) == Cell(18, 11);
    var a := snake.Update();
    assert snake.positions == [Cell(18, 11), Cell(18, 10), Cell(17, 10), Cell(16, 10)];
    snake.UpdateDirection(Left);
    assert Move(Cell(18, 11), Left) == Cell(17, 11);
    a := snake.Update();
    assert snake.positions == [Cell(17, 11), Cell(18, 11), Cell(18, 10), Cell(17, 10)];
    snake.UpdateDirection(Up);
    assert Move(Cell(17, 11), Up) == Cell(17, 10);
    alive := snake.Update();
  }

  /** Running into the body ends the round: a four-cell snake that turns down, left and up
      meets its own tail cell, and the body is left as it was. */
  method TailIsAnObstacle() returns (alive: bool, size: int)
    ensures !alive && size == 4
  {
    var snake := new Snake(Easy);
    assert Width == 30 && Height == 20 && Start == Cell(15, 10);
    snake.Grow();
    snake.Grow();
    snake.Grow();
    GrowAlongRow(snake);
    alive := TurnIntoTail(snake);
    size := |snake.positions|;
  }

  class Food {
    var position: Cell
    /** When the food last moved; it only drives the pulsing animation. */
    var spawnTime: real

    /** The first food is drawn without looking at the snake. */
    constructor (draw: GridCell, now: real)
      ensures position == draw && spawnTime == now
    {
      position := draw;
      spawnTime := now;
    }

    method RandomizePosition(draw: GridCell, now: real)
      modifies this
      ensures position == draw && spawnTime == now
    {
      position := draw;
      spawnTime := now;
    }
  }

  /** A draw that lands off the body and off every cell next to the head is free after the
      next move, whichever way the snake turns. */
  predicate Vacant(c: Cell, body: seq<Cell>)
    requires |body| >= 1
  {
    c !in body && forall d: Direction :: c != Move(body[0], d)
  }

  /** Every cell of s is a cell of body. */
  predicate BodyWithin(s: seq<Cell>, body: seq<Cell>) {
    forall i :: 0 <= i < |s| ==> s[i] in body
  }

  /** What a poll of the event queue can deliver during a round. */
  datatype RoundEvent = WindowClosed | Turn(d: Direction) | Escape | OtherKey

  datatype Poll = Continue | QuitGame

  /** The direction queued after a run of events while the committed direction stays put:
      each turn replaces the queued direction unless it reverses the committed one. */
  function TurnsQueued(committed: Direction, queued: Direction, events: seq<RoundEvent>): (r: Direction)
    ensures r == queued || Turn(r) in events
    decreases |events|
  {
    if events == [] then queued
    else
      var before := TurnsQueued(committed, queued, events[..|events| - 1]);
      match events[|events| - 1]
      case Turn(d) => if d == Reverse(committed) then before else d
      case _ => before
  }

  /** However the keys fall, a queued direction never reverses the committed one. */
  lemma {:induction false} TurnsQueuedNeverReverses(committed: Direction, queued: Direction, events: seq<RoundEvent>)
    requires queued != Reverse(committed)
    ensures TurnsQueued(committed, queued, events) != Reverse(committed)
    decreases |events|
  {
    if events != [] {
      TurnsQueuedNeverReverses(committed, queued, events[..|events| - 1]);
    }
  }

  /** A run whose every turn reverses the committed direction leaves the queue as it was. */
  lemma {:induction false} TurnsQueuedKeepsQueue(committed: Direction, queued: Direction, events: seq<RoundEvent>)
    requires forall k :: 0 <= k < |events| && events[k].Turn? ==> events[k].d == Reverse(committed)
    ensures TurnsQueued(committed, queued, events) == queued
    decreases |events|
  {
    if events != [] {
      var n := |events| - 1;
      var init := events[..n];
      assert forall k :: 0 <= k < n ==> init[k] == events[k];
      TurnsQueuedKeepsQueue(committed, queued, init);
    }
  }

  /** The queued direction is the last turn of the run that is not a reversal. */
  lemma {:induction false} TurnsQueuedIsLastAllowedTurn(committed: Direction, queued: Direction, events: seq<RoundEvent>, k: int)
    requires 0 <= k < |events| && events[k].Turn? && events[k].d != Reverse(committed)
    requires forall j :: k < j < |events| && events[j].Turn? ==> events[j].d == Reverse(committed)
    ensures TurnsQueued(committed, queued, events) == events[k].d
    decreases |events|
  {
    var n := |events| - 1;
    var init := events[..n];
    if k < n {
      assert forall j :: k < j < n ==> init[j] == events[j];
      TurnsQueuedIsLastAllowedTurn(committed, queued, init, k);
    }
  }


  /** One round: its snake and food, whether it is still running, the time of the last tick
      and the current tick rate, whose reciprocal is the game's update interval. */
  class Round {
    const difficulty: Difficulty
    const snake: Snake
    const food: Food
    var gameActive: bool
    var lastUpdateTime: real
    var rate: int

    ghost predicate Valid()
      reads this, snake, food
    {
      && snake.Valid()
      && difficulty.fps > 0 && difficulty.scoreMultiplier >= 0
      && snake.baseFps == difficulty.fps
      && snake.scoreMultiplier == difficulty.scoreMultiplier
      && snake.difficultyName == difficulty.name
      && InBounds(food.position)
      && rate == TickRate(difficulty.fps, snake.length)
      && FoodClear()
    }

    /** The food is never under the body behind the head; it can share the head's cell only
        at the start of a round, before the snake has moved or grown. */
    ghost predicate FoodClear()
      reads this, snake, food
      requires snake.Valid()
    {
      && food.position !in snake.positions[1..]
      && (food.position == snake.positions[0] ==> |snake.positions| == 1 && snake.growPending == 0)
    }

    constructor (difficulty: Difficulty, firstDraw: GridCell, now: real)
      requires difficulty.fps > 0 && difficulty.scoreMultiplier >= 0
      ensures Valid() && fresh(snake) && fresh(food)
      ensures this.difficulty == difficulty && gameActive && lastUpdateTime == now
      ensures snake.positions == [Start] && snake.score == 0 && food.position == firstDraw
      ensures snake.direction == Right && snake.nextDirection == Right
      ensures snake.length == 1 && snake.growPending == 0 && snake.difficultyName == difficulty.name
      ensures rate == difficulty.fps
    {
      this.difficulty := difficulty;
      snake := new Snake(difficulty);
      food := new Food(firstDraw, now);
      gameActive := true;
      lastUpdateTime := now;
      rate := difficulty.fps;
    }

    /** Redraws the food until it lands off the body. Each draw costs one element of
        `draws`; the result is the number used. */
    method RelocateFood(draws: seq<GridCell>, now: real) returns (used: nat)
      requires snake.Valid()
      requires exists k :: 0 <= k < |draws| && draws[k] !in snake.positions
      modifies food
      ensures 1 <= used <= |draws| && food.position == draws[used - 1]
      ensures food.position !in snake.positions
      ensures forall k :: 0 <= k < used - 1 ==> draws[k] in snake.positions
    {
      food.RandomizePosition(draws[0], now);
      used := 1;
      while food.position in snake.positions
        invariant 1 <= used <= |draws| && food.position == draws[used - 1]
        invariant forall k :: 0 <= k < used ==> draws[k] in snake.positions || k == used - 1
        invariant exists k :: used - 1 <= k < |draws| && draws[k] !in snake.positions
        decreases |draws| - used
      {
        food.RandomizePosition(draws[used], now);
        used := used + 1;
      }
    }

    /** The food check after a move: when the head is on the food the snake grows and the
        food is redrawn until it is off the body. The result is the number of draws used. */
    method EatFood(now: real, draws: seq<GridCell>) returns (used: nat)
      requires snake.Valid() && InBounds(food.position)
      requires food.position !in snake.positions[1..]
      requires exists k :: 0 <= k < |draws| && draws[k] !in snake.positions
      modifies snake`length, snake`score, snake`growPending, food
      ensures snake.Valid() && InBounds(food.position)
      ensures food.position !in snake.positions
      ensures old(snake.positions[0] == food.position) ==>
                snake.length == old(snake.length) + 1 && snake.growPending == old(snake.growPending) + 1
                && snake.score == old(snake.score) + PointsPerFood * snake.scoreMultiplier
                && 1 <= used <= |draws| && food.position == draws[used - 1]
                && (forall k :: 0 <= k < used - 1 ==> draws[k] in snake.positions)
      ensures old(snake.positions[0] != food.position) ==>
                snake.length == old(snake.length) && snake.growPending == old(snake.growPending)
                && snake.score == old(snake.score) && food.position == old(food.position)
                && used == 0
    {
      used := 0;
      if snake.GetHeadPosition() == food.position {
        snake.Grow();
        used := RelocateFood(draws, now);
      }
    }

    /** The move half of a tick: the snake steps, and the running flag takes the result.
        The food is left where it was, still off the body behind the head, and some draw is
        free of the body after the move. */
    method MoveSnake(now: real, draws: seq<GridCell>)
      requires Valid()
      requires exists k :: 0 <= k < |draws| && draws[k] !in snake.positions && draws[k] != snake.NextHead()
      modifies this, snake
      ensures snake.Valid() && InBounds(food.position)
      ensures snake.baseFps == difficulty.fps && snake.scoreMultiplier == difficulty.scoreMultiplier
      ensures snake.difficultyName == difficulty.name
      ensures food.position !in snake.positions[1..]
      ensures exists k :: 0 <= k < |draws| && draws[k] !in snake.positions
      ensures lastUpdateTime == now && rate == old(rate)
      ensures snake.direction == old(snake.nextDirection) && snake.nextDirection == old(snake.nextDirection)
      ensures gameActive <==> Move(old(snake.positions[0]), old(snake.nextDirection)) !in old(snake.positions[1..])
      ensures gameActive ==> snake.positions == [Move(old(snake.positions[0]), old(snake.nextDirection))]
                                               + if old(snake.growPending) > 0 then old(snake.positions)
                                                 else old(snake.positions[..|snake.positions| - 1])
      ensures gameActive ==> snake.growPending == if old(snake.growPending) > 0 then old(snake.growPending) - 1 else 0
      ensures !gameActive ==> snake.positions == old(snake.positions) && snake.growPending == old(snake.growPending)
      ensures snake.length == old(snake.length) && snake.score == old(snake.score)
    {
      ghost var before := snake.positions;
      ghost var k :| 0 <= k < |draws| && draws[k] !in before && draws[k] != snake.NextHead();
      lastUpdateTime := now;
      gameActive := snake.Update();
      assert BodyWithin(snake.positions[1..], before) by {
        if gameActive && snake.positions[1..] != before {
          assert snake.positions[1..] == before[..|before| - 1];
        }
      }
      assert snake.positions == [snake.positions[0]] + snake.positions[1..];
      assert draws[k] !in snake.positions;
      assert food.position !in snake.positions[1..] by {
        if food.position == before[0] {
          assert |before| == 1;
        }
      }
    }

    /** One simulation tick: move the snake; whatever the move gave, eat if the head is on
        the food, then recompute the tick rate. The running flag takes the move's result, and
        the result is the number of food draws used. */
    method Tick(now: real, draws: seq<GridCell>) returns (used: nat)
      requires Valid()
      requires exists k :: 0 <= k < |draws| && draws[k] !in snake.positions && draws[k] != snake.NextHead()
      modifies this, snake, food
      ensures Valid()
      ensures lastUpdateTime == now
      ensures snake.direction == old(snake.nextDirection) && snake.nextDirection == old(snake.nextDirection)
      ensures gameActive <==> Move(old(snake.positions[0]), old(snake.nextDirection)) !in old(snake.positions[1..])
      ensures gameActive ==> snake.positions == [Move(old(snake.positions[0]), old(snake.nextDirection))]
                                               + if old(snake.growPending) > 0 then old(snake.positions)
                                                 else old(snake.positions[..|snake.positions| - 1])
      ensures !gameActive ==> snake.positions == old(snake.positions)
      ensures snake.growPending == (if !gameActive then old(snake.growPending)
                                    else if old(snake.growPending) > 0 then old(snake.growPending) - 1
                                    else 0)
                                   + (if snake.positions[0] == old(food.position) then 1 else 0)
      ensures snake.positions[0] == old(food.position) ==>
                snake.length == old(snake.length) + 1
                && snake.score == old(snake.score) + PointsPerFood * difficulty.scoreMultiplier
                && 1 <= used <= |draws| && food.position == draws[used - 1]
                && (forall k :: 0 <= k < used - 1 ==> draws[k] in snake.positions)
      ensures snake.positions[0] != old(food.position) ==>
                snake.length == old(snake.length) && snake.score == old(snake.score)
                && food.position == old(food.position) && used == 0
      ensures food.position !in snake.positions
      ensures rate == TickRate(difficulty.fps, snake.length) && rate >= old(rate)
    {
      ghost var lengthBefore := snake.length;
      assert rate == TickRate(difficulty.fps, lengthBefore);
      MoveSnake(now, draws);
      used := EatFood(now, draws);
      TickRateMonotonic(difficulty.fps, lengthBefore, snake.length);
      rate := TickRate(difficulty.fps, snake.length);
    }

    /** One pass of the round loop: apply the polled events, then tick if one is due.
        Escape clears the running flag, but a tick in the same pass sets it again from the
        move's result. Closing the window ends the game at once. The turns of the pass
        queue a direction as TurnsQueued says; a due tick then commits it. The second result is
        the number of food draws the pass used. */
    method Iteration(events: seq<RoundEvent>, now: real, draws: seq<GridCell>) returns (poll: Poll, used: nat)
      requires Valid() && gameActive
      requires exists k :: 0 <= k < |draws| && Vacant(draws[k], snake.positions)
      modifies this, snake, food
      ensures Valid()
      ensures poll == QuitGame ==> (exists k :: 0 <= k < |events| && events[k] == WindowClosed)
                                   && lastUpdateTime == old(lastUpdateTime)
                                   && snake.positions == old(snake.positions) && used == 0
      ensures poll == Continue ==> forall k :: 0 <= k < |events| ==> events[k] != WindowClosed
      ensures poll == Continue && !Due(now, old(lastUpdateTime), old(rate)) ==>
                lastUpdateTime == old(lastUpdateTime) && snake.positions == old(snake.positions)
                && snake.direction == old(snake.direction)
                && snake.nextDirection == TurnsQueued(old(snake.direction), old(snake.nextDirection), events)
                && food.position == old(food.position) && snake.length == old(snake.length)
                && (gameActive <==> Escape !in events) && used == 0
      ensures poll == Continue && Due(now, old(lastUpdateTime), old(rate)) ==>
                var queued := TurnsQueued(old(snake.direction), old(snake.nextDirection), events);
                && lastUpdateTime == now
                && snake.direction == queued && snake.nextDirection == queued
                && (gameActive <==> Move(old(snake.positions[0]), queued) !in old(snake.positions[1..]))
                && (gameActive ==> snake.positions == [Move(old(snake.positions[0]), queued)]
                                                      + if old(snake.growPending) > 0 then old(snake.positions)
                                                        else old(snake.positions[..|snake.positions| - 1]))
                && (!gameActive ==> snake.positions == old(snake.positions))
                && (snake.positions[0] == old(food.position) ==>
                      snake.length == old(snake.length) + 1
                      && snake.score == old(snake.score) + PointsPerFood * difficulty.scoreMultiplier
                      && 1 <= used <= |draws| && food.position == draws[used - 1]
                      && (forall k :: 0 <= k < used - 1 ==> draws[k] in snake.positions))
                && (snake.positions[0] != old(food.position) ==>
                      snake.length == old(snake.length) && snake.score == old(snake.score)
                      && food.position == old(food.position) && used == 0)
                && food.position !in snake.positions
                && rate == TickRate(difficulty.fps, snake.length) && rate >= old(rate)
      ensures snake.score >= old(snake.score)
    {
      used := 0;
      var closed := HandleEvents(events);
      if closed {
        return QuitGame, 0;
      }
      if Due(now, lastUpdateTime, rate) {
        used := Tick(now, draws);
      }
      poll := Continue;
    }

    /** The event half of a pass: turns are queued, Escape clears the running flag, and the
        first window close stops the pass. The result says whether the window was closed. */
    method HandleEvents(events: seq<RoundEvent>) returns (closed: bool)
      requires Valid()
      modifies this`gameActive, snake`nextDirection
      ensures Valid()
      ensures closed <==> WindowClosed in events
      ensures !closed ==> snake.nextDirection == TurnsQueued(snake.direction, old(snake.nextDirection), events)
      ensures !closed ==> (gameActive <==> old(gameActive) && Escape !in events)
    {
      var i := 0;
      while i < |events|
        invariant 0 <= i <= |events|
        invariant Valid()
        invariant WindowClosed !in events[..i]
        invariant gameActive <==> old(gameActive) && Escape !in events[..i]
        invariant snake.nextDirection == TurnsQueued(snake.direction, old(snake.nextDirection), events[..i])
      {
        assert events[..i + 1] == events[..i] + [events[i]];
        assert events[..i + 1][..i] == events[..i];
        match events[i] {
          case WindowClosed =>
            return true;
          case Turn(d) =>
            snake.UpdateDirection(d);
          case Escape =>
            gameActive := false;
          case OtherKey =>
        }
        i := i + 1;
      }
      assert events[..i] == events;
      return false;
    }
  }
}
