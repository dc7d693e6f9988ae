/**
  The earlier, self-contained version of the game that lives in the window
  class itself: the body is a list of points, the heading an integer 0-3
  (0 right, 1 down, 2 left, 3 up), every food is worth 10 points, and each
  meal shortens the timer interval by 2 ms down to a floor.

  The window's size enters as the grid dimensions `maxX` and `maxY`; the
  random cells are the stream `draws`; the answer to the play-again dialog
  is the flag `playAgain`.
 */
module LegacyForm {
  import opened GameTypes
  import opened Snakes

  /** The body of every new round, head first. */
  const InitialBody := [Point(5, 5), Point(4, 5), Point(3, 5)]

  /** The timer interval, in milliseconds, the window starts with. */
  const InitialInterval := 100

  /** The heading an integer direction code stands for. */
  function HeadingOf(code: int): (d: Direction)
    requires 0 <= code <= 3
    ensures Delta(d) == (if code == 0 then Point(1, 0) else if code == 1 then Point(0, 1)
                         else if code == 2 then Point(-1, 0) else Point(0, -1))
  {
    if code == 0 then Right else if code == 1 then Down else if code == 2 then Left else Up
  }

  /** The direction code after a key press: an arrow selects its heading
      unless the current code is the opposite one; other keys change nothing. */
  function LegacyTurn(code: int, key: Key): (r: int)
    ensures 0 <= code <= 3 ==> 0 <= r <= 3 && (r - code) % 4 != 2
    ensures key !in {ArrowUp, ArrowDown, ArrowLeft, ArrowRight} ==> r == code
    ensures key == ArrowUp ==> r == 3 || r == code
    ensures key == ArrowDown ==> r == 1 || r == code
    ensures key == ArrowLeft ==> r == 2 || r == code
    ensures key == ArrowRight ==> r == 0 || r == code
  {
    match key
    case ArrowUp => if code != 1 then 3 else code
    case ArrowDown => if code != 3 then 1 else code
    case ArrowLeft => if code != 0 then 2 else code
    case ArrowRight => if code != 2 then 0 else code
    case _ => code
  }

  /** The heading an arrow key asks for. */
  function ArrowHeading(key: Key): Direction
    requires key in {ArrowUp, ArrowDown, ArrowLeft, ArrowRight}
  {
    match key
    case ArrowUp => Up
    case ArrowDown => Down
    case ArrowLeft => Left
    case ArrowRight => Right
  }

  /** The key handling of the earlier version is the snake's turn rule: a
      valid code stays valid, an arrow steers exactly as `Steer` does, and
      any other key leaves the code alone. */
  lemma LegacyTurnIsSteer(code: int, key: Key)
    requires 0 <= code <= 3
    ensures 0 <= LegacyTurn(code, key) <= 3
    ensures key in {ArrowUp, ArrowDown, ArrowLeft, ArrowRight} ==>
              HeadingOf(LegacyTurn(code, key)) == Steer(HeadingOf(code), ArrowHeading(key))
    ensures key !in {ArrowUp, ArrowDown, ArrowLeft, ArrowRight} ==> LegacyTurn(code, key) == code
  {
  }

  /** The cell the head moves to: one step along the direction code (no step
      for a code outside 0-3), then each coordinate brought back onto the grid. */
  function LegacyStep(head: Point, code: int, maxX: int, maxY: int): (p: Point)
    ensures maxX >= 1 && maxY >= 1 ==> 0 <= p.x < maxX && 0 <= p.y < maxY
    ensures !(0 <= code <= 3) && 0 <= head.x < maxX && 0 <= head.y < maxY ==> p == head
    ensures 0 <= code <= 3 && maxX >= 3 && maxY >= 3 ==> p != head
  {
    var moved :=
      if code == 0 then head.(x := head.x + 1)
      else if code == 1 then head.(y := head.y + 1)
      else if code == 2 then head.(x := head.x - 1)
      else if code == 3 then head.(y := head.y - 1)
      else head;
    Point(if moved.x < 0 then maxX - 1 else if moved.x >= maxX then 0 else moved.x,
          if moved.y < 0 then maxY - 1 else if moved.y >= maxY then 0 else moved.y)
  }

  /** For a valid code the earlier version steps exactly as the snake does,
      so on a non-empty grid the new head lies on the grid. */
  lemma LegacyStepIsNextHead(head: Point, code: int, maxX: int, maxY: int)
    requires 0 <= code <= 3
    ensures LegacyStep(head, code, maxX, maxY) == NextHead(head, HeadingOf(code), maxX, maxY)
    ensures maxX >= 1 && maxY >= 1 ==>
              0 <= LegacyStep(head, code, maxX, maxY).x < maxX && 0 <= LegacyStep(head, code, maxX, maxY).y < maxY
  {
  }

  /** Whether some draw in the stream misses `body`: the condition under
      which the unbounded food loop stops. */
  ghost predicate HasFreeDraw(body: seq<Point>, draws: nat -> Point)
  {
    exists k: nat :: draws(k) !in body
  }

  /** Whether `p` is the first draw of the stream that misses `body`. */
  ghost predicate IsFirstFreeDraw(body: seq<Point>, draws: nat -> Point, p: Point)
  {
    exists k: nat :: draws(k) == p && p !in body && forall j: nat :: j < k ==> draws(j) in body
  }

  /** One meal's effect on the timer interval: 2 ms less while above 50 ms. */
  function SpeedUp(interval: int): (r: int)
    ensures r == interval || r == interval - 2
    ensures r < interval <==> interval > 50
    ensures interval >= 50 && interval % 2 == 0 ==> r >= 50 && r % 2 == 0
  {
    if interval > 50 then interval - 2 else interval
  }

  /** The interval after `meals` meals. */
  function IntervalAfter(interval: int, meals: nat): int
  {
    if meals == 0 then interval else IntervalAfter(SpeedUp(interval), meals - 1)
  }

  /** From an even start between 50 and 100 ms, each meal takes 2 ms off
      until the interval reaches 50 ms, where it stays. */
  lemma {:induction false} IntervalFloor(interval: int, meals: nat)
    requires 50 <= interval <= 100 && interval % 2 == 0
    ensures IntervalAfter(interval, meals) == Max(50, interval - 2 * meals)
    decreases meals
  {
    if meals > 0 {
      IntervalFloor(SpeedUp(interval), meals - 1);
    }
  }

  /** The floor rests on the start being even: from 51 ms one meal gives 49 ms. */
  lemma IntervalFloorNeedsEvenStart()
    ensures IntervalAfter(InitialInterval, 25) == 50 && IntervalAfter(InitialInterval, 1000) == 50
    ensures IntervalAfter(51, 1) == 49
  {
    IntervalFloor(InitialInterval, 25);
    IntervalFloor(InitialInterval, 1000);
  }

  /** A body whose head is about to enter the cell its tail is leaving: the
      earlier version ends the game, the snake of the engine moves on. */
  lemma TailCollisionDiffers()
    ensures var points := [Point(1, 0), Point(1, 1), Point(0, 1), Point(0, 0)];
            var segments := [Segment(Point(1, 0), LimeGreen), Segment(Point(1, 1), Green),
                             Segment(Point(0, 1), Green), Segment(Point(0, 0), Green)];
            && Positions(segments) == points
            && LegacyStep(points[0], 2, 5, 5) == NextHead(segments[0].pos, Left, 5, 5) == Point(0, 0)
            && LegacyStep(points[0], 2, 5, 5) in points
            && !HitsInterior(segments, NextHead(segments[0].pos, Left, 5, 5))
  {
    var segments := [Segment(Point(1, 0), LimeGreen), Segment(Point(1, 1), Green),
                     Segment(Point(0, 1), Green), Segment(Point(0, 0), Green)];
    assert Positions(segments)[3] == Point(0, 0);
  }

  class LegacyGame {
    var snake: seq<Point>
    var food: Point
    var direction: int
    var score: int
    var gameOver: bool
    var interval: int

    /** What holds between ticks: a valid direction code, a body three
        cells long plus one per 10 points, food off the body, and an even
        interval between 50 and 100 ms. */
    ghost predicate Valid()
      reads this
    {
      && 0 <= direction <= 3
      && |snake| >= 3 && score == 10 * (|snake| - 3)
      && food !in snake
      && 50 <= interval <= InitialInterval && interval % 2 == 0
    }

    /** Opens the window on a new round with a 100 ms interval. */
    constructor (draws: nat -> Point)
      requires HasFreeDraw(InitialBody, draws)
      ensures Valid()
      ensures snake == InitialBody && direction == 0 && score == 0 && !gameOver
      ensures IsFirstFreeDraw(InitialBody, draws, food)
      ensures interval == InitialInterval
    {
      snake := InitialBody;
      direction := 0;
      score := 0;
      gameOver := false;
      interval := InitialInterval;
      new;
      GenerateFood(draws);
    }

    /** A new round: the three-cell body heading right, no points, fresh
        food; the timer interval is not reset. */
    method InitializeGame(draws: nat -> Point)
      requires HasFreeDraw(InitialBody, draws)
      modifies this
      ensures snake == InitialBody && direction == 0 && score == 0 && !gameOver
      ensures IsFirstFreeDraw(InitialBody, draws, food)
      ensures interval == old(interval)
    {
      snake := InitialBody;
      direction := 0;
      score := 0;
      gameOver := false;
      GenerateFood(draws);
    }

    /** Draws cells until one misses the body. The loop has no bound: it
        stops only because some draw is free. */
    method GenerateFood(draws: nat -> Point)
      requires HasFreeDraw(snake, draws)
      modifies this
      ensures IsFirstFreeDraw(snake, draws, food)
      ensures snake == old(snake) && direction == old(direction) && score == old(score)
      ensures gameOver == old(gameOver) && interval == old(interval)
    {
      ghost var free: nat :| draws(free) !in snake;
      var i: nat := 0;
      while true
        invariant i <= free
        invariant forall j: nat :: j < i ==> draws(j) in snake
        decreases free - i
      {
        var newFood := draws(i);
        if newFood !in snake {
          food := newFood;
          break;
        }
        i := i + 1;
      }
    }

    /** A key press turns the snake according to the key table. */
    method OnKeyDown(key: Key)
      modifies this
      ensures direction == LegacyTurn(old(direction), key)
      ensures snake == old(snake) && food == old(food) && score == old(score)
      ensures gameOver == old(gameOver) && interval == old(interval)
    {
      match key {
        case ArrowUp => if direction != 1 { direction := 3; }
        case ArrowDown => if direction != 3 { direction := 1; }
        case ArrowLeft => if direction != 0 { direction := 2; }
        case ArrowRight => if direction != 2 { direction := 0; }
        case _ =>
      }
    }

    /** One tick. After a game over the player either starts a new round or
        closes the window, which leaves the state as it is. Otherwise the
        head steps; a step onto any cell of the body, the tail included,
        ends the game; a step onto the food scores 10, keeps the tail,
        places new food and speeds the timer up; any other step drops the tail. */
    method GameTick(maxX: int, maxY: int, playAgain: bool, draws: nat -> Point)
      requires Valid()
      requires gameOver && playAgain ==> HasFreeDraw(InitialBody, draws)
      requires !gameOver ==> HasFreeDraw([LegacyStep(snake[0], direction, maxX, maxY)] + snake, draws)
      modifies this
      ensures Valid()
      ensures old(gameOver) && playAgain ==>
                && snake == InitialBody && direction == 0 && score == 0 && !gameOver
                && IsFirstFreeDraw(InitialBody, draws, food) && interval == old(interval)
      ensures old(gameOver) && !playAgain ==>
                && snake == old(snake) && food == old(food) && direction == old(direction)
                && score == old(score) && gameOver && interval == old(interval)
      ensures !old(gameOver) ==>
                var nh := LegacyStep(old(snake[0]), old(direction), maxX, maxY);
                && direction == old(direction)
                && (nh in old(snake) ==>
                      && gameOver && snake == old(snake) && food == old(food)
                      && score == old(score) && interval == old(interval))
                && (nh !in old(snake) && nh == old(food) ==>
                      && !gameOver && snake == [nh] + old(snake) && score == old(score) + 10
                      && IsFirstFreeDraw(snake, draws, food) && interval == SpeedUp(old(interval)))
                && (nh !in old(snake) && nh != old(food) ==>
                      && !gameOver && snake == [nh] + old(snake)[..|old(snake)| - 1]
                      && food == old(food) && score == old(score) && interval == old(interval))
    {
      if gameOver {
        if playAgain {
          InitializeGame(draws);
          assert food !in snake;
        }
        return;
      }
      var newHead := LegacyStep(snake[0], direction, maxX, maxY);
      if newHead in snake {
        gameOver := true;
        return;
      }
      snake := [newHead] + snake;
      if newHead == food {
        score := score + 10;
        GenerateFood(draws);
        if interval > 50 {
          interval := interval - 2;
        }
      } else {
        snake := snake[..|snake| - 1];
      }
    }
  }
}
