/**
  The game engine: a state machine over Menu, Playing, Paused and GameOver
  that owns the snake and the food, advances them once per tick, and keeps
  the score, the high score, the level and the settings.

  The engine's two notifications, score-changed and game-over, are returned
  by the operations that raise them as a list of events. The random draws
  that place new food are passed in as `cells` and `foodType`.
 */
module Engine {
  import opened GameTypes
  import opened Snakes
  import opened Foods

  datatype Event = ScoreChanged(score: int) | GameOverRaised

  /** Pixel side of one grid cell. */
  const GridSize := 25
  /** Tick interval, in milliseconds, before level and difficulty adjust it. */
  const BaseSpeed := 100
  /** Points per level. */
  const PointsPerLevel := 50

  /** Integer division truncating toward zero, as the host language divides. */
  function TruncDiv(a: int, b: int): int
    requires b > 0
  {
    if a >= 0 then a / b else -((-a) / b)
  }

  /** Division truncates toward zero: the remainder left by the quotient
      is smaller than the divisor and has the sign of the dividend, and
      negating the dividend negates the quotient. */
  lemma TruncDivTowardZero(a: int, b: int)
    requires b > 0
    ensures var r := a - TruncDiv(a, b) * b;
            && -b < r < b
            && (a >= 0 ==> r >= 0) && (a <= 0 ==> r <= 0)
    ensures TruncDiv(-a, b) == -TruncDiv(a, b)
  {
    var n := if a >= 0 then a else -a;
    assert n == (n / b) * b + n % b;
    if a < 0 {
      assert TruncDiv(a, b) * b == -((n / b) * b);
    }
  }

  /** The value nearest to `v` within [lo, hi]. */
  function Clamp(v: int, lo: int, hi: int): (r: int)
    requires lo <= hi
    ensures lo <= r <= hi
    ensures lo <= v <= hi ==> r == v
    ensures v < lo ==> r == lo
    ensures v > hi ==> r == hi
  {
    if v < lo then lo else if v > hi then hi else v
  }

  /** One channel raised by 50 and capped at 255: the smaller of the two. */
  function Brighten(v: int): (r: int)
    ensures r <= 255 && r <= v + 50
    ensures r == 255 || r == v + 50
  {
    if v + 50 < 255 then v + 50 else 255
  }

  /** The head colour for a snake colour: same alpha, each of red, green
      and blue brightened. */
  function Lighter(c: Color): (r: Color)
    ensures r.a == c.a
    ensures r.r == Brighten(c.r) && r.g == Brighten(c.g) && r.b == Brighten(c.b)
    ensures IsArgb(c) ==> IsArgb(r)
  {
    Color(c.a, Brighten(c.r), Brighten(c.g), Brighten(c.b))
  }

  /** A colour with every channel already within 50 of full stays as it is. */
  lemma LighterSaturates(c: Color)
    requires IsArgb(c) && c.r >= 205 && c.g >= 205 && c.b >= 205
    ensures Lighter(c) == Color(c.a, 255, 255, 255)
    ensures Lighter(Lighter(c)) == Lighter(c)
  {
  }

  /** Easy slows the game by 20 ms, hard speeds it up by 20 ms. */
  function DifficultyModifier(difficulty: int): (m: int)
    ensures m == 20 || m == 0 || m == -20
    ensures m == 20 <==> difficulty == 1
    ensures m == -20 <==> difficulty == 3
  {
    if difficulty == 1 then 20 else if difficulty == 3 then -20 else 0
  }

  /** The tick interval for a level and a difficulty. */
  function TickInterval(level: int, difficulty: int): (ms: int)
    ensures BaseSpeed - 5 * level - 20 <= ms <= BaseSpeed - 5 * level + 20
  {
    BaseSpeed - level * 5 + DifficultyModifier(difficulty)
  }

  /** Each level takes 5 ms off the interval, and harder is faster. */
  lemma TickIntervalSteps(level: int)
    ensures forall d :: TickInterval(level + 1, d) == TickInterval(level, d) - 5
    ensures TickInterval(level, 1) == TickInterval(level, 2) + 20 == TickInterval(level, 3) + 40
  {
  }

  /** The interval has no floor: a high enough level drives it below any bound. */
  lemma TickIntervalHasNoFloor(difficulty: int, bound: int)
    ensures exists level :: level >= 1 && TickInterval(level, difficulty) < bound
  {
    var level := if bound >= 121 then 1 else 121 - bound;
    assert TickInterval(level, difficulty) < bound;
  }

  /** The level after the score has become `score`: recomputed only when the
      score is an exact multiple of the points per level. */
  function LevelAfter(score: int, level: int): (r: int)
    ensures score % PointsPerLevel == 0 ==> (r - 1) * PointsPerLevel == score
    ensures score % PointsPerLevel != 0 ==> r == level
  {
    if score % PointsPerLevel == 0 then score / PointsPerLevel + 1 else level
  }

  /** Adding points never lowers the level, and the level never runs ahead
      of the score. */
  lemma LevelNeverDrops(score: int, level: int, gain: int)
    requires 0 <= score && 0 <= gain
    requires 1 <= level <= score / PointsPerLevel + 1
    ensures level <= LevelAfter(score + gain, level) <= (score + gain) / PointsPerLevel + 1
  {
    assert score / PointsPerLevel <= (score + gain) / PointsPerLevel;
  }

  /** Levels change on the 50-point boundaries; a score that jumps over a
      boundary leaves the level where it was. */
  lemma LevelBoundaries()
    ensures LevelAfter(50, 1) == 2 && LevelAfter(100, 2) == 3
    ensures LevelAfter(40, 1) == 1 && LevelAfter(90, 2) == 2
    ensures LevelAfter(40 + 30, 1) == 1 && (40 + 30) / PointsPerLevel + 1 == 2
  {
  }

  /** What holds of the score, the high score and the level at all times. */
  predicate ScoreInvariant(score: int, highScore: int, level: int)
  {
    && 0 <= score <= highScore
    && 1 <= level && (level - 1) * PointsPerLevel <= score
  }

  /** Eating a food worth 10 or 30 keeps the score invariant, with the high
      score raised to the new score when it is beaten, and never lowers the
      level. */
  lemma EatKeepsScoreInvariant(score: int, highScore: int, level: int, value: int)
    requires ScoreInvariant(score, highScore, level)
    requires value == 10 || value == 30
    ensures var s := score + value;
            && ScoreInvariant(s, if s > highScore then s else highScore, LevelAfter(s, level))
            && LevelAfter(s, level) >= level
  {
    var s := score + value;
    if s % PointsPerLevel == 0 {
      assert (s / PointsPerLevel) * PointsPerLevel == s;
      assert (level - 1) * PointsPerLevel < (s / PointsPerLevel + 1) * PointsPerLevel;
    }
  }

  /** What a key does in a given state. */
  datatype Command = Start | Turn(heading: Direction) | Pause | Resume | Ignore

  /** The key table: Enter or Space starts a game from the menu or after a
      game over; in play the arrows turn and P or Escape pause; when paused
      P, Escape or Space resume; every other key does nothing. */
  function KeyCommand(state: GameState, key: Key): (c: Command)
    ensures c == Start <==> (state == Menu || state == GameOver) && (key == Enter || key == Space)
    ensures c.Turn? <==> state == Playing && key in {ArrowUp, ArrowDown, ArrowLeft, ArrowRight}
    ensures c == Pause <==> state == Playing && (key == P || key == Escape)
    ensures c == Resume <==> state == Paused && (key == P || key == Escape || key == Space)
    ensures c == Turn(Up) <==> state == Playing && key == ArrowUp
    ensures c == Turn(Down) <==> state == Playing && key == ArrowDown
    ensures c == Turn(Left) <==> state == Playing && key == ArrowLeft
    ensures c == Turn(Right) <==> state == Playing && key == ArrowRight
  {
    match state
    case Menu | GameOver => if key == Enter || key == Space then Start else Ignore
    case Playing =>
      (match key
       case ArrowUp => Turn(Up)
       case ArrowDown => Turn(Down)
       case ArrowLeft => Turn(Left)
       case ArrowRight => Turn(Right)
       case P | Escape => Pause
       case _ => Ignore)
    case Paused => if key == P || key == Escape || key == Space then Resume else Ignore
  }

  /** The engine's own fields, for saying what an operation leaves alone. */
  datatype View = View(state: GameState, score: int, highScore: int, level: int,
                       snake: Snake?, food: Option<Food>, gridWidth: int, gridHeight: int,
                       snakeColor: Color, difficulty: int)

  class GameEngine {
    var snake: Snake?
    var food: Option<Food>
    var state: GameState
    var score: int
    var highScore: int
    var level: int
    var gridWidth: int
    var gridHeight: int
    var snakeColor: Color
    var difficulty: int

    /** The invariant kept across every operation. */
    ghost predicate Valid()
      reads this, snake
    {
      && 1 <= difficulty <= 3
      && ScoreInvariant(score, highScore, level)
      && (state == Menu <==> snake == null)
      && (snake == null <==> food.None?)
      && (snake != null ==> |snake.body| >= 3)
      && (food.Some? ==> food.value.value == 10 || food.value.value == 30)
    }

    ghost function Fields(): View
      reads this
    {
      View(state, score, highScore, level, snake, food, gridWidth, gridHeight, snakeColor, difficulty)
    }

    /** Whether the engine holds a freshly started game, `before` being its
        fields when the game was started. */
    ghost predicate IsNewGame(before: View, cells: nat -> Point, foodType: int)
      reads this, snake
    {
      && snake != null
      && snake.body == [Segment(Point(TruncDiv(gridWidth, 2), TruncDiv(gridHeight, 2)), LimeGreen),
                        Segment(Point(TruncDiv(gridWidth, 2) - 1, TruncDiv(gridHeight, 2)), Green),
                        Segment(Point(TruncDiv(gridWidth, 2) - 2, TruncDiv(gridHeight, 2)), Green)]
      && snake.direction == Right
      && snake.bodyColor == snakeColor && snake.headColor == Lighter(snakeColor)
      && food == Some(Spawn(gridWidth, gridHeight, snake.body, cells, foodType))
      && Fields() == before.(state := Playing, score := 0, level := 1, snake := snake, food := food)
    }

    /** A new engine in the menu, with a grid of whole cells fitting the area. */
    constructor (gameWidth: int, gameHeight: int)
      ensures Valid()
      ensures Fields() == View(Menu, 0, 0, 1, null, None, TruncDiv(gameWidth, GridSize),
                               TruncDiv(gameHeight, GridSize), Green, 2)
    {
      snake := null;
      food := None;
      state := Menu;
      score, highScore, level := 0, 0, 1;
      snakeColor := Green;
      difficulty := 2;
      gridWidth := TruncDiv(gameWidth, GridSize);
      gridHeight := TruncDiv(gameHeight, GridSize);
    }

    /** The current tick interval. */
    function Speed(): (ms: int)
      reads this
      ensures BaseSpeed - 5 * level - 20 <= ms <= BaseSpeed - 5 * level + 20
      ensures difficulty == 2 ==> ms == BaseSpeed - 5 * level
      ensures difficulty == 1 ==> ms == BaseSpeed - 5 * level + 20
      ensures difficulty == 3 ==> ms == BaseSpeed - 5 * level - 20
    {
      TickInterval(level, difficulty)
    }

    /** Recomputes the grid size; the snake and the food stay where they are. */
    method ResizeGameArea(width: int, height: int)
      requires Valid()
      modifies this
      ensures Valid()
      ensures Fields() == old(Fields()).(gridWidth := TruncDiv(width, GridSize),
                                         gridHeight := TruncDiv(height, GridSize))
    {
      gridWidth := TruncDiv(width, GridSize);
      gridHeight := TruncDiv(height, GridSize);
    }

    /** Stores the difficulty clamped to [1, 3]. */
    method SetDifficulty(value: int)
      requires Valid()
      modifies this
      ensures Valid()
      ensures Fields() == old(Fields()).(difficulty := Clamp(value, 1, 3))
    {
      difficulty := Clamp(value, 1, 3);
    }

    /** Stores the snake colour and hands it, and its lighter variant for the
        head, to the live snake; segments already painted keep their colour. */
    method SetSnakeColor(value: Color)
      requires Valid()
      modifies this, snake
      ensures Valid()
      ensures Fields() == old(Fields()).(snakeColor := value)
      ensures snake != null ==>
                && snake.bodyColor == value && snake.headColor == Lighter(value)
                && snake.body == old(snake.body) && snake.direction == old(snake.direction)
    {
      snakeColor := value;
      if snake != null {
        snake.bodyColor := value;
        snake.headColor := Lighter(value);
      }
    }

    /** Starts a game: score 0, level 1, a three-segment snake in the middle
        of the grid, fresh food; the high score is kept. */
    method StartNewGame(cells: nat -> Point, foodType: int) returns (events: seq<Event>)
      requires Valid()
      modifies this
      ensures Valid()
      ensures fresh(snake)
      ensures IsNewGame(old(Fields()), cells, foodType)
      ensures events == [ScoreChanged(0)]
    {
      score := 0;
      level := 1;
      var s := new Snake(TruncDiv(gridWidth, 2), TruncDiv(gridHeight, 2));
      s.bodyColor := snakeColor;
      s.headColor := Lighter(snakeColor);
      snake := s;
      var f := GenerateRandom(gridWidth, gridHeight, s, cells, foodType);
      food := Some(f);
      state := Playing;
      events := [ScoreChanged(score)];
    }

    /** Ends the game. */
    method HandleGameOver() returns (events: seq<Event>)
      requires Valid() && snake != null
      modifies this
      ensures Valid()
      ensures Fields() == old(Fields()).(state := GameState.GameOver)
      ensures events == [GameOverRaised]
    {
      state := GameState.GameOver;
      events := [GameOverRaised];
    }

    /** One tick. Outside play nothing happens. Otherwise the snake moves; a
        move into its own interior ends the game; a move onto the food scores
        the food's value, may raise the high score and the level, keeps the
        tail and replaces the food; any other move drops the tail. */
    method Update(cells: nat -> Point, foodType: int) returns (events: seq<Event>)
      requires Valid()
      modifies this, snake
      ensures Valid()
      ensures snake == old(snake)
      ensures score >= old(score) && highScore >= old(highScore) && level >= old(level)
      ensures old(state) != Playing ==>
                && Fields() == old(Fields()) && events == []
                && (snake != null ==> unchanged(snake))
      ensures old(state) == Playing ==>
                var nh := NextHead(old(snake.body[0].pos), old(snake.direction), gridWidth, gridHeight);
                && snake.direction == old(snake.direction)
                && snake.headColor == old(snake.headColor) && snake.bodyColor == old(snake.bodyColor)
                && (HitsInterior(old(snake.body), nh) ==>
                      && Fields() == old(Fields()).(state := GameState.GameOver)
                      && snake.body == old(snake.body)
                      && events == [GameOverRaised])
                && (!HitsInterior(old(snake.body), nh) && nh == old(food.value.pos) ==>
                      && snake.body == Advance(old(snake.body), nh, snake.headColor, snake.bodyColor)
                      && score == old(score) + old(food.value.value)
                      && highScore == (if score > old(highScore) then score else old(highScore))
                      && level == LevelAfter(score, old(level))
                      && food == Some(Spawn(gridWidth, gridHeight, snake.body, cells, foodType))
                      && Fields() == old(Fields()).(score := score, highScore := highScore, level := level, food := food)
                      && events == [ScoreChanged(score)])
                && (!HitsInterior(old(snake.body), nh) && nh != old(food.value.pos) ==>
                      && snake.body == WithoutTail(Advance(old(snake.body), nh, snake.headColor, snake.bodyColor))
                      && Fields() == old(Fields())
                      && events == [])
    {
      events := [];
      if state != Playing || snake == null || food.None? {
        return;
      }
      var moved := snake.Move(gridWidth, gridHeight);
      if !moved {
        events := HandleGameOver();
        return;
      }
      var currentHead := snake.HeadPosition();
      var collision := currentHead.x == food.value.pos.x && currentHead.y == food.value.pos.y;
      if collision {
        EatKeepsScoreInvariant(score, highScore, level, food.value.value);
        score := score + food.value.value;
        events := events + [ScoreChanged(score)];
        if score > highScore {
          highScore := score;
        }
        var f := GenerateRandom(gridWidth, gridHeight, snake, cells, foodType);
        food := Some(f);
        if score % PointsPerLevel == 0 {
          level := score / PointsPerLevel + 1;
        }
      } else {
        snake.ShrinkTail();
      }
    }

    /** Playing becomes Paused; any other state is left alone. */
    method PauseGame()
      requires Valid()
      modifies this
      ensures Valid()
      ensures Fields() == if old(state) == Playing then old(Fields()).(state := Paused) else old(Fields())
    {
      if state == Playing {
        state := Paused;
      }
    }

    /** Paused becomes Playing; any other state is left alone. */
    method ResumeGame()
      requires Valid()
      modifies this
      ensures Valid()
      ensures Fields() == if old(state) == Paused then old(Fields()).(state := Playing) else old(Fields())
    {
      if state == Paused {
        state := Playing;
      }
    }

    /** Routes a key press according to the key table. */
    method HandleKeyInput(key: Key, cells: nat -> Point, foodType: int) returns (events: seq<Event>)
      requires Valid()
      modifies this, snake
      ensures Valid()
      ensures KeyCommand(old(state), key) == Start ==> fresh(snake) && IsNewGame(old(Fields()), cells, foodType) && events == [ScoreChanged(0)]
      ensures KeyCommand(old(state), key) != Start ==> events == [] && snake == old(snake)
      ensures KeyCommand(old(state), key) != Start && snake != null ==>
                && snake.body == old(snake.body)
                && snake.headColor == old(snake.headColor) && snake.bodyColor == old(snake.bodyColor)
      ensures KeyCommand(old(state), key) in {Pause, Resume, Ignore} && snake != null ==>
                snake.direction == old(snake.direction)
      ensures KeyCommand(old(state), key).Turn? ==>
                && Fields() == old(Fields())
                && snake.direction == Steer(old(snake.direction), KeyCommand(old(state), key).heading)
                && snake.body == old(snake.body)
      ensures KeyCommand(old(state), key) == Pause ==> Fields() == old(Fields()).(state := Paused)
      ensures KeyCommand(old(state), key) == Resume ==> Fields() == old(Fields()).(state := Playing)
      ensures KeyCommand(old(state), key) == Ignore ==>
                Fields() == old(Fields()) && (snake != null ==> snake.direction == old(snake.direction))
    {
      events := [];
      match state {
        case Menu =>
          if key == Enter || key == Space {
            events := StartNewGame(cells, foodType);
          }
        case Playing =>
          if snake == null {
            return;
          }
          match key {
            case ArrowUp => snake.ChangeDirection(Up);
            case ArrowDown => snake.ChangeDirection(Down);
            case ArrowLeft => snake.ChangeDirection(Left);
            case ArrowRight => snake.ChangeDirection(Right);
            case P => PauseGame();
            case Escape => PauseGame();
            case _ =>
          }
        case Paused =>
          if key == P || key == Escape || key == Space {
            ResumeGame();
          }
        case GameOver =>
          if key == Enter || key == Space {
            events := StartNewGame(cells, foodType);
          }
      }
    }
  }
}
