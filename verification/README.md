# Snake game core in Dafny

This project models the simulation core of a WinForms Snake game written in C#:

- **The snake** (`Models/Snake.cs`): an ordered list of coloured segments, head first. Each tick it steps one cell on a wrap-around grid. It refuses to move into its own interior. It refuses to reverse straight back.
- **The food** (`Models/Food.cs`): one item with a point value. Its cell is drawn at random away from the snake, with at most 100 tested draws. After that comes a deterministic scan as a last resort.
- **The game engine** (`GameEngine.cs`): a state machine over Menu, Playing, Paused and GameOver. It owns the snake and the food. It advances them once per tick. It keeps the score, the high score, the level and the settings (difficulty, snake colour, grid size), and it routes key presses.
- **The legacy loop** (`SnakeGame/MainForm.cs`): an earlier standalone version of the same game. It keeps the body as a list of points and the heading as an integer 0-3. Every food is worth 10 points, and each meal shortens the timer interval by 2 ms down to 50 ms.

Files:

| file | module | contents |
|---|---|---|
| `game_types.dfy` | `GameTypes` | points, ARGB colours, headings, run states, keys |
| `snake.dfy` | `Snakes` | class `Snake` and the functions that specify it |
| `food.dfy` | `Foods` | the `Food` record, the placement specification, method `GenerateRandom` |
| `game_engine.dfy` | `Engine` | class `GameEngine` and its pure parts (speed, colours, levels, key table) |
| `legacy_form.dfy` | `LegacyForm` | class `LegacyGame` and its comparison with the main model |

Modelling choices:

- **Random numbers.** Food cells come from a stream `cells: nat -> Point`, where draw number `i` is `cells(i)`. The kind of food is the integer `foodType`, the value `Random.Next(0, 10)` would return. The draw ranges are stated separately (`DrawRange`), and a lemma assumes draws within them.
- **Events.** The two engine events, score-changed and game-over, are returned by the operations that raise them as a list of `Event`s.
- **C# integers.** Integer division truncates toward zero (`TruncDiv`). `Math.Clamp` and `Math.Min` are written out.
- **Window input.** The legacy window's size enters as the grid dimensions `maxX` and `maxY`. The answer to its play-again dialog enters as the flag `playAgain`.

Behaviours of the code that the model keeps as they are:

- Setting the snake colour (GameEngine.cs:90-102) sets only the snake's head and body colours. These are the colours later segments get. Segments already on screen keep their colour.
- The level check (GameEngine.cs:206-210, commented "every 50 points") fires only when the score lands exactly on a multiple of 50. A score that jumps over a boundary, such as 40 + 30 = 70, leaves the level where it was.
- A new snake's segments keep the constructor's default colours, LimeGreen and Green (Models/Snake.cs:25-30, 47-54). The object initializer in GameEngine.cs:139-143 sets the head and body colours only after the constructor has painted the segments.
- The last-resort scan of the food placement (Models/Food.cs:74-89) is commented as finding "any position on the grid not occupied by snake", but it does not. Its `break` leaves only the loop over rows, so the outer loop runs on to the last column. The result is the first free cell of column W-1, or (W-1, H-1) when that column is full. This holds even if other cells are free.

## Model

| member | source | states |
|---|---|---|
| Snakes.Snake.constructor | Models/Snake.cs:47-54 | the body is (x,y), (x-1,y), (x-2,y), head LimeGreen and the rest Green; the heading is Right; the head and body colours are LimeGreen and Green |
| Snakes.Wrap | Models/Snake.cs:120-129 | on a grid of size at least 1 the wrapped coordinate is on the grid; a coordinate already on the grid is unchanged |
| Snakes.WrapIsModulo | Models/Snake.cs:120-129 | a coordinate at most one cell off the grid wraps to its value modulo the grid size |
| Snakes.NextHead | Models/Snake.cs:100-132 | on a grid of at least 1x1 the next head lies on the grid, whatever the old head was |
| Snakes.NextHeadIsTorusStep | Models/Snake.cs:100-132 | from a head on the grid, the next head is the head plus the heading's unit step, modulo the grid size in each coordinate |
| Snakes.NextHeadCrossesEdges | Models/Snake.cs:120-129 | stepping right from the last column enters column 0, left from column 0 enters the last column, and likewise for rows |
| Snakes.Snake.Move | Models/Snake.cs:62-95 | the move fails exactly when the next head hits a segment at index 1 to Length-2; on failure nothing changes; on success the body is `Advance` of the old body; the heading and colours never change |
| Snakes.Advance | Models/Snake.cs:85-94 | a successful move adds one segment, the new head in front with the head colour |
| Snakes.AdvanceShape | Models/Snake.cs:85-94 | after a successful move the length grows by one, the positions are the new head followed by all old positions, the new head has the head colour, the old head has the body colour, and the other segments are unchanged |
| Snakes.AdvanceThenDropTail | Models/Snake.cs:85-94 | a move followed by dropping the tail keeps the length and slides the body: the new positions are the new head followed by the old positions without the last |
| Snakes.Snake.Grow | Models/Snake.cs:137-141 | growing changes nothing |
| Snakes.Snake.ShrinkTail | Models/Snake.cs:146-152 | the last segment is removed, an empty body stays empty, and the heading and colours are kept |
| Snakes.OccupiesSpec | Models/Snake.cs:157-164 | the scan from the head finds a point exactly when some segment has its coordinates |
| Snakes.Occupies | Models/Snake.cs:161-163 | an empty body covers nothing, and the head's cell is always found; the full characterisation is `Snakes.OccupiesSpec` |
| Snakes.Snake.HeadPosition | Models/Snake.cs:35 | the head position is a cell the snake covers |
| Snakes.Snake.Length | Models/Snake.cs:40 | the length is zero exactly for an empty body |
| Snakes.Snake.Contains | Models/Snake.cs:157-164 | true exactly when some segment has the coordinates of the point |
| Snakes.Steer | Models/Snake.cs:180-192 | the new heading is the requested one exactly when its step is not the reverse of the current step, and it is never the reverse |
| Snakes.Snake.ChangeDirection | Models/Snake.cs:180-192 | the heading becomes `Steer` of the old heading and the request; the body and colours are unchanged |
| Foods.NewFoodDefaultValue | Models/Food.cs:28-31 | a food built without a value is worth 10 and keeps its position and colour |
| Foods.DrawRange | Models/Food.cs:46-58 | the draw rectangle is non-empty; on a grid of at least 1x1 it lies within the grid; it keeps a one-cell margin, [1, W-2]x[1, H-2], exactly when the grid is at least 4x4, and is otherwise the whole grid [0, W-1]x[0, H-1] |
| Foods.NewFood | Models/Food.cs:28-31 | a food has the given position, colour and value |
| Foods.FirstFreeDrawSpec | Models/Food.cs:65-91 | the chosen draw is below 100, misses the snake, and follows only draws on the snake; no choice means all of the first 100 draws are on the snake |
| Foods.FirstFreeDrawIs | Models/Food.cs:65-91 | a free draw below 100 preceded only by draws on the snake is the chosen one |
| Foods.FirstFreeDrawNone | Models/Food.cs:65-91 | when all of the first 100 draws are on the snake, no draw is chosen |
| Foods.FirstFreeRowSpec | Models/Food.cs:79-87 | the row scan stops inside the column, after taken rows only, on a free row or on the last one |
| Foods.FirstFreeRowIs | Models/Food.cs:79-87 | the scan's result is the first free row, or the last row when all rows before it are taken |
| Foods.FoodValue | Models/Food.cs:96-107 | a food is worth 30 exactly for kind 0, and 10 otherwise |
| Foods.FoodColor | Models/Food.cs:96-107 | a food is Gold exactly for kind 0, and Red otherwise |
| Foods.GenerateRandom | Models/Food.cs:40-110 | the food is the one `Spawn` specifies for the snake's body, the draws and the kind; its value is 10 or 30 |
| Foods.PlacementTakesFirstFreeDraw | Models/Food.cs:65-91 | when one of the first 100 draws misses the snake, the food lands on the first such draw and so not on the snake |
| Foods.FallbackStaysInLastColumn | Models/Food.cs:74-89 | after 100 draws on the snake the food lands in the last column, on a free cell unless that column is full |
| Foods.FallbackFullColumnGivesCorner | Models/Food.cs:74-89 | after 100 draws on the snake, with a full last column, the food lands on the snake at the bottom-right corner |
| Foods.FallbackMissesFreeColumn | Models/Food.cs:77-88 | on a 2x3 grid with the snake filling column 1 and every draw on the snake, the food lands on the snake although column 0 is free |
| Foods.PlacementInBounds | Models/Food.cs:46-89 | on a grid of at least 1x1, with draws inside the draw rectangle, the food lands on the grid |
| Foods.FirstFreeDrawLooksAhead | Models/Food.cs:61-91 | the choice of a draw depends only on the first 100 draws |
| Foods.PlacementUsesBoundedDraws | Models/Food.cs:61-91 | two streams that agree on draws 0 to 100 place the food on the same cell |
| Engine.TruncDivTowardZero | GameEngine.cs:126-130 | integer division leaves a remainder smaller than the divisor, with the sign of the dividend, and is odd in the dividend |
| Engine.GameEngine.constructor | GameEngine.cs:118-121 | a new engine is in the menu, with score 0, high score 0, level 1, no snake or food, colour Green, difficulty 2, and a grid of whole 25-pixel cells |
| Engine.GameEngine.ResizeGameArea | GameEngine.cs:126-130 | the grid becomes the area divided by 25 in each dimension, with everything else kept |
| Engine.DifficultyModifier | GameEngine.cs:67-72 | easy (1) adds 20 ms, hard (3) takes off 20 ms, anything else adds nothing |
| Engine.TickInterval | GameEngine.cs:63-76 | the interval is 100 ms minus 5 ms per level, give or take 20 ms |
| Engine.GameEngine.Speed | GameEngine.cs:63-76 | the speed is 100 ms minus 5 ms per level, plus 20 ms on easy (1), minus 20 ms on hard (3), and unchanged on medium |
| Engine.TickIntervalSteps | GameEngine.cs:63-76 | each level takes 5 ms off; easy is 20 ms slower than medium, which is 20 ms slower than hard |
| Engine.TickIntervalHasNoFloor | GameEngine.cs:63-76 | for any bound, some level makes the interval fall below it |
| Engine.Brighten | GameEngine.cs:154-162 | a channel becomes the smaller of 255 and the channel plus 50 |
| Engine.Lighter | GameEngine.cs:154-162 | the lighter colour keeps the alpha, brightens red, green and blue, and is a valid ARGB colour when the input is |
| Engine.LighterSaturates | GameEngine.cs:154-162 | a colour whose channels are all 205 or more becomes white, and lightening again changes nothing |
| Engine.GameEngine.SetSnakeColor | GameEngine.cs:90-102 | the colour is stored; a live snake gets it as its body colour and the lighter colour as its head colour; its segments and heading stay as they were |
| Engine.Clamp | GameEngine.cs:107-111 | the result lies in [lo, hi], equals the value inside that range, and equals the nearer bound outside it |
| Engine.GameEngine.SetDifficulty | GameEngine.cs:107-111 | the difficulty becomes the value clamped to [1, 3], with everything else kept |
| Engine.GameEngine.StartNewGame | GameEngine.cs:135-149 | a fresh three-segment snake in the middle of the grid heading right, with the engine's colours; food as `Spawn` places it; score 0, level 1, state Playing; the high score and settings are kept; one score-changed event with 0 |
| Engine.GameEngine.HandleGameOver | GameEngine.cs:222-226 | the state becomes GameOver, nothing else changes, and one game-over event is raised |
| Engine.GameEngine.Update | GameEngine.cs:167-217 | outside play nothing changes, in the engine or in the snake. A blocked move ends the game, leaves the body alone and raises game-over. Eating the food adds its value to the score, raises the high score when beaten, recomputes the level, keeps the tail, places new food and raises score-changed. Any other move slides the body. The engine invariant is kept, and score, high score and level never drop |
| Engine.LevelAfter | GameEngine.cs:206-210 | when the score is a multiple of 50 the level is the one starting at that score, so (level - 1) * 50 equals the score; otherwise the level is kept |
| Engine.LevelNeverDrops | GameEngine.cs:206-210 | adding points never lowers the level, and the level never exceeds the score divided by 50, plus 1 |
| Engine.LevelBoundaries | GameEngine.cs:206-210 | 50 points give level 2 and 100 give level 3; a score of 70 reached from 40 leaves level 1, although 70 lies past the boundary |
| Engine.EatKeepsScoreInvariant | GameEngine.cs:191-210 | eating a food worth 10 or 30 keeps 0 <= score <= high score and (level - 1) * 50 <= score, and never lowers the level |
| Engine.KeyCommand | GameEngine.cs:231-280 | Enter or Space start a game exactly in the menu or after a game over; arrows turn exactly in play; P or Escape pause exactly in play; P, Escape or Space resume exactly when paused |
| Engine.GameEngine.HandleKeyInput | GameEngine.cs:231-280 | each command of the key table does what it names: start a new game; steer the snake; pause; resume; or change nothing. Except when a game starts, the snake keeps its body and colours, and it keeps its heading unless the key turns it |
| Engine.GameEngine.PauseGame | GameEngine.cs:285-291 | Playing becomes Paused; any other state is kept; nothing else changes |
| Engine.GameEngine.ResumeGame | GameEngine.cs:296-302 | Paused becomes Playing; any other state is kept; nothing else changes |
| LegacyForm.HeadingOf | SnakeGame/MainForm.cs:15 | the codes 0, 1, 2 and 3 step right, down, left and up |
| LegacyForm.LegacyTurn | SnakeGame/MainForm.cs:65-82 | from a valid code the result is a valid code that is never the opposite heading; each arrow gives its own code or leaves the code alone; other keys change nothing |
| LegacyForm.LegacyTurnIsSteer | SnakeGame/MainForm.cs:65-82 | a valid code stays valid; an arrow turns exactly as the snake's `Steer` does; other keys change nothing |
| LegacyForm.LegacyStep | SnakeGame/MainForm.cs:102-134 | on a grid of at least 1x1 the new head lies on the grid; an invalid code leaves a head on the grid in place; a valid code on a grid of at least 3x3 always moves the head |
| LegacyForm.LegacyStepIsNextHead | SnakeGame/MainForm.cs:102-134 | for a valid code the new head is the snake's `NextHead`, and it lies on a grid of at least 1x1 |
| LegacyForm.TailCollisionDiffers | SnakeGame/MainForm.cs:136-141 | a head about to enter the tail's cell ends the legacy game, while the engine's snake moves on |
| LegacyForm.SpeedUp | SnakeGame/MainForm.cs:152-153 | a meal takes 2 ms off the interval exactly when it is above 50 ms, and otherwise keeps it; an even interval of at least 50 ms stays even and at least 50 ms |
| LegacyForm.IntervalFloor | SnakeGame/MainForm.cs:150-154 | from an even start between 50 and 100 ms, n meals give max(50, start - 2n) ms |
| LegacyForm.IntervalFloorNeedsEvenStart | SnakeGame/MainForm.cs:32 | from 100 ms the interval reaches 50 ms after 25 meals and stays there; from an odd 51 ms one meal would go below the floor |
| LegacyForm.LegacyGame.constructor | SnakeGame/MainForm.cs:20-35 | the window opens on a new round with a 100 ms interval, and the invariant holds |
| LegacyForm.LegacyGame.InitializeGame | SnakeGame/MainForm.cs:37-48 | the body is (5,5), (4,5), (3,5); the code is 0 (right); score 0; not over; food is the first free draw; the interval is kept |
| LegacyForm.LegacyGame.GenerateFood | SnakeGame/MainForm.cs:50-63 | the food is the first draw that is not on the body; the loop stops only because such a draw exists |
| LegacyForm.LegacyGame.OnKeyDown | SnakeGame/MainForm.cs:65-82 | the code becomes `LegacyTurn` of the old code and the key; nothing else changes |
| LegacyForm.LegacyGame.GameTick | SnakeGame/MainForm.cs:84-162 | after a game over, a new round or no change. In play, a step onto any body cell, tail included, ends the game and changes nothing else. Eating scores 10, keeps the tail, places new food and speeds up the timer. Any other step slides the body. The invariant holds: a valid code, length 3 plus one per 10 points, food off the body, and an even interval in [50, 100] |

## Left out

- Rendering is not modelled. This covers `Render`, the overlays, `SnakeSegment.Render`, `Food.Render`, `GameObject.Render` and the legacy `OnPaint`. These are drawing calls, and the snake silhouette uses floating-point trigonometry.
- The main window (`MainForm.cs`) is not modelled: menus, timer wiring, the custom menu renderer, and the 100 ms key debounce, which reads the wall clock. The engine's `Speed` is modelled; the window copies it into its timer after every tick.
- The settings dialog, the sound manager and the program entry point are not modelled.
- The grid-enabled flag and the background and grid colours are not modelled. They only affect drawing.
- `System.Random` is not modelled. Its draws are caller-supplied streams. `Random.Next`'s ranges are a precondition only of `Foods.PlacementInBounds`.
- The C# events are not modelled as delegates. The operations return them as a list instead.
- Segment objects and their aliasing are not modelled. Segments are values, so the in-place repaint of the old head is a new value at index 1. The model does not capture another reference seeing the repaint.
- Engine.GameEngine.Update, Snakes.Snake.Move: scores and coordinates are unbounded integers, so 32-bit overflow of the score is not modelled.
- LegacyForm.LegacyGame.GenerateFood: the source loops forever when no draw misses the body. The model requires a free draw in the stream, so it covers only the terminating runs.
- LegacyForm.LegacyGame.GameTick: the message box, `Close`, `Invalidate` and stopping and starting the timer are not modelled. Closing the window is modelled as a tick that changes nothing.
