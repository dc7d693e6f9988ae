/**
  Food: one item on the grid with a point value, placed by drawing random
  cells that avoid the snake, with a bounded number of draws and a
  deterministic scan as the last resort.

  The random generator is not modelled: the cells it would produce are the
  stream `cells` (draw number i is `cells(i)`), and the draw that picks the
  kind of food is the integer `foodType`.
 */
module Foods {
  import opened GameTypes
  import opened Snakes

  datatype Food = Food(pos: Point, color: Color, value: int)

  /** A food item; when no value is given it is worth 10 points. */
  function NewFood(position: Point, color: Color, value: int := 10): (f: Food)
    ensures f.pos == position && f.color == color && f.value == value
  {
    Food(position, color, value)
  }

  lemma NewFoodDefaultValue(position: Point, color: Color)
    ensures NewFood(position, color).value == 10
    ensures NewFood(position, color).pos == position && NewFood(position, color).color == color
  {
  }

  /** Number of random draws tested against the snake before the scan. */
  const MaxAttempts: nat := 100

  /** The inclusive rectangle random cells are drawn from. */
  datatype DrawBox = DrawBox(minX: int, maxX: int, minY: int, maxY: int)

  predicate InDrawBox(box: DrawBox, p: Point)
  {
    box.minX <= p.x <= box.maxX && box.minY <= p.y <= box.maxY
  }

  /** The grid with a one-cell margin on every side; the whole grid when
      that inner rectangle would be a single row or column or less. */
  function DrawRange(gridWidth: int, gridHeight: int): (box: DrawBox)
    ensures box.minX <= box.maxX && box.minY <= box.maxY
    ensures gridWidth >= 1 && gridHeight >= 1 ==>
              0 <= box.minX && box.maxX < gridWidth && 0 <= box.minY && box.maxY < gridHeight
    ensures gridWidth >= 4 && gridHeight >= 4 <==> box.minX == 1 && box.minY == 1
    ensures box.minX == 1 ==> box.maxX == gridWidth - 2 && box.maxY == gridHeight - 2
    ensures gridWidth >= 1 && gridHeight >= 1 && !(gridWidth >= 4 && gridHeight >= 4) ==>
              box == DrawBox(0, gridWidth - 1, 0, gridHeight - 1)
  {
    var maxX := Max(1, gridWidth - 2);
    var maxY := Max(1, gridHeight - 2);
    if maxX <= 1 || maxY <= 1 then DrawBox(0, Max(0, gridWidth - 1), 0, Max(0, gridHeight - 1))
    else DrawBox(1, maxX, 1, maxY)
  }

  /** The index of the first draw, from draw `k` on and below MaxAttempts,
      that lands off the snake. */
  function FirstFreeDraw(body: seq<Segment>, cells: nat -> Point, k: nat): Option<nat>
    decreases MaxAttempts - k
  {
    if k >= MaxAttempts then None
    else if !Occupies(body, cells(k)) then Some(k)
    else FirstFreeDraw(body, cells, k + 1)
  }

  /** The first free draw is free, below MaxAttempts and preceded from `k`
      on only by draws on the snake; no result means every draw from `k` on
      below MaxAttempts is on the snake. */
  lemma {:induction false} FirstFreeDrawSpec(body: seq<Segment>, cells: nat -> Point, k: nat)
    ensures var r := FirstFreeDraw(body, cells, k);
            && (r.Some? ==> k <= r.value < MaxAttempts && !Occupies(body, cells(r.value)))
            && (r.Some? ==> forall j: nat :: k <= j < r.value ==> Occupies(body, cells(j)))
            && (r.None? ==> forall j: nat :: k <= j < MaxAttempts ==> Occupies(body, cells(j)))
    decreases MaxAttempts - k
  {
    if k < MaxAttempts && Occupies(body, cells(k)) {
      FirstFreeDrawSpec(body, cells, k + 1);
    }
  }

  /** The row where the scan of column `x` stops, starting at row `y`: the
      first free row, or the last row when the rest of the column is taken. */
  function FirstFreeRow(body: seq<Segment>, x: int, gridHeight: int, y: nat): int
    requires y < gridHeight
    decreases gridHeight - y
  {
    if !Occupies(body, Point(x, y)) || y == gridHeight - 1 then y
    else FirstFreeRow(body, x, gridHeight, y + 1)
  }

  /** The scan stops inside the column, past only taken rows, on a free
      row or on the last one. */
  lemma {:induction false} FirstFreeRowSpec(body: seq<Segment>, x: int, gridHeight: int, y: nat)
    requires y < gridHeight
    ensures var r := FirstFreeRow(body, x, gridHeight, y);
            && y <= r < gridHeight
            && (forall t :: y <= t < r ==> Occupies(body, Point(x, t)))
            && (!Occupies(body, Point(x, r)) || r == gridHeight - 1)
    decreases gridHeight - y
  {
    if Occupies(body, Point(x, y)) && y != gridHeight - 1 {
      FirstFreeRowSpec(body, x, gridHeight, y + 1);
    }
  }

  /** Where a new food item lands: the first of the first MaxAttempts draws
      that misses the snake; failing that, the last column's scan result; on
      a grid without columns or rows, the draw after the tested ones. */
  function Placement(gridWidth: int, gridHeight: int, body: seq<Segment>, cells: nat -> Point): Point
  {
    match FirstFreeDraw(body, cells, 0)
    case Some(j) => cells(j)
    case None =>
      if gridWidth >= 1 && gridHeight >= 1
      then Point(gridWidth - 1, FirstFreeRow(body, gridWidth - 1, gridHeight, 0))
      else cells(MaxAttempts)
  }

  /** The point value of a food kind: 30 for the special kind 0, else 10. */
  function FoodValue(foodType: int): (v: int)
    ensures v == 10 || v == 30
    ensures v == 30 <==> foodType == 0
  {
    if foodType == 0 then 30 else 10
  }

  /** The colour of a food kind: gold for the special kind 0, else red. */
  function FoodColor(foodType: int): (c: Color)
    ensures c == Gold || c == Red
    ensures c == Gold <==> foodType == 0
  {
    if foodType == 0 then Gold else Red
  }

  /** The food item a placement produces, with its kind drawn as `foodType`. */
  function Spawn(gridWidth: int, gridHeight: int, body: seq<Segment>, cells: nat -> Point, foodType: int): Food
  {
    Food(Placement(gridWidth, gridHeight, body, cells), FoodColor(foodType), FoodValue(foodType))
  }

  /** Whether every row of column `x` is taken by the snake. */
  ghost predicate ColumnFull(body: seq<Segment>, x: int, gridHeight: int)
  {
    forall y :: 0 <= y < gridHeight ==> Occupies(body, Point(x, y))
  }

  /** The row scan result is pinned down by its contract: the first free
      row when there is one before the last, else the last row. */
  lemma {:induction false} FirstFreeRowIs(body: seq<Segment>, x: int, gridHeight: int, y: nat, t: int)
    requires y <= t < gridHeight
    requires forall s :: y <= s < t ==> Occupies(body, Point(x, s))
    requires !Occupies(body, Point(x, t)) || t == gridHeight - 1
    ensures FirstFreeRow(body, x, gridHeight, y) == t
    decreases gridHeight - y
  {
    if y < t {
      FirstFreeRowIs(body, x, gridHeight, y + 1, t);
    }
  }

  /** A free draw below MaxAttempts preceded, from `k` on, only by draws on
      the snake is the first free draw. */
  lemma {:induction false} FirstFreeDrawIs(body: seq<Segment>, cells: nat -> Point, k: nat, j: nat)
    requires k <= j < MaxAttempts && !Occupies(body, cells(j))
    requires forall i: nat :: k <= i < j ==> Occupies(body, cells(i))
    ensures FirstFreeDraw(body, cells, k) == Some(j)
    decreases j - k
  {
    if k < j {
      FirstFreeDrawIs(body, cells, k + 1, j);
    }
  }

  /** With every draw below MaxAttempts on the snake there is no free draw. */
  lemma {:induction false} FirstFreeDrawNone(body: seq<Segment>, cells: nat -> Point, k: nat)
    requires forall i: nat :: k <= i < MaxAttempts ==> Occupies(body, cells(i))
    ensures FirstFreeDraw(body, cells, k) == None
    decreases MaxAttempts - k
  {
    if k < MaxAttempts {
      FirstFreeDrawNone(body, cells, k + 1);
    }
  }

  /** Draws food positions until one misses the snake; after MaxAttempts
      misses, the draw that follows is replaced by a scan of the grid whose
      `break` leaves only the inner loop over rows. The first pass of the
      draw loop is written out before the loop, so that the loop guard is
      the test made at the end of each pass. */
  method GenerateRandom(gridWidth: int, gridHeight: int, snake: Snake, cells: nat -> Point, foodType: int)
    returns (food: Food)
    ensures food == Spawn(gridWidth, gridHeight, snake.body, cells, foodType)
    ensures food.value == 10 || food.value == 30
  {
    ghost var body := snake.body;
    var position := cells(0);
    var attempts: nat := 1;
    while attempts <= MaxAttempts && snake.Contains(position)
      invariant 1 <= attempts <= MaxAttempts + 1
      invariant position == cells(attempts - 1)
      invariant forall j: nat :: j < attempts - 1 ==> Occupies(body, cells(j))
      decreases MaxAttempts + 1 - attempts
    {
      position := cells(attempts);
      attempts := attempts + 1;
    }
    if attempts > MaxAttempts {
      FirstFreeDrawNone(body, cells, 0);
      var testX := 0;
      while testX < gridWidth
        invariant 0 <= testX && (testX <= gridWidth || testX == 0)
        invariant testX == 0 || gridHeight < 1 ==> position == cells(MaxAttempts)
        invariant testX > 0 && gridHeight >= 1 ==>
                    position == Point(testX - 1, FirstFreeRow(body, testX - 1, gridHeight, 0))
      {
        ghost var before := position;
        var testY := 0;
        while testY < gridHeight
          invariant 0 <= testY && (testY <= gridHeight || testY == 0)
          invariant testY == 0 ==> position == before
          invariant testY > 0 ==> position == Point(testX, testY - 1)
          invariant forall t :: 0 <= t < testY ==> Occupies(body, Point(testX, t))
        {
          position := Point(testX, testY);
          if !snake.Contains(position) {
            break;
          }
          testY := testY + 1;
        }
        if gridHeight >= 1 {
          FirstFreeRowIs(body, testX, gridHeight, 0, position.y);
        }
        testX := testX + 1;
      }
    } else {
      FirstFreeDrawIs(body, cells, 0, attempts - 1);
    }
    food := NewFood(position, FoodColor(foodType), FoodValue(foodType));
  }

  /** When one of the first MaxAttempts draws misses the snake, the food
      lands on the first such draw, and so never on the snake. */
  lemma PlacementTakesFirstFreeDraw(gridWidth: int, gridHeight: int, body: seq<Segment>, cells: nat -> Point, j: nat)
    requires j < MaxAttempts && !Occupies(body, cells(j))
    ensures !Occupies(body, Placement(gridWidth, gridHeight, body, cells))
    ensures exists k: nat :: k <= j && Placement(gridWidth, gridHeight, body, cells) == cells(k)
                            && forall i: nat :: i < k ==> Occupies(body, cells(i))
  {
    FirstFreeDrawSpec(body, cells, 0);
    assert FirstFreeDraw(body, cells, 0).Some?;
  }

  /** After MaxAttempts draws on the snake, the food always lands in the
      last column, on its first free cell when it has one. */
  lemma FallbackStaysInLastColumn(gridWidth: int, gridHeight: int, body: seq<Segment>, cells: nat -> Point)
    requires gridWidth >= 1 && gridHeight >= 1
    requires forall j: nat :: j < MaxAttempts ==> Occupies(body, cells(j))
    ensures Placement(gridWidth, gridHeight, body, cells).x == gridWidth - 1
    ensures !ColumnFull(body, gridWidth - 1, gridHeight) ==>
              !Occupies(body, Placement(gridWidth, gridHeight, body, cells))
  {
    FirstFreeDrawNone(body, cells, 0);
    FirstFreeRowSpec(body, gridWidth - 1, gridHeight, 0);
  }

  /** After MaxAttempts draws on the snake, a fully taken last column makes
      the food land on the snake's cell in the bottom-right corner, whatever
      is free elsewhere. */
  lemma FallbackFullColumnGivesCorner(gridWidth: int, gridHeight: int, body: seq<Segment>, cells: nat -> Point)
    requires gridWidth >= 1 && gridHeight >= 1
    requires forall j: nat :: j < MaxAttempts ==> Occupies(body, cells(j))
    requires ColumnFull(body, gridWidth - 1, gridHeight)
    ensures Placement(gridWidth, gridHeight, body, cells) == Point(gridWidth - 1, gridHeight - 1)
    ensures Occupies(body, Placement(gridWidth, gridHeight, body, cells))
  {
    FirstFreeDrawNone(body, cells, 0);
    FirstFreeRowIs(body, gridWidth - 1, gridHeight, 0, gridHeight - 1);
  }

  /** A 2x3 grid whose right column holds the whole snake: with every draw
      on the snake, the food lands on the snake although column 0 is free. */
  lemma FallbackMissesFreeColumn()
    ensures var body := [Segment(Point(1, 0), LimeGreen), Segment(Point(1, 1), Green), Segment(Point(1, 2), Green)];
            var cells := (i: nat) => Point(1, 0);
            && (forall i: nat :: InDrawBox(DrawRange(2, 3), cells(i)))
            && !Occupies(body, Point(0, 0))
            && Placement(2, 3, body, cells) == Point(1, 2)
            && Occupies(body, Placement(2, 3, body, cells))
  {
    var body := [Segment(Point(1, 0), LimeGreen), Segment(Point(1, 1), Green), Segment(Point(1, 2), Green)];
    var cells := (i: nat) => Point(1, 0);
    OccupiesSpec(body, Point(0, 0));
    forall y | 0 <= y < 3
      ensures Occupies(body, Point(1, y))
    {
      OccupiesSpec(body, Point(1, y));
      assert body[y].pos == Point(1, y);
    }
    FallbackFullColumnGivesCorner(2, 3, body, cells);
  }

  /** On a grid with at least one cell, with draws inside the draw
      rectangle, the food lands on the grid. */
  lemma PlacementInBounds(gridWidth: int, gridHeight: int, body: seq<Segment>, cells: nat -> Point)
    requires gridWidth >= 1 && gridHeight >= 1
    requires forall i: nat :: InDrawBox(DrawRange(gridWidth, gridHeight), cells(i))
    ensures var p := Placement(gridWidth, gridHeight, body, cells);
            0 <= p.x < gridWidth && 0 <= p.y < gridHeight
  {
    FirstFreeDrawSpec(body, cells, 0);
    match FirstFreeDraw(body, cells, 0)
    case Some(j) =>
      assert InDrawBox(DrawRange(gridWidth, gridHeight), cells(j));
    case None =>
      FirstFreeRowSpec(body, gridWidth - 1, gridHeight, 0);
  }

  lemma {:induction false} FirstFreeDrawLooksAhead(body: seq<Segment>, cells: nat -> Point, other: nat -> Point, k: nat)
    requires forall i: nat :: i < MaxAttempts ==> cells(i) == other(i)
    ensures FirstFreeDraw(body, cells, k) == FirstFreeDraw(body, other, k)
    decreases MaxAttempts - k
  {
    if k < MaxAttempts {
      FirstFreeDrawLooksAhead(body, cells, other, k + 1);
    }
  }

  /** Placement reads at most MaxAttempts + 1 draws: streams that agree on
      them place the food on the same cell. */
  lemma PlacementUsesBoundedDraws(gridWidth: int, gridHeight: int, body: seq<Segment>, cells: nat -> Point, other: nat -> Point)
    requires forall i: nat :: i <= MaxAttempts ==> cells(i) == other(i)
    ensures Placement(gridWidth, gridHeight, body, cells) == Placement(gridWidth, gridHeight, body, other)
  {
    FirstFreeDrawLooksAhead(body, cells, other, 0);
    FirstFreeDrawSpec(body, cells, 0);
  }
}
