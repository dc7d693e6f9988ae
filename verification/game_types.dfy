/**
  Value types shared by the snake simulation: grid points, ARGB colours,
  the four headings, the engine's run states and the keys the game reacts to.
 */
module GameTypes {

  datatype Option<T> = None | Some(value: T)

  /** A grid cell, column `x` and row `y`. */
  datatype Point = Point(x: int, y: int)

  /** An ARGB colour; every channel of a well-formed colour is a byte. */
  datatype Color = Color(a: int, r: int, g: int, b: int)

  predicate IsByte(v: int) { 0 <= v <= 255 }

  predicate IsArgb(c: Color) { IsByte(c.a) && IsByte(c.r) && IsByte(c.g) && IsByte(c.b) }

  // The named colours of the colour table the game uses.
  const LimeGreen := Color(255, 50, 205, 50)
  const Green := Color(255, 0, 128, 0)
  const Gold := Color(255, 255, 215, 0)
  const Red := Color(255, 255, 0, 0)

  /** The larger of two integers. */
  function Max(a: int, b: int): int { if a >= b then a else b }

  /** The four headings, in the order of their declaration. */
  datatype Direction = Right | Down | Left | Up

  /** The engine's run states. */
  datatype GameState = Menu | Playing | Paused | GameOver

  /** The keys the game reacts to; every other key is `Other`. */
  datatype Key = Enter | Space | ArrowUp | ArrowDown | ArrowLeft | ArrowRight | P | Escape | Other

  /** One cell step for each heading: x grows to the right, y grows downwards. */
  function Delta(d: Direction): Point
  {
    match d
    case Right => Point(1, 0)
    case Down => Point(0, 1)
    case Left => Point(-1, 0)
    case Up => Point(0, -1)
  }
}
