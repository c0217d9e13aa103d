/** Entities and constants of the game: the board, its cells, the falling
    piece and the single game-state aggregate that every event replaces. */
module Types {

  /** Side length of the square playing field. */
  const N: int := 10

  /** The colour palette pieces are drawn from. */
  datatype Color = Red | Green | Blue | Yellow | Magenta | Cyan | Orange

  const Colors: seq<Color> := [Red, Green, Blue, Yellow, Magenta, Cyan, Orange]

  /** Score awarded per cleared line, and the growth factor per extra line. */
  const PointsPerLine: real := 100.0
  const PointsMultiplier: real := 1.5

  /** Score needed per level. */
  const PointsPerLevel: real := 1000.0

  datatype Option<T> = None | Some(value: T)

  /** A board cell: empty (null) or holding the colour of a settled block. */
  datatype Cell = Empty | Filled(color: Color)

  /** Rows first: `g[y][x]` is the cell in row y, column x. */
  type Grid = seq<seq<Cell>>

  /** One square of a piece, in absolute board coordinates; y may be
      negative while the piece is still entering from above. */
  datatype Block = Block(x: int, y: int, color: Color)

  /** The active piece: its blocks (index 1 is the pivot) and the
      cosmetic rotation angle in degrees. */
  datatype Tetromino = Tetromino(blocks: seq<Block>, rotation: int)

  /** A catalog shape: (x, y) offsets of the blocks. */
  type Shape = seq<(int, int)>

  datatype GameState = GameState(
    score: real,
    level: int,
    grid: Grid,
    currentPiece: Option<Tetromino>,
    gameOver: bool,
    isPaused: bool,
    rotationTimer: int)
}
