/** Canvas, grid and speed settings of the game (src/constants/game.ts). */
module Constants {

  const CanvasWidth: int := 500
  const CanvasHeight: int := 380
  const CanvasGridSize: int := 20

  /** Ticks per second: the speed-up band is the scores above the minimum, up to the maximum. */
  const MinGameSpeed: int := 10
  const MaxGameSpeed: int := 15

  /** Initial head cell of the snake. */
  const SnakeHeadX: int := 12
  const SnakeHeadY: int := 9

  /** Number of columns: the canvas width divides exactly into 25 cells. */
  function GridWidth(): (w: int)
    ensures w * CanvasGridSize == CanvasWidth
    ensures w == 25
  {
    CanvasWidth / CanvasGridSize
  }

  /** Number of rows: the canvas height divides exactly into 19 cells. */
  function GridHeight(): (h: int)
    ensures h * CanvasGridSize == CanvasHeight
    ensures h == 19
  {
    CanvasHeight / CanvasGridSize
  }

  /** Scores at which the tick rate follows the score. */
  predicate InSpeedBand(score: int) {
    MinGameSpeed < score <= MaxGameSpeed
  }

  /** The band is non-empty: it is the scores 11 through 15. */
  lemma SpeedBandIsElevenToFifteen(score: int)
    ensures MinGameSpeed < MaxGameSpeed
    ensures InSpeedBand(score) <==> 11 <= score <= 15
  {
  }

  /** Tick delay in milliseconds at the minimum speed: exactly 100. */
  function InitialDelay(): (d: real)
    ensures d == 100.0
    ensures d * (MinGameSpeed as real) == 1000.0
  {
    1000.0 / (MinGameSpeed as real)
  }
}
