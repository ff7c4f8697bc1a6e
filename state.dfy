/** The game snapshot and its partial updates (src/controllers/GameController.ts). */
module State {
  import opened Wrappers
  import opened Constants

  /** A grid cell; the apple sits off the grid at (-1, -1) before the first game. */
  datatype Point = Point(x: int, y: int)

  /** Cells moved per tick along each axis. */
  datatype Velocity = Velocity(dx: int, dy: int)

  /** The head and the cells behind it, oldest first. */
  datatype Snake = Snake(head: Point, trail: seq<Point>)

  datatype GameState = GameState(
    gameDelay: real,
    countDown: int,
    running: bool,
    isLost: bool,
    highScore: int,
    newHighScore: bool,
    score: nat,
    snake: Snake,
    apple: Point,
    velocity: Velocity,
    previousVelocity: Velocity)

  const Still := Velocity(0, 0)

  predicate InGrid(p: Point) {
    0 <= p.x < GridWidth() && 0 <= p.y < GridHeight()
  }

  /** The head cell every game starts from, which lies on the grid. */
  function SnakeHead(): (p: Point)
    ensures InGrid(p)
    ensures p == Point(12, 9)
  {
    Point(SnakeHeadX, SnakeHeadY)
  }

  /** The state before any game: idle, not lost, no score, apple off the grid. */
  function InitState(): (s: GameState)
    ensures s.countDown == 4 && !s.running && !s.isLost
    ensures s.score == 0 && s.highScore == 0 && !s.newHighScore
    ensures !InGrid(s.apple)
    ensures s.snake.trail == [] && InGrid(s.snake.head)
    ensures s.gameDelay == 100.0
  {
    GameState(
      gameDelay := InitialDelay(),
      countDown := 4,
      running := false,
      isLost := false,
      highScore := 0,
      newHighScore := false,
      score := 0,
      snake := Snake(SnakeHead(), []),
      apple := Point(-1, -1),
      velocity := Still,
      previousVelocity := Still)
  }

  /** A partial state: every field may be absent. */
  datatype Patch = Patch(
    gameDelay: Option<real>,
    countDown: Option<int>,
    running: Option<bool>,
    isLost: Option<bool>,
    highScore: Option<int>,
    newHighScore: Option<bool>,
    score: Option<nat>,
    snake: Option<Snake>,
    apple: Option<Point>,
    velocity: Option<Velocity>,
    previousVelocity: Option<Velocity>)

  const EmptyPatch := Patch(None, None, None, None, None, None, None, None, None, None, None)

  /** Names of the snapshot's fields. */
  datatype Field =
    | DelayField | CountDownField | RunningField | LostField | HighScoreField | NewHighScoreField
    | ScoreField | SnakeField | AppleField | VelocityField | PreviousVelocityField

  /** The patch carries a value for field `f`. */
  predicate Present(p: Patch, f: Field) {
    match f
    case DelayField => p.gameDelay.Some?
    case CountDownField => p.countDown.Some?
    case RunningField => p.running.Some?
    case LostField => p.isLost.Some?
    case HighScoreField => p.highScore.Some?
    case NewHighScoreField => p.newHighScore.Some?
    case ScoreField => p.score.Some?
    case SnakeField => p.snake.Some?
    case AppleField => p.apple.Some?
    case VelocityField => p.velocity.Some?
    case PreviousVelocityField => p.previousVelocity.Some?
  }

  /** `s` and `t` hold the same value in field `f`. */
  predicate SameField(s: GameState, t: GameState, f: Field) {
    match f
    case DelayField => s.gameDelay == t.gameDelay
    case CountDownField => s.countDown == t.countDown
    case RunningField => s.running == t.running
    case LostField => s.isLost == t.isLost
    case HighScoreField => s.highScore == t.highScore
    case NewHighScoreField => s.newHighScore == t.newHighScore
    case ScoreField => s.score == t.score
    case SnakeField => s.snake == t.snake
    case AppleField => s.apple == t.apple
    case VelocityField => s.velocity == t.velocity
    case PreviousVelocityField => s.previousVelocity == t.previousVelocity
  }

  /** `p` carries a value for field `f` and `t` holds exactly that value there. */
  predicate Carries(p: Patch, t: GameState, f: Field) {
    match f
    case DelayField => p.gameDelay == Some(t.gameDelay)
    case CountDownField => p.countDown == Some(t.countDown)
    case RunningField => p.running == Some(t.running)
    case LostField => p.isLost == Some(t.isLost)
    case HighScoreField => p.highScore == Some(t.highScore)
    case NewHighScoreField => p.newHighScore == Some(t.newHighScore)
    case ScoreField => p.score == Some(t.score)
    case SnakeField => p.snake == Some(t.snake)
    case AppleField => p.apple == Some(t.apple)
    case VelocityField => p.velocity == Some(t.velocity)
    case PreviousVelocityField => p.previousVelocity == Some(t.previousVelocity)
  }

  /** Two snapshots that agree on every field are the same snapshot. */
  lemma SameEverywhere(s: GameState, t: GameState)
    requires forall f :: SameField(s, t, f)
    ensures s == t
  {
    assert SameField(s, t, DelayField) && SameField(s, t, CountDownField);
    assert SameField(s, t, RunningField) && SameField(s, t, LostField);
    assert SameField(s, t, HighScoreField) && SameField(s, t, NewHighScoreField);
    assert SameField(s, t, ScoreField) && SameField(s, t, SnakeField);
    assert SameField(s, t, AppleField) && SameField(s, t, VelocityField);
    assert SameField(s, t, PreviousVelocityField);
  }
}
