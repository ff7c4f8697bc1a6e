/** The patches the game controller dispatches, as functions of its snapshot
    (src/controllers/GameController.ts). The controller's methods are proved
    to dispatch exactly these. */
module Rules {
  import opened Wrappers
  import opened Constants
  import opened State
  import opened Reducer

  // ---------------------------------------------------------------- apple placement

  /** Two results of the random source, each in [0, 1): one apple candidate. */
  datatype Draw = Draw(rx: real, ry: real)

  predicate ValidDraw(d: Draw) {
    0.0 <= d.rx < 1.0 && 0.0 <= d.ry < 1.0
  }

  predicate AllValid(draws: seq<Draw>) {
    forall i :: 0 <= i < |draws| ==> ValidDraw(draws[i])
  }

  /** The cell a candidate denotes: each random number scaled to the grid and floored. */
  function DrawCell(d: Draw): (p: Point)
    requires ValidDraw(d)
    ensures InGrid(p)
  {
    Point((d.rx * (GridWidth() as real)).Floor, (d.ry * (GridHeight() as real)).Floor)
  }

  /** `p` is the snake's head or one of its trail cells. */
  predicate Occupied(snake: Snake, p: Point) {
    p == snake.head || p in snake.trail
  }

  /** Some candidate lands on a cell the snake does not cover. */
  predicate HasFree(snake: Snake, draws: seq<Draw>)
    requires AllValid(draws)
  {
    exists i :: 0 <= i < |draws| && !Occupied(snake, DrawCell(draws[i]))
  }

  /** Rejection sampling: the cell of the first candidate that misses the snake. */
  function FirstFree(snake: Snake, draws: seq<Draw>): (r: Option<Point>)
    requires AllValid(draws)
    ensures r.Some? <==> HasFree(snake, draws)
    ensures r.Some? ==> InGrid(r.value) && !Occupied(snake, r.value)
    ensures r.Some? ==> exists i :: 0 <= i < |draws| && DrawCell(draws[i]) == r.value
    decreases |draws|
  {
    if draws == [] then None
    else if !Occupied(snake, DrawCell(draws[0])) then Some(DrawCell(draws[0]))
    else
      var r := FirstFree(snake, draws[1..]);
      assert forall i :: 1 <= i < |draws| ==> draws[1..][i - 1] == draws[i];
      r
  }

  // ---------------------------------------------------------------- game over

  /** The game-over patch, judged on the snapshot `s`: the record only when strictly beaten. */
  function GameOverPatch(s: GameState): Patch {
    var payload := EmptyPatch.(isLost := Some(true), running := Some(false), velocity := Some(Still), countDown := Some(4));
    if s.score > s.highScore then payload.(highScore := Some(s.score), newHighScore := Some(true))
    else payload
  }

  /** Game over always stops and resets the game; it raises the record to the snapshot's score
      exactly when that score beats it, and otherwise leaves the record fields alone. */
  lemma GameOverEffect(s: GameState, t: GameState)
    ensures var u := Apply(t, GameOverPatch(s));
      && u.isLost && !u.running && u.velocity == Still && u.countDown == 4
      && (s.score > s.highScore ==> u.highScore == s.score && u.newHighScore)
      && (s.score <= s.highScore ==> u.highScore == t.highScore && u.newHighScore == t.newHighScore)
      && u.score == t.score && u.snake == t.snake && u.apple == t.apple
      && u.gameDelay == t.gameDelay && u.previousVelocity == t.previousVelocity
    ensures Present(GameOverPatch(s), HighScoreField) <==> s.score > s.highScore
    ensures Present(GameOverPatch(s), NewHighScoreField) <==> s.score > s.highScore
  {
  }

  /** Applied to its own snapshot, game over never lowers the record and ends at the larger
      of score and record. */
  lemma GameOverRecord(s: GameState)
    ensures var u := Apply(s, GameOverPatch(s));
      && u.highScore >= s.highScore
      && u.highScore >= s.score
      && (u.highScore == s.score || u.highScore == s.highScore)
      && (u.newHighScore <==> s.newHighScore || s.score > s.highScore)
  {
  }

  // ---------------------------------------------------------------- start

  /** The reset patch of a (re)start, with the apple already drawn. */
  function StartPatch(apple: Point): Patch {
    EmptyPatch.(
      gameDelay := Some(InitialDelay()),
      isLost := Some(false),
      score := Some(0),
      snake := Some(Snake(SnakeHead(), [])),
      apple := Some(apple),
      velocity := Some(Velocity(0, -1)),
      running := Some(true),
      newHighScore := Some(false),
      countDown := Some(3))
  }

  /** A start resets score, snake, velocity, flags, countdown and delay, installs the apple,
      and leaves exactly the record and the previous velocity untouched. */
  lemma StartEffect(t: GameState, apple: Point)
    ensures var u := Apply(t, StartPatch(apple));
      && u.score == 0 && u.snake == Snake(Point(12, 9), []) && u.apple == apple
      && u.velocity == Velocity(0, -1) && u.running && u.countDown == 3
      && !u.isLost && !u.newHighScore && u.gameDelay == 100.0
      && u.highScore == t.highScore && u.previousVelocity == t.previousVelocity
    ensures forall f :: !Present(StartPatch(apple), f) <==> f == HighScoreField || f == PreviousVelocityField
  {
  }

  /** The start apple is drawn against the snapshot's snake, which is still the previous
      game's: it can land on the new head. */
  lemma StartAppleCanCoverNewHead()
    ensures var old_snake := Snake(Point(0, 0), []);
      FirstFree(old_snake, [Draw(0.5, 0.5)]) == Some(SnakeHead())
  {
  }

  // ---------------------------------------------------------------- keys

  /** The eight keys the controller reacts to: arrows and their w/a/s/d aliases. */
  function RecognisedKeys(): seq<string> {
    ["ArrowUp", "ArrowDown", "ArrowLeft", "ArrowRight", "w", "a", "s", "d"]
  }

  /** One cell along exactly one axis. */
  predicate IsUnitAxis(v: Velocity) {
    (v.dx == 0 && (v.dy == 1 || v.dy == -1)) || (v.dy == 0 && (v.dx == 1 || v.dx == -1))
  }

  /** `v` would undo `u`: the two sum to standstill. */
  predicate Opposite(u: Velocity, v: Velocity) {
    u.dx + v.dx == 0 && u.dy + v.dy == 0
  }

  /** The velocity a key asks for. */
  function KeyVelocity(key: string): Option<Velocity> {
    match key
    case "ArrowRight" => Some(Velocity(1, 0))
    case "ArrowLeft" => Some(Velocity(-1, 0))
    case "ArrowDown" => Some(Velocity(0, 1))
    case "ArrowUp" => Some(Velocity(0, -1))
    case "d" => Some(Velocity(1, 0))
    case "a" => Some(Velocity(-1, 0))
    case "s" => Some(Velocity(0, 1))
    case "w" => Some(Velocity(0, -1))
    case _ => None
  }

  /** Exactly the eight keys produce a velocity, always a unit step along one axis,
      and each alias agrees with its arrow. */
  lemma KeyVelocityRecognised(key: string)
    ensures KeyVelocity(key).Some? <==> key in RecognisedKeys()
    ensures KeyVelocity(key).Some? ==> IsUnitAxis(KeyVelocity(key).value)
    ensures KeyVelocity("w") == KeyVelocity("ArrowUp") && KeyVelocity("s") == KeyVelocity("ArrowDown")
    ensures KeyVelocity("a") == KeyVelocity("ArrowLeft") && KeyVelocity("d") == KeyVelocity("ArrowRight")
  {
  }

  /** The patch a key press dispatches, judged on the snapshot's previous velocity. */
  function KeyPatch(s: GameState, key: string): Option<Patch> {
    match KeyVelocity(key)
    case None => None
    case Some(v) => if Opposite(s.previousVelocity, v) then None else Some(EmptyPatch.(velocity := Some(v)))
  }

  /** A key press changes at most the velocity; it dispatches exactly for a recognised key
      that does not reverse the last applied direction, and then installs that key's own
      velocity, a unit step. */
  lemma KeyPatchEffect(s: GameState, t: GameState, key: string)
    ensures KeyPatch(s, key).Some? <==>
      key in RecognisedKeys() && !Opposite(s.previousVelocity, KeyVelocity(key).value)
    ensures var u := ApplyOpt(t, KeyPatch(s, key));
      && u == t.(velocity := u.velocity)
      && (u.velocity == t.velocity || (IsUnitAxis(u.velocity) && !Opposite(s.previousVelocity, u.velocity)))
    ensures KeyPatch(s, key).Some? ==> forall f :: Present(KeyPatch(s, key).value, f) <==> f == VelocityField
    ensures KeyPatch(s, key).Some? ==> ApplyOpt(t, KeyPatch(s, key)).velocity == KeyVelocity(key).value
    ensures KeyPatch(s, key).None? ==> ApplyOpt(t, KeyPatch(s, key)) == t
  {
  }

  // ---------------------------------------------------------------- tick

  /** Head plus velocity, with no wrap-around. */
  function NextHead(s: GameState): Point {
    Point(s.snake.head.x + s.velocity.dx, s.snake.head.y + s.velocity.dy)
  }

  predicate HitsWall(s: GameState) {
    var n := NextHead(s);
    n.x < 0 || n.y < 0 || n.x >= GridWidth() || n.y >= GridHeight()
  }

  predicate Eats(s: GameState) {
    NextHead(s) == s.apple
  }

  /** The last `n` cells of `t` (all of `t` when it is no longer). */
  function KeepLast(t: seq<Point>, n: nat): seq<Point> {
    if |t| > n then t[|t| - n..] else t
  }

  /** The old trail with the old head appended, cut at the front to the snapshot's score + 2. */
  function TickTrail(s: GameState): seq<Point> {
    KeepLast(s.snake.trail + [s.snake.head], s.score + 2)
  }

  predicate HitsSelf(s: GameState) {
    NextHead(s) in TickTrail(s)
  }

  predicate Dies(s: GameState) {
    HitsWall(s) || HitsSelf(s)
  }

  function EatPatch(s: GameState, apple: Point): Patch {
    EmptyPatch.(score := Some(s.score + 1), apple := Some(apple))
  }

  /** The closing patch of every tick. */
  function MovePatch(s: GameState): Patch {
    EmptyPatch.(previousVelocity := Some(s.velocity), snake := Some(Snake(NextHead(s), TickTrail(s))))
  }

  /** What one tick dispatches, in order: game over on a wall, the eat update, game over on
      the trail, then the move. */
  function TickPatches(s: GameState, draws: seq<Draw>): seq<Patch>
    requires AllValid(draws)
    requires Eats(s) ==> HasFree(s.snake, draws)
  {
    (if HitsWall(s) then [GameOverPatch(s)] else [])
    + (if Eats(s) then [EatPatch(s, FirstFree(s.snake, draws).value)] else [])
    + (if HitsSelf(s) then [GameOverPatch(s)] else [])
    + [MovePatch(s)]
  }

  /** The state after a tick when the store and the snapshot agree. */
  function Tick(s: GameState, draws: seq<Draw>): GameState
    requires AllValid(draws)
    requires Eats(s) ==> HasFree(s.snake, draws)
  {
    ApplyAll(s, TickPatches(s, draws))
  }

  /** The trail kept by a tick is a non-empty suffix of old trail + old head, ends in the old
      head and is as long as it can be without exceeding score + 2. */
  lemma TickTrailShape(s: GameState)
    ensures var full := s.snake.trail + [s.snake.head];
      var r := TickTrail(s);
      && 1 <= |r| <= s.score + 2
      && r[|r| - 1] == s.snake.head
      && |r| == (if |full| > s.score + 2 then s.score + 2 else |full|)
      && r == full[|full| - |r|..]
  {
  }

  lemma ApplyAllOptional(t: GameState, b: bool, p: Patch)
    ensures ApplyAll(t, if b then [p] else []) == if b then Apply(t, p) else t
  {
    if b {
      assert [p][1..] == [];
    }
  }

  /** The store state after each of a tick's dispatches, starting from `t`. */
  function AfterWall(t: GameState, s: GameState): GameState {
    if HitsWall(s) then Apply(t, GameOverPatch(s)) else t
  }

  function AfterEat(t: GameState, s: GameState, draws: seq<Draw>): GameState
    requires AllValid(draws)
    requires Eats(s) ==> HasFree(s.snake, draws)
  {
    if Eats(s) then Apply(t, EatPatch(s, FirstFree(s.snake, draws).value)) else t
  }

  function AfterSelf(t: GameState, s: GameState): GameState {
    if HitsSelf(s) then Apply(t, GameOverPatch(s)) else t
  }

  /** The tick's fold written out step by step. */
  lemma {:induction false} TickSteps(t: GameState, s: GameState, draws: seq<Draw>)
    requires AllValid(draws)
    requires Eats(s) ==> HasFree(s.snake, draws)
    ensures ApplyAll(t, TickPatches(s, draws))
      == Apply(AfterSelf(AfterEat(AfterWall(t, s), s, draws), s), MovePatch(s))
  {
    var wall := if HitsWall(s) then [GameOverPatch(s)] else [];
    var eat := if Eats(s) then [EatPatch(s, FirstFree(s.snake, draws).value)] else [];
    var self := if HitsSelf(s) then [GameOverPatch(s)] else [];
    assert TickPatches(s, draws) == wall + eat + self + [MovePatch(s)];
    ApplyAllAppend(t, wall + eat + self, [MovePatch(s)]);
    ApplyAllAppend(t, wall + eat, self);
    ApplyAllAppend(t, wall, eat);
    var u1 := ApplyAll(t, wall);
    ApplyAllOptional(t, HitsWall(s), GameOverPatch(s));
    var u2 := ApplyAll(u1, eat);
    if Eats(s) {
      ApplyAllOptional(u1, true, EatPatch(s, FirstFree(s.snake, draws).value));
    } else {
      assert u2 == u1;
    }
    var u3 := ApplyAll(u2, self);
    ApplyAllOptional(u2, HitsSelf(s), GameOverPatch(s));
    ApplyAllOptional(u3, true, MovePatch(s));
  }

  /** The fold of a tick's patches over any store state `t`, field by field. */
  lemma TickOutcome(t: GameState, s: GameState, draws: seq<Draw>)
    requires AllValid(draws)
    requires Eats(s) ==> HasFree(s.snake, draws)
    ensures var u := ApplyAll(t, TickPatches(s, draws));
      var record := Dies(s) && s.score > s.highScore;
      && u.gameDelay == t.gameDelay
      && u.countDown == (if Dies(s) then 4 else t.countDown)
      && u.running == (t.running && !Dies(s))
      && u.isLost == (t.isLost || Dies(s))
      && u.highScore == (if record then s.score else t.highScore)
      && u.newHighScore == (record || t.newHighScore)
      && u.score == (if Eats(s) then s.score + 1 else t.score)
      && u.snake == Snake(NextHead(s), TickTrail(s))
      && u.apple == (if Eats(s) then FirstFree(s.snake, draws).value else t.apple)
      && u.velocity == (if Dies(s) then Still else t.velocity)
      && u.previousVelocity == s.velocity
  {
    TickSteps(t, s, draws);
    GameOverEffect(s, t);
    GameOverEffect(s, AfterEat(AfterWall(t, s), s, draws));
  }

  /** Every tick ends with the move: head := head + velocity, previous velocity := the
      snapshot's velocity, trail as computed; the move patch touches nothing else. */
  lemma TickCommitsMove(s: GameState, draws: seq<Draw>)
    requires AllValid(draws)
    requires Eats(s) ==> HasFree(s.snake, draws)
    ensures var ps := TickPatches(s, draws);
      1 <= |ps| <= 4 && ps[|ps| - 1] == MovePatch(s)
    ensures var u := Tick(s, draws);
      && u.snake.head == Point(s.snake.head.x + s.velocity.dx, s.snake.head.y + s.velocity.dy)
      && u.snake.trail == TickTrail(s)
      && u.previousVelocity == s.velocity
    ensures forall f :: Present(MovePatch(s), f) <==> f == SnakeField || f == PreviousVelocityField
  {
    TickOutcome(s, s, draws);
    forall f ensures Present(MovePatch(s), f) <==> f == SnakeField || f == PreviousVelocityField {
      match f
      case DelayField =>
      case CountDownField =>
      case RunningField =>
      case LostField =>
      case HighScoreField =>
      case NewHighScoreField =>
      case ScoreField =>
      case SnakeField =>
      case AppleField =>
      case VelocityField =>
      case PreviousVelocityField =>
    }
  }

  /** A wall hit dispatches game over first, yet the move still follows it: the out-of-grid
      head is committed to a lost, stopped game. */
  lemma TickWallHit(s: GameState, draws: seq<Draw>)
    requires AllValid(draws)
    requires Eats(s) ==> HasFree(s.snake, draws)
    requires HitsWall(s)
    ensures var ps := TickPatches(s, draws);
      |ps| >= 2 && ps[0] == GameOverPatch(s) && ps[|ps| - 1] == MovePatch(s)
    ensures var u := Tick(s, draws);
      && u.isLost && !u.running && u.velocity == Still && u.countDown == 4
      && u.snake.head == NextHead(s) && !InGrid(u.snake.head)
  {
    TickOutcome(s, s, draws);
  }

  /** A tick raises the score by exactly one when the next head is on the apple, installing a
      free cell as the new apple, and leaves score and apple alone otherwise. */
  lemma TickScore(s: GameState, draws: seq<Draw>)
    requires AllValid(draws)
    requires Eats(s) ==> HasFree(s.snake, draws)
    ensures var u := Tick(s, draws);
      && u.score == (if Eats(s) then s.score + 1 else s.score)
      && (Eats(s) ==> InGrid(u.apple) && !Occupied(s.snake, u.apple))
      && (!Eats(s) ==> u.apple == s.apple)
  {
    TickOutcome(s, s, draws);
  }

  /** Eating and colliding in the same tick both take effect: the score still rises while the
      game ends, and the record is judged on the score from before the apple. */
  lemma TickEatAndDie(s: GameState, draws: seq<Draw>)
    requires AllValid(draws)
    requires Eats(s) && HasFree(s.snake, draws)
    requires Dies(s)
    ensures var u := Tick(s, draws);
      && u.score == s.score + 1 && u.isLost && !u.running
      && (s.score == s.highScore ==> u.highScore == s.highScore && u.score > u.highScore)
  {
    TickOutcome(s, s, draws);
  }

  /** A next head on the cut trail ends the game. */
  lemma TickSelfHit(s: GameState, draws: seq<Draw>)
    requires AllValid(draws)
    requires Eats(s) ==> HasFree(s.snake, draws)
    requires NextHead(s) in TickTrail(s)
    ensures var u := Tick(s, draws);
      u.isLost && !u.running && u.velocity == Still && u.countDown == 4
  {
    TickOutcome(s, s, draws);
  }

  /** A tick ends the game exactly on a wall or trail hit, and never lowers the record. */
  lemma TickLostIff(s: GameState, draws: seq<Draw>)
    requires AllValid(draws)
    requires Eats(s) ==> HasFree(s.snake, draws)
    ensures var u := Tick(s, draws);
      && (u.isLost <==> s.isLost || Dies(s))
      && (u.running <==> s.running && !Dies(s))
      && u.highScore >= s.highScore
      && u.score >= s.score
      && u.gameDelay == s.gameDelay
  {
    TickOutcome(s, s, draws);
  }

  /** The apple drawn on an eating tick is checked against the pre-tick snake only: it can
      land on the cell just eaten, which is the new head. */
  lemma TickAppleCanCoverNewHead()
    ensures var s := InitState().(snake := Snake(Point(5, 5), []), velocity := Velocity(1, 0), apple := Point(6, 5));
      var draws := [Draw(0.25, 0.28)];
      && AllValid(draws) && Eats(s) && HasFree(s.snake, draws)
      && Tick(s, draws).apple == Tick(s, draws).snake.head
  {
    var s := InitState().(snake := Snake(Point(5, 5), []), velocity := Velocity(1, 0), apple := Point(6, 5));
    var draws := [Draw(0.25, 0.28)];
    assert DrawCell(draws[0]) == Point(6, 5);
    assert !Occupied(s.snake, DrawCell(draws[0]));
    assert FirstFree(s.snake, draws) == Some(Point(6, 5));
    TickOutcome(s, s, draws);
  }

  /** Standing still is fatal: the old head is the last cell of the kept trail. */
  lemma StillIsFatal(s: GameState, draws: seq<Draw>)
    requires AllValid(draws)
    requires Eats(s) ==> HasFree(s.snake, draws)
    requires s.velocity == Still
    ensures HitsSelf(s)
    ensures Tick(s, draws).isLost
  {
    TickTrailShape(s);
    var r := TickTrail(s);
    assert NextHead(s) == r[|r| - 1];
    TickOutcome(s, s, draws);
  }
}
