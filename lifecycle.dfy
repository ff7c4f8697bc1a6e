/** The game loop's rules: which interval may fire, what the countdown and the
    speed effect dispatch, and the four phases of a game (src/hooks/useSnakeGame.ts). */
module Lifecycle {
  import opened Wrappers
  import opened Constants
  import opened State
  import opened Reducer
  import opened Rules

  // ---------------------------------------------------------------- intervals

  /** The game interval is armed only while running with the countdown over. */
  predicate TickGate(s: GameState) {
    s.running && s.countDown == 0
  }

  /** The countdown interval is armed only while the countdown shows 3, 2 or 1. */
  predicate CountdownGate(s: GameState) {
    0 < s.countDown < 4
  }

  function CountdownPatch(s: GameState): Patch {
    EmptyPatch.(countDown := Some(s.countDown - 1))
  }

  /** The effect that follows a score change: inside the speed band the delay becomes
      1000 ms divided by the score. */
  function SpeedPatch(score: int): Option<Patch> {
    if score > MinGameSpeed && score <= MaxGameSpeed then
      Some(EmptyPatch.(gameDelay := Some(1000.0 / (score as real))))
    else None
  }

  /** The speed effect sets only the delay, exactly inside the band, and always to a delay
      shorter than the initial one. */
  lemma SpeedPatchEffect(t: GameState, score: int)
    ensures SpeedPatch(score).Some? <==> InSpeedBand(score)
    ensures var u := ApplyOpt(t, SpeedPatch(score));
      && u == t.(gameDelay := u.gameDelay)
      && (InSpeedBand(score) ==> u.gameDelay == 1000.0 / (score as real) && u.gameDelay < InitialDelay())
      && (!InSpeedBand(score) ==> u.gameDelay == t.gameDelay)
  {
  }

  /** The delay a game has reached at a given score when the speed effect has followed every
      score change since the start: 100 ms up to the band, 1000/score inside it, and the
      band's last value above it. */
  function ScaledDelay(score: nat): real {
    if score <= MinGameSpeed then InitialDelay()
    else if score <= MaxGameSpeed then 1000.0 / (score as real)
    else 1000.0 / (MaxGameSpeed as real)
  }

  /** Raising the score by one and running the speed effect keeps the delay at its scaled
      value and never makes it longer. */
  lemma ScoreUpNeverSlows(s: GameState)
    requires s.gameDelay == ScaledDelay(s.score)
    ensures var t := s.(score := s.score + 1);
      var u := ApplyOpt(t, SpeedPatch(t.score));
      u.gameDelay == ScaledDelay(t.score) && u.gameDelay <= s.gameDelay
  {
  }

  // ---------------------------------------------------------------- events

  /** What can happen to the game: a start, a firing of either interval, the effect after a
      score change, a key press. The draws are the random candidates an apple needs. */
  datatype Event =
    | StartPressed(draws: seq<Draw>)
    | GameInterval(draws: seq<Draw>)
    | CountdownInterval
    | ScoreChanged
    | KeyPressed(key: string)

  /** The random candidates given with an event include a free cell wherever one is drawn. */
  predicate Enabled(s: GameState, e: Event) {
    match e
    case StartPressed(draws) => AllValid(draws) && HasFree(s.snake, draws)
    case GameInterval(draws) => AllValid(draws) && (Eats(s) ==> HasFree(s.snake, draws))
    case _ => true
  }

  /** The state after one event, with the controller's snapshot equal to the store's state. */
  function Step(s: GameState, e: Event): GameState
    requires Enabled(s, e)
  {
    match e
    case StartPressed(draws) => Apply(s, StartPatch(FirstFree(s.snake, draws).value))
    case GameInterval(draws) => if TickGate(s) && !s.isLost then Tick(s, draws) else s
    case CountdownInterval => if CountdownGate(s) then Apply(s, CountdownPatch(s)) else s
    case ScoreChanged => ApplyOpt(s, SpeedPatch(s.score))
    case KeyPressed(key) => ApplyOpt(s, KeyPatch(s, key))
  }

  // ---------------------------------------------------------------- phases

  datatype Phase = Idle | CountingDown | Playing | Lost

  /** The flags and the countdown fit one of the four phases. */
  predicate Coherent(s: GameState) {
    && 0 <= s.countDown <= 4
    && (s.running <==> s.countDown < 4)
    && (s.isLost ==> s.countDown == 4)
  }

  function PhaseOf(s: GameState): Phase
    requires Coherent(s)
  {
    if s.isLost then Lost
    else if s.countDown == 4 then Idle
    else if s.countDown == 0 then Playing
    else CountingDown
  }

  /** Before any game, with whatever record was loaded, the game is idle. */
  lemma InitIsIdle(storedHighScore: int)
    ensures var s := Apply(InitState(), EmptyPatch.(highScore := Some(storedHighScore)));
      Coherent(s) && PhaseOf(s) == Idle && s.highScore == storedHighScore
  {
  }

  /** The game interval does its work exactly in the playing phase, the countdown interval
      exactly while counting down. */
  lemma GatesMatchPhases(s: GameState)
    requires Coherent(s)
    ensures TickGate(s) && !s.isLost <==> PhaseOf(s) == Playing
    ensures CountdownGate(s) <==> PhaseOf(s) == CountingDown
  {
  }

  /** Every event keeps the state coherent and moves between phases only along
      idle/lost -> counting down -> playing -> lost (a start may restart at any time). */
  lemma StepPhases(s: GameState, e: Event)
    requires Coherent(s) && Enabled(s, e)
    ensures Coherent(Step(s, e))
    ensures e.StartPressed? ==> PhaseOf(Step(s, e)) == CountingDown
    ensures e.CountdownInterval? && PhaseOf(s) == CountingDown ==>
      PhaseOf(Step(s, e)) == (if s.countDown == 1 then Playing else CountingDown)
    ensures e.GameInterval? && PhaseOf(s) == Playing ==>
      PhaseOf(Step(s, e)) == (if Dies(s) then Lost else Playing)
    ensures (!e.StartPressed? && !(e.CountdownInterval? && PhaseOf(s) == CountingDown)
             && !(e.GameInterval? && PhaseOf(s) == Playing)) ==> PhaseOf(Step(s, e)) == PhaseOf(s)
  {
    match e
    case StartPressed(draws) =>
      StartEffect(s, FirstFree(s.snake, draws).value);
    case GameInterval(draws) =>
      if TickGate(s) && !s.isLost {
        TickOutcome(s, s, draws);
      }
    case CountdownInterval =>
    case ScoreChanged =>
      SpeedPatchEffect(s, s.score);
    case KeyPressed(key) =>
      KeyPatchEffect(s, s, key);
  }

  /** No event lowers the record. */
  lemma StepKeepsRecord(s: GameState, e: Event)
    requires Enabled(s, e)
    ensures Step(s, e).highScore >= s.highScore
  {
    match e
    case StartPressed(draws) =>
      StartEffect(s, FirstFree(s.snake, draws).value);
    case GameInterval(draws) =>
      if TickGate(s) && !s.isLost {
        TickLostIff(s, draws);
      }
    case CountdownInterval =>
    case ScoreChanged =>
      SpeedPatchEffect(s, s.score);
    case KeyPressed(key) =>
      KeyPatchEffect(s, s, key);
  }

  /** Only a start lowers the score (to zero); a tick raises it by at most one and every
      other event leaves it. */
  lemma StepScore(s: GameState, e: Event)
    requires Enabled(s, e)
    ensures e.StartPressed? ==> Step(s, e).score == 0
    ensures e.GameInterval? ==> s.score <= Step(s, e).score <= s.score + 1
    ensures !e.GameInterval? && !e.StartPressed? ==> Step(s, e).score == s.score
  {
    match e
    case StartPressed(draws) =>
      StartEffect(s, FirstFree(s.snake, draws).value);
    case GameInterval(draws) =>
      if TickGate(s) && !s.isLost {
        TickScore(s, draws);
      }
    case CountdownInterval =>
    case ScoreChanged =>
      SpeedPatchEffect(s, s.score);
    case KeyPressed(key) =>
      KeyPatchEffect(s, s, key);
  }

  // ---------------------------------------------------------------- countdown

  /** `n` firings of the countdown interval. */
  function Countdowns(s: GameState, n: nat): GameState
    decreases n
  {
    if n == 0 then s else Countdowns(Step(s, CountdownInterval), n - 1)
  }

  /** Once at zero, further firings change nothing. */
  lemma {:induction false} CountdownStaysAtZero(s: GameState, n: nat)
    requires s.countDown == 0
    ensures Countdowns(s, n) == s
    decreases n
  {
    if n > 0 {
      assert Step(s, CountdownInterval) == s;
      CountdownStaysAtZero(s, n - 1);
    }
  }

  /** Each firing lowers the countdown by exactly one; from 3 it reaches 0 after three
      firings, the game is then playing, and the countdown interval stays quiet. */
  lemma {:induction false} CountdownFromThree(s: GameState, n: nat)
    requires Coherent(s) && s.countDown == 3
    requires n >= 3
    ensures Step(s, CountdownInterval).countDown == 2
    ensures Countdowns(s, 1).countDown == 2 && Countdowns(s, 2).countDown == 1
    ensures var u := Countdowns(s, n);
      && u.countDown == 0 && Coherent(u) && PhaseOf(u) == Playing && !CountdownGate(u)
      && u == s.(countDown := 0)
  {
    var s1 := Step(s, CountdownInterval);
    var s2 := Step(s1, CountdownInterval);
    var s3 := Step(s2, CountdownInterval);
    assert s3 == s.(countDown := 0);
    assert Countdowns(s, 1) == Countdowns(s1, 0) == s1;
    assert Countdowns(s, 2) == Countdowns(s1, 1) == Countdowns(s2, 0) == s2;
    assert Countdowns(s, n) == Countdowns(s1, n - 1) == Countdowns(s2, n - 2) == Countdowns(s3, n - 3);
    CountdownStaysAtZero(s3, n - 3);
  }
}
