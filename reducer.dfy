/** The reducer that merges partial updates into the snapshot, and the store
    that holds the reduced state (src/hooks/useSnakeGame.ts). */
module Reducer {
  import opened Wrappers
  import opened State

  /** An action: the source's only kind is an update carrying a patch;
      anything else is passed through unchanged. */
  datatype Action = Update(payload: Patch) | Other

  /** The object spread `{ ...s, ...p }`: every field the patch carries wins. */
  function Apply(s: GameState, p: Patch): GameState {
    GameState(
      gameDelay := p.gameDelay.GetOr(s.gameDelay),
      countDown := p.countDown.GetOr(s.countDown),
      running := p.running.GetOr(s.running),
      isLost := p.isLost.GetOr(s.isLost),
      highScore := p.highScore.GetOr(s.highScore),
      newHighScore := p.newHighScore.GetOr(s.newHighScore),
      score := p.score.GetOr(s.score),
      snake := p.snake.GetOr(s.snake),
      apple := p.apple.GetOr(s.apple),
      velocity := p.velocity.GetOr(s.velocity),
      previousVelocity := p.previousVelocity.GetOr(s.previousVelocity))
  }

  function Reduce(s: GameState, a: Action): GameState {
    match a
    case Update(p) => Apply(s, p)
    case Other => s
  }

  /** Patches dispatched in order, each merged over the result of the previous ones. */
  function ApplyAll(s: GameState, ps: seq<Patch>): GameState
    decreases |ps|
  {
    if ps == [] then s else ApplyAll(Apply(s, ps[0]), ps[1..])
  }

  /** Applying an optional patch: no patch, no change. */
  function ApplyOpt(s: GameState, p: Option<Patch>): GameState {
    match p
    case None => s
    case Some(q) => Apply(s, q)
  }

  /** Field by field, the merge takes the patch's value where it has one and keeps the old one elsewhere. */
  lemma ApplyField(s: GameState, p: Patch, f: Field)
    ensures Present(p, f) ==> Carries(p, Apply(s, p), f)
    ensures !Present(p, f) ==> SameField(s, Apply(s, p), f)
  {
  }

  /** The merge is the one state that holds every carried value and keeps every other field:
      an update overwrites exactly the fields present in the payload. */
  lemma ApplyCharacterized(s: GameState, p: Patch, t: GameState)
    ensures Apply(s, p) == t <==>
      (forall f :: Present(p, f) ==> Carries(p, t, f)) &&
      (forall f :: !Present(p, f) ==> SameField(s, t, f))
  {
    if Apply(s, p) == t {
      forall f ensures (Present(p, f) ==> Carries(p, t, f)) && (!Present(p, f) ==> SameField(s, t, f)) {
        ApplyField(s, p, f);
      }
    }
    if (forall f :: Present(p, f) ==> Carries(p, t, f)) && (forall f :: !Present(p, f) ==> SameField(s, t, f)) {
      forall f ensures SameField(Apply(s, p), t, f) {
        ApplyField(s, p, f);
        if Present(p, f) {
          assert Carries(p, t, f);
          match f
          case DelayField =>
          case CountDownField =>
          case RunningField =>
          case LostField =>
          case HighScoreField =>
          case NewHighScoreField =>
          case ScoreField =>
          case SnakeField =>
          case AppleField =>
          case VelocityField =>
          case PreviousVelocityField =>
        }
      }
      SameEverywhere(Apply(s, p), t);
    }
  }

  /** Dispatching the same update twice has the effect of dispatching it once. */
  lemma ApplyIdempotent(s: GameState, p: Patch)
    ensures Apply(Apply(s, p), p) == Apply(s, p)
  {
  }

  /** Anything but an update leaves the state as it was; the empty update too. */
  lemma ReduceOtherIsIdentity(s: GameState)
    ensures Reduce(s, Other) == s
    ensures Reduce(s, Update(EmptyPatch)) == s
  {
  }

  /** Folding over two batches is folding over the first, then over the second. */
  lemma {:induction false} ApplyAllAppend(s: GameState, ps: seq<Patch>, qs: seq<Patch>)
    ensures ApplyAll(s, ps + qs) == ApplyAll(ApplyAll(s, ps), qs)
    decreases |ps|
  {
    if ps == [] {
      assert ps + qs == qs;
    } else {
      assert (ps + qs)[1..] == ps[1..] + qs;
      ApplyAllAppend(Apply(s, ps[0]), ps[1..], qs);
    }
  }

  /** A field that no patch of the batch carries keeps its value through the fold. */
  lemma {:induction false} ApplyAllUntouched(s: GameState, ps: seq<Patch>, f: Field)
    requires forall i :: 0 <= i < |ps| ==> !Present(ps[i], f)
    ensures SameField(s, ApplyAll(s, ps), f)
    decreases |ps|
  {
    if ps != [] {
      ApplyField(s, ps[0], f);
      ApplyAllUntouched(Apply(s, ps[0]), ps[1..], f);
      match f
      case DelayField =>
      case CountDownField =>
      case RunningField =>
      case LostField =>
      case HighScoreField =>
      case NewHighScoreField =>
      case ScoreField =>
      case SnakeField =>
      case AppleField =>
      case VelocityField =>
      case PreviousVelocityField =>
    }
  }

  /** The state held by `useReducer`, changed only through dispatch. */
  class Store {
    var state: GameState

    constructor (init: GameState)
      ensures state == init
    {
      state := init;
    }

    method Dispatch(a: Action)
      modifies this
      ensures state == Reduce(old(state), a)
    {
      state := Reduce(state, a);
    }
  }
}
