/** The game controller: it reads its own snapshot of the state and changes the
    store's state only by dispatching patches (src/controllers/GameController.ts). */
module Controller {
  import opened Wrappers
  import opened Constants
  import opened State
  import opened Reducer
  import opened Rules

  class GameController {
    /** The snapshot the controller reasons about; replaced only by UpdateState. */
    var state: GameState
    /** Where dispatched patches go. */
    const store: Store

    constructor (store: Store)
      ensures this.store == store && state == InitState()
    {
      this.store := store;
      state := InitState();
    }

    method UpdateState(s: GameState)
      modifies this`state
      ensures state == s
    {
      state := s;
    }

    /** Tries the candidates in order and returns the first cell off the snapshot's snake;
        none when every candidate is covered. */
    method GenerateApplePosition(draws: seq<Draw>) returns (apple: Option<Point>)
      requires AllValid(draws)
      ensures apple == FirstFree(state.snake, draws)
      ensures apple.Some? ==> InGrid(apple.value) && !Occupied(state.snake, apple.value)
      ensures apple.None? ==> forall i :: 0 <= i < |draws| ==> Occupied(state.snake, DrawCell(draws[i]))
    {
      var i := 0;
      while i < |draws|
        invariant 0 <= i <= |draws|
        invariant FirstFree(state.snake, draws[i..]) == FirstFree(state.snake, draws)
        invariant forall j :: 0 <= j < i ==> Occupied(state.snake, DrawCell(draws[j]))
      {
        var x := (draws[i].rx * (GridWidth() as real)).Floor;
        var y := (draws[i].ry * (GridHeight() as real)).Floor;
        if !(state.snake.head == Point(x, y) || Point(x, y) in state.snake.trail) {
          return Some(Point(x, y));
        }
        assert draws[i..][1..] == draws[i + 1..];
        i := i + 1;
      }
      return None;
    }

    method StartGame(draws: seq<Draw>)
      requires AllValid(draws) && HasFree(state.snake, draws)
      modifies store
      ensures store.state == Apply(old(store.state), StartPatch(FirstFree(state.snake, draws).value))
    {
      var apple := GenerateApplePosition(draws);
      store.Dispatch(Update(StartPatch(apple.value)));
    }

    method GameOver()
      modifies store
      ensures store.state == Apply(old(store.state), GameOverPatch(state))
    {
      var payload := EmptyPatch.(isLost := Some(true), running := Some(false), velocity := Some(Still), countDown := Some(4));
      if state.score > state.highScore {
        payload := payload.(highScore := Some(state.score), newHighScore := Some(true));
      }
      store.Dispatch(Update(payload));
    }

    /** One tick: every check reads the snapshot, every effect goes through dispatch. */
    method UpdateSnake(draws: seq<Draw>)
      requires AllValid(draws)
      requires Eats(state) ==> HasFree(state.snake, draws)
      modifies store
      ensures store.state == ApplyAll(old(store.state), TickPatches(state, draws))
    {
      var s := state;  // the snapshot: dispatching does not change it
      ghost var start := store.state;

      var next := Point(s.snake.head.x + s.velocity.dx, s.snake.head.y + s.velocity.dy);
      assert next == NextHead(s);
      if next.x < 0 || next.y < 0 || next.x >= GridWidth() || next.y >= GridHeight() {
        GameOver();
      }
      assert store.state == AfterWall(start, s);

      if next == s.apple {
        var apple := GenerateApplePosition(draws);
        store.Dispatch(Update(EmptyPatch.(score := Some(s.score + 1), apple := Some(apple.value))));
      }
      assert store.state == AfterEat(AfterWall(start, s), s, draws);

      var trail := TrimTrail(s.snake.trail + [s.snake.head], s.score + 2);
      assert trail == TickTrail(s);
      if next in trail {
        GameOver();
      }
      assert store.state == AfterSelf(AfterEat(AfterWall(start, s), s, draws), s);

      store.Dispatch(Update(EmptyPatch.(previousVelocity := Some(s.velocity), snake := Some(Snake(next, trail)))));
      TickSteps(start, s, draws);
    }

    /** Drops cells from the front until at most `bound` remain. */
    static method TrimTrail(trail: seq<Point>, bound: nat) returns (kept: seq<Point>)
      ensures kept == KeepLast(trail, bound)
      ensures |kept| <= bound && kept == trail[|trail| - |kept|..]
    {
      kept := trail;
      while |kept| > bound
        invariant KeepLast(kept, bound) == KeepLast(trail, bound)
        decreases |kept|
      {
        assert kept[1..][|kept| - 1 - bound..] == kept[|kept| - bound..];
        kept := kept[1..];
      }
    }

    /** A recognised key that does not reverse the last applied direction sets the velocity. */
    method OnKeyDown(key: string)
      modifies store
      ensures store.state == ApplyOpt(old(store.state), KeyPatch(state, key))
    {
      var velocity := KeyVelocity(key);
      if velocity.Some? {
        if !(state.previousVelocity.dx + velocity.value.dx == 0 && state.previousVelocity.dy + velocity.value.dy == 0) {
          store.Dispatch(Update(EmptyPatch.(velocity := velocity)));
        }
      }
    }
  }
}
