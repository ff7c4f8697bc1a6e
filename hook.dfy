/** The hook that owns the reducer-held state and the controller: after every
    change the controller's snapshot is refreshed from the store, and each
    interval or effect fires only under its arming condition
    (src/hooks/useSnakeGame.ts). */
module Hook {
  import opened Wrappers
  import opened Constants
  import opened State
  import opened Reducer
  import opened Rules
  import opened Controller
  import opened Lifecycle

  class SnakeGame {
    const store: Store
    const controller: GameController

    /** The controller dispatches into this store and its snapshot is the store's state. */
    ghost predicate Valid()
      reads this, store, controller
    {
      controller.store == store && controller.state == store.state
    }

    /** Mounting: the initial state, the controller, then the record read from storage. */
    constructor (storedHighScore: int)
      ensures Valid() && fresh(store) && fresh(controller)
      ensures store.state == Apply(InitState(), EmptyPatch.(highScore := Some(storedHighScore)))
    {
      var st := new Store(InitState());
      var c := new GameController(st);
      store := st;
      controller := c;
      new;
      st.Dispatch(Update(EmptyPatch.(highScore := Some(storedHighScore))));
      c.UpdateState(st.state);
    }

    /** The effect that hands each new state to the controller. */
    method Refresh()
      requires controller.store == store
      modifies controller`state
      ensures Valid() && store.state == old(store.state)
    {
      controller.UpdateState(store.state);
    }

    method Start(draws: seq<Draw>)
      requires Valid() && Enabled(store.state, StartPressed(draws))
      modifies store, controller`state
      ensures Valid() && store.state == Step(old(store.state), StartPressed(draws))
    {
      controller.StartGame(draws);
      Refresh();
    }

    /** The game interval: armed while running with the countdown over; its callback moves
        the snake unless the game is lost. */
    method OnGameInterval(draws: seq<Draw>)
      requires Valid() && Enabled(store.state, GameInterval(draws))
      modifies store, controller`state
      ensures Valid() && store.state == Step(old(store.state), GameInterval(draws))
    {
      if store.state.running && store.state.countDown == 0 {
        if !store.state.isLost {
          controller.UpdateSnake(draws);
        }
      }
      Refresh();
    }

    /** The countdown interval: armed while the countdown is 1, 2 or 3; lowers it by one. */
    method OnCountdownInterval()
      requires Valid()
      modifies store, controller`state
      ensures Valid() && store.state == Step(old(store.state), CountdownInterval)
    {
      if store.state.countDown > 0 && store.state.countDown < 4 {
        store.Dispatch(Update(EmptyPatch.(countDown := Some(store.state.countDown - 1))));
      }
      Refresh();
    }

    /** The effect that follows a score change and scales the speed. */
    method OnScoreChange()
      requires Valid()
      modifies store, controller`state
      ensures Valid() && store.state == Step(old(store.state), ScoreChanged)
    {
      if store.state.score > MinGameSpeed && store.state.score <= MaxGameSpeed {
        store.Dispatch(Update(EmptyPatch.(gameDelay := Some(1000.0 / (store.state.score as real)))));
      }
      Refresh();
    }

    method OnKey(key: string)
      requires Valid()
      modifies store, controller`state
      ensures Valid() && store.state == Step(old(store.state), KeyPressed(key))
    {
      controller.OnKeyDown(key);
      Refresh();
    }
  }
}
