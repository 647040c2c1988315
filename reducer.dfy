// src/state/reducer.ts and src/state/types.ts: the application state and the
// reducer that the store folds every dispatched action through.

module Reducer {
  import opened Common

  /** The state of src/state/types.ts:1-9; `debug` maps names to numbers. */
  datatype State = State(initialized: bool, grid: GridOptions, debug: map<string, Num>)

  /**
   * The two actions of src/state/types.ts:12-14, plus any other action type
   * (the store's own start-up action, say), which the reducer's `default`
   * branch receives.
   */
  datatype Action =
    | Initialize(grid: GridOptions)
    | NextFrame(deltaTime: Num)
    | Other(kind: string)

  /** The debug entry a frame writes. */
  const DeltaTimeKey: string := "deltaTime"

  /** Not initialized, every grid dimension NaN, no debug entries (reducer.ts:3-11). */
  const InitialState: State := State(false, GridOptions(None, None, None), map[])

  /** The state the reducer works on: the one passed, or the initial state when none is. */
  function Current(state: Option<State>): (r: State)
    ensures state.None? ==> !r.initialized && r.grid == GridOptions(None, None, None) && r.debug == map[]
    ensures state.Some? ==> r == state.value
  {
    match state
    case None => InitialState
    case Some(s) => s
  }

  /**
   * `reducer(state, action)`. An `initialize` marks the state initialized and
   * takes the action's grid; a `nextFrame` records its delta time under
   * "deltaTime", but only once the state is initialized; every other action
   * leaves the state as it is.
   */
  function Reduce(state: Option<State>, action: Action): (r: State)
    ensures r.initialized <==> Current(state).initialized || action.Initialize?
    ensures r.grid == if action.Initialize? then action.grid else Current(state).grid
    ensures action.NextFrame? && Current(state).initialized ==>
              r.debug.Keys == Current(state).debug.Keys + {DeltaTimeKey} && r.debug[DeltaTimeKey] == action.deltaTime
    ensures !(action.NextFrame? && Current(state).initialized) ==> r.debug == Current(state).debug
    ensures forall k :: k in Current(state).debug && k != DeltaTimeKey ==> k in r.debug && r.debug[k] == Current(state).debug[k]
    ensures !action.Initialize? && !(action.NextFrame? && Current(state).initialized) ==> r == Current(state)
  {
    var s := Current(state);
    match action
    case Initialize(grid) => s.(initialized := true, grid := grid)
    case NextFrame(deltaTime) =>
      if !s.initialized then s
      else s.(debug := s.debug[DeltaTimeKey := deltaTime])
    case Other(_) => s
  }

  /** Dispatching the same action twice has the effect of dispatching it once. */
  lemma ReduceIdempotent(state: Option<State>, action: Action)
    ensures Reduce(Some(Reduce(state, action)), action) == Reduce(state, action)
  {
    var r := Reduce(state, action);
    if action.NextFrame? && Current(state).initialized {
      assert r.debug[DeltaTimeKey := action.deltaTime] == r.debug;
    }
  }

  /** The store's state after dispatching `actions` in order, starting from `state`. */
  function Run(state: Option<State>, actions: seq<Action>): State
    decreases |actions|
  {
    if actions == [] then Current(state) else Run(Some(Reduce(state, actions[0])), actions[1..])
  }

  /** Dispatching one more action reduces the state reached so far. */
  lemma {:induction false} RunAppend(state: Option<State>, actions: seq<Action>, last: Action)
    ensures Run(state, actions + [last]) == Reduce(Some(Run(state, actions)), last)
    decreases |actions|
  {
    if actions == [] {
      assert Run(Some(Reduce(state, last)), []) == Reduce(state, last);
    } else {
      assert (actions + [last])[1..] == actions[1..] + [last];
      RunAppend(Some(Reduce(state, actions[0])), actions[1..], last);
    }
  }

  /** The state is initialized after a run exactly when it was before, or the run held an `initialize`. */
  lemma {:induction false} InitializedIffInitializeDispatched(state: Option<State>, actions: seq<Action>)
    ensures Run(state, actions).initialized <==>
              Current(state).initialized || exists k :: 0 <= k < |actions| && actions[k].Initialize?
    decreases |actions|
  {
    if actions != [] {
      var rest := actions[1..];
      InitializedIffInitializeDispatched(Some(Reduce(state, actions[0])), rest);
      if exists k :: 0 <= k < |rest| && rest[k].Initialize? {
        var k :| 0 <= k < |rest| && rest[k].Initialize?;
        assert actions[k + 1].Initialize?;
      }
      if exists k :: 0 <= k < |actions| && actions[k].Initialize? {
        var k :| 0 <= k < |actions| && actions[k].Initialize?;
        if k > 0 {
          assert rest[k - 1].Initialize?;
        }
      }
    }
  }

  /** The grid of the last `initialize` in `actions`, or `grid` when there is none. */
  function LatestGrid(grid: GridOptions, actions: seq<Action>): GridOptions
    decreases |actions|
  {
    if actions == [] then grid
    else if actions[|actions| - 1].Initialize? then actions[|actions| - 1].grid
    else LatestGrid(grid, actions[..|actions| - 1])
  }

  /** After a run the grid is the one the last `initialize` carried, or the starting grid when none came. */
  lemma {:induction false} GridIsLatestInitialized(state: Option<State>, actions: seq<Action>)
    ensures Run(state, actions).grid == LatestGrid(Current(state).grid, actions)
    decreases |actions|
  {
    if actions != [] {
      var front := actions[..|actions| - 1];
      assert actions == front + [actions[|actions| - 1]];
      RunAppend(state, front, actions[|actions| - 1]);
      GridIsLatestInitialized(state, front);
    }
  }

  /** Frames dispatched before the first `initialize` change nothing. */
  lemma {:induction false} FramesBeforeInitializeIgnored(state: Option<State>, actions: seq<Action>)
    requires !Current(state).initialized
    requires forall k :: 0 <= k < |actions| ==> actions[k].NextFrame?
    ensures Run(state, actions) == Current(state)
    decreases |actions|
  {
    if actions != [] {
      FramesBeforeInitializeIgnored(Some(Reduce(state, actions[0])), actions[1..]);
    }
  }
}
