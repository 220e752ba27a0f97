/** The counter reducer of `src/LectureNotes.js` used with `useReducer`: a
    state holding one count, two known actions, and an error thrown for any
    other action type. JavaScript numbers are modelled as unbounded
    integers. */
module CounterReducer {
  /** The state object `{ count }`. */
  datatype CounterState = CounterState(count: int)

  /** An action object `{ type }`; `type` is a keyword here, hence `kind`. */
  datatype Action = Action(kind: string)

  /** What a call of the reducer does: return a new state or throw. */
  datatype Outcome = Returned(state: CounterState) | Thrown

  const Increment: string := "increment"
  const Decrement: string := "decrement"

  /** The initial state passed to `useReducer`. */
  const Initial: CounterState := CounterState(0)

  /** `reducer(state, action)`. */
  function Reduce(state: CounterState, action: Action): (r: Outcome)
    ensures r.Returned? <==> action.kind == "increment" || action.kind == "decrement"
    ensures action.kind == "increment" ==> r == Returned(CounterState(state.count + 1))
    ensures action.kind == "decrement" ==> r == Returned(CounterState(state.count - 1))
  {
    if action.kind == Increment then Returned(CounterState(state.count + 1))
    else if action.kind == Decrement then Returned(CounterState(state.count - 1))
    else Thrown
  }

  /** An action the reducer does not throw on. */
  predicate Known(action: Action)
  {
    action.kind == Increment || action.kind == Decrement
  }

  /** Dispatching actions one after the other; the first throw ends the run. */
  function DispatchAll(state: CounterState, actions: seq<Action>): Outcome
    decreases |actions|
  {
    if actions == [] then Returned(state)
    else match Reduce(state, actions[0])
      case Thrown => Thrown
      case Returned(next) => DispatchAll(next, actions[1..])
  }

  /** How many of the actions have the given type. */
  function CountKind(actions: seq<Action>, kind: string): nat
    decreases |actions|
  {
    if actions == [] then 0
    else (if actions[0].kind == kind then 1 else 0) + CountKind(actions[1..], kind)
  }

  /** `increment` followed by `decrement` gives back the original count. */
  lemma IncrementThenDecrement(state: CounterState)
    ensures DispatchAll(state, [Action("increment"), Action("decrement")]) == Returned(state)
  {
    assert [Action("increment"), Action("decrement")][1..] == [Action("decrement")];
  }

  /** A run of dispatches completes exactly when every action is known, and
      then the count has moved by the number of increments minus the number
      of decrements. */
  lemma {:induction false} DispatchAllCount(state: CounterState, actions: seq<Action>)
    ensures DispatchAll(state, actions).Returned? <==> forall i :: 0 <= i < |actions| ==> Known(actions[i])
    ensures DispatchAll(state, actions).Returned? ==>
      DispatchAll(state, actions).state.count
        == state.count + CountKind(actions, "increment") - CountKind(actions, "decrement")
    decreases |actions|
  {
    if actions != [] {
      var rest := actions[1..];
      match Reduce(state, actions[0])
      case Thrown =>
      case Returned(next) =>
        DispatchAllCount(next, rest);
        assert forall i :: 1 <= i < |actions| ==> actions[i] == rest[i - 1];
    }
  }

  /** Any action of another type throws, whatever the state. */
  lemma UnknownThrows(state: CounterState, kind: string)
    requires kind != "increment" && kind != "decrement"
    ensures Reduce(state, Action(kind)) == Thrown
    ensures DispatchAll(state, [Action(kind)]) == Thrown
  {
  }

  /** From the initial state `{ count: 0 }`, a run of known actions ends at
      the number of increments minus the number of decrements. */
  lemma DispatchFromInitial(actions: seq<Action>)
    requires forall i :: 0 <= i < |actions| ==> Known(actions[i])
    ensures DispatchAll(Initial, actions)
            == Returned(CounterState(CountKind(actions, "increment") - CountKind(actions, "decrement")))
  {
    DispatchAllCount(Initial, actions);
  }
}
