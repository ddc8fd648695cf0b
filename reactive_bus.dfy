/**
 The charms.reactive state bus as the coordinator layer sees it: a set of
 named states that hook code sets, removes and lists.
 */
module ReactiveBus {

  class Bus {
    var states: set<string>

    constructor (initial: set<string>)
      ensures states == initial
    {
      states := initial;
    }

    /** `charms.reactive.bus.get_states()` */
    function GetStates(): set<string>
      reads this
    {
      states
    }

    /** `charms.reactive.set_state(state)`: setting a state that is already set changes nothing. */
    method SetState(state: string)
      modifies this
      ensures states == old(states) + {state}
    {
      states := states + {state};
    }

    /** `charms.reactive.remove_state(state)`: removing a state that is not set changes nothing. */
    method RemoveState(state: string)
      modifies this
      ensures states == old(states) - {state}
    {
      states := states - {state};
    }
  }
}
