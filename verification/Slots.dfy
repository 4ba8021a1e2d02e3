/** Request slots (`try_acquire_request_slot`, `src/server.rs`). */
module Slots {
  import opened Common

  // A counter that many threads raise by compare-and-exchange and lower when a guard
  // (`ActiveRequestGuard`) is dropped.

  type Thread = nat

  /** `seen` is what a thread has loaded and not yet used, `held` the threads with a guard. */
  datatype State = State(active: nat, limit: nat, seen: map<Thread, nat>, held: set<Thread>)

  datatype Action = Load(thread: Thread) | Exchange(thread: Thread) | Drop(thread: Thread)

  /** One atomic action. A load at the limit refuses; an exchange succeeds only on the loaded
      value, and otherwise the thread has to load again. */
  function Act(s: State, action: Action): State {
    match action
    case Load(t) =>
      if t in s.held then s
      else if s.active >= s.limit then s.(seen := s.seen - {t})
      else s.(seen := s.seen[t := s.active])
    case Exchange(t) =>
      if t !in s.seen || t in s.held then s
      else if s.seen[t] == s.active then s.(active := s.active + 1, seen := s.seen - {t}, held := s.held + {t})
      else s.(seen := s.seen - {t})
    case Drop(t) =>
      if t !in s.held || s.active == 0 then s else s.(active := s.active - 1, held := s.held - {t})
  }

  function Run(s: State, actions: seq<Action>): State {
    if actions == [] then s else Act(Run(s, actions[..|actions| - 1]), actions[|actions| - 1])
  }

  /** The counter is the number of guards, and every value in flight is below the limit. */
  ghost predicate Sound(s: State) {
    && s.active == |s.held| <= s.limit
    && forall t :: t in s.seen ==> s.seen[t] < s.limit && t !in s.held
  }

  /** Whatever the interleaving, there are never more guards than slots, and dropping a guard
      always finds a slot to give back. */
  lemma {:induction false} NeverOverCommitted(s: State, actions: seq<Action>)
    requires Sound(s)
    ensures Sound(Run(s, actions)) && Run(s, actions).limit == s.limit
    ensures forall t :: t in Run(s, actions).held ==> Run(s, actions).active > 0
  {
    if actions != [] {
      NeverOverCommitted(s, actions[..|actions| - 1]);
    }
    var after := Run(s, actions);
    forall t | t in after.held ensures after.active > 0 {
      assert after.held != {};
    }
  }

  /** An attempt alone fails if and only if all slots are taken. */
  lemma {:induction false} AloneFailsOnlyWhenFull(s: State, t: Thread)
    requires Sound(s) && t !in s.held
    ensures t in Run(s, [Load(t), Exchange(t)]).held <==> s.active < s.limit
  {
    var actions := [Load(t), Exchange(t)];
    assert actions[..1] == [Load(t)] && [Load(t)][..0] == [];
    assert Run(s, [Load(t)]) == Act(Run(s, []), Load(t));
    assert Run(s, actions) == Act(Run(s, [Load(t)]), Exchange(t));
  }
}
