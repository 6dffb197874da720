/** The analyzer slots that all tool calls share: a channel used as a semaphore that is never waited for. */
module SlotLimiter {

  /** Where a tool call is: before its acquire, holding a slot, or over (served, refused as busy, or rejected
      earlier). */
  datatype Phase = Checking | Holding | Served | Busy | Rejected

  /** The slots in use, and every call that was ever made. */
  datatype State = State(capacity: nat, used: nat, calls: map<nat, Phase>)

  /** One step of one call. A call is rejected before it asks for a slot, or asks for one, or gives its slot back
      when it returns, however it returns. */
  datatype Step = Arrive(call: nat) | Reject(call: nat) | Acquire(call: nat) | Release(call: nat)

  /** What a step leads to: a new state, or a call that waits, or nothing because the call is not at this point. */
  datatype Outcome = Moved(state: State) | Blocked | NotThere

  /** A capacity that is not positive counts as one. */
  function Initial(configured: int): State {
    State(if configured <= 0 then 1 else configured, 0, map[])
  }

  function TakeStep(s: State, step: Step): Outcome {
    match step
    case Arrive(c) => if c in s.calls then NotThere else Moved(s.(calls := s.calls[c := Checking]))
    case Reject(c) =>
      if c in s.calls && s.calls[c].Checking? then Moved(s.(calls := s.calls[c := Rejected])) else NotThere
    case Acquire(c) =>
      if c !in s.calls || !s.calls[c].Checking? then NotThere
      else if s.used < s.capacity then Moved(s.(used := s.used + 1, calls := s.calls[c := Holding]))
      else Moved(s.(calls := s.calls[c := Busy]))
    case Release(c) =>
      if c !in s.calls || !s.calls[c].Holding? then NotThere
      else if s.used == 0 then Blocked
      else Moved(s.(used := s.used - 1, calls := s.calls[c := Served]))
  }

  /** Any interleaving of steps of any calls; steps that are not possible are left out. */
  function Interleave(s: State, steps: seq<Step>): State {
    if steps == [] then s
    else
      var before := Interleave(s, steps[..|steps| - 1]);
      match TakeStep(before, steps[|steps| - 1])
      case Moved(t) => t
      case _ => before
  }

  function Holders(s: State): set<nat> {
    set c | c in s.calls && s.calls[c].Holding?
  }

  ghost predicate Consistent(s: State) {
    s.used == |Holders(s)| <= s.capacity && s.capacity >= 1
  }

  lemma StepKeepsConsistent(s: State, step: Step)
    requires Consistent(s) && TakeStep(s, step).Moved?
    ensures Consistent(TakeStep(s, step).state)
  {
    var t := TakeStep(s, step).state;
    var c := step.call;
    if step.Acquire? && s.used < s.capacity {
      assert Holders(t) == Holders(s) + {c};
    } else if step.Release? {
      assert Holders(t) == Holders(s) - {c} && c in Holders(s);
    } else {
      assert Holders(t) == Holders(s);
    }
  }

  /** In every reachable state the slots in use are the calls between their acquire and their release, and never
      more than the capacity. */
  lemma {:induction false} AlwaysConsistent(configured: int, steps: seq<Step>)
    ensures Consistent(Interleave(Initial(configured), steps))
    ensures Interleave(Initial(configured), steps).capacity == Initial(configured).capacity
  {
    if steps == [] {
      assert Holders(Initial(configured)) == {};
    } else {
      AlwaysConsistent(configured, steps[..|steps| - 1]);
      var before := Interleave(Initial(configured), steps[..|steps| - 1]);
      if TakeStep(before, steps[|steps| - 1]).Moved? { StepKeepsConsistent(before, steps[|steps| - 1]); }
    }
  }

  /** In every reachable state: a call that asks for a slot is refused as busy exactly if all slots are held by
      other calls at that moment, a release never waits, and without a running call all slots are free. */
  lemma LimiterGuarantees(configured: int, steps: seq<Step>, c: nat)
    ensures var s := Interleave(Initial(configured), steps);
            && TakeStep(s, Release(c)) != Blocked
            && (c in s.calls && s.calls[c].Checking? ==>
                  var o := TakeStep(s, Acquire(c));
                  && o.Moved? && o.state.calls[c] in {Holding, Busy}
                  && (o.state.calls[c].Busy? <==> |Holders(s)| == s.capacity)
                  && c !in Holders(s) && (o.state.calls[c].Busy? ==> o.state.used == s.used))
            && (Holders(s) == {} ==> s.used == 0)
  {
    AlwaysConsistent(configured, steps);
    var s := Interleave(Initial(configured), steps);
    if c in s.calls && s.calls[c].Holding? { assert c in Holders(s); }
  }

  // ---------- the object ----------

  /** The semaphore. What the program stores is the number of slots in use; the ghost state records the calls. */
  class Limiter {
    const capacity: nat
    var used: nat
    ghost var state: State

    ghost predicate Valid()
      reads this
    {
      state.capacity == capacity && state.used == used && Consistent(state)
    }

    constructor (configured: int)
      ensures Valid() && state == Initial(configured)
    {
      capacity := if configured <= 0 then 1 else configured;
      used := 0;
      state := Initial(configured);
      new;
      assert Holders(state) == {};
    }

    /** A call arrives, or is rejected before it asks for a slot: neither touches the slots. */
    ghost method Note(step: Step)
      requires Valid() && (step.Arrive? || step.Reject?) && TakeStep(state, step).Moved?
      modifies this`state
      ensures Valid() && Moved(state) == TakeStep(old(state), step)
    {
      StepKeepsConsistent(state, step);
      state := TakeStep(state, step).state;
    }

    /** Takes a slot if one is free, and never waits. */
    method Acquire(ghost c: nat) returns (ok: bool)
      requires Valid() && c in state.calls && state.calls[c].Checking?
      modifies this
      ensures Valid() && Moved(state) == TakeStep(old(state), Step.Acquire(c))
      ensures ok == state.calls[c].Holding? == (old(used) < capacity)
    {
      StepKeepsConsistent(state, Step.Acquire(c));
      state := TakeStep(state, Step.Acquire(c)).state;
      if used < capacity {
        used := used + 1;
        return true;
      }
      return false;
    }

    /** Gives the slot of a call back; there is always one to take out, so this never waits either. */
    method Release(ghost c: nat)
      requires Valid() && c in state.calls && state.calls[c].Holding?
      modifies this
      ensures Valid() && Moved(state) == TakeStep(old(state), Step.Release(c)) && old(used) > 0
    {
      assert c in Holders(state);
      StepKeepsConsistent(state, Step.Release(c));
      state := TakeStep(state, Step.Release(c)).state;
      used := used - 1;
    }
  }

  /** One tool call from its arrival to its return, as every handler runs it: it is rejected, or refused as busy, or
      served and its slot given back. Either way the slots are as before. */
  method Handle(limiter: Limiter, ghost c: nat, valid: bool) returns (served: bool)
    requires limiter.Valid() && c !in limiter.state.calls
    modifies limiter
    ensures limiter.Valid() && limiter.used == old(limiter.used)
    ensures served == (valid && old(limiter.used) < limiter.capacity)
    ensures limiter.state.calls ==
            old(limiter.state.calls)[c := if !valid then Rejected else if served then Served else Busy]
  {
    limiter.Note(Arrive(c));
    if !valid {
      limiter.Note(Reject(c));
      return false;
    }
    served := limiter.Acquire(c);
    if served { limiter.Release(c); }
  }
}
