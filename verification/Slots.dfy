/** The slot discipline of the listeners: a permit is taken before accepting (or
    receiving), handed to the spawned handler, and returned when either ends. */
module Slots {
  import opened Bytes

  /** The accept loop waits for a permit, holds one while accepting, or has ended. */
  datatype Loop = Waiting | Holding | Ended

  datatype State = State(free: nat, loop: Loop, handlers: nat)

  datatype Step =
    | Acquire       // the loop takes a permit
    | Accept        // a connection or datagram arrives and is handed, with the permit, to a handler
    | AcceptFails   // the failure is logged and the loop retries, dropping the permit
    | ReceiveFails  // the UDP loop ends with the error, dropping the permit
    | Finish        // a handler ends, one way or another

  function Init(maxConnections: nat): State { State(maxConnections, Waiting, 0) }

  function Next(s: State, step: Step): Option<State> {
    match step
    case Acquire => if s.loop == Waiting && s.free > 0 then Some(State(s.free - 1, Holding, s.handlers)) else None
    case Accept => if s.loop == Holding then Some(State(s.free, Waiting, s.handlers + 1)) else None
    case AcceptFails => if s.loop == Holding then Some(State(s.free + 1, Waiting, s.handlers)) else None
    case ReceiveFails => if s.loop == Holding then Some(State(s.free + 1, Ended, s.handlers)) else None
    case Finish => if s.handlers > 0 then Some(State(s.free + 1, s.loop, s.handlers - 1)) else None
  }

  function Run(s: State, steps: seq<Step>): Option<State>
    decreases steps
  {
    if steps == [] then Some(s)
    else match Next(s, steps[0])
      case None => None
      case Some(t) => Run(t, steps[1..])
  }

  function Permits(s: State): nat {
    s.free + s.handlers + if s.loop == Holding then 1 else 0
  }

  lemma {:induction false} RunKeepsPermits(s: State, steps: seq<Step>)
    requires Run(s, steps).Some?
    ensures Permits(Run(s, steps).value) == Permits(s)
    decreases steps
  {
    if steps != [] { RunKeepsPermits(Next(s, steps[0]).value, steps[1..]); }
  }

  /** In every interleaving no permit is lost or made up: handlers never exceed the
      limit, and the loop is kept waiting exactly when every permit is with a handler. */
  lemma SlotsAreConserved(maxConnections: nat, steps: seq<Step>)
    requires Run(Init(maxConnections), steps).Some?
    ensures var s := Run(Init(maxConnections), steps).value;
      && Permits(s) == maxConnections
      && s.handlers <= maxConnections
      && (s.loop == Holding ==> s.handlers < maxConnections)
      && (s.loop == Waiting ==> (Next(s, Acquire).None? <==> s.handlers == maxConnections))
  {
    RunKeepsPermits(Init(maxConnections), steps);
  }
}
