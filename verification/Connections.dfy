/**
 The connection slots (src/bin/postfix-ratelimitd.rs): one atomic counter, taken by the accept loop and
 given back by the handlers' guards. Every atomic operation is a step of its own.
 */
module Connections {
  import opened Wrappers

  const MAX_CONNECTIONS: nat := 512
  // A fetch_sub on zero would wrap to this.
  const USIZE_MAX: nat := 0xFFFF_FFFF_FFFF_FFFF

  /** The accept loop, between its operations on the counter. */
  datatype Loop =
    | Waiting
    | Admitting     // a slot was taken; the handler is not yet spawned
    | Refusing      // no slot was free; the increment is not yet undone

  /** `handlers` counts the guards alive; `refusedAt` notes how many were at each refusal. */
  datatype State = State(counter: nat, loop: Loop, handlers: nat, refusedAt: seq<nat>)

  datatype Event = Accept | SpawnHandler | UndoIncrement | HandlerExit

  const START := State(0, Waiting, 0, [])

  predicate Enabled(s: State, e: Event) {
    match e
    case Accept => s.loop == Waiting
    case SpawnHandler => s.loop == Admitting
    case UndoIncrement => s.loop == Refusing
    case HandlerExit => s.handlers > 0
  }

  function FetchSub(counter: nat): nat {
    if counter == 0 then USIZE_MAX else counter - 1
  }

  function Next(s: State, e: Event): State
    requires Enabled(s, e)
  {
    match e
    case Accept =>
      if s.counter >= MAX_CONNECTIONS
      then s.(counter := s.counter + 1, loop := Refusing, refusedAt := s.refusedAt + [s.handlers])
      else s.(counter := s.counter + 1, loop := Admitting)
    case SpawnHandler => s.(loop := Waiting, handlers := s.handlers + 1)
    case UndoIncrement => s.(counter := FetchSub(s.counter), loop := Waiting)
    case HandlerExit => s.(counter := FetchSub(s.counter), handlers := s.handlers - 1)
  }

  /** The state after a sequence of events, if each is enabled in its turn. */
  function After(events: seq<Event>): Option<State> {
    if events == [] then Some(START)
    else match After(events[..|events| - 1])
      case None => None
      case Some(s) =>
        var e := events[|events| - 1];
        if Enabled(s, e) then Some(Next(s, e)) else None
  }

  predicate Inv(s: State) {
    && s.counter == s.handlers + (if s.loop == Waiting then 0 else 1)
    && s.handlers + (if s.loop == Admitting then 1 else 0) <= MAX_CONNECTIONS
    && forall k :: k in s.refusedAt ==> k == MAX_CONNECTIONS
  }

  lemma {:induction false} InvHolds(events: seq<Event>)
    requires After(events).Some?
    ensures Inv(After(events).value)
  {
    if events != [] {
      InvHolds(events[..|events| - 1]);
    }
  }

  /**
   In every interleaving at most 512 handlers are alive, the counter never underflows and never exceeds 513,
   a connection is refused exactly when all 512 slots are in use at that very moment, and once every
   handler has gone the counter is back at zero.
   */
  lemma SlotsAreAccountedFor(events: seq<Event>)
    requires After(events).Some?
    ensures var s := After(events).value;
            && s.handlers <= 512 && s.handlers <= s.counter <= 513
            && (s.handlers > 0 || s.loop == Refusing ==> s.counter > 0)
            && (Enabled(s, Accept) ==> (Next(s, Accept).loop == Refusing <==> s.handlers == 512))
            && (forall k :: k in s.refusedAt ==> k == 512)
            && (s.handlers == 0 && s.loop == Waiting ==> s.counter == 0)
  {
    InvHolds(events);
  }

  lemma OneMore(events: seq<Event>, s: State, e: Event)
    requires After(events) == Some(s) && Enabled(s, e)
    ensures After(events + [e]) == Some(Next(s, e))
  {
    assert (events + [e])[..|events|] == events;
  }

  /** Every slot can be taken: there is a run that ends with `n` live handlers, for each `n` up to 512. */
  lemma {:induction false} AllSlotsCanBeTaken(n: nat) returns (events: seq<Event>)
    requires n <= 512
    ensures After(events) == Some(State(n, Waiting, n, []))
  {
    events := [];
    if n > 0 {
      events := AllSlotsCanBeTaken(n - 1);
      var s := State(n - 1, Waiting, n - 1, []);
      OneMore(events, s, Accept);
      OneMore(events + [Accept], Next(s, Accept), SpawnHandler);
      events := events + [Accept] + [SpawnHandler];
    }
  }

  /** A full house refuses, recovers, and admits again once a handler has gone. */
  lemma RefusalIsTemporary() returns (events: seq<Event>)
    ensures After(events) == Some(State(512, Waiting, 512, [512]))
  {
    events := AllSlotsCanBeTaken(512);
    var s := State(512, Waiting, 512, []);
    OneMore(events, s, Accept);
    s, events := Next(s, Accept), events + [Accept];
    OneMore(events, s, UndoIncrement);
    s, events := Next(s, UndoIncrement), events + [UndoIncrement];
    OneMore(events, s, HandlerExit);
    s, events := Next(s, HandlerExit), events + [HandlerExit];
    OneMore(events, s, Accept);
    s, events := Next(s, Accept), events + [Accept];
    OneMore(events, s, SpawnHandler);
    assert s.refusedAt == [512];
    events := events + [SpawnHandler];
  }
}
