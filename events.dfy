/** Scheduled game events and the order the event queue releases them in (game.hpp, game.cpp). */
module Events {

  /** Event kinds; on the same clock they fire in this order. */
  datatype EventType = EndOfLives | PlayerMoves | GhostMoves | FruitAppears | FruitExpires | FrightModeExpires

  /** The enumerator value of an event kind. */
  function Rank(t: EventType): (n: nat)
    ensures n < 6
    ensures n == 0 <==> t == EndOfLives
    ensures n == 1 <==> t == PlayerMoves
    ensures n == 2 <==> t == GhostMoves
    ensures n == 3 <==> t == FruitAppears
    ensures n == 4 <==> t == FruitExpires
  {
    match t
    case EndOfLives => 0
    case PlayerMoves => 1
    case GhostMoves => 2
    case FruitAppears => 3
    case FruitExpires => 4
    case FrightModeExpires => 5
  }

  lemma RankInjective(s: EventType, t: EventType)
    ensures Rank(s) == Rank(t) <==> s == t
  {
  }

  datatype Clock = Clock(value: int)

  /** An event: its kind, the tick it fires on, and its argument (the ghost number of a ghost move). */
  datatype Event = Event(kind: EventType, clock: Clock, arg: int)

  /**
   * `EventComparer`: whether `a` comes after `b`. Used as the heap's "less than", it makes the
   * heap release the earliest event first.
   */
  predicate Later(a: Event, b: Event)
  {
    if a.clock.value > b.clock.value then true
    else if a.clock.value < b.clock.value then false
    else if Rank(a.kind) > Rank(b.kind) then true
    else if Rank(a.kind) < Rank(b.kind) then false
    else a.arg > b.arg
  }

  /** The intended release order, stated independently: lexicographic on (clock, kind, argument). */
  predicate Precedes(a: Event, b: Event)
  {
    a.clock.value < b.clock.value ||
    (a.clock.value == b.clock.value && Rank(a.kind) < Rank(b.kind)) ||
    (a.clock.value == b.clock.value && Rank(a.kind) == Rank(b.kind) && a.arg < b.arg)
  }

  /** The comparer orders events exactly as the lexicographic order, reversed. */
  lemma LaterIsReversedPrecedes(a: Event, b: Event)
    ensures Later(a, b) <==> Precedes(b, a)
  {
  }

  /**
   * The comparer is a strict total order: irreflexive, transitive, and any two different events
   * are ordered one way or the other, so two events neither of which is later are the same event.
   */
  lemma LaterStrictTotal(a: Event, b: Event, c: Event)
    ensures !Later(a, a)
    ensures Later(a, b) && Later(b, c) ==> Later(a, c)
    ensures Later(a, b) ==> !Later(b, a)
    ensures a != b <==> Later(a, b) || Later(b, a)
  {
    if !Later(a, b) && !Later(b, a) {
      RankInjective(a.kind, b.kind);
    }
  }

  /** `e` is released no later than anything in `events`. */
  predicate Earliest(e: Event, events: seq<Event>)
  {
    forall i :: 0 <= i < |events| ==> !Later(e, events[i])
  }

  /** `frightMode()`: fright mode is on while its expiry event is still queued. */
  predicate FrightPending(events: seq<Event>)
  {
    exists i :: 0 <= i < |events| && events[i].kind == FrightModeExpires
  }

  /** The queue without its element at index k. */
  function Without(events: seq<Event>, k: nat): (r: seq<Event>)
    requires k < |events|
    ensures |r| == |events| - 1
  {
    events[..k] + events[k + 1..]
  }

  /** Removing one element keeps every other element, and nothing else. */
  lemma WithoutContents(events: seq<Event>, k: nat)
    requires k < |events|
    ensures multiset(Without(events, k)) == multiset(events) - multiset{events[k]}
    ensures forall e :: e in events && e != events[k] ==> e in Without(events, k)
  {
    assert events == events[..k] + [events[k]] + events[k + 1..];
    assert multiset(events) == multiset(events[..k]) + multiset{events[k]} + multiset(events[k + 1..]);
    forall e | e in events && e != events[k] ensures e in Without(events, k) {
      var i :| 0 <= i < |events| && events[i] == e;
      if i < k {
        assert Without(events, k)[i] == e;
      } else {
        assert Without(events, k)[i - 1] == e;
      }
    }
  }

  // ---------------------------------------------------------------
  // The measure that shows the game loop ends

  /** How far a clock lies before the horizon; events past it weigh nothing. */
  function Urgency(c: Clock, horizon: int): nat
  {
    if c.value <= horizon then horizon + 1 - c.value else 0
  }

  /** A later clock is strictly less urgent, as long as the earlier one is within the horizon. */
  lemma UrgencyDecreases(c: Clock, d: Clock, horizon: int)
    requires c.value < d.value && c.value <= horizon
    ensures Urgency(d, horizon) < Urgency(c, horizon)
  {
  }

  /** The total urgency of the queued events. */
  function Weight(events: seq<Event>, horizon: int): nat
  {
    if events == [] then 0 else Weight(events[..|events| - 1], horizon) + Urgency(events[|events| - 1].clock, horizon)
  }

  lemma {:induction false} WeightConcat(a: seq<Event>, b: seq<Event>, horizon: int)
    ensures Weight(a + b, horizon) == Weight(a, horizon) + Weight(b, horizon)
    decreases |b|
  {
    if b != [] {
      var c := a + b;
      assert c[..|c| - 1] == a + b[..|b| - 1];
      WeightConcat(a, b[..|b| - 1], horizon);
    } else {
      assert a + b == a;
    }
  }

  /** Queueing an event adds its urgency. */
  lemma WeightAppend(events: seq<Event>, e: Event, horizon: int)
    ensures Weight(events + [e], horizon) == Weight(events, horizon) + Urgency(e.clock, horizon)
  {
    assert (events + [e])[..|events|] == events;
  }

  /** Removing an event subtracts its urgency. */
  lemma WeightWithout(events: seq<Event>, k: nat, horizon: int)
    requires k < |events|
    ensures Weight(events, horizon) == Weight(Without(events, k), horizon) + Urgency(events[k].clock, horizon)
  {
    assert events == (events[..k] + [events[k]]) + events[k + 1..];
    WeightConcat(events[..k] + [events[k]], events[k + 1..], horizon);
    WeightAppend(events[..k], events[k], horizon);
    WeightConcat(events[..k], events[k + 1..], horizon);
  }
}
