/** Sandbox identifiers: a time-seeded counter in the high bits, random low bits, and a bump on restore. */
module SandboxIds {
  import opened Arithmetic

  const RANDOM_SPAN: nat := 0x1_0000
  const COUNTER_LIMIT: nat := 0x1_0000_0000_0000
  const U64: nat := 0x1_0000_0000_0000_0000

  /** `now << 16` on 64 bits. */
  function InitCounter(seconds: nat): nat {
    seconds * RANDOM_SPAN % U64
  }

  /** `(base << 16) | rand` on 64 bits, with rand below 2^16. */
  function MakeId(base: nat, rand: nat): nat
    requires rand < RANDOM_SPAN
  {
    base * RANDOM_SPAN % U64 + rand
  }

  datatype Event = Created(rand: nat) | Restored(id: nat)

  predicate IsEvent(e: Event) {
    match e
    case Created(rand) => rand < RANDOM_SPAN
    case Restored(id) => id < U64
  }

  function Step(counter: nat, e: Event): nat {
    match e
    case Created(_) => (counter + 1) % U64
    case Restored(id) => if counter <= id / RANDOM_SPAN then id / RANDOM_SPAN + 1 else counter
  }

  /** The global counter; `fetch_add` and `fetch_update` are atomic, so concurrent callers take turns. */
  class SandboxCounter {
    var next: nat

    constructor (seconds: nat)
      ensures next == InitCounter(seconds)
    {
      next := InitCounter(seconds);
    }

    method NewId(rand: nat) returns (id: nat)
      requires rand < RANDOM_SPAN
      modifies this
      ensures id == MakeId(old(next), rand) && next == Step(old(next), Created(rand))
    {
      var base := next;
      next := (next + 1) % U64;
      id := MakeId(base, rand);
    }

    method Restore(id: nat)
      requires id < U64
      modifies this
      ensures next == Step(old(next), Restored(id))
    {
      var prev := id / RANDOM_SPAN;
      if next <= prev {
        next := prev + 1;
      }
    }
  }

  // ---- Whole runs --------------------------------------------------------------------

  /** The counter before event i. */
  function CounterAt(counter: nat, events: seq<Event>, i: nat): nat
    requires i <= |events|
  {
    if i == 0 then counter else Step(CounterAt(counter, events, i - 1), events[i - 1])
  }

  /** The identifier event i issues or brings back. */
  function IdAt(counter: nat, events: seq<Event>, i: nat): nat
    requires i < |events| && IsEvent(events[i])
  {
    match events[i]
    case Created(rand) => MakeId(CounterAt(counter, events, i), rand)
    case Restored(id) => id
  }

  /** The counter stays below 2^48 as long as ids are issued from it. */
  ghost predicate StaysInRange(counter: nat, events: seq<Event>) {
    forall i | 0 <= i < |events| && events[i].Created? :: CounterAt(counter, events, i) < COUNTER_LIMIT
  }

  lemma {:induction false} CounterPasses(counter: nat, events: seq<Event>, i: nat, j: nat)
    requires forall e | e in events :: IsEvent(e)
    requires StaysInRange(counter, events) && i < j <= |events|
    ensures CounterAt(counter, events, j) > IdAt(counter, events, i) / RANDOM_SPAN
    decreases j
  {
    var before, e := CounterAt(counter, events, j - 1), events[j - 1];
    assert e in events;
    if i == j - 1 {
      if e.Created? {
        assert IdAt(counter, events, i) == before * RANDOM_SPAN + e.rand;
      }
    } else {
      CounterPasses(counter, events, i, j - 1);
    }
  }

  lemma ShiftWraps(counter: nat)
    ensures counter * RANDOM_SPAN % U64 == counter % COUNTER_LIMIT * RANDOM_SPAN
  {
    var high, low := counter / COUNTER_LIMIT, counter % COUNTER_LIMIT;
    assert counter * RANDOM_SPAN == high * U64 + low * RANDOM_SPAN;
  }

  /** An id in range holds the counter value it was made from and the random bits, and nothing else. */
  lemma IdEncodesCounter(counter: nat, rand: nat)
    requires rand < RANDOM_SPAN
    ensures MakeId(counter, rand) / RANDOM_SPAN == counter % COUNTER_LIMIT &&
      MakeId(counter, rand) % RANDOM_SPAN == rand
    ensures MakeId(counter, rand) < U64
  {
    ShiftWraps(counter);
  }

  /** Every id issued is above every id issued or restored before it, whatever the random bits are. */
  lemma IdsIncrease(seconds: nat, events: seq<Event>, i: nat, j: nat)
    requires forall e | e in events :: IsEvent(e)
    requires StaysInRange(InitCounter(seconds), events) && i < j < |events| && events[j].Created?
    ensures IdAt(InitCounter(seconds), events, i) < IdAt(InitCounter(seconds), events, j)
  {
    var start := InitCounter(seconds);
    CounterPasses(start, events, i, j);
    assert events[j] in events && CounterAt(start, events, j) < COUNTER_LIMIT;
    IdEncodesCounter(CounterAt(start, events, j), events[j].rand);
    hide CounterAt, InitCounter, MakeId;
    assert IdAt(start, events, i) / RANDOM_SPAN < IdAt(start, events, j) / RANDOM_SPAN;
  }

  /** Exactly which steps of the counter keep the order: all but the one onto a multiple of 2^48. */
  lemma NextIdIsGreater(counter: nat, rand: nat, rand': nat)
    requires 0 < counter < U64 && rand < RANDOM_SPAN && rand' < RANDOM_SPAN
    ensures MakeId(counter - 1, rand) < MakeId(counter, rand') <==> counter % COUNTER_LIMIT != 0
  {
    ShiftWraps(counter);
    ShiftWraps(counter - 1);
  }

  /** For instance from the last counter of the range to the one behind it, where ids start over. */
  lemma IdsStartOver(rand: nat, rand': nat)
    requires rand < RANDOM_SPAN && rand' < RANDOM_SPAN
    ensures MakeId(COUNTER_LIMIT - 1, rand) > MakeId(COUNTER_LIMIT, rand') == rand'
  {
    NextIdIsGreater(COUNTER_LIMIT, rand, rand');
    ShiftWraps(COUNTER_LIMIT);
    ShiftWraps(COUNTER_LIMIT - 1);
  }

  /** The id issued right after a restore is above the restored one, except behind the last id of the range. */
  lemma IdAfterRestore(counter: nat, id: nat, rand: nat)
    requires counter < U64 && id < U64 && rand < RANDOM_SPAN
    ensures var prev := id / RANDOM_SPAN;
            id < MakeId(Step(counter, Restored(id)), rand) <==>
            if counter < COUNTER_LIMIT then prev != COUNTER_LIMIT - 1
            else counter % COUNTER_LIMIT > prev || (counter % COUNTER_LIMIT == prev && rand > id % RANDOM_SPAN)
  {
    ShiftWraps(Step(counter, Restored(id)));
    assert id == id / RANDOM_SPAN * RANDOM_SPAN + id % RANDOM_SPAN;
  }

  /** How many ids the first i events issue. */
  function Creations(events: seq<Event>, i: nat): nat
    requires i <= |events|
  {
    if i == 0 then 0 else Creations(events, i - 1) + (if events[i - 1].Created? then 1 else 0)
  }

  lemma {:induction false} CounterIsBounded(counter: nat, events: seq<Event>, top: nat, i: nat)
    requires i <= |events| && forall e | e in events && e.Restored? :: e.id / RANDOM_SPAN < top
    ensures CounterAt(counter, events, i) <= Max(counter, top) + Creations(events, i)
  {
    if i == 0 {
    } else {
      assert events[i - 1] in events;
      CounterIsBounded(counter, events, top, i - 1);
    }
  }

  lemma {:induction false} CreationsGrow(events: seq<Event>, i: nat, j: nat)
    requires i <= j <= |events|
    ensures Creations(events, i) <= Creations(events, j)
  {
    if i == j {
    } else {
      CreationsGrow(events, i, j - 1);
    }
  }

  /**
   A clock below 2^32 seconds keeps the counter in range for as many ids as there are between the seed, or the
   highest id restored, and the end of the range.
   */
  lemma SeedKeepsRange(seconds: nat, events: seq<Event>, top: nat)
    requires seconds < 0x1_0000_0000 && forall e | e in events && e.Restored? :: e.id / RANDOM_SPAN < top
    requires Max(seconds * RANDOM_SPAN, top) + Creations(events, |events|) <= COUNTER_LIMIT
    ensures InitCounter(seconds) == seconds * RANDOM_SPAN && StaysInRange(InitCounter(seconds), events)
  {
    ShiftWraps(seconds);
    var counter := InitCounter(seconds);
    forall i | 0 <= i < |events| && events[i].Created?
      ensures CounterAt(counter, events, i) < COUNTER_LIMIT
    {
      CounterIsBounded(counter, events, top, i);
      CreationsGrow(events, i + 1, |events|);
    }
  }

  /** The seed starts the counter in range exactly when the clock's low 48 bits are below 2^32 seconds. */
  lemma SeedIsInRange(seconds: nat)
    ensures InitCounter(seconds) < COUNTER_LIMIT <==> seconds % COUNTER_LIMIT < 0x1_0000_0000
  {
    ShiftWraps(seconds);
  }
}
