/**
 The performance-counter branch of tickcounter_win32.c. Readings of the counter are parameters,
 integers are unbounded.
 */
module TickCounter {

  const MICROSECONDS := 1000000

  /** The fields a call changes: `last_perf_counter`, and `current_ms`, which counts microseconds. */
  datatype Clock = Clock(last: int, us: int)

  /** One call: the whole microseconds that have passed are counted, the ticks left over carried. */
  function Advance(frequency: int, clock: Clock, counter: int): Clock
    requires frequency > 0
  {
    var ticks := (counter - clock.last) * MICROSECONDS;
    var remainder := ticks % frequency / MICROSECONDS;
    Clock(counter - remainder, clock.us + ticks / frequency)
  }

  function Run(frequency: int, clock: Clock, counters: seq<int>): Clock
    requires frequency > 0
  {
    if counters == [] then clock
    else Advance(frequency, Run(frequency, clock, counters[..|counters| - 1]), counters[|counters| - 1])
  }

  ghost predicate NonDecreasing(start: int, counters: seq<int>) {
    && (counters != [] ==> start <= counters[0])
    && forall i :: 0 <= i < |counters| - 1 ==> counters[i] <= counters[i + 1]
  }

  function Latest(start: int, counters: seq<int>): int {
    if counters == [] then start else counters[|counters| - 1]
  }

  /**
   What one call does to time and ticks: the ticks moved past are the microseconds counted, plus
   less than one microsecond's worth lost, and with the carried ticks they make less than one.
   */
  lemma AdvanceAccounts(frequency: int, clock: Clock, counter: int)
    requires frequency > 0 && clock.last <= counter
    ensures var next := Advance(frequency, clock, counter);
            var lost := (next.last - clock.last) * MICROSECONDS - (next.us - clock.us) * frequency;
            && 0 <= lost < MICROSECONDS
            && clock.last <= next.last <= counter && clock.us <= next.us
            && lost + (counter - next.last) * MICROSECONDS < frequency
  {
    var ticks := (counter - clock.last) * MICROSECONDS;
    var whole, part := ticks / frequency, ticks % frequency;
    assert ticks == whole * frequency + part;
    var remainder := part / MICROSECONDS;
    assert part == remainder * MICROSECONDS + part % MICROSECONDS;
    assert whole >= 0;
    assert part <= ticks by {
      assert whole * frequency >= 0;
    }
    var next := Advance(frequency, clock, counter);
    assert (next.us - clock.us) * frequency == whole * frequency;
  }

  /** The millionths of a tick moved past since `start` but not counted. */
  ghost function Lost(frequency: int, start: int, clock: Clock): int {
    (clock.last - start) * MICROSECONDS - clock.us * frequency
  }

  lemma LostAdds(frequency: int, start: int, before: Clock, after: Clock)
    ensures Lost(frequency, start, after) == Lost(frequency, start, before)
            + ((after.last - before.last) * MICROSECONDS - (after.us - before.us) * frequency)
  {
    assert after.us * frequency == before.us * frequency + (after.us - before.us) * frequency;
  }

  /** The whole run keeps `last` within the ticks elapsed, and loses less than a microsecond a call. */
  lemma {:induction false} RunAccounts(frequency: int, start: int, counters: seq<int>)
    requires frequency > 0 && NonDecreasing(start, counters)
    ensures var clock := Run(frequency, Clock(start, 0), counters);
            && start <= clock.last <= Latest(start, counters)
            && 0 <= Lost(frequency, start, clock) <= |counters| * (MICROSECONDS - 1)
  {
    if counters == [] {
      assert Lost(frequency, start, Clock(start, 0)) == 0;
    } else {
      hide Advance, Lost;
      var n := |counters| - 1;
      var before := Run(frequency, Clock(start, 0), counters[..n]);
      var after := Advance(frequency, before, counters[n]);
      RunAccounts(frequency, start, counters[..n]);
      AdvanceAccounts(frequency, before, counters[n]);
      LostAdds(frequency, start, before, after);
      assert |counters| * (MICROSECONDS - 1) == n * (MICROSECONDS - 1) + (MICROSECONDS - 1);
    }
  }

  /**
   The accumulated time U after n calls and T elapsed ticks is never ahead of the counter, and
   behind it by less than one microsecond plus one microsecond's worth for every earlier call.
   */
  lemma DriftBound(frequency: int, start: int, counters: seq<int>)
    requires frequency > 0 && NonDecreasing(start, counters) && counters != []
    ensures var U := Run(frequency, Clock(start, 0), counters).us;
            var T := Latest(start, counters) - start;
            U * frequency <= T * 1000000 < U * frequency + frequency + (|counters| - 1) * 1000000
  {
    hide Advance;
    var n := |counters| - 1;
    var before := Run(frequency, Clock(start, 0), counters[..n]);
    var after := Advance(frequency, before, counters[n]);
    RunAccounts(frequency, start, counters[..n]);
    AdvanceAccounts(frequency, before, counters[n]);
    LostAdds(frequency, start, before, after);
    assert n * (MICROSECONDS - 1) <= n * MICROSECONDS;
  }

  /** Counted time never decreases from one call to the next. */
  lemma RunIsMonotone(frequency: int, start: int, counters: seq<int>)
    requires frequency > 0 && NonDecreasing(start, counters) && counters != []
    ensures Run(frequency, Clock(start, 0), counters[..|counters| - 1]).us <=
            Run(frequency, Clock(start, 0), counters).us
  {
    var n := |counters| - 1;
    RunAccounts(frequency, start, counters[..n]);
    AdvanceAccounts(frequency, Run(frequency, Clock(start, 0), counters[..n]), counters[n]);
  }

  class TickCounter {
    const perfFrequency: int
    var lastPerfCounter: int
    var currentMs: int
    ghost var start: int          // the counter at creation
    ghost var readings: seq<int>  // the counter at each call

    /** The fields are those of the run of all calls so far. */
    ghost predicate Valid()
      reads this
    {
      && perfFrequency > 0 && NonDecreasing(start, readings)
      && Run(perfFrequency, Clock(start, 0), readings) == Clock(lastPerfCounter, currentMs)
    }

    /** tickcounter_create, where the performance counter is available. */
    constructor (frequency: int, counter: int)
      requires frequency > 0
      ensures Valid() && perfFrequency == frequency && start == counter && readings == []
    {
      perfFrequency := frequency;
      lastPerfCounter := counter;
      currentMs := 0;
      start, readings := counter, [];
    }

    /** tickcounter_get_current_ms, reading `counter`. */
    method GetCurrentMs(counter: int) returns (ms: int)
      requires Valid() && Latest(start, readings) <= counter
      modifies this
      ensures Valid() && start == old(start) && readings == old(readings) + [counter]
      ensures ms == Run(perfFrequency, Clock(start, 0), readings).us / 1000
      ensures ms >= old(currentMs) / 1000
    {
      ghost var before := readings;
      var perfInMs := (counter - lastPerfCounter) * MICROSECONDS;
      var remainder := perfInMs % perfFrequency / MICROSECONDS;
      perfInMs := perfInMs / perfFrequency;
      currentMs := currentMs + perfInMs;
      lastPerfCounter := counter;
      lastPerfCounter := lastPerfCounter - remainder;
      readings := readings + [counter];
      ms := currentMs / 1000;
      assert readings[..|readings| - 1] == before;
      RunIsMonotone(perfFrequency, start, readings);
    }
  }
}
