/** The 64-bit tick count made from the 32-bit one. */
module TickCount {
  import opened Bytes

  const WRAP: int := 0x1_0000_0000

  /** A call in the middle of a run: `high` and `last` as they were left, and the time in
      milliseconds since the system was started. */
  function Result(high: UInt32, last: UInt32, now: nat): int {
    NextHigh(high, last, now) * WRAP + now % WRAP
  }

  function NextHigh(high: UInt32, last: UInt32, now: nat): UInt32 {
    if now % WRAP < last then (high + 1) % WRAP else high
  }

  /** All results of a run, in the order in which the calls pass the critical section. */
  function Results(high: UInt32, last: UInt32, times: seq<nat>): (r: seq<int>)
    ensures |r| == |times|
    decreases |times|
  {
    if times == [] then []
    else [Result(high, last, times[0])] +
         Results(NextHigh(high, last, times[0]), times[0] % WRAP, times[1..])
  }

  /** Time does not go back. */
  predicate Ordered(start: nat, times: seq<nat>)
    decreases |times|
  {
    times == [] || (start <= times[0] && Ordered(times[0], times[1..]))
  }

  /** No more than `WRAP` minus one milliseconds pass between two calls. */
  predicate Frequent(start: nat, times: seq<nat>)
    decreases |times|
  {
    times == [] || (times[0] - start < WRAP && Frequent(times[0], times[1..]))
  }

  /** Every result is the true time less `base`. */
  predicate Exact(base: nat, times: seq<nat>, results: seq<int>)
    requires |times| == |results|
  {
    forall i :: 0 <= i < |times| ==> results[i] == times[i] - base
  }

  /** The call at `before` was exact, and the one at `now` fits into 64 bits. */
  predicate Follows(high: UInt32, before: nat, now: nat, base: nat) {
    && before <= now && base % WRAP == 0 && before - base == high * WRAP + before % WRAP
    && now - base < WRAP * WRAP
  }

  /** One call is exact if and only if less than a whole turn of the 32-bit counter has passed
      since the one before. */
  lemma CallExact(high: UInt32, before: nat, now: nat, base: nat)
    requires Follows(high, before, now, base)
    ensures Result(high, before % WRAP, now) == now - base <==> now - before < WRAP
    ensures now - before < WRAP ==>
              now - base == NextHigh(high, before % WRAP, now) * WRAP + now % WRAP
  {
    var a, b := before / WRAP, now / WRAP;
    assert before == a * WRAP + before % WRAP && now == b * WRAP + now % WRAP;
    assert a * WRAP - base == high * WRAP;
    assert now - base == (b - a + high) * WRAP + now % WRAP;
    assert (b - a + high) * WRAP < WRAP * WRAP;
    assert a <= b && b - a + high < WRAP;
  }

  /** Calls 2^32 - 1 milliseconds apart are exact; one millisecond more, and the count starts again. */
  lemma TurnMissed()
    ensures Result(0, 0, 0xffff_ffff) == 0xffff_ffff && Result(0, 0, 0x1_0000_0000) == 0
  {
  }

  /** A run is exact from beginning to end if and only if its calls are frequent enough. */
  lemma {:induction false} RunExact(high: UInt32, before: nat, times: seq<nat>, base: nat)
    requires Ordered(before, times) && base % WRAP == 0 && before - base == high * WRAP + before % WRAP
    requires forall i :: 0 <= i < |times| ==> times[i] - base < WRAP * WRAP
    ensures Exact(base, times, Results(high, before % WRAP, times)) <==> Frequent(before, times)
    decreases |times|
  {
    hide Result, NextHigh;
    if times != [] {
      var now, rest := times[0], times[1..];
      var r := Results(high, before % WRAP, times);
      CallExact(high, before, now, base);
      var high' := NextHigh(high, before % WRAP, now);
      assert r[0] == Result(high, before % WRAP, now);
      assert r[1..] == Results(high', now % WRAP, rest);
      assert forall i :: 0 < i < |times| ==> times[i] == rest[i - 1] && r[i] == r[1..][i - 1];
      if now - before < WRAP {
        RunExact(high', now, rest, base);
        ExactFirst(base, times, r);
      }
    }
  }

  lemma ExactFirst(base: nat, times: seq<nat>, r: seq<int>)
    requires |times| == |r| && times != []
    ensures Exact(base, times, r) <==> r[0] == times[0] - base && Exact(base, times[1..], r[1..])
  {
    if r[0] == times[0] - base && Exact(base, times[1..], r[1..]) {
      forall i | 0 <= i < |times| ensures r[i] == times[i] - base {
        assert i > 0 ==> r[1..][i - 1] == times[1..][i - 1] - base;
      }
    }
    if Exact(base, times, r) {
      assert forall i :: 0 <= i < |times| - 1 ==> r[1..][i] == r[i + 1] && times[1..][i] == times[i + 1];
    }
  }

  /** Results never go back, however long the calls are apart and whichever threads make them, for
      2^64 milliseconds: the high word never counts more turns than there were. */
  lemma {:induction false} RunMonotone(high: UInt32, before: nat, times: seq<nat>, base: nat)
    requires Ordered(before, times) && base % WRAP == 0 && high * WRAP + before % WRAP <= before - base
    requires forall i :: 0 <= i < |times| ==> times[i] - base < WRAP * WRAP
    ensures var r := Results(high, before % WRAP, times);
            && (forall i :: 0 <= i < |r| ==> high * WRAP + before % WRAP <= r[i] <= times[i] - base)
            && (forall i, j :: 0 <= i < j < |r| ==> r[i] <= r[j])
    decreases |times|
  {
    if times != [] {
      var r, now, rest := Results(high, before % WRAP, times), times[0], times[1..];
      var high' := NextHigh(high, before % WRAP, now);
      NoTurnTooMany(high, before, now, base);
      assert forall i :: 0 < i < |times| ==> times[i] == rest[i - 1];
      RunMonotone(high', now, rest, base);
      assert r[0] == high' * WRAP + now % WRAP;
      assert r[1..] == Results(high', now % WRAP, rest);
      assert forall i :: 0 < i < |r| ==> r[i] == r[1..][i - 1];
    }
  }

  lemma NoTurnTooMany(high: UInt32, before: nat, now: nat, base: nat)
    requires before <= now && base % WRAP == 0 && now - base < WRAP * WRAP
    requires high * WRAP + before % WRAP <= before - base
    ensures var r := Result(high, before % WRAP, now);
            high * WRAP + before % WRAP <= r <= now - base
  {
    var a, b := before / WRAP, now / WRAP;
    assert before == a * WRAP + before % WRAP && now == b * WRAP + now % WRAP && base == base / WRAP * WRAP;
    assert high <= a - base / WRAP;
    if now % WRAP < before % WRAP {
      assert a < b;
      assert b - base / WRAP < WRAP;
    }
  }

  class Counter {
    var high: UInt32
    var last: UInt32
    /** The time of the last call. */
    ghost var time: nat

    ghost predicate Valid()
      reads this
    {
      last == time % WRAP
    }

    constructor (now: nat)
      ensures Valid() && time == now && high == 0
    {
      high, last, time := 0, now % WRAP, now;
    }

    /** One call at time `now`; exact, if the calls before were exact and not too long ago. */
    method GetTickCount64(now: nat) returns (result: int)
      requires Valid()
      modifies this
      ensures Valid() && time == now
      ensures result == Result(old(high), old(last), now)
      ensures high == NextHigh(old(high), old(last), now) && last == now % WRAP
      ensures forall base: nat ::
                Follows(old(high), old(time), now, base) && now - old(time) < WRAP ==> result == now - base
    {
      forall base: nat | Follows(high, time, now, base) && now - time < WRAP
        ensures Result(high, last, now) == now - base
      {
        CallExact(high, time, now, base);
      }
      var cur := now % WRAP;
      if cur < last {
        high := (high + 1) % WRAP;
      }
      last := cur;
      time := now;
      result := high * WRAP + cur;
    }
  }
}
