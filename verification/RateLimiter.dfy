/** The pacing of forwarded requests. Instants and periods are nanoseconds. */
module RateLimiter {
  import opened Common

  class RequestRateLimiter {
    const period: nat
    var nextRequest: nat

    constructor (period: nat, now: nat)
      ensures this.period == period && nextRequest == now
    {
      this.period, nextRequest := period, now;
    }

    /** Reserve the next free slot and say how long the caller that read the clock at `now` sleeps. */
    method Wait(now: nat) returns (slot: nat, slept: nat)
      modifies this
      ensures slot == Max(old(nextRequest), now)
      ensures nextRequest == slot + period
      ensures now + slept == slot
    {
      slot := Max(nextRequest, now);
      nextRequest := slot + period;
      slept := slot - now;
    }
  }

  /** The slots handed out to callers whose clock readings, in locking order, are `nows`. */
  function Slots(next: nat, period: nat, nows: seq<nat>): (slots: seq<nat>)
    ensures |slots| == |nows|
    decreases |nows|
  {
    if nows == [] then []
    else
      var slot := Max(next, nows[0]);
      [slot] + Slots(slot + period, period, nows[1..])
  }

  lemma {:induction false} FirstSlot(next: nat, period: nat, nows: seq<nat>, j: nat)
    requires j < |nows|
    ensures Slots(next, period, nows)[j] >= next + j * period
    ensures Slots(next, period, nows)[j] >= nows[j]
    decreases |nows|
  {
    if j > 0 {
      FirstSlot(Max(next, nows[0]) + period, period, nows[1..], j - 1);
      assert period + (j - 1) * period == j * period;
    }
  }

  /** Whatever the clock readings, slots `i` and `j` are at least `j - i` periods apart. */
  lemma {:induction false} SlotsAreSpaced(next: nat, period: nat, nows: seq<nat>, i: nat, j: nat)
    requires i <= j < |nows|
    ensures Slots(next, period, nows)[j] - Slots(next, period, nows)[i] >= (j - i) * period
    decreases |nows|
  {
    var slot := Max(next, nows[0]);
    if i > 0 {
      SlotsAreSpaced(slot + period, period, nows[1..], i - 1, j - 1);
      assert (j - 1) - (i - 1) == j - i;
    } else if j > 0 {
      FirstSlot(slot + period, period, nows[1..], j - 1);
      assert period + (j - 1) * period == j * period;
    }
  }

  /**
   Nobody waits for nothing: a slot is the time its caller came, or exactly so many periods after the
   first free one, or after the time an earlier caller came, as there are callers in between.
   */
  lemma {:induction false} SlotIsEarliest(next: nat, period: nat, nows: seq<nat>, j: nat) returns (i: nat)
    requires j < |nows|
    ensures i <= j
    ensures var slot := Slots(next, period, nows)[j];
            slot == next + j * period || slot == nows[i] + (j - i) * period
    decreases |nows|
  {
    var slot := Max(next, nows[0]);
    if j == 0 {
      i := 0;
    } else {
      i := SlotIsEarliest(slot + period, period, nows[1..], j - 1);
      assert period + (j - 1) * period == j * period;
      if Slots(next, period, nows)[j] == slot + j * period {
        i := 0;
      } else {
        i := i + 1;
      }
    }
  }

  /** The requests scheduled within `length` nanoseconds from `start` on. */
  ghost function Within(slots: seq<nat>, start: nat, length: nat): set<nat>
  {
    set i: nat | i < |slots| && start <= slots[i] <= start + length
  }

  lemma {:induction false} IntervalSize(s: set<nat>, low: nat, size: nat)
    requires forall i <- s :: low <= i < low + size
    ensures |s| <= size
    decreases size
  {
    if size > 0 {
      IntervalSize(s - {low}, low + 1, size - 1);
      assert s <= (s - {low}) + {low};
      assert |s| <= |(s - {low}) + {low}| <= |s - {low}| + 1;
    } else {
      assert s == {};
    }
  }

  lemma Quotient(n: nat, period: nat, length: nat)
    requires period > 0 && n * period <= length
    ensures n <= length / period
  {
    var q := length / period;
    assert length == q * period + length % period;
    assert q + 1 <= n ==> (q + 1) * period <= n * period;
  }

  /** The rate limit: any window of `length` holds at most `length / period + 1` requests. */
  lemma WindowIsLimited(next: nat, period: nat, nows: seq<nat>, start: nat, length: nat)
    requires period > 0
    ensures |Within(Slots(next, period, nows), start, length)| <= length / period + 1
  {
    var slots := Slots(next, period, nows);
    var s := Within(slots, start, length);
    if s != {} {
      var first := FirstOf(s);
      forall i | i in s ensures first <= i < first + (length / period + 1) {
        SlotsAreSpaced(next, period, nows, first, i);
        Quotient(i - first, period, length);
      }
      IntervalSize(s, first, length / period + 1);
    }
  }

  lemma FirstOf(s: set<nat>) returns (first: nat)
    requires s != {}
    ensures first in s && forall i <- s :: first <= i
  {
    var one :| one in s;
    var rest := s - {one};
    if rest == {} {
      assert s == {one};
      first := one;
    } else {
      var other := FirstOf(rest);
      first := Min(one, other);
      forall i | i in s ensures first <= i {
        assert i == one || i in rest;
      }
    }
  }

  /** Any number of callers, in the order they take the lock, get exactly the slots of the specification. */
  method WaitAll(limiter: RequestRateLimiter, nows: seq<nat>) returns (slots: seq<nat>)
    modifies limiter
    ensures slots == Slots(old(limiter.nextRequest), limiter.period, nows)
    decreases |nows|
  {
    if nows == [] {
      return [];
    }
    var slot, _ := limiter.Wait(nows[0]);
    var rest := WaitAll(limiter, nows[1..]);
    slots := [slot] + rest;
  }
}
