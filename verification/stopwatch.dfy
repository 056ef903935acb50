/** `ConcurrentStopwatch`: a microsecond clock that never hands out the same
    value twice. The process-wide `Stopwatch` is replaced by the sequence of
    elapsed-tick readings it would give, and the lock by sequential calls. */
module ConcurrentStopwatch {
  import opened Clr

  /** 1970-01-01T00:00:00Z in .NET ticks (100 ns units since 0001-01-01). */
  const EpochTicks: int := 621355968000000000

  /** `GetMicroseconds(since)`: whole microseconds from the epoch to the UTC
      instant `sinceTicks`, truncated toward zero as C#'s `/` does. */
  function MicrosecondsSince(sinceTicks: int): (r: int)
    ensures sinceTicks >= EpochTicks ==> 0 <= r && r * 10 <= sinceTicks - EpochTicks < r * 10 + 10
    ensures sinceTicks < EpochTicks ==> r <= 0 && -r * 10 <= EpochTicks - sinceTicks < -r * 10 + 10
  {
    Quot(sinceTicks - EpochTicks, 10)
  }

  /** Later instants never give fewer microseconds. */
  lemma MicrosecondsSinceMonotone(a: int, b: int)
    requires a <= b
    ensures MicrosecondsSince(a) <= MicrosecondsSince(b)
  {
    var ra, rb := MicrosecondsSince(a), MicrosecondsSince(b);
    if a >= EpochTicks {
      assert ra * 10 <= b - EpochTicks < rb * 10 + 10;
    } else if b < EpochTicks {
      assert -rb * 10 <= EpochTicks - a < -ra * 10 + 10;
    }
  }

  /** From the epoch on, ten times the microseconds is the elapsed tick
      count with its last decimal digit dropped. */
  lemma MicrosecondsSinceTruncates(sinceTicks: int, maxTicks: int)
    requires EpochTicks <= sinceTicks <= maxTicks
    ensures 0 <= MicrosecondsSince(sinceTicks) * 10 <= maxTicks - EpochTicks
    ensures EpochTicks + MicrosecondsSince(sinceTicks) * 10 == sinceTicks - (sinceTicks - EpochTicks) % 10
  {
    var elapsed := sinceTicks - EpochTicks;
    assert MicrosecondsSince(sinceTicks) == elapsed / 10;
  }

  /** The static state of the class: the value last handed out, and the
      microseconds from the epoch to the moment the stopwatch was started. */
  class Stopwatch {
    var lastMicroseconds: int
    const timeZeroMicroseconds: int

    /** `_lastMicroseconds` starts at zero and only rises. */
    ghost predicate Valid()
      reads this
    {
      lastMicroseconds >= 0
    }

    /** The static constructor, run at the UTC instant `initTicks`. */
    constructor (initTicks: int)
      ensures timeZeroMicroseconds == MicrosecondsSince(initTicks)
      ensures lastMicroseconds == 0 && Valid()
    {
      timeZeroMicroseconds := MicrosecondsSince(initTicks);
      lastMicroseconds := 0;
    }

    /** The sample the loop of `GetMicroseconds` computes from an elapsed time. */
    function Reading(elapsedTicks: int): int
    {
      timeZeroMicroseconds + Quot(elapsedTicks, 10)
    }

    /** `GetMicroseconds()`: samples the stopwatch until the reading exceeds the
        last value handed out, records that reading and returns it. The
        `elapsed` readings are the ones the stopwatch gives, in order; the loop
        runs forever unless one of them passes the last value. */
    method GetMicroseconds(elapsed: seq<int>) returns (microseconds: int)
      requires Valid()
      requires exists k :: 0 <= k < |elapsed| && Reading(elapsed[k]) > lastMicroseconds
      requires forall k :: 0 <= k < |elapsed| ==> IsLong(Reading(elapsed[k]))
      modifies this
      ensures Valid()
      ensures microseconds > old(lastMicroseconds) && lastMicroseconds == microseconds
      ensures IsLong(microseconds)
      ensures exists k :: 0 <= k < |elapsed| && microseconds == Reading(elapsed[k]) &&
                (forall j :: 0 <= j < k ==> Reading(elapsed[j]) <= old(lastMicroseconds))
    {
      microseconds := 0;
      var i := 0;
      while microseconds <= lastMicroseconds
        invariant 0 <= i <= |elapsed|
        invariant forall j :: 0 <= j < i - 1 ==> Reading(elapsed[j]) <= lastMicroseconds
        invariant i == 0 ==> microseconds == 0
        invariant i > 0 ==> microseconds == Reading(elapsed[i - 1])
        decreases |elapsed| - i
      {
        if i == |elapsed| {
          assert forall j :: 0 <= j < |elapsed| ==> Reading(elapsed[j]) <= lastMicroseconds;
          assert false;
        }
        microseconds := Reading(elapsed[i]);
        i := i + 1;
      }
      assert i > 0;
      lastMicroseconds := microseconds;
    }
  }
}
