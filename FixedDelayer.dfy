/** Stl.Fusion.FixedDelayer: the update delay and retry back-off of state updates, with a cache
    of delayers per clamped delay and its process-wide defaults. */
module Fusion {
  import opened Wrappers

  /** A `TimeSpan`, in ticks. */
  type Ticks = int

  /** The indexer of `RetryDelaySeq`: the delay before retry number n. */
  type RetryDelaySeq = nat -> Ticks

  /** An `IMomentClock`, by identity. */
  datatype MomentClock = MomentClock(id: nat)

  /** What `Delay` does: return at once, or await `clock.Delay(duration)`. */
  datatype DelayAction = Immediate | ClockDelay(clock: MomentClock, duration: Ticks)

  datatype DelayerError = ArgumentOutOfRange(paramName: string)

  /** `TimeSpanExt.Max`. */
  function Max(a: Ticks, b: Ticks): Ticks
  {
    if a >= b then a else b
  }

  /** The time a delay action waits. */
  function WaitTime(a: DelayAction): Ticks
  {
    match a
    case Immediate => 0
    case ClockDelay(_, d) => d
  }

  class FixedDelayer {
    const updateDelay: Ticks
    const retryDelays: RetryDelaySeq
    /** `Clock`: `Defaults.Clock` unless initialized otherwise. */
    const clock: MomentClock

    constructor (updateDelay: Ticks, retryDelays: RetryDelaySeq, clock: MomentClock)
      ensures this.updateDelay == updateDelay && this.retryDelays == retryDelays && this.clock == clock
    {
      this.updateDelay := updateDelay;
      this.retryDelays := retryDelays;
      this.clock := clock;
    }

    /** `GetDelay(retryCount)`. */
    function GetDelay(retryCount: int): Ticks
    {
      if retryCount > 0 then retryDelays(retryCount) else updateDelay
    }

    /** The wait `Delay(retryCount)` performs. */
    function Delay(retryCount: int): DelayAction
    {
      var delay := Max(updateDelay, GetDelay(retryCount));
      if delay <= 0 then Immediate else ClockDelay(clock, delay)
    }
  }

  /** `GetDelay` takes the retry sequence for a positive retry count and the update delay
      otherwise, negative counts included. */
  lemma GetDelayChoosesBetweenUpdateAndRetryDelays(d: FixedDelayer, retryCount: int)
    ensures retryCount > 0 ==> d.GetDelay(retryCount) == d.retryDelays(retryCount)
    ensures retryCount <= 0 ==> d.GetDelay(retryCount) == d.updateDelay
  {
  }

  /** `Delay` waits on the delayer's clock for the larger of the update delay and `GetDelay`,
      and returns without touching the clock when that is not positive. */
  lemma DelayWaitsForTheLargerDelay(d: FixedDelayer, retryCount: int)
    ensures var a := d.Delay(retryCount);
            && (a.Immediate? <==> d.updateDelay <= 0 && d.GetDelay(retryCount) <= 0)
            && (a.ClockDelay? ==>
                  && a.clock == d.clock && a.duration > 0
                  && a.duration >= d.updateDelay && a.duration >= d.GetDelay(retryCount)
                  && (a.duration == d.updateDelay || a.duration == d.GetDelay(retryCount)))
  {
  }

  /** With no retry yet (a count of zero or less) `Delay` waits exactly the update delay. */
  lemma DelayWithoutRetryWaitsUpdateDelay(d: FixedDelayer, retryCount: int)
    requires retryCount <= 0
    ensures d.Delay(retryCount) == if d.updateDelay > 0 then ClockDelay(d.clock, d.updateDelay) else Immediate
  {
  }

  /** With a non-decreasing retry sequence, a later retry never waits less. */
  lemma DelayIsMonotone(d: FixedDelayer, m: int, n: int)
    requires forall i: nat, j: nat :: 1 <= i <= j ==> d.retryDelays(i) <= d.retryDelays(j)
    requires m <= n
    ensures WaitTime(d.Delay(m)) <= WaitTime(d.Delay(n))
  {
  }

  /** `FixedDelayer.Defaults` together with the static `Cache`, `ZeroUnsafe` and `Instant`. */
  class DelayerDefaults {
    var minDelay: Ticks
    var retryDelays: RetryDelaySeq
    var clock: MomentClock
    /** `Cache`: delayers by their (clamped) update delay. */
    var cache: map<Ticks, FixedDelayer>
    var zeroUnsafe: FixedDelayer
    var instant: FixedDelayer

    /** The cache holds only delayers built from the current defaults: keyed by their own
        update delay, never below `MinDelay`, with the current retry delays and clock. */
    ghost predicate Valid()
      reads this
    {
      && minDelay >= 0
      && forall d :: d in cache ==>
           && cache[d].updateDelay == d && d >= minDelay
           && cache[d].retryDelays == retryDelays && cache[d].clock == clock
    }

    /** Static initialization: `MinDelay` is zero, `ZeroUnsafe` is a zero delayer and `Instant`
        is `Get(MinDelay)`. */
    constructor (retryDelays: RetryDelaySeq, clock: MomentClock)
      ensures Valid()
      ensures minDelay == 0 && this.retryDelays == retryDelays && this.clock == clock
      ensures zeroUnsafe.updateDelay == 0 && zeroUnsafe.retryDelays == retryDelays && zeroUnsafe.clock == clock
      ensures cache == map[0 := instant] && instant.updateDelay == 0
    {
      minDelay := 0;
      this.retryDelays := retryDelays;
      this.clock := clock;
      zeroUnsafe := new FixedDelayer(0, retryDelays, clock);
      var d := new FixedDelayer(0, retryDelays, clock);
      instant := d;
      cache := map[0 := d];
    }

    /** `Get(updateDelay)`: the cached delayer for `max(updateDelay, MinDelay)`, created from the
        current defaults on a miss. */
    method Get(updateDelay: Ticks) returns (r: FixedDelayer)
      requires Valid()
      modifies this`cache
      ensures Valid()
      ensures r.updateDelay == Max(updateDelay, minDelay) && r.updateDelay >= minDelay
      ensures r.retryDelays == retryDelays && r.clock == clock
      ensures var key := Max(updateDelay, minDelay);
              if key in old(cache) then r == old(cache)[key] && cache == old(cache)
              else fresh(r) && cache == old(cache)[key := r]
    {
      var key := Max(updateDelay, minDelay);
      if key in cache {
        return cache[key];
      }
      r := new FixedDelayer(key, retryDelays, clock);
      cache := cache[key := r];
    }

    /** The `MinDelay` setter: a negative value throws and changes nothing. */
    method SetMinDelay(value: Ticks) returns (r: Result<(), DelayerError>)
      requires Valid()
      modifies this`minDelay, this`cache
      ensures Valid()
      ensures value < 0 ==> r == Err(ArgumentOutOfRange("value")) && unchanged(this)
      ensures value >= 0 ==> r == Ok(()) && minDelay == value && cache == map[]
    {
      if value < 0 {
        return Err(ArgumentOutOfRange("value"));
      }
      minDelay := value;
      cache := map[];
      return Ok(());
    }

    /** The `RetryDelays` setter. */
    method SetRetryDelays(value: RetryDelaySeq)
      requires Valid()
      modifies this`retryDelays, this`cache
      ensures Valid()
      ensures retryDelays == value && cache == map[]
    {
      retryDelays := value;
      cache := map[];
    }

    /** The `Clock` setter. */
    method SetClock(value: MomentClock)
      requires Valid()
      modifies this`clock, this`cache
      ensures Valid()
      ensures clock == value && cache == map[]
    {
      clock := value;
      cache := map[];
    }
  }
}
