/** The token-bucket throttle of background migration: integer refills against a clock that may
    step in either direction. */
module Throttle {
  const MICROS := 1_000_000
  const MAX_SLEEP_US := 100_000
  const I64_MAX := 0x7fff_ffff_ffff_ffff

  datatype Bucket = Bucket(rate: int, burst: int, tokens: int, last: int, enabled: bool)

  ghost predicate Sound(b: Bucket) {
    0 <= b.rate && 0 <= b.tokens <= b.burst
  }

  /** No intermediate value of a refill at time `now` leaves the 64-bit range. */
  predicate Fits(b: Bucket, now: int) {
    && b.burst <= I64_MAX && now - b.last <= I64_MAX && (now - b.last) * b.rate <= I64_MAX
    && (now > b.last ==> b.tokens + (now - b.last) * b.rate / MICROS <= I64_MAX)
  }

  /** Whole tokens earned since the last refill. */
  function Earned(b: Bucket, now: int): int {
    if now <= b.last then 0 else (now - b.last) * b.rate / MICROS
  }

  function Refilled(b: Bucket, now: int): Bucket {
    if Earned(b, now) <= 0 then b
    else b.(tokens := if b.tokens + Earned(b, now) > b.burst then b.burst else b.tokens + Earned(b, now), last := now)
  }

  /** Whether one attempt to take `bytes` at time `now` succeeds, and the bucket it leaves. */
  predicate Grants(b: Bucket, now: int, bytes: int) {
    Refilled(b, now).tokens >= bytes
  }

  function Attempted(b: Bucket, now: int, bytes: int): Bucket {
    var r := Refilled(b, now);
    if r.tokens >= bytes then r.(tokens := r.tokens - bytes) else r
  }

  /** How long an unsuccessful waiter sleeps. */
  function SleepMicros(b: Bucket, bytes: int): int
    requires b.rate > 0
  {
    var us := (bytes - b.tokens) * MICROS / b.rate;
    if us > MAX_SLEEP_US then MAX_SLEEP_US else us
  }

  /** The product in the sleep computation stays within 64 bits. */
  predicate SleepFits(b: Bucket, bytes: int) {
    (bytes - b.tokens) * MICROS <= I64_MAX
  }

  /** The sleep the code computes; a product that overflows is undefined in C, so it leaves `stray`. */
  function SleepComputed(b: Bucket, bytes: int, stray: int): int
    requires b.rate > 0
  {
    if SleepFits(b, bytes) then SleepMicros(b, bytes) else if stray > MAX_SLEEP_US then MAX_SLEEP_US else stray
  }

  /** The computed sleep is the intended one, whatever an overflow leaves, exactly when at most
      9223372036854 tokens are missing. */
  lemma SleepRightExactly(b: Bucket, bytes: int)
    requires b.rate > 0
    ensures (forall stray :: SleepComputed(b, bytes, stray) == SleepMicros(b, bytes))
       <==> bytes - b.tokens <= 9223372036854
  {
    if !SleepFits(b, bytes) {
      var us := SleepMicros(b, bytes);
      assert SleepComputed(b, bytes, us - 1) != us;
    }
  }

  /** A refill keeps the bucket sound, never moves the refill time back, and credits no more than
      the time it accounts for earns. */
  lemma RefillBounds(b: Bucket, now: int)
    requires Sound(b)
    ensures var r := Refilled(b, now);
            && Sound(r) && r.rate == b.rate && r.burst == b.burst && b.last <= r.last && b.tokens <= r.tokens
            && MICROS * (r.tokens - b.tokens) <= b.rate * (r.last - b.last)
  {
    var e := Earned(b, now);
    if e > 0 {
      assert e * MICROS <= (now - b.last) * b.rate;
    }
  }

  // ----- whole runs -----

  /** What can happen to a bucket at a fixed rate: an attempt by any waiter, or a statistics call. */
  datatype Event = Attempt(now: int, bytes: int) | Stats(now: int)

  function Next(b: Bucket, e: Event): Bucket {
    match e
    case Attempt(now, bytes) => Attempted(b, now, bytes)
    case Stats(now) => Refilled(b, now)
  }

  function Taken(b: Bucket, e: Event): int {
    if e.Attempt? && Grants(b, e.now, e.bytes) then e.bytes else 0
  }

  ghost predicate PositiveRequests(events: seq<Event>) {
    forall i :: 0 <= i < |events| && events[i].Attempt? ==> events[i].bytes > 0
  }

  function Run(b: Bucket, events: seq<Event>): Bucket
    decreases |events|
  {
    if events == [] then b else Run(Next(b, events[0]), events[1..])
  }

  /** Bytes granted over a run. */
  function Granted(b: Bucket, events: seq<Event>): int
    decreases |events|
  {
    if events == [] then 0 else Taken(b, events[0]) + Granted(Next(b, events[0]), events[1..])
  }

  /** Conservation over any run with any clock readings: bytes granted plus tokens left never
      exceed the tokens at the start plus what the rate earns over the advance of the refill time. */
  lemma {:induction false} RunConserves(b: Bucket, events: seq<Event>)
    requires Sound(b) && PositiveRequests(events)
    ensures var r := Run(b, events);
            && Sound(r) && r.rate == b.rate && r.burst == b.burst && b.last <= r.last
            && 0 <= Granted(b, events)
            && MICROS * (Granted(b, events) + r.tokens - b.tokens) <= b.rate * (r.last - b.last)
    decreases |events|
  {
    if events != [] {
      var e := events[0];
      var next := Next(b, e);
      RefillBounds(b, e.now);
      RunConserves(next, events[1..]);
      var r := Run(b, events);
      assert b.rate * (r.last - b.last) == b.rate * (r.last - next.last) + b.rate * (next.last - b.last);
    }
  }

  /** Between any two points of a run, at most one burst plus the rate over the elapsed refill
      time is granted. */
  lemma RateLimit(b: Bucket, before: seq<Event>, between: seq<Event>)
    requires Sound(b) && PositiveRequests(before) && PositiveRequests(between)
    ensures var from := Run(b, before);
            var to := Run(from, between);
            && from.last <= to.last
            && Granted(from, between) <= b.burst + b.rate * (to.last - from.last) / MICROS
  {
    RunConserves(b, before);
    var from := Run(b, before);
    RunConserves(from, between);
    var to := Run(from, between);
    var earned := b.rate * (to.last - from.last);
    assert MICROS * (Granted(from, between) - b.burst) <= earned;
  }

  /** Whole tokens earned by the refill of an event, and the part of them the cap throws away. */
  function EarnedAt(b: Bucket, e: Event): int {
    Earned(b, e.now)
  }

  function SpilledAt(b: Bucket, e: Event): int {
    if b.tokens + Earned(b, e.now) > b.burst then b.tokens + Earned(b, e.now) - b.burst else 0
  }

  function EarnedOver(b: Bucket, events: seq<Event>): int
    decreases |events|
  {
    if events == [] then 0 else EarnedAt(b, events[0]) + EarnedOver(Next(b, events[0]), events[1..])
  }

  function SpilledOver(b: Bucket, events: seq<Event>): int
    decreases |events|
  {
    if events == [] then 0 else SpilledAt(b, events[0]) + SpilledOver(Next(b, events[0]), events[1..])
  }

  /** Nothing is lost: over any run, bytes granted, tokens left and tokens thrown away by the cap add up to
      the tokens at the start and the whole tokens earned. */
  lemma {:induction false} NothingIsLost(b: Bucket, events: seq<Event>)
    requires Sound(b) && PositiveRequests(events)
    ensures Granted(b, events) + Run(b, events).tokens + SpilledOver(b, events) == b.tokens + EarnedOver(b, events)
    ensures SpilledOver(b, events) >= 0
    decreases |events|
  {
    if events != [] {
      var e := events[0];
      RefillBounds(b, e.now);
      EarnedCounts(b, e.now);
      NothingIsLost(Next(b, e), events[1..]);
    }
  }

  lemma EarnedCounts(b: Bucket, now: int)
    requires Sound(b)
    ensures 0 <= Earned(b, now) && Earned(b, now) * MICROS <= (if now > b.last then (now - b.last) * b.rate else 0)
    ensures now > b.last ==> (now - b.last) * b.rate < Earned(b, now) * MICROS + MICROS
  {
    if now > b.last {
      assert (now - b.last) * b.rate >= 0;
    }
  }

  // ----- a waiter's latency -----

  /** The state in which a lone waiter leaves the bucket, and the number of clock readings used;
      the last one used is the successful one if the wait was granted. */
  datatype Outcome = Outcome(bucket: Bucket, used: nat, granted: bool)

  function Waited(b: Bucket, readings: seq<int>, bytes: int): (r: Outcome)
    ensures r.used <= |readings|
    decreases |readings|
  {
    if readings == [] then Outcome(b, 0, false)
    else if Grants(b, readings[0], bytes) then Outcome(Attempted(b, readings[0], bytes), 1, true)
    else
      var rest := Waited(Attempted(b, readings[0], bytes), readings[1..], bytes);
      rest.(used := rest.used + 1)
  }

  /** What one waiter leaves, the next can have: with tokens for both after a refill, two waits at the same
      reading are granted at once. */
  lemma RestIsLeft(b: Bucket, now: int, x: int, y: int)
    requires Sound(b) && x > 0 && y > 0 && Refilled(b, now).tokens >= x + y
    ensures var first := Waited(b, [now], x);
            var second := Waited(first.bucket, [now], y);
            && first.granted && first.used == 1 && second.granted && second.used == 1
            && second.bucket.tokens == Refilled(b, now).tokens - x - y
  {
    var r := Refilled(b, now);
    assert Waited(b, [now], x).bucket == Attempted(b, now, x);
    var left := Attempted(b, now, x);
    assert left.tokens == r.tokens - x && left.last == r.last && left.rate == b.rate && left.burst == b.burst;
    assert Earned(left, now) <= 0 by {
      if Earned(b, now) <= 0 {
        assert left.last == b.last;
      }
    }
  }

  /** An attempt that fails: the bucket was not filled to the brim, a refill credited more than
      half of what the time earned, and less than one token's worth of time is left over. */
  lemma FailedAttempt(b: Bucket, now: int, bytes: int)
    requires Sound(b) && b.rate > 0 && 0 < bytes <= b.burst && !Grants(b, now, bytes)
    ensures var r := Attempted(b, now, bytes);
            && Sound(r) && r.rate == b.rate && r.burst == b.burst && r.tokens < bytes
            && (if r.last > b.last then b.rate * (r.last - b.last) < 2 * MICROS * (r.tokens - b.tokens)
                else r.tokens == b.tokens)
            && b.rate * (now - r.last) < MICROS
  {
    RefillBounds(b, now);
    var e := Earned(b, now);
    if now > b.last {
      assert (now - b.last) * b.rate < e * MICROS + MICROS;
      assert (now - b.last) * b.rate == b.rate * (now - b.last);
    } else {
      assert b.rate * (b.last - now) >= 0;
      assert b.rate * (now - b.last) == -(b.rate * (b.last - now));
    }
  }

  /** However the clock jumps about, a request of at most one burst is granted no later than the
      first reading by which the rate has earned twice the missing tokens. */
  lemma {:induction false} GrantedInTime(b: Bucket, readings: seq<int>, bytes: int, k: nat)
    requires Sound(b) && b.rate > 0 && 0 < bytes <= b.burst && k < |readings|
    requires b.rate * (readings[k] - b.last) >= 2 * MICROS * (bytes - b.tokens) - MICROS
    ensures Waited(b, readings, bytes).granted && Waited(b, readings, bytes).used <= k + 1
    decreases |readings|
  {
    if !Grants(b, readings[0], bytes) {
      FailedAttempt(b, readings[0], bytes);
      var r := Attempted(b, readings[0], bytes);
      assert b.rate * (readings[k] - b.last) == b.rate * (readings[k] - r.last) + b.rate * (r.last - b.last);
      GrantedInTime(r, readings[1..], bytes, k - 1);
    }
  }

  /** With a clock that strictly advances, a lone waiter is therefore served after a bounded number
      of retries, even if the clock starts behind the last refill. */
  lemma WaitTerminates(b: Bucket, readings: seq<int>, bytes: int)
    requires Sound(b) && b.rate > 0 && 0 < bytes <= b.burst
    requires forall i, j :: 0 <= i < j < |readings| ==> readings[i] < readings[j]
    requires |readings| > 0
    requires |readings| > 2 * MICROS * bytes + (if b.last > readings[0] then b.last - readings[0] else 0)
    ensures Waited(b, readings, bytes).granted
  {
    var k := |readings| - 1;
    Advance(readings, k);
    var d := readings[k] - b.last;
    assert d >= 2 * MICROS * bytes;
    assert b.rate * d >= d;
    GrantedInTime(b, readings, bytes, k);
  }

  lemma {:induction false} Advance(readings: seq<int>, k: nat)
    requires forall i, j :: 0 <= i < j < |readings| ==> readings[i] < readings[j]
    requires k < |readings|
    ensures readings[k] >= readings[0] + k
    decreases k
  {
    if k > 0 {
      Advance(readings, k - 1);
    }
  }

  /** An uncapped sleep lets the waiter through, taken exactly, if and only if it was computed without a
      remainder. */
  lemma SleepSufficesExactly(b: Bucket, bytes: int)
    requires Sound(b) && b.rate > 0 && b.tokens < bytes <= b.burst && SleepMicros(b, bytes) < MAX_SLEEP_US
    ensures Grants(b, b.last + SleepMicros(b, bytes), bytes) <==> (bytes - b.tokens) * MICROS % b.rate == 0
  {
    var need := (bytes - b.tokens) * MICROS;
    var us := need / b.rate;
    assert need == us * b.rate + need % b.rate;
    WholeTokens(us * b.rate, bytes - b.tokens);
    assert us == 0 ==> us * b.rate == 0;
  }

  lemma WholeTokens(earned: int, missing: int)
    ensures earned / MICROS >= missing <==> earned >= missing * MICROS
  {}

  /** A waiter that is still short after the sleep: one byte at thirty bytes per second. */
  lemma SleepCanFallShort()
    ensures var b := Bucket(30, 1, 0, 0, true);
            && Sound(b) && SleepMicros(b, 1) == 33333 && !Grants(b, b.last + SleepMicros(b, 1), 1)
  {}

  /** One microsecond more is always enough when the sleep was not capped. */
  lemma SleepNearlySuffices(b: Bucket, bytes: int)
    requires Sound(b) && b.rate > 0 && b.tokens < bytes <= b.burst && SleepMicros(b, bytes) < MAX_SLEEP_US
    ensures Grants(b, b.last + SleepMicros(b, bytes) + 1, bytes)
  {
    var need := (bytes - b.tokens) * MICROS;
    var us := need / b.rate;
    assert need < us * b.rate + b.rate;
    assert (us + 1) * b.rate == us * b.rate + b.rate;
    assert (us + 1) * b.rate / MICROS >= bytes - b.tokens;
  }

  /** The throttle object; each method is one critical section. */
  class TokenBucket {
    var rate: int
    var burst: int
    var tokens: int
    var last: int
    var enabled: bool

    function Contents(): Bucket
      reads this
    {
      Bucket(rate, burst, tokens, last, enabled)
    }

    constructor ()
      ensures Contents() == Bucket(0, 0, 0, 0, false)
    {
      rate, burst, tokens, last, enabled := 0, 0, 0, 0, false;
    }

    /** Starts with a full bucket; refuses negative arguments. */
    method Init(rateBytes: int, burstBytes: int, now: int) returns (ok: bool)
      modifies this
      ensures ok <==> rateBytes >= 0 && burstBytes >= 0
      ensures ok ==> Contents() == Bucket(rateBytes, burstBytes, burstBytes, now, rateBytes > 0) && Sound(Contents())
      ensures !ok ==> unchanged(this)
    {
      if rateBytes < 0 || burstBytes < 0 {
        return false;
      }
      rate, burst, tokens, last, enabled := rateBytes, burstBytes, burstBytes, now, rateBytes > 0;
      return true;
    }

    method RefillTokens(now: int)
      requires Sound(Contents()) && Fits(Contents(), now)
      modifies this`tokens, this`last
      ensures Contents() == Refilled(old(Contents()), now)
    {
      var elapsed := now - last;
      if elapsed <= 0 {
        return;
      }
      var toAdd := elapsed * rate / MICROS;
      if toAdd > 0 {
        tokens := tokens + toAdd;
        if tokens > burst {
          tokens := burst;
        }
        last := now;
      }
    }

    /** The body of the waiting loop: take the tokens, or compute the time to sleep. */
    method TryTake(now: int, bytes: int, stray: int) returns (granted: bool, sleep: int)
      requires Sound(Contents()) && rate > 0 && bytes > 0 && Fits(Contents(), now)
      modifies this`tokens, this`last
      ensures granted == Grants(old(Contents()), now, bytes)
      ensures Contents() == Attempted(old(Contents()), now, bytes)
      ensures sleep == if granted then 0 else SleepComputed(Contents(), bytes, stray)
    {
      RefillTokens(now);
      if tokens >= bytes {
        tokens := tokens - bytes;
        return true, 0;
      }
      sleep := if (bytes - tokens) * MICROS <= I64_MAX then (bytes - tokens) * MICROS / rate else stray;
      if sleep > MAX_SLEEP_US {
        sleep := MAX_SLEEP_US;
      }
      return false, sleep;
    }

    /** Waits through a sequence of clock readings, with any overflowed sleeps.  A disabled throttle and
        an empty request pass at once and leave the bucket alone; a request beyond the readings is
        still waiting. */
    method Wait(readings: seq<int>, bytes: int, stray: nat -> int) returns (granted: bool, used: nat)
      requires Sound(Contents()) && forall i :: 0 <= i < |readings| ==> Fits(Contents(), readings[i])
      modifies this`tokens, this`last
      ensures !enabled || rate == 0 || bytes <= 0 ==> granted && used == 0 && unchanged(this)
      ensures enabled && rate > 0 && bytes > 0 ==>
                Outcome(Contents(), used, granted) == Waited(old(Contents()), readings, bytes)
    {
      if !enabled || rate == 0 {
        return true, 0;
      }
      if bytes <= 0 {
        return true, 0;
      }
      used := 0;
      while used < |readings|
        invariant used <= |readings| && Sound(Contents())
        invariant forall i :: used <= i < |readings| ==> Fits(Contents(), readings[i])
        invariant Waited(old(Contents()), readings, bytes)
               == (var rest := Waited(Contents(), readings[used..], bytes); rest.(used := rest.used + used))
      {
        ghost var before := Contents();
        var sleep;
        granted, sleep := TryTake(readings[used], bytes, stray(used));
        RefillBounds(before, readings[used]);
        used := used + 1;
        assert readings[used - 1..][1..] == readings[used..];
        if granted {
          return true, used;
        }
        forall i | used <= i < |readings|
          ensures Fits(Contents(), readings[i])
        {
          StillFits(before, Contents(), readings[used - 1], readings[i]);
        }
      }
      assert readings[used..] == [];
      return false, used;
    }

    /** Refills and reports. */
    method GetStats(now: int) returns (currentTokens: int, currentRate: int, isEnabled: bool)
      requires Sound(Contents()) && Fits(Contents(), now)
      modifies this`tokens, this`last
      ensures Contents() == Refilled(old(Contents()), now)
      ensures (currentTokens, currentRate, isEnabled) == (tokens, rate, enabled)
    {
      RefillTokens(now);
      return tokens, rate, enabled;
    }
  }

  /** Refilling first does not make a later refill overflow. */
  lemma StillFits(b: Bucket, r: Bucket, now: int, later: int)
    requires Sound(b) && Fits(b, now) && Fits(b, later) && r == Refilled(b, now)
    ensures Fits(r, later)
  {
    if Earned(b, now) > 0 {
      TimeSplits(later - now, now - b.last, b.rate);
      FloorsAdd((later - now) * b.rate, (now - b.last) * b.rate);
    }
  }

  lemma TimeSplits(s: int, t: int, rate: int)
    requires 0 <= t && 0 <= rate
    ensures (s + t) * rate == s * rate + t * rate && 0 <= t * rate && (s <= 0 ==> s * rate <= 0)
  {
    if s <= 0 {
      assert 0 <= (-s) * rate == -(s * rate);
    }
  }

  lemma FloorsAdd(x: int, y: int)
    ensures x / MICROS + y / MICROS <= (x + y) / MICROS
  {}
}
