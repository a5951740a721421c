// The outbound byte-rate limiter (netcoin/bandwidth.py), over real-valued seconds and tokens.
module Bandwidth {

  function Max(a: real, b: real): real {
    if a >= b then a else b
  }

  function Min(a: real, b: real): real {
    if a <= b then a else b
  }

  // ---- what time earns ----

  function Credit(rate: nat, seconds: real): real {
    rate as real * seconds
  }

  lemma CreditAdds(rate: nat, a: real, b: real)
    ensures Credit(rate, a + b) == Credit(rate, a) + Credit(rate, b)
    ensures Credit(rate, 0.0) == 0.0
  {
  }

  lemma CreditIsMonotone(rate: nat, a: real, b: real)
    requires a <= b
    ensures Credit(rate, a) <= Credit(rate, b)
  {
    assert (b - a) * rate as real >= 0.0;
  }

  // The seconds that earn so many tokens.
  function WaitFor(rate: nat, tokens: real): (seconds: real)
    requires rate > 0 && tokens >= 0.0
    ensures seconds >= 0.0 && Credit(rate, seconds) == tokens
  {
    tokens / rate as real
  }

  // The whole tokens available.
  function Whole(tokens: real): (whole: nat)
    requires tokens >= 0.0
    ensures whole as real <= tokens < whole as real + 1.0
    ensures tokens >= 1.0 ==> whole > 0
  {
    tokens.Floor
  }

  // The tokens of a bucket `elapsed` seconds after its last update.
  function Refilled(capacity: real, rate: nat, tokens: real, elapsed: real): real {
    Min(capacity, tokens + Credit(rate, Max(0.0, elapsed)))
  }

  // Refilling in two steps is refilling at once: how often the clock is read does not matter.
  lemma RefillComposes(capacity: real, rate: nat, tokens: real, first: real, second: real)
    requires first >= 0.0 && second >= 0.0
    ensures Refilled(capacity, rate, Refilled(capacity, rate, tokens, first), second)
         == Refilled(capacity, rate, tokens, first + second)
  {
    CreditAdds(rate, first, second);
    CreditIsMonotone(rate, 0.0, first);
    CreditIsMonotone(rate, 0.0, second);
    CreditAdds(rate, 0.0, 0.0);
    hide Credit;
  }

  lemma RefillIsBounded(capacity: real, rate: nat, tokens: real, elapsed: real)
    requires elapsed >= 0.0 && tokens <= capacity
    ensures tokens <= Refilled(capacity, rate, tokens, elapsed) <= capacity
    ensures Refilled(capacity, rate, tokens, elapsed) <= tokens + Credit(rate, elapsed)
    ensures Refilled(capacity, rate, tokens, 0.0) == tokens
  {
    CreditIsMonotone(rate, 0.0, elapsed);
    CreditAdds(rate, 0.0, 0.0);
    hide Credit;
  }

  // A clock that steps back and forth earns the same seconds twice: the bound below needs it
  // not to.
  lemma SteppingBackEarnsTwice()
    ensures var capacity, rate := 10.0, 10;
            var once := Refilled(capacity, rate, 0.0, 0.5);
            var back := Refilled(capacity, rate, once, -0.5);
            once == back == 5.0 && Refilled(capacity, rate, back, 0.5) == 10.0
  {
  }

  // Exactly when reading the clock in between earns more than the time that passed is worth:
  // it moved both ways, and the bucket was not full anyway.
  lemma StepBackEarnsExtraExactly(capacity: real, rate: nat, tokens: real, first: real, second: real)
    ensures var twice := Refilled(capacity, rate, Refilled(capacity, rate, tokens, first), second);
            var once := Refilled(capacity, rate, tokens, first + second);
            && twice >= once
            && (twice > once <==> rate > 0 && (first < 0.0 < second || second < 0.0 < first) && once < capacity)
  {
    var f, s, both := Max(0.0, first), Max(0.0, second), Max(0.0, first + second);
    CreditAdds(rate, f, s);
    CreditIsMonotone(rate, 0.0, f);
    CreditIsMonotone(rate, 0.0, s);
    CreditIsMonotone(rate, both, f + s);
    assert both < f + s <==> first < 0.0 < second || second < 0.0 < first;
    if rate == 0 {
      CreditOfNothing(both);
      CreditOfNothing(f + s);
    } else if both < f + s {
      CreditGrows(rate, both, f + s);
    } else {
      assert both == f + s;
    }
    TwoRefills(capacity, tokens, Credit(rate, f), Credit(rate, s));
    hide Credit, Max, Min;
    assert Credit(rate, both) < Credit(rate, f + s) <==> rate > 0 && (first < 0.0 < second || second < 0.0 < first);
    LevelsDiffer(capacity, tokens + Credit(rate, both), tokens + Credit(rate, f + s));
  }

  lemma TwoRefills(capacity: real, tokens: real, a: real, b: real)
    requires a >= 0.0 && b >= 0.0
    ensures Min(capacity, Min(capacity, tokens + a) + b) == Min(capacity, tokens + (a + b))
  {
  }

  lemma LevelsDiffer(capacity: real, less: real, more: real)
    requires less <= more
    ensures Min(capacity, less) <= Min(capacity, more)
    ensures Min(capacity, less) < Min(capacity, more) <==> less < more && Min(capacity, less) < capacity
  {
  }

  lemma CreditGrows(rate: nat, a: real, b: real)
    requires rate > 0 && a < b
    ensures Credit(rate, a) < Credit(rate, b)
  {
    CreditAdds(rate, a, b - a);
    assert a + (b - a) == b;
    assert rate as real * (b - a) > 0.0;
  }

  lemma CreditOfNothing(seconds: real)
    ensures Credit(0, seconds) == 0.0
  {
  }

  // ---- what an observer of the limiter sees ----

  // Bytes sent in all, tokens available, and the time.
  datatype Reading = Reading(bytes: nat, level: real, time: real)

  // One reading of an enabled limiter after another: time only advances, and what is sent or
  // available grows by no more than what the time between earns.
  ghost predicate Follows(capacity: real, rate: nat, before: Reading, after: Reading) {
    && before.time <= after.time
    && before.bytes <= after.bytes
    && 0.0 <= after.level <= capacity
    && after.bytes as real + after.level <= before.bytes as real + before.level + Credit(rate, after.time - before.time)
  }

  lemma FollowsIsTransitive(capacity: real, rate: nat, a: Reading, b: Reading, c: Reading)
    requires Follows(capacity, rate, a, b) && Follows(capacity, rate, b, c)
    ensures Follows(capacity, rate, a, c)
  {
    CreditAdds(rate, b.time - a.time, c.time - b.time);
    hide Credit;
    assert b.time - a.time + (c.time - b.time) == c.time - a.time;
  }

  // A reading that would follow `start` with `spent` more bytes counted.
  ghost predicate Spending(capacity: real, rate: nat, start: Reading, spent: nat, seen: Reading) {
    Follows(capacity, rate, start, seen.(bytes := start.bytes + spent))
  }

  lemma StillSpending(capacity: real, rate: nat, start: Reading, spent: nat, seen: Reading, later: Reading)
    requires Spending(capacity, rate, start, spent, seen) && Follows(capacity, rate, seen, later)
    ensures Spending(capacity, rate, start, spent, later)
  {
    FollowsIsTransitive(capacity, rate, start, seen.(bytes := start.bytes + spent),
                        later.(bytes := start.bytes + spent));
  }

  // In any run, the bytes sent within any window are at most the capacity plus what the
  // window earns.
  lemma {:induction false} WindowIsBounded(capacity: real, rate: nat, run: seq<Reading>, i: nat, j: nat)
    requires i <= j < |run| && 0.0 <= run[i].level <= capacity
    requires forall k :: 0 <= k < |run| - 1 ==> Follows(capacity, rate, run[k], run[k + 1])
    ensures run[j].bytes as real - run[i].bytes as real <= capacity + Credit(rate, run[j].time - run[i].time)
    ensures Follows(capacity, rate, run[i], run[j])
    decreases j - i
  {
    if i == j {
      CreditAdds(rate, 0.0, 0.0);
      assert run[j].time - run[i].time == 0.0;
    } else {
      WindowIsBounded(capacity, rate, run, i, j - 1);
      assert Follows(capacity, rate, run[j - 1], run[j - 1 + 1]);
      FollowsIsTransitive(capacity, rate, run[i], run[j - 1], run[j]);
    }
  }

  // ---- the clock ----

  // A monotone clock whose sleeper waits at least as long as asked.
  class Clock {
    var now: real

    constructor (start: real)
      ensures now == start
    {
      now := start;
    }

    method Read() returns (t: real)
      modifies this
      ensures t == now >= old(now)
    {
      var passed: real := *;
      now := now + Max(0.0, passed);
      return now;
    }

    method Sleep(seconds: real)
      requires seconds >= 0.0
      modifies this
      ensures now >= old(now) + seconds
    {
      var late: real := *;
      now := now + seconds + Max(0.0, late);
    }
  }

  // ---- the limiter ----

  class TokenBucket {
    const rate: nat
    const capacity: real
    const clock: Clock
    var tokens: real
    var updatedAt: real
    var totalWait: real
    var totalBytes: nat
    var throttleEvents: nat

    ghost predicate Valid()
      reads this, clock
    {
      && capacity >= 1.0
      && 0.0 <= tokens <= capacity
      && updatedAt <= clock.now
    }

    ghost function Observed(): Reading
      reads this, clock
    {
      Reading(totalBytes, Refilled(capacity, rate, tokens, clock.now - updatedAt), clock.now)
    }

    constructor (bytesPerSecond: int, burstSeconds: real, clock: Clock)
      modifies clock
      ensures Valid() && this.clock == clock && clock.now >= old(clock.now)
      ensures rate == (if bytesPerSecond > 0 then bytesPerSecond else 0)
      ensures capacity == Max(1.0, Credit(rate, Max(0.1, burstSeconds)))
      ensures Observed() == Reading(0, capacity, clock.now)
      ensures throttleEvents == 0 && totalWait == 0.0
    {
      var r: nat := if bytesPerSecond > 0 then bytesPerSecond else 0;
      rate := r;
      capacity := Max(1.0, Credit(r, Max(0.1, burstSeconds)));
      tokens := Max(1.0, Credit(r, Max(0.1, burstSeconds)));
      this.clock := clock;
      totalWait, totalBytes, throttleEvents := 0.0, 0, 0;
      new;
      updatedAt := clock.Read();
      RefillIsBounded(capacity, rate, tokens, 0.0);
    }

    method Refill(now: real)
      requires Valid() && now == clock.now
      modifies this`tokens, this`updatedAt
      ensures Valid() && Observed() == old(Observed())
      ensures tokens == old(Observed().level) && updatedAt == now
    {
      RefillIsBounded(capacity, rate, tokens, now - updatedAt);
      var elapsed := Max(0.0, now - updatedAt);
      tokens := Min(capacity, tokens + elapsed * rate as real);
      updatedAt := now;
      RefillIsBounded(capacity, rate, tokens, 0.0);
    }

    // Reading the clock and refilling.
    method Update()
      requires Valid()
      modifies this`tokens, this`updatedAt, clock
      ensures Valid() && updatedAt == clock.now >= old(clock.now)
      ensures tokens == Observed().level >= old(Observed().level)
      ensures Follows(capacity, rate, old(Observed()), Observed())
    {
      ghost var before := clock.now;
      label start:
      var now := clock.Read();
      assert now >= before;
      LevelLater@start();
      Refill(now);
    }

    // Sleeping from a fresh update adds what the time asked for earns.
    method Throttle(seconds: real)
      requires Valid() && updatedAt == clock.now && seconds >= 0.0
      modifies this`totalWait, this`throttleEvents, clock
      ensures Valid() && clock.now >= old(clock.now) + seconds
      ensures totalWait == old(totalWait) + seconds && throttleEvents == old(throttleEvents) + 1
      ensures Observed().level >= Min(capacity, tokens + Credit(rate, seconds))
      ensures Follows(capacity, rate, old(Observed()), Observed())
    {
      throttleEvents := throttleEvents + 1;
      totalWait := totalWait + seconds;
      label start:
      clock.Sleep(seconds);
      LevelLater@start();
      CreditIsMonotone(rate, seconds, clock.now - updatedAt);
    }

    // Waiting for the first whole token.
    method AwaitToken() returns (waitFor: real)
      requires Valid() && updatedAt == clock.now && rate > 0 && tokens < 1.0
      modifies this`totalWait, this`throttleEvents, clock
      ensures Valid() && waitFor >= 0.0 && clock.now >= old(clock.now) + waitFor
      ensures totalWait == old(totalWait) + waitFor && throttleEvents == old(throttleEvents) + 1
      ensures Observed().level >= 1.0
      ensures Follows(capacity, rate, old(Observed()), Observed())
    {
      waitFor := WaitFor(rate, 1.0 - tokens);
      Throttle(waitFor);
    }

    // Waiting for as long as the remaining bytes are worth.
    method AwaitRest(remaining: nat) returns (waitFor: real)
      requires Valid() && updatedAt == clock.now && rate > 0
      modifies this`tokens, this`updatedAt, this`totalWait, this`throttleEvents, clock
      ensures Valid() && waitFor >= 0.0 && clock.now >= old(clock.now) + waitFor
      ensures totalWait == old(totalWait) + waitFor && throttleEvents == old(throttleEvents) + 1
      ensures Follows(capacity, rate, old(Observed()), Observed())
    {
      hide Refilled, Follows, Credit, WaitFor, Observed, Max, Min;
      ghost var before := Observed();
      waitFor := WaitFor(rate, remaining as real);
      Throttle(waitFor);
      ghost var slept := Observed();
      Update();
      FollowsIsTransitive(capacity, rate, before, slept, Observed());
    }

    // Paying for as many of the remaining bytes as there are whole tokens.
    method Pay(ghost start: Reading, ghost spent: nat, remaining: nat) returns (spend: nat)
      requires Valid() && Spending(capacity, rate, start, spent, Observed()) && updatedAt == clock.now &&
               tokens >= 1.0 && remaining > 0
      modifies this`tokens
      ensures Valid() && 0 < spend <= remaining && Spending(capacity, rate, start, spent + spend, Observed())
    {
      spend := if remaining <= Whole(tokens) then remaining else Whole(tokens);
      assert clock.now - updatedAt == 0.0;
      RefillIsBounded(capacity, rate, tokens, 0.0);
      tokens := tokens - spend as real;
      RefillIsBounded(capacity, rate, tokens, 0.0);
    }

    // As time passes the limiter earns no more than the time is worth.
    twostate lemma LevelLater()
      requires old(Valid()) && old(clock.now) <= clock.now
      requires tokens == old(tokens) && updatedAt == old(updatedAt) && totalBytes == old(totalBytes)
      ensures Valid() && Follows(capacity, rate, old(Observed()), Observed())
      ensures Observed().level >= old(Observed().level)
    {
      var first, second := old(clock.now) - updatedAt, clock.now - old(clock.now);
      RefillComposes(capacity, rate, tokens, first, second);
      assert first + second == clock.now - updatedAt;
      RefillIsBounded(capacity, rate, tokens, first);
      RefillIsBounded(capacity, rate, old(Observed().level), second);
      hide Refilled, Credit;
    }

    // Whether the limiter has less than a whole token to spend.
    ghost function Short(): nat
      reads this, clock
    {
      if Observed().level < 1.0 then 1 else 0
    }

    lemma NothingSpent()
      requires Valid()
      ensures Spending(capacity, rate, Observed(), 0, Observed()) && Observed().bytes == totalBytes &&
              Observed().time == clock.now
    {
      RefillIsBounded(capacity, rate, tokens, clock.now - updatedAt);
      CreditAdds(rate, 0.0, 0.0);
      assert clock.now - clock.now == 0.0;
    }

    // One turn of the limiter: it waits for a whole token, or pays for some bytes and then
    // waits for as long as the rest of them are worth.
    method Turn(ghost start: Reading, ghost spent: nat, remaining: nat) returns (spend: nat, waited: real)
      requires Valid() && rate > 0 && remaining > 0 && Spending(capacity, rate, start, spent, Observed())
      modifies this`tokens, this`updatedAt, this`totalWait, this`throttleEvents, clock
      ensures Valid() && spend <= remaining && Spending(capacity, rate, start, spent + spend, Observed())
      ensures waited >= 0.0 && totalWait == old(totalWait) + waited && clock.now >= old(clock.now) + waited
      ensures old(throttleEvents) <= throttleEvents <= old(throttleEvents) + 1
      ensures spend == 0 ==> Short() < old(Short())
      ensures spend == remaining ==> throttleEvents == old(throttleEvents)
    {
      hide Refilled, Follows, Credit, WaitFor, Whole, Observed, Spending, Max, Min;
      ghost var before := Observed();
      Update();
      ghost var now := Observed();
      StillSpending(capacity, rate, start, spent, before, now);
      if tokens < 1.0 {
        waited := AwaitToken();
        StillSpending(capacity, rate, start, spent, now, Observed());
        return 0, waited;
      }
      spend := Pay(start, spent, remaining);
      if spend == remaining {
        return spend, 0.0;
      }
      ghost var paid := Observed();
      waited := AwaitRest(remaining - spend);
      StillSpending(capacity, rate, start, spent + spend, paid, Observed());
    }

    // Spending an amount turn by turn.
    method Drain(amount: nat) returns (waited: real)
      requires Valid() && rate > 0 && amount > 0
      modifies this`tokens, this`updatedAt, this`totalWait, this`throttleEvents, clock
      ensures Valid() && Spending(capacity, rate, old(Observed()), amount, Observed())
      ensures waited >= 0.0 && totalWait == old(totalWait) + waited && clock.now >= old(clock.now) + waited
      ensures old(throttleEvents) <= throttleEvents <= old(throttleEvents) + 2 * amount
    {
      hide Refilled, Follows, Credit, Observed, Spending, Max, Min;
      ghost var start := Observed();
      NothingSpent();
      waited := 0.0;
      var remaining := amount;
      while remaining > 0
        invariant Valid() && 0 <= remaining <= amount
        invariant Spending(capacity, rate, start, amount - remaining, Observed())
        invariant waited >= 0.0 && totalWait == old(totalWait) + waited && clock.now >= old(clock.now) + waited
        invariant old(throttleEvents) <= throttleEvents
        invariant throttleEvents + 2 * remaining + (if remaining > 0 then Short() - 1 else 0) <=
                  old(throttleEvents) + 2 * amount
        decreases remaining, Short()
      {
        var spend, seconds := Turn(start, amount - remaining, remaining);
        remaining := remaining - spend;
        waited := waited + seconds;
      }
    }

    method Consume(byteCount: int) returns (waited: real)
      requires Valid()
      modifies this`tokens, this`updatedAt, this`totalWait, this`totalBytes, this`throttleEvents, clock
      ensures Valid()
      ensures totalBytes == old(totalBytes) + if byteCount > 0 then byteCount else 0
      ensures waited >= 0.0 && totalWait == old(totalWait) + waited && clock.now >= old(clock.now) + waited
      ensures rate > 0 ==> Follows(capacity, rate, old(Observed()), Observed())
      ensures rate == 0 || byteCount <= 0 ==>
                && waited == 0.0 && tokens == old(tokens) && updatedAt == old(updatedAt)
                && throttleEvents == old(throttleEvents) && clock.now == old(clock.now)
      ensures old(throttleEvents) <= throttleEvents <= old(throttleEvents) + 2 * if byteCount > 0 then byteCount else 0
    {
      hide Refilled, Credit, Max, Min;
      var amount: nat := if byteCount > 0 then byteCount else 0;
      NothingSpent();
      waited := 0.0;
      if amount > 0 && rate > 0 {
        waited := Drain(amount);
      }
      totalBytes := totalBytes + amount;
    }
  }
}
