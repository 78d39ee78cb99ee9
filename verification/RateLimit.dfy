/**
 The token bucket that limits each key, over the reals. Clock readings are arguments, in
 nanoseconds. A run of one bucket is the sequence of the times it is asked at.
 */
module RateLimit {
  import opened Prelude

  const MAX_TOKENS: real := 100.0

  /** 100 tokens in 60 seconds. */
  function Gain(ns: int): real { ns as real / 1_000_000_000.0 * (100.0 / 60.0) }

  datatype Bucket = Bucket(tokens: real, last: int)

  const FULL: Bucket := Bucket(MAX_TOKENS, 0)

  function Min(a: real, b: real): real { if b < a then b else a }

  /** The tokens at a reading; a bucket that was never asked is not refilled. */
  function Available(b: Bucket, now: int): real {
    if b.last > 0 then Min(MAX_TOKENS, b.tokens + Gain(now - b.last)) else b.tokens
  }

  predicate Admits(b: Bucket, now: int) { Available(b, now) >= 1.0 }

  function Spend(b: Bucket, now: int): Bucket {
    Bucket(if Admits(b, now) then Available(b, now) - 1.0 else Available(b, now), now)
  }

  /** The bucket after the first k calls. */
  function After(times: seq<int>, k: nat): Bucket
    requires k <= |times|
  {
    if k == 0 then FULL else Spend(After(times, k - 1), times[k - 1])
  }

  predicate Accepted(times: seq<int>, k: nat)
    requires k < |times|
  {
    Admits(After(times, k), times[k])
  }

  /** The accepted calls from i up to, but not including, k. */
  function Count(times: seq<int>, i: nat, k: nat): nat
    requires k <= |times|
  {
    if k <= i then 0 else Count(times, i, k - 1) + (if Accepted(times, k - 1) then 1 else 0)
  }

  /** The steady clock: positive and never backwards. */
  ghost predicate Ticking(times: seq<int>) {
    && (forall i :: 0 <= i < |times| ==> 0 < times[i])
    && (forall i, j :: 0 <= i <= j < |times| ==> times[i] <= times[j])
  }

  lemma GainAdds(a: int, b: int)
    ensures Gain(a + b) == Gain(a) + Gain(b)
  {
  }

  lemma GainGrows(a: int, b: int)
    requires a <= b
    ensures Gain(a) <= Gain(b) && (a >= 0 ==> Gain(a) >= 0.0)
  {
  }

  // ----- the tokens, in closed form -----

  /** What is left of the allowance of the window that starts at call i. */
  ghost function Allowance(times: seq<int>, i: nat, k: nat): real
    requires i <= k < |times|
  {
    MAX_TOKENS + Gain(times[k] - times[i]) - Count(times, i, k) as real
  }

  lemma LastAsked(times: seq<int>, k: nat)
    requires Ticking(times) && 0 < k <= |times|
    ensures After(times, k).last == times[k - 1] > 0
  {
  }

  lemma AvailableStep(times: seq<int>, k: nat)
    requires Ticking(times) && k + 1 < |times|
    ensures Available(After(times, k + 1), times[k + 1])
            == Min(MAX_TOKENS, Available(After(times, k), times[k]) - (if Accepted(times, k) then 1.0 else 0.0)
                               + Gain(times[k + 1] - times[k]))
  {
    LastAsked(times, k + 1);
    hide Gain;
  }

  lemma AllowanceStep(times: seq<int>, i: nat, k: nat)
    requires i <= k && k + 1 < |times|
    ensures Allowance(times, i, k + 1)
            == Allowance(times, i, k) - (if Accepted(times, k) then 1.0 else 0.0) + Gain(times[k + 1] - times[k])
  {
    GainAdds(times[k] - times[i], times[k + 1] - times[k]);
    hide Gain, Accepted;
  }

  lemma GainOfNothing()
    ensures Gain(0) == 0.0
  {
  }

  /** The tokens available to a call are the least allowance any window up to it has left. */
  lemma {:induction false} TokensAreLeastAllowance(times: seq<int>, k: nat) returns (w: nat)
    requires Ticking(times) && k < |times|
    ensures w <= k && Available(After(times, k), times[k]) == Allowance(times, w, k)
    ensures forall i :: 0 <= i <= k ==> Available(After(times, k), times[k]) <= Allowance(times, i, k)
  {
    GainOfNothing();
    if k == 0 { return 0; }
    w := TokensAreLeastAllowance(times, k - 1);
    AvailableStep(times, k - 1);
    forall i | 0 <= i < k
      ensures Allowance(times, i, k) == Allowance(times, i, k - 1)
              - (if Accepted(times, k - 1) then 1.0 else 0.0) + Gain(times[k] - times[k - 1])
    {
      AllowanceStep(times, i, k - 1);
    }
    assert Allowance(times, k, k) == MAX_TOKENS;
    hide Gain, Allowance, Accepted, Available, After;
    if Available(After(times, k), times[k]) == MAX_TOKENS { w := k; }
  }

  /** A call is accepted exactly if no window that ends with it would then hold more calls than a
      full bucket and the refill over the window: the bucket is that rule and nothing else. */
  lemma AcceptedIff(times: seq<int>, k: nat)
    requires Ticking(times) && k < |times|
    ensures Accepted(times, k) <==>
            forall i :: 0 <= i <= k ==> (Count(times, i, k) + 1) as real <= MAX_TOKENS + Gain(times[k] - times[i])
  {
    var i0 := TokensAreLeastAllowance(times, k);
    hide Gain, Available, After, Count;
    assert Allowance(times, i0, k) == MAX_TOKENS + Gain(times[k] - times[i0]) - Count(times, i0, k) as real;
    if Accepted(times, k) {
      forall i | 0 <= i <= k ensures (Count(times, i, k) + 1) as real <= MAX_TOKENS + Gain(times[k] - times[i]) {
        assert Available(After(times, k), times[k]) <= Allowance(times, i, k);
      }
    }
  }

  /** Tokens stay between none and 100. */
  lemma {:induction false} TokensInRange(times: seq<int>, k: nat)
    requires Ticking(times) && k <= |times|
    ensures 0.0 <= After(times, k).tokens <= MAX_TOKENS
  {
    if k > 0 {
      TokensInRange(times, k - 1);
      if k > 1 { LastAsked(times, k - 1); GainGrows(0, times[k - 1] - times[k - 2]); }
      hide Gain;
    }
  }

  /** The calls accepted in any window number at most 100 and the refill over the window. */
  lemma {:induction false} WindowBound(times: seq<int>, i: nat, k: nat)
    requires Ticking(times) && i <= k < |times|
    ensures Count(times, i, k + 1) as real <= MAX_TOKENS + Gain(times[k] - times[i])
  {
    if Accepted(times, k) { AcceptedIff(times, k); }
    else if k > i {
      WindowBound(times, i, k - 1);
      GainGrows(times[k - 1] - times[i], times[k] - times[i]);
    } else { GainOfNothing(); }
    hide Gain, Accepted;
  }

  /** In seconds: at most 100 and 100 more for each minute of the window. */
  lemma WindowBoundSeconds(times: seq<int>, i: nat, k: nat, seconds: real)
    requires Ticking(times) && i <= k < |times| && (times[k] - times[i]) as real <= seconds * 1_000_000_000.0
    ensures Count(times, i, k + 1) as real <= 100.0 + seconds * 100.0 / 60.0
  {
    WindowBound(times, i, k);
    hide Count;
  }

  // ----- the bound is met -----

  /** A burst of 100 calls, then one call every 0.6 seconds. */
  ghost function BurstThenSteady(start: int, n: nat): seq<int> {
    seq(100 + n, i => if i < 100 then start else start + (i - 99) * 600_000_000)
  }

  lemma {:induction false} BurstAccepted(start: int, n: nat, k: nat)
    requires start > 0 && k <= 100
    ensures var b := After(BurstThenSteady(start, n), k);
            b.tokens == (100 - k) as real && (k > 0 ==> b.last == start)
    ensures Count(BurstThenSteady(start, n), 0, k) == k
  {
    GainOfNothing();
    if k > 0 { BurstAccepted(start, n, k - 1); }
  }

  lemma {:induction false} SteadyAccepted(start: int, n: nat, k: nat)
    requires start > 0 && k <= n
    ensures var b := After(BurstThenSteady(start, n), 100 + k);
            b.tokens == 0.0 && b.last == start + k * 600_000_000
    ensures Count(BurstThenSteady(start, n), 0, 100 + k) == 100 + k
  {
    if k == 0 { BurstAccepted(start, n, 100); }
    else {
      SteadyAccepted(start, n, k - 1);
      var times := BurstThenSteady(start, n);
      assert times[100 + k - 1] == start + k * 600_000_000;
      assert Gain(600_000_000) == 1.0;
      hide Gain, BurstThenSteady;
      assert Available(After(times, 99 + k), times[99 + k]) == 1.0;
    }
  }

  /** For every n, 100 + n calls are accepted within n * 0.6 seconds, which is the bound: 200 within
      a minute, for example. */
  lemma BoundIsMet(start: int, n: nat)
    requires start > 0
    ensures var times := BurstThenSteady(start, n);
            && Ticking(times)
            && Count(times, 0, |times|) == 100 + n
            && (n > 0 ==> times[|times| - 1] - times[0] == n * 600_000_000)
  {
    SteadyAccepted(start, n, n);
    hide Count;
  }

  /** Every window of the run that is at most w nanoseconds long holds at most m accepted calls. */
  ghost predicate WindowsHold(times: seq<int>, w: int, m: nat) {
    forall i, k :: 0 <= i <= k < |times| && times[k] - times[i] <= w ==> Count(times, i, k + 1) <= m
  }

  lemma GainOfWindow(w: int, n: nat)
    requires 0 <= w < (n + 1) * 600_000_000
    ensures Gain(w) < (n + 1) as real
  {
  }

  /** The limit, exactly: every window of w nanoseconds of every run holds at most 100 + n accepted
      calls if and only if w is less than (n + 1) * 0.6 seconds. For n = 0, no window of 0.6 seconds or
      more is sure to hold at most 100 calls, let alone a minute. */
  lemma WindowsHoldIff(w: int, n: nat)
    requires w >= 0
    ensures (forall times :: Ticking(times) ==> WindowsHold(times, w, 100 + n)) <==> w < (n + 1) * 600_000_000
  {
    if w < (n + 1) * 600_000_000 {
      GainOfWindow(w, n);
      forall times | Ticking(times) ensures WindowsHold(times, w, 100 + n) {
        forall i, k | 0 <= i <= k < |times| && times[k] - times[i] <= w ensures Count(times, i, k + 1) <= 100 + n {
          WindowBound(times, i, k);
          GainGrows(times[k] - times[i], w);
          hide Gain, Count;
        }
      }
    } else {
      var times := BurstThenSteady(1, n + 1);
      BoundIsMet(1, n + 1);
      hide Count, BurstThenSteady;
      var k := |times| - 1;
      assert Count(times, 0, k + 1) > 100 + n;
      assert !WindowsHold(times, w, 100 + n);
    }
  }

  // ----- rejected calls leave no trace -----

  /** Two buckets that no later reading can tell apart. */
  ghost predicate Alike(a: Bucket, b: Bucket, since: int) {
    forall now: int :: since <= now ==> Available(a, now) == Available(b, now)
  }

  /** A saturating refill composes: refilling on the way changes nothing. */
  lemma RejectionIsInvisible(b: Bucket, now: int)
    requires 0 < b.last <= now && !Admits(b, now)
    ensures Alike(Spend(b, now), b, now)
  {
    forall later: int | now <= later ensures Available(Spend(b, now), later) == Available(b, later) {
      GainAdds(now - b.last, later - now);
      GainGrows(0, later - now);
      hide Gain;
      assert (now - b.last) + (later - now) == later - b.last;
    }
  }

  ghost function Skip(times: seq<int>, k: nat): seq<int>
    requires k < |times|
  {
    times[..k] + times[k + 1..]
  }

  lemma {:induction false} SamePrefix(times: seq<int>, others: seq<int>, k: nat)
    requires k <= |times| && k <= |others| && times[..k] == others[..k]
    ensures After(times, k) == After(others, k)
  {
    if k > 0 {
      assert times[..k - 1] == times[..k][..k - 1] && others[..k - 1] == others[..k][..k - 1];
      assert times[k - 1] == times[..k][k - 1] && others[k - 1] == others[..k][k - 1];
      SamePrefix(times, others, k - 1);
    }
  }

  lemma FirstIsAccepted(times: seq<int>)
    ensures times != [] ==> Accepted(times, 0)
  {
  }

  /** Leaving out a rejected call: every later call finds the same tokens. */
  lemma {:induction false} LaterTokensSame(times: seq<int>, k: nat, j: nat)
    requires Ticking(times) && k < j <= |times| && !Accepted(times, k)
    ensures if j == k + 1 then Alike(After(times, j), After(Skip(times, k), j - 1), times[k])
            else After(times, j) == After(Skip(times, k), j - 1)
  {
    var skipped := Skip(times, k);
    if j == k + 1 {
      assert skipped[..k] == times[..k];
      SamePrefix(times, skipped, k);
      FirstIsAccepted(times);
      LastAsked(times, k);
      RejectionIsInvisible(After(times, k), times[k]);
    } else {
      LaterTokensSame(times, k, j - 1);
      assert skipped[j - 2] == times[j - 1];
      assert times[k] <= times[j - 1];
      if j == k + 2 {
        assert Available(After(times, j - 1), times[j - 1]) == Available(After(skipped, j - 2), times[j - 1]);
      }
      hide Available;
    }
  }

  /** Leaving out a rejected call changes the outcome of no other call. */
  lemma RejectedCallsLeaveNoTrace(times: seq<int>, k: nat, j: nat)
    requires Ticking(times) && k < |times| && j < |times| && j != k && !Accepted(times, k)
    ensures Accepted(times, j) <==> Accepted(Skip(times, k), if j < k then j else j - 1)
  {
    var skipped := Skip(times, k);
    if j < k {
      assert skipped[..j] == times[..j] && skipped[j] == times[j];
      SamePrefix(times, skipped, j);
    } else {
      LaterTokensSame(times, k, j);
      assert skipped[j - 1] == times[j];
      assert times[k] <= times[j];
      hide Available;
    }
  }

  // ----- keys -----

  datatype Call = Call(key: Bytes, now: int)

  /** The times a key is asked for. */
  function Times(calls: seq<Call>, key: Bytes): seq<int> {
    if calls == [] then []
    else
      var front := Times(calls[..|calls| - 1], key);
      if calls[|calls| - 1].key == key then front + [calls[|calls| - 1].now] else front
  }

  lemma TimesAppend(calls: seq<Call>, c: Call, key: Bytes)
    ensures Times(calls + [c], key) == if c.key == key then Times(calls, key) + [c.now] else Times(calls, key)
  {
    assert (calls + [c])[..|calls|] == calls;
  }

  lemma AfterAppend(times: seq<int>, now: int)
    ensures After(times + [now], |times|) == After(times, |times|)
    ensures After(times + [now], |times| + 1) == Spend(After(times, |times|), now)
    ensures Accepted(times + [now], |times|) <==> Admits(After(times, |times|), now)
  {
    assert (times + [now])[..|times|] == times[..|times|];
    SamePrefix(times + [now], times, |times|);
  }

  /** What a key's own calls have made of its bucket. */
  ghost function BucketAfter(calls: seq<Call>, key: Bytes): Bucket {
    After(Times(calls, key), |Times(calls, key)|)
  }

  /** A call moves its own key's bucket and no other. */
  lemma CallTouchesItsKey(calls: seq<Call>, key: Bytes, now: int)
    ensures forall k: Bytes :: BucketAfter(calls + [Call(key, now)], k)
                               == if k == key then Spend(BucketAfter(calls, k), now) else BucketAfter(calls, k)
    ensures Accepted(Times(calls, key) + [now], |Times(calls, key)|) <==> Admits(BucketAfter(calls, key), now)
  {
    AfterAppend(Times(calls, key), now);
    forall k: Bytes
      ensures BucketAfter(calls + [Call(key, now)], k)
              == if k == key then Spend(BucketAfter(calls, k), now) else BucketAfter(calls, k)
    {
      TimesAppend(calls, Call(key, now), k);
    }
  }
}
