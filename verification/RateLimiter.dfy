/**
 The token bucket and the per-key limiter as the server's objects, updated in place.
 */
module RateLimiting {
  import opened Prelude
  import opened RateLimit

  class TokenBucket {
    var tokens: real
    var lastRefill: int

    function Abs(): Bucket
      reads this
    {
      Bucket(tokens, lastRefill)
    }

    constructor ()
      ensures Abs() == FULL
    {
      tokens, lastRefill := 100.0, 0;
    }

    /** consume. */
    method Consume(now: int) returns (ok: bool)
      modifies this
      ensures ok <==> Admits(old(Abs()), now)
      ensures Abs() == Spend(old(Abs()), now)
    {
      if lastRefill > 0 {
        var elapsed := (now - lastRefill) as real / 1_000_000_000.0;
        tokens := Min(MAX_TOKENS, tokens + elapsed * (100.0 / 60.0));
      }
      lastRefill := now;
      if tokens < 1.0 { return false; }
      tokens := tokens - 1.0;
      return true;
    }
  }

  /** The server's buckets, one for each key that was ever asked for. */
  class RateLimiter {
    var buckets: map<Bytes, TokenBucket>
    ghost var calls: seq<Call>

    /** Every key's bucket is what the key's own calls made of it. */
    ghost predicate Valid()
      reads this, buckets.Values
    {
      && (forall a, b :: a in buckets && b in buckets && a != b ==> buckets[a] != buckets[b])
      && (forall key :: key in buckets ==> buckets[key].Abs() == BucketAfter(calls, key))
      && (forall key: Bytes :: key !in buckets ==> BucketAfter(calls, key) == FULL)
    }

    constructor ()
      ensures Valid() && calls == []
    {
      buckets, calls := map[], [];
    }

    /** The bucket of a key, created full. */
    method BucketOf(key: Bytes) returns (b: TokenBucket)
      requires Valid()
      modifies this`buckets
      ensures Valid() && key in buckets && buckets[key] == b
      ensures forall k :: k in old(buckets) ==> k in buckets && buckets[k] == old(buckets)[k]
      ensures forall k :: k in buckets && k !in old(buckets) ==> fresh(buckets[k])
    {
      if key !in buckets {
        b := new TokenBucket();
        buckets := buckets[key := b];
      }
      b := buckets[key];
    }

    /** Asking for a key: the answer depends on that key's own calls and on no other key's. */
    method Allow(key: Bytes, now: int) returns (ok: bool)
      requires Valid()
      modifies this, buckets.Values
      ensures Valid() && calls == old(calls) + [Call(key, now)]
      ensures ok <==> Accepted(Times(old(calls), key) + [now], |Times(old(calls), key)|)
      ensures forall k :: k in buckets && k !in old(buckets) ==> fresh(buckets[k])
    {
      var b := BucketOf(key);
      CallTouchesItsKey(calls, key, now);
      hide BucketAfter, Times, Accepted, Admits, Spend;
      calls := calls + [Call(key, now)];
      ok := b.Consume(now);
      assert forall k :: k in buckets && k != key ==> buckets[k] != b;
    }
  }
}
