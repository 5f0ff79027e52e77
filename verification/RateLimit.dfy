/** The token bucket (middleware/ratelimit.go), with readings of the clock as reals in seconds. */
module RateLimit {
  import opened Wrappers

  datatype Bucket = Bucket(tokens: real, last: real)

  datatype Decision = Decision(bucket: Bucket, allowed: bool)

  /** Tokens that come in over a stretch of time. */
  function Gain(elapsed: real, refill: real): (g: real)
    ensures elapsed >= 0.0 && refill >= 0.0 ==> g >= 0.0
  {
    elapsed * refill
  }

  function Refilled(b: Bucket, capacity: real, refill: real, now: real): (r: Bucket) {
    if now > b.last then
      var t := b.tokens + Gain(now - b.last, refill);
      Bucket(if t > capacity then capacity else t, now)
    else b
  }

  /** One call against the bucket of its key, if the key has one. */
  function Decide(b: Option<Bucket>, capacity: real, refill: real, now: real): (d: Decision) {
    var r := if b.None? then Bucket(capacity, now) else Refilled(b.value, capacity, refill, now);
    if r.tokens >= 1.0 then Decision(r.(tokens := r.tokens - 1.0), true) else Decision(r, false)
  }

  class Limiter {
    const capacity: real
    const refill: real
    var buckets: map<string, Bucket>
    ghost var history: seq<Event>

    ghost predicate Valid()
      reads this
    {
      capacity >= 1.0 && buckets == After(history, capacity, refill)
    }

    /** A capacity below one is raised to one. */
    constructor (requested: int, refillPerSecond: real)
      ensures Valid() && history == [] && buckets == map[] && refill == refillPerSecond
      ensures capacity == if requested < 1 then 1.0 else requested as real
    {
      var c := requested as real;
      if c < 1.0 {
        c := 1.0;
      }
      capacity, refill := c, refillPerSecond;
      buckets, history := map[], [];
    }

    method Allow(key: string, now: real) returns (ok: bool)
      requires Valid()
      modifies this
      ensures Valid() && history == old(history) + [Event(key, now)]
      ensures ok == Decide(Get(old(buckets), key), capacity, refill, now).allowed
      ensures buckets.Keys == old(buckets).Keys + {key}
      ensures forall k :: k in old(buckets) && k != key ==> buckets[k] == old(buckets)[k]
    {
      var b;
      if key !in buckets {
        b := Bucket(capacity, now);
      } else {
        b := buckets[key];
        var elapsed := now - b.last;
        if elapsed > 0.0 {
          var t := b.tokens + Gain(elapsed, refill);
          if t > capacity {
            t := capacity;
          }
          b := Bucket(t, now);
        }
      }
      ok := b.tokens >= 1.0;
      if ok {
        b := b.(tokens := b.tokens - 1.0);
      }
      assert Decision(b, ok) == Decide(Get(buckets, key), capacity, refill, now);
      buckets := buckets[key := b];
      assert (history + [Event(key, now)])[..|history|] == history;
      history := history + [Event(key, now)];
    }
  }

  // ---- Histories ----

  datatype Event = Event(key: string, now: real)

  function Get(buckets: map<string, Bucket>, key: string): (b: Option<Bucket>) {
    if key in buckets then Some(buckets[key]) else None
  }

  function After(events: seq<Event>, capacity: real, refill: real): (r: map<string, Bucket>)
  {
    if events == [] then map[]
    else
      var before, e := After(events[..|events| - 1], capacity, refill), events[|events| - 1];
      before[e.key := Decide(Get(before, e.key), capacity, refill, e.now).bucket]
  }

  function Readings(events: seq<Event>, key: string): (r: seq<real>)
  {
    if events == [] then []
    else
      var e := events[|events| - 1];
      Readings(events[..|events| - 1], key) + if e.key == key then [e.now] else []
  }

  /** The bucket of one key after the calls made under it. */
  function Run(readings: seq<real>, capacity: real, refill: real): (b: Option<Bucket>)
    ensures b.None? <==> readings == []
  {
    if readings == [] then None
    else Some(Decide(Run(readings[..|readings| - 1], capacity, refill), capacity, refill, readings[|readings| - 1]).bucket)
  }

  /** Keys do not touch each other: each bucket depends on the readings of its own key alone. */
  lemma {:induction false} KeysAreSeparate(events: seq<Event>, key: string, capacity: real, refill: real)
    ensures Get(After(events, capacity, refill), key) == Run(Readings(events, key), capacity, refill)
  {
    if events != [] {
      var n := |events| - 1;
      KeysAreSeparate(events[..n], key, capacity, refill);
      var before := Readings(events[..n], key);
      if events[n].key == key {
        assert (before + [events[n].now])[..|before|] == before;
      } else {
        assert before + [] == before;
      }
    }
  }

  function Allowed(readings: seq<real>, capacity: real, refill: real): (n: nat)
  {
    if readings == [] then 0
    else
      var before := readings[..|readings| - 1];
      Allowed(before, capacity, refill) +
      if Decide(Run(before, capacity, refill), capacity, refill, readings[|readings| - 1]).allowed then 1 else 0
  }

  // ---- Bounds ----

  ghost predicate InBounds(b: Option<Bucket>, capacity: real) {
    b.Some? ==> 0.0 <= b.value.tokens <= capacity
  }

  lemma DecideInBounds(b: Option<Bucket>, capacity: real, refill: real, now: real)
    requires capacity >= 1.0 && refill >= 0.0 && InBounds(b, capacity)
    ensures InBounds(Some(Decide(b, capacity, refill, now).bucket), capacity)
  {
  }

  lemma {:induction false} StaysInBounds(readings: seq<real>, capacity: real, refill: real)
    requires capacity >= 1.0 && refill >= 0.0
    ensures InBounds(Run(readings, capacity, refill), capacity)
  {
    if readings != [] {
      var before := readings[..|readings| - 1];
      StaysInBounds(before, capacity, refill);
      DecideInBounds(Run(before, capacity, refill), capacity, refill, readings[|readings| - 1]);
    }
  }

  lemma Quotient(capacity: real, refill: real)
    requires capacity >= 1.0 && refill < 0.0
    ensures Gain(-(capacity / refill), refill) == -capacity && -(capacity / refill) > 0.0
  {
    var t := -(capacity / refill);
    assert Gain(t, refill) == -capacity;
    assert Gain(-t, -refill) == Gain(t, refill);
  }

  /** A negative rate empties a bucket below zero. */
  lemma NegativeRefill(capacity: real, refill: real)
    requires capacity >= 1.0 && refill < 0.0
    ensures !InBounds(Run([0.0, -(capacity / refill)], capacity, refill), capacity)
  {
    var t := -(capacity / refill);
    var readings := [0.0, t];
    assert readings[..1] == [0.0] && [0.0][..0] == [];
    assert Gain(t, refill) == -capacity && t > 0.0 by {
      Quotient(capacity, refill);
    }
  }

  /** Tokens stay between zero and the capacity on every run, in whatever order the clock is read:
      if and only if the rate is not negative. */
  lemma BoundedIff(capacity: real, refill: real)
    requires capacity >= 1.0
    ensures (forall readings :: InBounds(Run(readings, capacity, refill), capacity)) <==> refill >= 0.0
  {
    if refill >= 0.0 {
      forall readings
        ensures InBounds(Run(readings, capacity, refill), capacity)
      {
        StaysInBounds(readings, capacity, refill);
      }
    } else {
      NegativeRefill(capacity, refill);
    }
  }

  /** The bucket remembers the latest reading. */
  lemma {:induction false} LastIsLatest(readings: seq<real>, capacity: real, refill: real)
    requires readings != []
    ensures var last := Run(readings, capacity, refill).value.last;
      last in readings && forall i :: 0 <= i < |readings| ==> readings[i] <= last
  {
    var n := |readings| - 1;
    if n > 0 {
      LastIsLatest(readings[..n], capacity, refill);
      assert readings == readings[..n] + [readings[n]];
    }
  }

  function Cost(d: Decision): (c: real) {
    if d.allowed then 1.0 else 0.0
  }

  /** What one call takes out and what time puts in. */
  lemma Balance(b: Bucket, capacity: real, refill: real, now: real)
    requires refill >= 0.0
    ensures var d := Decide(Some(b), capacity, refill, now);
      d.bucket.last >= b.last && d.bucket.tokens + Cost(d) <= b.tokens + Gain(d.bucket.last - b.last, refill)
  {
  }

  lemma Advance(refill: real, a: real, b: real, c: real)
    ensures Gain(c - a, refill) == Gain(b - a, refill) + Gain(c - b, refill)
  {
  }

  lemma AllowedStep(readings: seq<real>, now: real, capacity: real, refill: real)
    ensures var d := Decide(Run(readings, capacity, refill), capacity, refill, now);
      && Run(readings + [now], capacity, refill) == Some(d.bucket)
      && Allowed(readings + [now], capacity, refill) as real == Allowed(readings, capacity, refill) as real + Cost(d)
  {
    assert (readings + [now])[..|readings|] == readings;
  }

  /** Over any stretch of a run after the first call, allowed calls are paid for by the tokens there
      were and the time that passed. */
  lemma {:induction false} Spent(before: seq<real>, more: seq<real>, capacity: real, refill: real)
    requires before != [] && refill >= 0.0
    ensures var a, b := Run(before, capacity, refill).value, Run(before + more, capacity, refill);
      && b.Some? && b.value.last >= a.last
      && b.value.tokens + Allowed(before + more, capacity, refill) as real - Allowed(before, capacity, refill) as real
         <= a.tokens + Gain(b.value.last - a.last, refill)
  {
    if more == [] {
      assert before + more == before;
    } else {
      var n := |more| - 1;
      var prev := before + more[..n];
      Spent(before, more[..n], capacity, refill);
      assert before + more == prev + [more[n]];
      AllowedStep(prev, more[n], capacity, refill);
      var a, b := Run(before, capacity, refill).value, Run(prev, capacity, refill).value;
      Balance(b, capacity, refill, more[n]);
      Advance(refill, a.last, b.last, Decide(Some(b), capacity, refill, more[n]).bucket.last);
    }
  }

  /** Between any two points of a run, at most the capacity plus what the advance of the latest
      reading refills is allowed. */
  lemma WindowBound(before: seq<real>, more: seq<real>, capacity: real, refill: real)
    requires before != [] && capacity >= 1.0 && refill >= 0.0
    ensures var a, b := Run(before, capacity, refill).value, Run(before + more, capacity, refill);
      b.Some? && Allowed(before + more, capacity, refill) as real - Allowed(before, capacity, refill) as real
                 <= capacity + Gain(b.value.last - a.last, refill)
  {
    Spent(before, more, capacity, refill);
    StaysInBounds(before, capacity, refill);
    StaysInBounds(before + more, capacity, refill);
  }

  /** The same from the very first call on. */
  lemma RunBound(readings: seq<real>, capacity: real, refill: real)
    requires readings != [] && capacity >= 1.0 && refill >= 0.0
    ensures Allowed(readings, capacity, refill) as real
            <= capacity + Gain(Run(readings, capacity, refill).value.last - readings[0], refill)
  {
    var first, more := [readings[0]], readings[1..];
    assert readings == first + more && [] + first == first;
    AllowedStep([], readings[0], capacity, refill);
    Spent(first, more, capacity, refill);
    StaysInBounds(readings, capacity, refill);
  }

  lemma EnoughTime(elapsed: real, refill: real)
    requires refill > 0.0 && elapsed >= 1.0 / refill
    ensures Gain(elapsed, refill) >= 1.0 && elapsed > 0.0
  {
    assert 1.0 / refill > 0.0;
    assert Gain(1.0 / refill, refill) == 1.0;
    assert Gain(elapsed - 1.0 / refill, refill) >= 0.0;
    Advance(refill, 0.0, 1.0 / refill, elapsed);
  }

  /** A call that comes at least 1/refill after the latest reading is allowed. */
  lemma PatienceIsRewarded(readings: seq<real>, now: real, capacity: real, refill: real)
    requires capacity >= 1.0 && refill > 0.0
    requires readings != [] ==> now >= Run(readings, capacity, refill).value.last + 1.0 / refill
    ensures Decide(Run(readings, capacity, refill), capacity, refill, now).allowed
  {
    StaysInBounds(readings, capacity, refill);
    if readings != [] {
      var last := Run(readings, capacity, refill).value.last;
      EnoughTime(now - last, refill);
    }
  }

  // ---- Bursts ----

  function Repeated(now: real, n: nat): (r: seq<real>) {
    seq(n, i => now)
  }

  function Least(a: int, b: int): (r: int) {
    if a <= b then a else b
  }

  /** The bucket is full when it is looked at: a key never seen, or one that has been idle long enough. */
  ghost predicate FullAt(before: seq<real>, now: real, capacity: real, refill: real) {
    before != [] ==>
      var b := Run(before, capacity, refill).value;
      now > b.last && b.tokens + Gain(now - b.last, refill) >= capacity
  }

  lemma IdleFills(before: seq<real>, now: real, capacity: real, refill: real)
    requires capacity >= 1.0 && refill > 0.0
    requires before != [] ==> now >= Run(before, capacity, refill).value.last + capacity / refill
    ensures FullAt(before, now, capacity, refill)
  {
    if before != [] {
      var last := Run(before, capacity, refill).value.last;
      StaysInBounds(before, capacity, refill);
      FullTime(now - last, capacity, refill);
    }
  }

  lemma FullTime(elapsed: real, capacity: real, refill: real)
    requires capacity >= 1.0 && refill > 0.0 && elapsed >= capacity / refill
    ensures Gain(elapsed, refill) >= capacity && elapsed > 0.0
  {
    assert capacity / refill > 0.0;
    assert Gain(capacity / refill, refill) == capacity;
    assert Gain(elapsed - capacity / refill, refill) >= 0.0;
    Advance(refill, 0.0, capacity / refill, elapsed);
  }

  lemma FirstOfBurst(before: seq<real>, now: real, capacity: real, refill: real)
    requires capacity >= 1.0 && FullAt(before, now, capacity, refill)
    ensures Decide(Run(before, capacity, refill), capacity, refill, now) == Decision(Bucket(capacity - 1.0, now), true)
    ensures capacity.Floor >= 1
  {
  }

  lemma NextOfBurst(n: nat, now: real, capacity: real, refill: real)
    requires capacity >= 1.0
    ensures Decide(Some(Bucket(capacity - Least(n, capacity.Floor) as real, now)), capacity, refill, now) ==
            Decision(Bucket(capacity - Least(n + 1, capacity.Floor) as real, now), n < capacity.Floor)
  {
    var k := Least(n, capacity.Floor);
    assert capacity - k as real >= 1.0 <==> k < capacity.Floor;
  }

  lemma AllowedSnoc(readings: seq<real>, now: real, capacity: real, refill: real)
    ensures var d := Decide(Run(readings, capacity, refill), capacity, refill, now);
      && Run(readings + [now], capacity, refill) == Some(d.bucket)
      && Allowed(readings + [now], capacity, refill) == Allowed(readings, capacity, refill) + if d.allowed then 1 else 0
  {
    assert (readings + [now])[..|readings|] == readings;
  }

  lemma RepeatedSnoc(before: seq<real>, now: real, n: nat)
    ensures before + Repeated(now, n + 1) == before + Repeated(now, n) + [now]
    ensures before + Repeated(now, 0) == before
  {
  }

  /** After n calls at once on a full bucket, of which as many were allowed as the capacity holds. */
  ghost predicate Drawn(readings: seq<real>, base: nat, now: real, n: nat, capacity: real, refill: real) {
    match Run(readings, capacity, refill)
    case None => false
    case Some(b) =>
      && b == Bucket(capacity - Least(n, capacity.Floor) as real, now)
      && Allowed(readings, capacity, refill) == base + Least(n, capacity.Floor)
  }

  lemma DrawFirst(before: seq<real>, now: real, capacity: real, refill: real)
    requires capacity >= 1.0 && FullAt(before, now, capacity, refill)
    ensures Drawn(before + [now], Allowed(before, capacity, refill), now, 1, capacity, refill)
  {
    FirstOfBurst(before, now, capacity, refill);
    AllowedSnoc(before, now, capacity, refill);
  }

  lemma DrawNext(readings: seq<real>, base: nat, now: real, n: nat, capacity: real, refill: real)
    requires capacity >= 1.0 && Drawn(readings, base, now, n, capacity, refill)
    ensures Drawn(readings + [now], base, now, n + 1, capacity, refill)
  {
    NextOfBurst(n, now, capacity, refill);
    AllowedSnoc(readings, now, capacity, refill);
  }

  /** Of n calls made at once on a full bucket, exactly as many are allowed as the capacity holds. */
  lemma {:induction false} Burst(before: seq<real>, now: real, n: nat, capacity: real, refill: real)
    requires capacity >= 1.0 && FullAt(before, now, capacity, refill)
    ensures var all, base := before + Repeated(now, n), Allowed(before, capacity, refill);
      && Allowed(all, capacity, refill) == base + Least(n, capacity.Floor)
      && (n > 0 ==> Drawn(all, base, now, n, capacity, refill))
  {
    RepeatedSnoc(before, now, 0);
    if n > 0 {
      Burst(before, now, n - 1, capacity, refill);
      RepeatedSnoc(before, now, n - 1);
      if n == 1 {
        DrawFirst(before, now, capacity, refill);
      } else {
        DrawNext(before + Repeated(now, n - 1), Allowed(before, capacity, refill), now, n - 1, capacity, refill);
      }
    }
  }
}
