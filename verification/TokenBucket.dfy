/**
 The per-IP token bucket of the XDP program: the arithmetic of check_rate_limit
 on 64-bit words, and what it admits over whole sequences of packets.
 */
module TokenBucket {
  import opened Word

  const NS: int := 1_000_000_000

  datatype Verdict = Pass | Drop

  datatype Bucket = Bucket(tokens: u64, lastRefill: u64)

  function Burst(rate: u64): u64 {
    Wrap(rate * 2)
  }

  /** Nanotokens not credited yet: the elapsed time times the rate, as a 64-bit product. */
  function Credit(b: Bucket, rate: u64, now: u64): u64 {
    Wrap(Wrap(now - b.lastRefill) * rate)
  }

  /** Whole tokens earned since the last refill. */
  function Earned(b: Bucket, rate: u64, now: u64): u64 {
    Credit(b, rate, now) / NS
  }

  /** The bucket after the refill part: a refill of zero tokens leaves lastRefill alone. */
  function Refill(b: Bucket, rate: u64, now: u64): Bucket {
    var earned := Earned(b, rate, now);
    if earned == 0 then b
    else
      var t := Wrap(b.tokens + earned);
      Bucket(if t > Burst(rate) then Burst(rate) else t, now)
  }

  /** One call of the rate limiter for a configured source. */
  function Admit(b: Option<Bucket>, rate: u64, now: u64): (Bucket, Verdict) {
    match b
    case None => (Bucket(Wrap(Burst(rate) - 1), now), Pass)
    case Some(b) =>
      var r := Refill(b, rate, now);
      if r.tokens > 0 then (r.(tokens := r.tokens - 1), Pass) else (r, Drop)
  }

  /** Packet times that never go back, starting at from. */
  predicate Ordered(from: u64, times: seq<u64>)
    decreases times
  {
    times == [] || (from <= times[0] && Ordered(times[0], times[1..]))
  }

  function After(b: Option<Bucket>, rate: u64, times: seq<u64>): Option<Bucket>
    decreases times
  {
    if times == [] then b else After(Some(Admit(b, rate, times[0]).0), rate, times[1..])
  }

  /** How many of the packets at the given times the limiter lets through. */
  function Passed(b: Option<Bucket>, rate: u64, times: seq<u64>): nat
    decreases times
  {
    if times == [] then 0
    else
      var (b', verdict) := Admit(b, rate, times[0]);
      (if verdict == Pass then 1 else 0) + Passed(Some(b'), rate, times[1..])
  }

  /** Whole tokens earned at this rate between two times. */
  function Allowance(rate: int, from: int, to: int): int {
    rate * (to - from) / NS
  }

  function Last(times: seq<u64>): u64
    requires times != []
  {
    times[|times| - 1]
  }

  /** Nanotokens spent, held and still to be credited, against a clock running at the configured rate. */
  function Potential(passed: int, b: Bucket, rate: u64, now: u64): int {
    NS * (passed + b.tokens) + Credit(b, rate, now) - rate * now
  }

  // ---- upper envelope ----

  lemma WrapExact(x: int)
    requires 0 <= x < TWO_TO_64
    ensures Wrap(x) == x
  {
  }

  lemma WrapSubadditive(x: nat, y: nat)
    ensures Wrap(x + y) <= Wrap(x) + y
  {
  }

  lemma CreditAt(b: Bucket, rate: u64, now: u64)
    requires b.lastRefill <= now
    ensures Credit(b, rate, now) == Wrap((now - b.lastRefill) * rate)
  {
    WrapExact(now - b.lastRefill);
  }

  /** Time adds at most rate nanotokens per nanosecond of credit; a product that wraps loses credit. */
  lemma CreditGrows(b: Bucket, rate: u64, earlier: u64, now: u64)
    requires b.lastRefill <= earlier <= now
    ensures Credit(b, rate, now) <= Credit(b, rate, earlier) + rate * (now - earlier)
  {
    var x: int, y: int := (earlier - b.lastRefill) * rate, rate * (now - earlier);
    assert x + y == (now - b.lastRefill) * rate;
    CreditAt(b, rate, earlier);
    CreditAt(b, rate, now);
    WrapSubadditive(x, y);
  }

  lemma PotentialFalls(passed: int, b: Bucket, rate: u64, earlier: u64, now: u64)
    requires b.lastRefill <= earlier <= now
    ensures Potential(passed, b, rate, now) <= Potential(passed, b, rate, earlier)
  {
    CreditGrows(b, rate, earlier, now);
    assert rate * (now - earlier) == rate * now - rate * earlier;
  }

  function Max(x: u64, y: u64): u64 {
    if x > y then x else y
  }

  lemma RefillMovesCredit(b: Bucket, rate: u64, now: u64)
    requires b.lastRefill <= now
    ensures var r := Refill(b, rate, now);
            && r.lastRefill <= now && r.tokens <= Max(b.tokens, Burst(rate))
            && NS * r.tokens + Credit(r, rate, now) <= NS * b.tokens + Credit(b, rate, now)
            && Credit(r, rate, now) < NS
  {
    var credit, earned, r := Credit(b, rate, now), Earned(b, rate, now), Refill(b, rate, now);
    assert NS * earned <= credit < NS * (earned + 1);
    if earned == 0 {
      assert r == b;
    } else {
      assert r.lastRefill == now && Credit(r, rate, now) == 0;
      assert r.tokens <= Wrap(b.tokens + earned) <= b.tokens + earned;
    }
  }

  /** A packet moves credit into tokens and tokens into passed packets, and leaves less than one token uncredited. */
  lemma AdmitMovesCredit(b: Bucket, rate: u64, now: u64)
    requires b.lastRefill <= now
    ensures var (b', verdict) := Admit(Some(b), rate, now);
            var passed := if verdict == Pass then 1 else 0;
            && b'.lastRefill <= now && passed + b'.tokens <= Max(b.tokens, Burst(rate))
            && NS * (passed + b'.tokens) + Credit(b', rate, now) <= NS * b.tokens + Credit(b, rate, now)
            && Credit(b', rate, now) < NS
  {
    RefillMovesCredit(b, rate, now);
    var r, b' := Refill(b, rate, now), Admit(Some(b), rate, now).0;
    assert b'.lastRefill == r.lastRefill;
    assert Credit(b', rate, now) == Credit(r, rate, now);
  }

  /** Every packet, passed or dropped, keeps the potential from growing. */
  lemma AdmitKeepsPotential(passed: int, b: Bucket, rate: u64, earlier: u64, now: u64)
    requires b.lastRefill <= earlier <= now
    ensures var (b', verdict) := Admit(Some(b), rate, now);
            && b'.lastRefill <= now
            && Potential(passed + (if verdict == Pass then 1 else 0), b', rate, now) <= Potential(passed, b, rate, earlier)
  {
    AdmitMovesCredit(b, rate, now);
    PotentialFalls(passed, b, rate, earlier, now);
  }

  function EndTime(from: u64, times: seq<u64>): u64 {
    if times == [] then from else Last(times)
  }

  lemma {:induction false} RunKeepsPotential(b: Bucket, rate: u64, from: u64, times: seq<u64>)
    requires b.lastRefill <= from && Ordered(from, times)
    ensures var b' := After(Some(b), rate, times);
            && b'.Some?
            && b'.value.lastRefill <= EndTime(from, times)
            && Potential(Passed(Some(b), rate, times), b'.value, rate, EndTime(from, times)) <= Potential(0, b, rate, from)
    decreases times
  {
    if times != [] {
      AdmitKeepsPotential(0, b, rate, from, times[0]);
      RunKeepsPotential(Admit(Some(b), rate, times[0]).0, rate, times[0], times[1..]);
      assert EndTime(times[0], times[1..]) == EndTime(from, times);
    }
  }

  lemma {:induction false} OrderedFromEarlier(from: u64, earlier: u64, times: seq<u64>)
    requires Ordered(from, times) && earlier <= from
    ensures Ordered(earlier, times)
    decreases times
  {
  }

  lemma {:induction false} OrderedLast(from: u64, times: seq<u64>)
    requires Ordered(from, times) && times != []
    ensures from <= times[0] <= Last(times)
    decreases times
  {
    if |times| > 1 {
      OrderedLast(times[0], times[1..]);
    }
  }

  /** From a bound on the final potential to a bound on the packets that passed. */
  lemma PotentialBoundsPassed(passed: int, b: Bucket, rate: u64, from: u64, now: u64, held: int, slack: int)
    requires slack < NS && Potential(passed, b, rate, now) <= NS * held + slack - rate * from
    ensures passed <= held + Allowance(rate, from, now) + (if slack <= 0 then 0 else 1)
  {
    assert rate * (now - from) == rate * now - rate * from;
    assert NS * (passed - held) <= rate * (now - from) + slack;
  }

  /**
   From the packet that creates the bucket, at time times[0], at most one burst plus the
   tokens earned until the last packet get through.
   */
  lemma {:induction false} EnvelopeFromCreation(rate: u64, times: seq<u64>)
    requires Burst(rate) != 0
    requires times != [] && Ordered(times[0], times)
    ensures Passed(None, rate, times) <= Burst(rate) + Allowance(rate, times[0], Last(times))
  {
    CreationPotential(rate, times[0]);
    var b := Admit(None, rate, times[0]).0;
    RunKeepsPotential(b, rate, times[0], times[1..]);
    var passed, end := Passed(Some(b), rate, times[1..]), After(Some(b), rate, times[1..]).value;
    assert Passed(None, rate, times) == 1 + passed;
    assert EndTime(times[0], times[1..]) == Last(times);
    PotentialBoundsPassed(1 + passed, end, rate, times[0], Last(times), Burst(rate), 0);
  }

  lemma CreationPotential(rate: u64, now: u64)
    requires Burst(rate) != 0
    ensures var (b, verdict) := Admit(None, rate, now);
            && verdict == Pass && b.lastRefill == now && b.tokens < Burst(rate)
            && Potential(1, b, rate, now) == NS * Burst(rate) - rate * now
  {
  }

  /** The envelope holds for a rate exactly when twice the rate is not zero as a 64-bit word. */
  lemma {:induction false} EnvelopeHoldsIffBurstNonzero(rate: u64)
    ensures (forall times: seq<u64> | times != [] && Ordered(times[0], times) ::
              Passed(None, rate, times) <= Burst(rate) + Allowance(rate, times[0], Last(times)))
        <==> Burst(rate) != 0
    ensures Burst(rate) == 0 <==> rate == 0 || rate == TWO_TO_63
  {
    if Burst(rate) != 0 {
      forall times: seq<u64> | times != [] && Ordered(times[0], times)
        ensures Passed(None, rate, times) <= Burst(rate) + Allowance(rate, times[0], Last(times))
      {
        EnvelopeFromCreation(rate, times);
      }
    } else {
      var once: seq<u64> := [0];
      assert Ordered(once[0], once);
      assert Passed(None, rate, once) == 1 + Passed(Some(Admit(None, rate, 0).0), rate, once[1..]) == 1;
    }
  }

  /**
   Over any window of packets, from any bucket and after any idle time, the bound is the same with one
   more packet; a bucket filled under a higher rate may be spent first.
   */
  lemma {:induction false} EnvelopeAnyWindow(b: Bucket, rate: u64, times: seq<u64>)
    requires times != [] && Ordered(b.lastRefill, times)
    ensures Passed(Some(b), rate, times) <= Max(b.tokens, Burst(rate)) + Allowance(rate, times[0], Last(times)) + 1
  {
    var (b1, verdict) := Admit(Some(b), rate, times[0]);
    var first := if verdict == Pass then 1 else 0;
    AdmitMovesCredit(b, rate, times[0]);
    RunKeepsPotential(b1, rate, times[0], times[1..]);
    var passed, end := Passed(Some(b1), rate, times[1..]), After(Some(b1), rate, times[1..]).value;
    assert Passed(Some(b), rate, times) == first + passed;
    assert EndTime(times[0], times[1..]) == Last(times);
    var held: int := Max(b.tokens, Burst(rate));
    assert Potential(first, b1, rate, times[0]) <= NS * held + (NS - 1) - rate * times[0];
    assert Potential(first + passed, end, rate, Last(times)) == NS * first + Potential(passed, end, rate, Last(times));
    PotentialBoundsPassed(first + passed, end, rate, times[0], Last(times), held, NS - 1);
  }

  lemma {:induction false} AfterWithinBurst(b: Bucket, rate: u64, from: u64, times: seq<u64>)
    requires b.tokens <= Burst(rate) && b.lastRefill <= from && Ordered(from, times)
    ensures var b' := After(Some(b), rate, times);
            b'.Some? && b'.value.tokens <= Burst(rate) && b'.value.lastRefill <= EndTime(from, times)
    decreases times
  {
    if times != [] {
      AdmitMovesCredit(b, rate, times[0]);
      AfterWithinBurst(Admit(Some(b), rate, times[0]).0, rate, times[0], times[1..]);
      assert EndTime(times[0], times[1..]) == EndTime(from, times);
    }
  }

  /** Any window of packets after the creating one: one burst, the tokens of the window, and one packet more. */
  lemma {:induction false} EnvelopeOfEveryWindow(rate: u64, before: seq<u64>, window: seq<u64>)
    requires Burst(rate) != 0
    requires before != [] && Ordered(before[0], before)
    requires window != [] && Ordered(Last(before), window)
    ensures Passed(After(None, rate, before), rate, window)
         <= Burst(rate) + Allowance(rate, window[0], Last(window)) + 1
  {
    CreationPotential(rate, before[0]);
    var b0 := Admit(None, rate, before[0]).0;
    AfterWithinBurst(b0, rate, before[0], before[1..]);
    assert EndTime(before[0], before[1..]) == Last(before);
    var b := After(Some(b0), rate, before[1..]).value;
    assert After(None, rate, before) == Some(b);
    OrderedFromEarlier(Last(before), b.lastRefill, window);
    EnvelopeAnyWindow(b, rate, window);
  }

  // ---- changing rates ----

  /** Whatever sequence of usable rates is configured, the bucket never holds more than the largest burst. */
  lemma AdmitBounded(b: Option<Bucket>, rate: u64, now: u64, most: u64)
    requires 0 < Burst(rate) <= most
    requires b.Some? ==> b.value.tokens <= most
    ensures Admit(b, rate, now).0.tokens <= most
  {
  }

  // ---- service ----

  /** No 64-bit product or sum wraps for a bucket within its burst over this much time. */
  predicate Fits(rate: u64, from: u64, to: u64) {
    1 <= rate && from <= to && rate * (2 + (to - from)) < TWO_TO_64
  }

  /** The refill at this packet is not cut off at the burst. */
  predicate Unclamped(b: Bucket, rate: u64, now: u64) {
    b.tokens + Earned(b, rate, now) <= Burst(rate)
  }

  predicate UnclampedRun(b: Bucket, rate: u64, times: seq<u64>)
    decreases times
  {
    times == [] || (
      && Fits(rate, b.lastRefill, times[0])
      && Unclamped(b, rate, times[0])
      && UnclampedRun(Admit(Some(b), rate, times[0]).0, rate, times[1..]))
  }

  /**
   Resetting last_refill throws away the fraction of a token each time, but never more than
   half of the credit: what got through plus what is left is at least the starting tokens
   plus half of the tokens the credited time is worth.
   */
  lemma {:induction false} ServiceAtLeastHalf(b: Bucket, rate: u64, times: seq<u64>)
    requires UnclampedRun(b, rate, times)
    ensures After(Some(b), rate, times).Some?
    ensures var b' := After(Some(b), rate, times).value;
            2 * NS * (Passed(Some(b), rate, times) + b'.tokens)
              >= 2 * NS * b.tokens + rate * (b'.lastRefill - b.lastRefill)
    decreases times
  {
    if times != [] {
      var b1 := Admit(Some(b), rate, times[0]).0;
      AdmitServesHalf(b, rate, times[0]);
      ServiceAtLeastHalf(b1, rate, times[1..]);
      var b' := After(Some(b), rate, times).value;
      assert rate * (b'.lastRefill - b.lastRefill)
          == rate * (b'.lastRefill - b1.lastRefill) + rate * (b1.lastRefill - b.lastRefill);
    }
  }

  lemma FitsMeansExact(b: Bucket, rate: u64, now: u64)
    requires Fits(rate, b.lastRefill, now)
    ensures Burst(rate) == 2 * rate
    ensures (now - b.lastRefill) * rate + 2 * rate < TWO_TO_64
    ensures Earned(b, rate, now) == (now - b.lastRefill) * rate / NS
  {
    var product: int := (now - b.lastRefill) * rate;
    assert 2 * rate + product == rate * (2 + (now - b.lastRefill));
    assert product >= 0;
    WrapExact(now - b.lastRefill);
    WrapExact(product);
    WrapExact(2 * rate);
  }

  lemma UnclampedRefill(b: Bucket, rate: u64, now: u64)
    requires Unclamped(b, rate, now)
    ensures var earned := Earned(b, rate, now);
            Refill(b, rate, now) == Bucket(b.tokens + earned, if earned > 0 then now else b.lastRefill)
  {
    WrapExact(b.tokens + Earned(b, rate, now));
  }

  lemma UnclampedAdmit(b: Bucket, rate: u64, now: u64)
    requires Unclamped(b, rate, now)
    ensures var (b', verdict) := Admit(Some(b), rate, now);
            && (if verdict == Pass then 1 else 0) + b'.tokens == b.tokens + Earned(b, rate, now)
            && b'.lastRefill == if Earned(b, rate, now) > 0 then now else b.lastRefill
  {
    UnclampedRefill(b, rate, now);
  }

  lemma HalfCredit(rate: nat, last: int, now: int, refilled: int, earned: nat)
    requires last <= now && earned == (now - last) * rate / NS
    requires refilled == if earned > 0 then now else last
    ensures 2 * NS * earned >= rate * (refilled - last)
  {
    var product := (now - last) * rate;
    assert product < NS * (earned + 1);
    if earned == 0 {
      assert rate * (refilled - last) == 0;
    }
  }

  lemma AdmitServesHalf(b: Bucket, rate: u64, now: u64)
    requires Fits(rate, b.lastRefill, now) && Unclamped(b, rate, now)
    ensures var (b', verdict) := Admit(Some(b), rate, now);
            2 * NS * ((if verdict == Pass then 1 else 0) + b'.tokens)
              >= 2 * NS * b.tokens + rate * (b'.lastRefill - b.lastRefill)
  {
    FitsMeansExact(b, rate, now);
    UnclampedAdmit(b, rate, now);
    HalfCredit(rate, b.lastRefill, now, Admit(Some(b), rate, now).0.lastRefill, Earned(b, rate, now));
  }

  function Min(x: int, y: int): int {
    if x < y then x else y
  }

  /** The tokens held and those the elapsed time is worth, up to one burst. */
  function Available(b: Bucket, rate: u64, now: u64): int {
    Min(2 * rate, b.tokens + rate * (now - b.lastRefill) / NS)
  }

  lemma RefillExactly(b: Bucket, rate: u64, now: u64)
    requires Fits(rate, b.lastRefill, now) && b.tokens <= 2 * rate
    ensures var r, earned := Refill(b, rate, now), Earned(b, rate, now);
            && earned == rate * (now - b.lastRefill) / NS
            && r.tokens == Available(b, rate, now)
            && r.lastRefill == (if earned == 0 then b.lastRefill else now)
  {
    var elapsed: int := now - b.lastRefill;
    FitsMeansExact(b, rate, now);
    assert rate * elapsed == elapsed * rate >= 0;
    WrapExact(b.tokens + Earned(b, rate, now));
  }

  /** With products that fit a word, a packet finds what is available and takes one token if there is any. */
  lemma AdmitServesExactly(b: Bucket, rate: u64, now: u64)
    requires Fits(rate, b.lastRefill, now) && b.tokens <= 2 * rate
    ensures var (b', verdict) := Admit(Some(b), rate, now);
            && (if verdict == Pass then 1 else 0) + b'.tokens == Available(b, rate, now)
            && (verdict == Drop <==> Available(b, rate, now) == 0)
            && Earned(b', rate, now) == 0
            && b'.lastRefill == (if rate * (now - b.lastRefill) < NS then b.lastRefill else now)
  {
    RefillExactly(b, rate, now);
    var credit: int := rate * (now - b.lastRefill);
    assert credit >= 0 && (credit / NS == 0 <==> credit < NS);
    var b' := Admit(Some(b), rate, now).0;
    assert b'.lastRefill == now ==> Credit(b', rate, now) == 0;
    assert b'.lastRefill == b.lastRefill ==> Earned(b', rate, now) == Earned(b, rate, now);
  }

  lemma NothingAvailableIff(b: Bucket, rate: u64, now: u64)
    requires Fits(rate, b.lastRefill, now)
    ensures Available(b, rate, now) == 0 <==> b.tokens == 0 && rate * (now - b.lastRefill) < NS
  {
    var credit: int := rate * (now - b.lastRefill);
    assert credit >= 0 && (credit / NS == 0 <==> credit < NS);
  }

  lemma OneOfRepeat(b: Option<Bucket>, rate: u64, now: u64, n: nat)
    requires n > 0
    ensures var (b', verdict) := Admit(b, rate, now);
            Passed(b, rate, Repeat(now, n)) == (if verdict == Pass then 1 else 0) + Passed(Some(b'), rate, Repeat(now, n - 1))
  {
    assert Repeat(now, n)[1..] == Repeat(now, n - 1);
  }

  lemma EmptyRefill(b: Bucket, rate: u64, now: u64)
    requires Earned(b, rate, now) == 0
    ensures var (b', verdict) := Admit(Some(b), rate, now);
            && Earned(b', rate, now) == 0
            && b'.tokens == (if b.tokens == 0 then 0 else b.tokens - 1)
            && (verdict == Pass <==> b.tokens > 0)
  {
  }

  lemma {:induction false} SameInstant(b: Bucket, rate: u64, now: u64, n: nat)
    requires Earned(b, rate, now) == 0
    ensures Passed(Some(b), rate, Repeat(now, n)) == Min(n, b.tokens)
    decreases n
  {
    if n > 0 {
      OneOfRepeat(Some(b), rate, now, n);
      EmptyRefill(b, rate, now);
      SameInstant(Admit(Some(b), rate, now).0, rate, now, n - 1);
    }
  }

  /** If the first of n packets at a moment leaves nothing to be earned, what it found is what they get. */
  lemma InstantPasses(b: Option<Bucket>, rate: u64, now: u64, n: nat, found: nat)
    requires var (b', verdict) := Admit(b, rate, now);
             && Earned(b', rate, now) == 0 && (verdict == Drop ==> found == 0)
             && found == (if verdict == Pass then 1 else 0) + b'.tokens
    ensures Passed(b, rate, Repeat(now, n)) == Min(n, found)
  {
    if n > 0 {
      OneOfRepeat(b, rate, now, n);
      SameInstant(Admit(b, rate, now).0, rate, now, n - 1);
    }
  }

  /** Of a burst of n packets at one moment exactly as many pass as the bucket holds by then, at most twice the rate. */
  lemma BurstPasses(b: Bucket, rate: u64, now: u64, n: nat)
    requires Fits(rate, b.lastRefill, now) && b.tokens <= 2 * rate
    ensures Passed(Some(b), rate, Repeat(now, n)) == Min(n, Available(b, rate, now))
  {
    AdmitServesExactly(b, rate, now);
    InstantPasses(Some(b), rate, now, n, Available(b, rate, now));
  }

  /** A new source, and one that was idle for two seconds, may send twice its rate at once and nothing more. */
  lemma WholeBurstPasses(b: Option<Bucket>, rate: u64, now: u64, n: nat)
    requires b == None ==> 0 < 2 * rate < TWO_TO_64
    requires b.Some? ==> Fits(rate, b.value.lastRefill, now) && b.value.tokens <= 2 * rate && now - b.value.lastRefill >= 2 * NS
    ensures Passed(b, rate, Repeat(now, n)) == Min(n, 2 * rate)
  {
    if b.Some? {
      BurstPasses(b.value, rate, now, n);
      TwoSecondsFill(rate, now - b.value.lastRefill);
    } else {
      WrapExact(2 * rate);
      CreationPotential(rate, now);
      var b' := Admit(None, rate, now).0;
      assert b' == Bucket(2 * rate - 1, now) && Earned(b', rate, now) == 0;
      InstantPasses(None, rate, now, n, 2 * rate);
    }
  }

  lemma TwoSecondsFill(rate: nat, elapsed: int)
    requires elapsed >= 2 * NS
    ensures rate * elapsed / NS >= 2 * rate
  {
    assert rate * elapsed >= rate * (2 * NS) == 2 * rate * NS;
  }

  /** Packets at least one token's worth of time apart, the first that long after last. */
  predicate Spaced(last: u64, rate: u64, times: seq<u64>)
    decreases times
  {
    times == [] || (last <= times[0] && rate * (times[0] - last) >= NS && Spaced(times[0], rate, times[1..]))
  }

  /** A full bucket and one refill fit a word. */
  predicate Roomy(rate: u64) {
    2 * rate + TWO_TO_64 / NS < TWO_TO_64
  }

  /**
   Where the bucket of a spaced source stands after its packet at time last: it can be down only by one
   token for each gap whose 64-bit product wrapped to less than a token.
   */
  predicate Stocked(b: Bucket, rate: u64, first: u64, last: u64) {
    && b.lastRefill <= last && first <= last
    && b.tokens <= 2 * rate - 1
    && Credit(b, rate, last) < NS
    && (2 * rate - 1 - b.tokens) * (TWO_TO_64 - NS) <= rate * (last - first)
  }

  lemma WrapTwice(x: int, y: int)
    requires 0 <= x && NS <= y && Wrap(x) < NS && Wrap(x + y) < NS
    ensures y >= TWO_TO_64 - NS
  {
  }

  /** A gap that earns nothing took nearly a whole word of nanotokens. */
  lemma EmptyGapIsLong(b: Bucket, rate: u64, last: u64, now: u64)
    requires b.lastRefill <= last <= now && rate * (now - last) >= NS
    requires Credit(b, rate, last) < NS && Credit(b, rate, now) < NS
    ensures rate * (now - last) >= TWO_TO_64 - NS
  {
    CreditAt(b, rate, last);
    CreditAt(b, rate, now);
    var x: int, y: int := (last - b.lastRefill) * rate, rate * (now - last);
    assert x + y == (now - b.lastRefill) * rate;
    WrapTwice(x, y);
  }

  /** The clock holds too few such gaps to empty the bucket. */
  lemma ClockTooShort(rate: u64, tokens: int, elapsed: int)
    requires 0 < rate && 0 <= elapsed < TWO_TO_64
    requires (2 * rate - tokens) * (TWO_TO_64 - NS) <= rate * elapsed
    ensures tokens > 0
  {
    assert rate * elapsed < rate * TWO_TO_64;
    MulLess(2 * rate - tokens, 2 * rate, TWO_TO_64 - NS);
  }

  lemma EmptyGapPasses(b: Bucket, rate: u64, first: u64, last: u64, now: u64)
    requires Roomy(rate) && Stocked(b, rate, first, last) && last <= now && rate * (now - last) >= NS
    requires Earned(b, rate, now) == 0
    ensures var (b', verdict) := Admit(Some(b), rate, now);
            verdict == Pass && b'.tokens == b.tokens - 1 && b'.lastRefill == b.lastRefill
    ensures (2 * rate - b.tokens) * (TWO_TO_64 - NS) <= rate * (now - first)
  {
    EmptyGapIsLong(b, rate, last, now);
    assert rate * (now - first) == rate * (now - last) + rate * (last - first);
    assert (2 * rate - b.tokens) * (TWO_TO_64 - NS)
        == (2 * rate - 1 - b.tokens) * (TWO_TO_64 - NS) + (TWO_TO_64 - NS);
    ClockTooShort(rate, b.tokens, now - first);
  }

  lemma RefillPasses(b: Bucket, rate: u64, now: u64)
    requires Roomy(rate) && b.tokens <= 2 * rate - 1 && Earned(b, rate, now) > 0
    ensures var (b', verdict) := Admit(Some(b), rate, now);
            verdict == Pass && b'.lastRefill == now && b.tokens <= b'.tokens <= 2 * rate - 1
  {
    WrapExact(2 * rate);
    WrapExact(b.tokens + Earned(b, rate, now));
  }

  lemma SpacedPacketPasses(b: Bucket, rate: u64, first: u64, last: u64, now: u64)
    requires Roomy(rate) && Stocked(b, rate, first, last) && last <= now && rate * (now - last) >= NS
    ensures var (b', verdict) := Admit(Some(b), rate, now);
            verdict == Pass && Stocked(b', rate, first, now)
  {
    var b' := Admit(Some(b), rate, now).0;
    if Earned(b, rate, now) == 0 {
      EmptyGapPasses(b, rate, first, last, now);
      assert Credit(b', rate, now) == Credit(b, rate, now) < NS;
    } else {
      RefillPasses(b, rate, now);
      assert Credit(b', rate, now) == 0;
      assert (2 * rate - 1 - b'.tokens) * (TWO_TO_64 - NS) <= (2 * rate - 1 - b.tokens) * (TWO_TO_64 - NS);
      assert rate * (last - first) <= rate * (now - first);
    }
  }

  lemma {:induction false} SpacedAllPass(b: Bucket, rate: u64, first: u64, last: u64, times: seq<u64>)
    requires Roomy(rate) && Stocked(b, rate, first, last) && Spaced(last, rate, times)
    ensures Passed(Some(b), rate, times) == |times|
    decreases times
  {
    if times != [] {
      SpacedPacketPasses(b, rate, first, last, times[0]);
      SpacedAllPass(Admit(Some(b), rate, times[0]).0, rate, first, times[0], times[1..]);
    }
  }

  /** A source that never sends faster than its rate is never dropped, from its first packet on and after any idle times. */
  lemma {:induction false} SpacedSourceNeverDropped(rate: u64, first: u64, times: seq<u64>)
    requires Roomy(rate) && Spaced(first, rate, times)
    ensures Passed(None, rate, [first] + times) == 1 + |times|
  {
    assert ([first] + times)[1..] == times;
    if times != [] {
      var b := Admit(None, rate, first).0;
      WrapExact(2 * rate);
      WrapExact(2 * rate - 1);
      assert Credit(b, rate, first) == 0;
      SpacedAllPass(b, rate, first, first, times);
    }
  }

  /** Rates without that room exist for which it fails: the burst of 2^63 + 1 wraps to 2. */
  lemma SpacedSourceDroppedAtHugeRate()
    ensures Spaced(0, TWO_TO_63 + 1, [2, 4])
    ensures Passed(None, TWO_TO_63 + 1, [0, 2, 4]) == 2
  {
    var rate: u64 := TWO_TO_63 + 1;
    var b0 := Admit(None, rate, 0).0;
    assert b0 == Bucket(1, 0);
    var b1 := Admit(Some(b0), rate, 2).0;
    assert Credit(b0, rate, 2) == 2 && b1 == Bucket(0, 0);
    assert Credit(b1, rate, 4) == 4 && Admit(Some(b1), rate, 4).1 == Drop;
    var times: seq<u64> := [0, 2, 4];
    assert times[1..] == [2, 4] && times[1..][1..] == [4] && times[1..][1..][1..] == [];
    var late: seq<u64> := [2, 4];
    assert late[1..] == [4] && late[1..][1..] == [];
  }
}
