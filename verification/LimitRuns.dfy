/** The rate limit of one address over whole runs: agreement of agent and kernel, and what the kernel lets through. */
module LimitRuns {
  import opened Word
  import opened TokenBucket
  import opened Kernel
  import opened Rules
  import opened Agent
  import opened EnforcementRuns

  // ---- shadow map ----

  /** The kernel's configured rate is the loop's remembered limit, as a 64-bit word; a bucket needs a rate. */
  predicate Shadowed(v: IpView) {
    && v.kernel.rate == (match v.active case None => None case Some(t) => Some(Wrap(t)))
    && (v.kernel.bucket.Some? ==> v.kernel.rate.Some?)
  }

  lemma StepShadows(r: Run, e: Event)
    requires Shadowed(r.v)
    ensures Shadowed(Step(r, e).v)
    ensures r.v.kernel.rate.Some? && Step(r, e).v.kernel.rate.None? ==> Step(r, e).v.kernel.bucket.None?
  {
  }

  /** After every event of every run, through every block, re-evaluate, set and remove branch. */
  lemma {:induction false} ShadowAgrees(events: seq<Event>)
    requires Possible(0, events)
    ensures Shadowed(Continue(START, events).v)
  {
    if events != [] {
      PossiblePrefix(0, events);
      ShadowAgrees(events[..|events| - 1]);
      StepShadows(Continue(START, events[..|events| - 1]), events[|events| - 1]);
    }
  }

  /** In agreement, a rate is configured exactly when the limit is nonzero unless a limit of 0 is remembered. */
  lemma ConfiguredIffNonzero(v: IpView)
    requires Shadowed(v)
    ensures (v.kernel.rate.Some? <==> Limit(v.active) != 0) <==> v.active != Some(0)
  {
  }

  ghost predicate ThresholdsWithin(visited: seq<Rule>, low: int, high: int) {
    forall r :: r in visited && r.action == RateLimit ==> low <= r.threshold <= high
  }

  ghost predicate LimitsWithin(events: seq<Event>, low: int, high: int) {
    forall i :: 0 <= i < |events| && events[i].Tick? ==> ThresholdsWithin(events[i].visited, low, high)
  }

  lemma MatchedThreshold(v: IpView, e: Event, low: int, high: int)
    requires e.Tick? && ThresholdsWithin(e.visited, low, high)
    ensures IsAction(Matched(v, e), RateLimit) ==> low <= Matched(v, e).value.threshold <= high
  {
    if v.kernel.stats.Some? {
      MatchFindsExceeded(e.visited, ReqPerSec(v));
    }
  }

  /** Rate and limit are one number from 1 to most, or both absent, and the bucket is within two bursts of it. */
  predicate Bounded(v: IpView, most: int) {
    && (v.kernel.rate.Some? <==> Limit(v.active) != 0)
    && (v.kernel.rate.Some? ==> v.kernel.rate.value == Limit(v.active) && 1 <= v.kernel.rate.value <= most)
    && (v.kernel.bucket.Some? ==> v.kernel.bucket.value.tokens <= 2 * most)
  }

  lemma StepBounded(r: Run, e: Event, most: int)
    requires Bounded(r.v, most) && Shadowed(r.v) && 2 * most < TWO_TO_64
    requires e.Tick? ==> ThresholdsWithin(e.visited, 1, most)
    ensures Bounded(Step(r, e).v, most)
  {
    StepShadows(r, e);
    if e.Tick? {
      MatchedThreshold(r.v, e, 1, most);
    } else if e.Packet? && r.v.kernel.rate.Some? {
      AdmitBounded(r.v.kernel.bucket, r.v.kernel.rate.value, e.now, 2 * most);
    }
  }

  /**
   With positive rate-limit thresholds up to most, the kernel has a rate exactly for the addresses the
   loop remembers, the two are equal numbers, and no bucket ever holds more than twice the largest one.
   */
  lemma {:induction false} LimitsStayBounded(events: seq<Event>, most: int)
    requires Possible(0, events) && LimitsWithin(events, 1, most) && 2 * most < TWO_TO_64
    ensures Bounded(Continue(START, events).v, most)
  {
    if events != [] {
      var init, last := events[..|events| - 1], events[|events| - 1];
      PossiblePrefix(0, events);
      LimitsStayBounded(init, most);
      ShadowAgrees(init);
      StepBounded(Continue(START, init), last, most);
    }
  }

  /** A tick starts remembering a limit of 0 exactly when a threshold of 0 replaces another limit. */
  lemma {:induction false} ZeroLimitRememberedIff(v: IpView, now: u64, visited: seq<Rule>)
    requires v.kernel.stats.Some? && v.active != Some(0)
    ensures var m := MatchIn(visited, ReqPerSec(v));
            TickStep(v, now, visited).active == Some(0) <==>
              (!Live(v.kernel.blockedUntil, now) && !v.wasBlocked && v.active.Some?
               && IsAction(m, RateLimit) && m.value.threshold == 0)
  {
  }

  /**
   A remembered limit of 0 stays, together with a rate of 0 in the kernel that the loop takes for no
   limit, exactly unless a tick sets another limit: no tick ever removes it.
   */
  lemma {:induction false} ZeroThresholdLeaksConfig(v: IpView, now: u64, visited: seq<Rule>)
    requires v.kernel.stats.Some? && v.active == Some(0) && v.kernel.rate == Some(0)
    ensures var m, v' := MatchIn(visited, ReqPerSec(v)), TickStep(v, now, visited);
            v'.active == Some(0) && v'.kernel.rate == Some(0) <==>
              !(!Live(v.kernel.blockedUntil, now) && !v.wasBlocked && IsAction(m, RateLimit) && m.value.threshold != 0)
  {
  }

  /** From then on, through packets, blocks and ticks, until some rate-limit rule has another threshold. */
  lemma {:induction false} ZeroLimitStays(r: Run, events: seq<Event>)
    requires r.v.active == Some(0) && r.v.kernel.rate == Some(0) && LimitsWithin(events, 0, 0)
    ensures Continue(r, events).v.active == Some(0) && Continue(r, events).v.kernel.rate == Some(0)
  {
    if events != [] {
      var init, last := events[..|events| - 1], events[|events| - 1];
      ZeroLimitStays(r, init);
      if last.Tick? {
        MatchedThreshold(Continue(r, init).v, last, 0, 0);
      }
    }
  }

  /** What the matched rule m makes of an address that is not blocked and was not at the last tick. */
  predicate ActedOn(v: IpView, v': IpView, m: Option<Rule>, now: u64) {
    && !v'.wasBlocked
    && if IsAction(m, Block) then
         && v'.kernel.blockedUntil == Some(BlockEnd(now, m.value.duration))
         && v'.kernel.rate == v.kernel.rate && v'.active == v.active && v'.kernel.bucket == v.kernel.bucket
       else if IsAction(m, RateLimit) then
         && v'.active == (if m.value.threshold == 0 && v.active == None then None else Some(m.value.threshold))
         && v'.kernel.rate == (if v'.active == None then None else Some(Wrap(m.value.threshold)))
         && v'.kernel.blockedUntil == v.kernel.blockedUntil && v'.kernel.bucket == v.kernel.bucket
       else
         && v'.active == (if v.active == Some(0) then Some(0) else None)
         && v'.kernel.rate == v'.active
         && v'.kernel.bucket == (if v.active == Some(0) then v.kernel.bucket else None)
         && v'.kernel.blockedUntil == v.kernel.blockedUntil
  }

  lemma {:induction false} TickActs(v: IpView, now: u64, visited: seq<Rule>)
    requires v.kernel.stats.Some? && !Live(v.kernel.blockedUntil, now) && !v.wasBlocked && Shadowed(v)
    ensures ActedOn(v, TickStep(v, now, visited), MatchIn(visited, ReqPerSec(v)), now)
  {
  }

  /**
   What one tick enforces on an address that is not blocked and was not at the last tick, for all rules and
   every order of visiting them: the last exceeded block if a block decides; else the highest exceeded
   limit, if the first exceeded rule is a limit; else no limit, except that a 0 is not removed.
   */
  lemma {:induction false} TickEnforcesRules(v: IpView, now: u64, visited: seq<Rule>)
    requires v.kernel.stats.Some? && !Live(v.kernel.blockedUntil, now) && !v.wasBlocked && Shadowed(v)
    ensures var v', rate := TickStep(v, now, visited), ReqPerSec(v);
            if BlockDecides(visited, rate) then
              exists k :: LastBlockAt(visited, k, rate) && ActedOn(v, v', Some(visited[k]), now)
            else if IsAction(FirstExceeded(visited, rate), RateLimit) then
              exists r :: HighestOf(Some(r), RateLimit, visited, rate) && ActedOn(v, v', Some(r), now)
            else
              ActedOn(v, v', None, now)
  {
    var rate := ReqPerSec(v);
    var m := MatchIn(visited, rate);
    TickActs(v, now, visited);
    MatchOutcome(visited, rate);
    if !BlockDecides(visited, rate) && IsAction(FirstExceeded(visited, rate), RateLimit) {
      assert HighestOf(Some(m.value), RateLimit, visited, rate) && m == Some(m.value);
    }
  }

  /**
   While an address is blocked, and at the first tick after, its rate limit and bucket are left alone and
   the block list changes exactly when a block decides: then it is blocked again from now.
   */
  lemma {:induction false} BlockedTickLeavesLimit(v: IpView, now: u64, visited: seq<Rule>)
    requires v.kernel.stats.Some? && (Live(v.kernel.blockedUntil, now) || v.wasBlocked)
    ensures var v', rate := TickStep(v, now, visited), ReqPerSec(v);
            && v'.kernel.rate == v.kernel.rate && v'.kernel.bucket == v.kernel.bucket && v'.active == v.active
            && (if BlockDecides(visited, rate) then
                  exists k :: LastBlockAt(visited, k, rate)
                              && v'.kernel.blockedUntil == Some(BlockEnd(now, visited[k].duration))
                else v'.kernel.blockedUntil == v.kernel.blockedUntil)
            && (v'.wasBlocked <==> Live(v.kernel.blockedUntil, now))
  {
    MatchOutcome(visited, ReqPerSec(v));
    BlockMatchedIff(visited, ReqPerSec(v));
  }

  const LIMIT_ONE := Rule(1, "", 1, RateLimit, 0, "")
  const LIMIT_ZERO := Rule(1, "", 0, RateLimit, 0, "")

  /** Two ticks ten seconds apart, the rule's threshold being lowered from 1 to 0 between them. */
  function Lowered(): seq<Event> {
    Packets(1, 20) + [Tick(Seconds(10), [LIMIT_ONE])] + Packets(11, 10) + [Tick(Seconds(20), [LIMIT_ZERO])]
  }

  lemma LimitingTick(r: Run, now: u64, limit: Rule)
    requires r.v.kernel.stats.Some? && limit.action == RateLimit && 0 <= limit.threshold < ReqPerSec(r.v)
    requires r.v.kernel.blockedUntil == None && !r.v.wasBlocked && Limit(r.v.active) != limit.threshold
    requires limit.threshold < TWO_TO_64
    ensures var v' := Step(r, Tick(now, [limit])).v;
            && v'.active == Some(limit.threshold) && v'.kernel.rate == Some(limit.threshold)
            && v'.kernel.stats == r.v.kernel.stats && v'.prev == r.v.kernel.stats.value.count
            && v'.kernel.blockedUntil == None && !v'.wasBlocked && v'.kernel.bypass == r.v.kernel.bypass
  {
    MatchSingle(limit, ReqPerSec(r.v));
    WrapExact(limit.threshold);
  }

  lemma LoweredIsPossible()
    ensures Possible(0, Lowered())
  {
    var start := Packets(1, 20) + [Tick(Seconds(10), [LIMIT_ONE])];
    BetweenAppend(0, Packets(1, 20), Seconds(1), [Tick(Seconds(10), [LIMIT_ONE])], Seconds(10));
    BetweenAppend(0, start, Seconds(10), Packets(11, 10), Seconds(11));
    BetweenAppend(0, start + Packets(11, 10), Seconds(11), [Tick(Seconds(20), [LIMIT_ZERO])], Seconds(20));
  }

  /** A run that gets there, and stays there whatever follows without another threshold. */
  lemma {:induction false} ZeroLimitIsReached(more: seq<Event>)
    requires LimitsWithin(more, 0, 0)
    ensures Possible(0, Lowered())
    ensures var v := Continue(START, Lowered() + more).v; v.active == Some(0) && v.kernel.rate == Some(0)
  {
    LoweredIsPossible();
    var start := Packets(1, 20) + [Tick(Seconds(10), [LIMIT_ONE])];
    PacketsAreCounted(START, Packets(1, 20)[0], 20);
    CountedRate(START, Continue(START, Packets(1, 20)), 20);
    LimitingTick(Continue(START, Packets(1, 20)), Seconds(10), LIMIT_ONE);
    ContinueSnoc(START, Packets(1, 20), Tick(Seconds(10), [LIMIT_ONE]));
    LowersToZero(Continue(START, start));
    ContinueAppend(START, start, Packets(11, 10));
    ContinueSnoc(START, start + Packets(11, 10), Tick(Seconds(20), [LIMIT_ZERO]));
    ContinueAppend(START, Lowered(), more);
    ZeroLimitStays(Continue(START, Lowered()), more);
  }

  lemma CountedRate(r: Run, r': Run, n: nat)
    requires Counts(r, r', n) && r.v.prev == Seen(r.v.kernel.stats) && 0 < n < 1000
    ensures r'.v.kernel.stats.Some? && ReqPerSec(r'.v) == n / 10
  {
    WrapExact(n);
  }

  lemma LowersToZero(r: Run)
    requires Seen(r.v.kernel.stats) == 20 == r.v.prev && r.v.active == Some(1)
    requires r.v.kernel.blockedUntil == None && !r.v.wasBlocked
    ensures var v' := Step(Continue(r, Packets(11, 10)), Tick(Seconds(20), [LIMIT_ZERO])).v;
            v'.active == Some(0) && v'.kernel.rate == Some(0)
  {
    PacketsAreCounted(r, Packets(11, 10)[0], 10);
    CountedRate(r, Continue(r, Packets(11, 10)), 10);
    LimitingTick(Continue(r, Packets(11, 10)), Seconds(20), LIMIT_ZERO);
  }

  // ---- the rate-limit envelope over kernel and agent together ----

  /** The limit stays at rate all along. */
  ghost predicate LimitKept(r: Run, events: seq<Event>, rate: u64)
  {
    forall n :: 0 <= n <= |events| ==> Continue(r, events[..n]).v.kernel.rate == Some(rate)
  }

  /** How many protected packets passed although the bypass list did not let them past. */
  function Metered(r: Run): int {
    r.passed - r.bypassed
  }

  /**
   Where the bucket stands since time from, when before packets had got past it: not created, not used yet and
   within held (if one packet more is granted), or under a clock running at the limit's rate.
   */
  predicate WithinEnvelope(r: Run, rate: u64, from: u64, before: int, held: u64, slack: nat) {
    match r.v.kernel.bucket
    case None => Metered(r) == before
    case Some(b) =>
      && b.lastRefill <= r.clock
      && (|| (slack == NS - 1 && Metered(r) == before && b.tokens <= held)
          || Potential(Metered(r) - before, b, rate, r.clock) <= NS * held + slack - rate * from)
  }

  predicate Granted(rate: u64, held: u64, slack: nat) {
    0 < Burst(rate) <= held && (slack == 0 || slack == NS - 1)
  }

  lemma LaterCosts(rate: u64, from: u64, now: u64)
    requires from <= now
    ensures rate * from <= rate * now
  {
  }

  /** The first packet that meets the rate limiter in the window: it creates the bucket, or spends what that held. */
  lemma FirstAdmission(bucket: Option<Bucket>, rate: u64, from: u64, now: u64, held: u64, slack: nat)
    requires Granted(rate, held, slack) && from <= now
    requires bucket.Some? ==> slack == NS - 1 && bucket.value.tokens <= held && bucket.value.lastRefill <= now
    ensures var (b, verdict) := Admit(bucket, rate, now);
            && b.lastRefill <= now
            && Potential(if verdict == Pass then 1 else 0, b, rate, now) <= NS * held + slack - rate * from
  {
    LaterCosts(rate, from, now);
    if bucket.Some? {
      AdmitMovesCredit(bucket.value, rate, now);
    } else {
      CreationPotential(rate, now);
    }
  }

  lemma AdmitWithinEnvelope(r: Run, r': Run, verdict: Verdict, rate: u64, from: u64, before: int, held: u64, slack: nat)
    requires WithinEnvelope(r, rate, from, before, held, slack) && Granted(rate, held, slack)
    requires from <= r.clock <= r'.clock
    requires r'.v.kernel.bucket.Some? && (r'.v.kernel.bucket.value, verdict) == Admit(r.v.kernel.bucket, rate, r'.clock)
    requires Metered(r') == Metered(r) + if verdict == Pass then 1 else 0
    ensures WithinEnvelope(r', rate, from, before, held, slack)
  {
    if r.v.kernel.bucket.Some?
       && Potential(Metered(r) - before, r.v.kernel.bucket.value, rate, r.clock) <= NS * held + slack - rate * from {
      AdmitKeepsPotential(Metered(r) - before, r.v.kernel.bucket.value, rate, r.clock, r'.clock);
    } else {
      FirstAdmission(r.v.kernel.bucket, rate, from, r'.clock, held, slack);
    }
  }

  lemma IdleWithinEnvelope(r: Run, r': Run, rate: u64, from: u64, before: int, held: u64, slack: nat)
    requires WithinEnvelope(r, rate, from, before, held, slack)
    requires r.clock <= r'.clock && r'.v.kernel.bucket == r.v.kernel.bucket && Metered(r') == Metered(r)
    ensures WithinEnvelope(r', rate, from, before, held, slack)
  {
    if r.v.kernel.bucket.Some? {
      PotentialFalls(Metered(r) - before, r.v.kernel.bucket.value, rate, r.clock, r'.clock);
    }
  }

  /** The packet reaches the rate limiter. */
  predicate IsMetered(r: Run, e: Event) {
    e.Packet? && e.isProtected && r.v.kernel.bypass == None && !Live(r.v.kernel.blockedUntil, e.now)
  }

  /** Under a kept limit an event either leaves the bucket and the metered packets alone or is one call of the rate limiter. */
  lemma LimitedStep(r: Run, e: Event, rate: u64)
    requires r.v.kernel.rate == Some(rate) && Step(r, e).v.kernel.rate == Some(rate)
    ensures var r' := Step(r, e);
            && r'.clock == e.now
            && if IsMetered(r, e) then
                 var (b, verdict) := Admit(r.v.kernel.bucket, rate, e.now);
                 r'.v.kernel.bucket == Some(b) && Metered(r') == Metered(r) + if verdict == Pass then 1 else 0
               else r'.v.kernel.bucket == r.v.kernel.bucket && Metered(r') == Metered(r)
  {
  }

  lemma {:induction false} LimitKeepsEnvelope(r: Run, events: seq<Event>, rate: u64, held: u64, slack: nat)
    requires Possible(r.clock, events) && LimitKept(r, events, rate) && Granted(rate, held, slack)
    requires WithinEnvelope(r, rate, r.clock, Metered(r), held, slack)
    ensures WithinEnvelope(Continue(r, events), rate, r.clock, Metered(r), held, slack)
  {
    if events != [] {
      var init, last := events[..|events| - 1], events[|events| - 1];
      PossiblePrefix(r.clock, events);
      LimitKeptSnoc(r, events, rate);
      LimitKeepsEnvelope(r, init, rate, held, slack);
      ClockFollows(r, init);
      var b, r' := Continue(r, init), Continue(r, events);
      LimitedStep(b, last, rate);
      if IsMetered(b, last) {
        AdmitWithinEnvelope(b, r', Admit(b.v.kernel.bucket, rate, last.now).1, rate, r.clock, Metered(r), held, slack);
      } else {
        IdleWithinEnvelope(b, r', rate, r.clock, Metered(r), held, slack);
      }
    }
  }

  lemma {:induction false} LimitKeptSnoc(r: Run, events: seq<Event>, rate: u64)
    requires LimitKept(r, events, rate) && events != []
    ensures var init := events[..|events| - 1];
            && LimitKept(r, init, rate)
            && Continue(r, init).v.kernel.rate == Some(rate)
            && Continue(r, events).v.kernel.rate == Some(rate)
  {
    var init := events[..|events| - 1];
    assert forall n :: 0 <= n <= |init| ==> init[..n] == events[..n];
    assert events[..|init|] == init && events[..|events|] == events;
  }

  lemma EnvelopeBound(r: Run, rate: u64, from: u64, before: int, held: u64, slack: nat)
    requires WithinEnvelope(r, rate, from, before, held, slack) && slack < NS && from <= r.clock
    ensures Metered(r) - before <= held + Allowance(rate, from, r.clock) + if slack <= 0 then 0 else 1
  {
    assert rate * (r.clock - from) >= 0;
    if r.v.kernel.bucket.Some?
       && Potential(Metered(r) - before, r.v.kernel.bucket.value, rate, r.clock) <= NS * held + slack - rate * from {
      PotentialBoundsPassed(Metered(r) - before, r.v.kernel.bucket.value, rate, from, r.clock, held, slack);
    }
  }

  /**
   From a moment when a limited address has no bucket yet, however packets, ticks, blocks and stays in
   the bypass list interleave while the limit stays in place, at most one burst plus rate tokens per
   second get through besides the bypassed packets.
   */
  lemma {:induction false} LimitedAddressEnvelope(r: Run, events: seq<Event>, rate: u64)
    requires Possible(r.clock, events) && LimitKept(r, events, rate)
    requires Burst(rate) != 0 && r.v.kernel.bucket == None
    ensures var r' := Continue(r, events);
            Metered(r') - Metered(r) <= Burst(rate) + Allowance(rate, r.clock, r'.clock)
  {
    ClockFollows(r, events);
    LimitKeepsEnvelope(r, events, rate, Burst(rate), 0);
    EnvelopeBound(Continue(r, events), rate, r.clock, Metered(r), Burst(rate), 0);
  }

  /** What a bucket may hold at the start of a window, one burst if there is none. */
  function Held(r: Run, rate: u64): u64 {
    match r.v.kernel.bucket
    case None => Burst(rate)
    case Some(b) => Max(b.tokens, Burst(rate))
  }

  predicate RefillPast(r: Run) {
    r.v.kernel.bucket.Some? ==> r.v.kernel.bucket.value.lastRefill <= r.clock
  }

  lemma {:induction false} WindowEnvelope(r: Run, window: seq<Event>, rate: u64)
    requires Possible(r.clock, window) && LimitKept(r, window, rate)
    requires Burst(rate) != 0 && RefillPast(r)
    ensures var r' := Continue(r, window);
            Metered(r') - Metered(r) <= Held(r, rate) + Allowance(rate, r.clock, r'.clock) + 1
  {
    ClockFollows(r, window);
    LimitKeepsEnvelope(r, window, rate, Held(r, rate), NS - 1);
    EnvelopeBound(Continue(r, window), rate, r.clock, Metered(r), Held(r, rate), NS - 1);
  }

  lemma StepRefillPast(r: Run, e: Event)
    requires RefillPast(r) && r.clock <= e.now
    ensures RefillPast(Step(r, e))
  {
    match e
    case Packet(isProtected, start, now, end) =>
      if isProtected && r.v.kernel.bypass == None && r.v.kernel.rate.Some? && r.v.kernel.bucket.Some? {
        AdmitMovesCredit(r.v.kernel.bucket.value, r.v.kernel.rate.value, now);
      }
    case _ =>
  }

  lemma {:induction false} RefillsLiePast(events: seq<Event>)
    requires Possible(0, events)
    ensures RefillPast(Continue(START, events))
  {
    if events != [] {
      var init := events[..|events| - 1];
      PossiblePrefix(0, events);
      RefillsLiePast(init);
      ClockFollows(START, init);
      StepRefillPast(Continue(START, init), events[|events| - 1]);
    }
  }

  /**
   Any window of any run during which a limit is in place, whatever limits, blocks and idle times came
   before: what the bucket holds or one burst, rate tokens per second, and one packet more.
   */
  lemma {:induction false} LimitedAddressAnyWindow(before: seq<Event>, window: seq<Event>, rate: u64)
    requires Possible(0, before) && Possible(Continue(START, before).clock, window)
    requires Burst(rate) != 0 && LimitKept(Continue(START, before), window, rate)
    ensures var r := Continue(START, before);
            var r' := Continue(r, window);
            Metered(r') - Metered(r) <= Held(r, rate) + Allowance(rate, r.clock, r'.clock) + 1
  {
    RefillsLiePast(before);
    WindowEnvelope(Continue(START, before), window, rate);
  }

  lemma {:induction false} KeptLimitHoldsBurst(r: Run, events: seq<Event>, rate: u64)
    requires Possible(r.clock, events) && LimitKept(r, events, rate)
    requires Burst(rate) != 0 && r.v.kernel.bucket == None
    ensures Held(Continue(r, events), rate) == Burst(rate) && RefillPast(Continue(r, events))
  {
    if events != [] {
      var init, last := events[..|events| - 1], events[|events| - 1];
      PossiblePrefix(r.clock, events);
      LimitKeptSnoc(r, events, rate);
      KeptLimitHoldsBurst(r, init, rate);
      ClockFollows(r, init);
      var b := Continue(r, init);
      LimitedStep(b, last, rate);
      if b.v.kernel.bucket.Some? {
        AdmitMovesCredit(b.v.kernel.bucket.value, rate, last.now);
      }
    }
  }

  /** While one limit stays in place from a moment without a bucket, every later window has the sharp bound plus one. */
  lemma {:induction false} LimitedAddressEveryWindow(r: Run, before: seq<Event>, window: seq<Event>, rate: u64)
    requires Possible(r.clock, before) && Possible(Continue(r, before).clock, window)
    requires Burst(rate) != 0 && r.v.kernel.bucket == None
    requires LimitKept(r, before, rate) && LimitKept(Continue(r, before), window, rate)
    ensures var r1 := Continue(r, before);
            var r2 := Continue(r1, window);
            Metered(r2) - Metered(r1) <= Burst(rate) + Allowance(rate, r1.clock, r2.clock) + 1
  {
    KeptLimitHoldsBurst(r, before, rate);
    WindowEnvelope(Continue(r, before), window, rate);
  }
}
