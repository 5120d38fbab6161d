/** What becomes of one protected packet after any run: it passes, a block drops it, or an empty bucket does. */
module PacketRuns {
  import opened Word
  import opened TokenBucket
  import opened Kernel
  import opened Rules
  import opened Agent
  import opened EnforcementRuns
  import opened BlockRuns
  import opened LimitRuns

  datatype Fate = Passes | Blocked | Limited

  /** The packet is booked on the pile of its fate alone; unless it is blocked it is counted, at its time. */
  predicate HasFate(r: Run, r': Run, now: u64, fate: Fate) {
    && r'.passed == r.passed + (if fate == Passes then 1 else 0)
    && r'.blockDrops == r.blockDrops + (if fate == Blocked then 1 else 0)
    && r'.rateDrops == r.rateDrops + (if fate == Limited then 1 else 0)
    && r'.v.kernel.stats ==
         if fate == Blocked then r.v.kernel.stats else Some(IpStats(Wrap(Seen(r.v.kernel.stats) + 1), now))
  }

  lemma AccountHasFate(r: Run, k': KernelView, verdict: Verdict, now: u64, ns: u64)
    requires PacketEffect(r.v.kernel, k', verdict, now, ns)
    ensures HasFate(r, Account(r, k', verdict, now, ns), now,
                   if DroppedByBlock(r.v.kernel, now) then Blocked else if verdict == Pass then Passes else Limited)
  {
    WrapExact(1);
  }

  /**
   After any run: blocked exactly if the address is not in the bypass list and the latest block's end is
   ahead; else passed if it is in the list or the agent remembers no limit; else the rate limiter decides.
   */
  lemma {:induction false} PacketFate(events: seq<Event>, next: Event)
    requires Possible(0, events) && next.Packet? && next.isProtected
    ensures var r, r' := Continue(START, events), Step(Continue(START, events), next);
            if !Trusted(events) && BeforeEnd(r, next.now) then HasFate(r, r', next.now, Blocked)
            else if Trusted(events) || r.v.active == None then HasFate(r, r', next.now, Passes)
            else
              && r.v.kernel.rate.Some?
              && var (b, verdict) := Admit(r.v.kernel.bucket, r.v.kernel.rate.value, next.now);
                 r'.v.kernel.bucket == Some(b) && HasFate(r, r', next.now, if verdict == Pass then Passes else Limited)
  {
    var r := Continue(START, events);
    RunsAreBooked(events);
    ShadowAgrees(events);
    FilterEffect(r.v.kernel, next.start, next.now, next.end);
    var (k, verdict) := FilterStep(r.v.kernel, next.start, next.now, next.end);
    AccountHasFate(r, k, verdict, next.now, Wrap(next.end - next.start));
  }

  /**
   The rate limiter drops a packet only under a remembered limit and with a bucket that was there and is
   empty; with products that fit a word, exactly if no token was held and less than one was earned.
   */
  lemma {:induction false} RateDropNeedsEmptyBucket(events: seq<Event>, next: Event)
    requires Possible(0, events) && next.Packet? && next.isProtected
    ensures var r, r' := Continue(START, events), Step(Continue(START, events), next);
            var k := r.v.kernel;
            && (r'.rateDrops > r.rateDrops ==>
                 && r.v.active.Some? && k.rate.Some? && k.bucket.Some? && !Trusted(events) && !BeforeEnd(r, next.now)
                 && r'.v.kernel.bucket.Some? && r'.v.kernel.bucket.value.tokens == 0)
            && (!Trusted(events) && !BeforeEnd(r, next.now) && k.rate.Some? && k.bucket.Some?
                && Fits(k.rate.value, k.bucket.value.lastRefill, next.now) && k.bucket.value.tokens <= 2 * k.rate.value ==>
                 (r'.rateDrops > r.rateDrops <==>
                    k.bucket.value.tokens == 0 && k.rate.value * (next.now - k.bucket.value.lastRefill) < NS))
  {
    var r := Continue(START, events);
    var k := r.v.kernel;
    PacketFate(events, next);
    ShadowAgrees(events);
    if k.rate.Some? && k.bucket.Some? && Fits(k.rate.value, k.bucket.value.lastRefill, next.now)
       && k.bucket.value.tokens <= 2 * k.rate.value {
      AdmitServesExactly(k.bucket.value, k.rate.value, next.now);
      NothingAvailableIff(k.bucket.value, k.rate.value, next.now);
    }
  }

  /** No tick of the run matches a rate limit. */
  predicate NoLimitMatched(events: seq<Event>) {
    events == [] ||
      var init, last := events[..|events| - 1], events[|events| - 1];
      && NoLimitMatched(init)
      && (last.Tick? ==> !IsAction(Matched(Continue(START, init).v, last), RateLimit))
  }

  lemma {:induction false} UnlimitedPacket(events: seq<Event>, e: Event)
    requires Possible(0, events) && e.Packet? && e.isProtected && Continue(START, events).v.active == None
    ensures var r, r' := Continue(START, events), Step(Continue(START, events), e);
            r'.v.active == None && r'.rateDrops == r.rateDrops
  {
    PacketFate(events, e);
  }

  lemma {:induction false} NothingLimited(events: seq<Event>)
    requires Possible(0, events) && NoLimitMatched(events)
    ensures Continue(START, events).rateDrops == 0 && Continue(START, events).v.active == None
  {
    if events != [] {
      var init, e := events[..|events| - 1], events[|events| - 1];
      PossiblePrefix(0, events);
      NothingLimited(init);
      if e.Packet? && e.isProtected {
        UnlimitedPacket(init, e);
      } else {
        UnlimitedStep(Continue(START, init), e);
      }
    }
  }

  /** In a run whose ticks match no rate limit the rate limiter drops nothing: all but the block drops pass. */
  lemma {:induction false} NoLimitNoRateDrops(events: seq<Event>)
    requires Possible(0, events) && NoLimitMatched(events)
    ensures var r := Continue(START, events);
            r.rateDrops == 0 && r.v.active == None && r.passed + r.blockDrops == |PacketTimes(events)|
  {
    NothingLimited(events);
    OnePileEach(events);
  }

  lemma UnlimitedStep(r: Run, e: Event)
    requires r.v.active == None && !(e.Packet? && e.isProtected)
    requires e.Tick? ==> !IsAction(Matched(r.v, e), RateLimit)
    ensures Step(r, e).v.active == None && Step(r, e).rateDrops == r.rateDrops
  {
  }

  // ---- how long a block lasts ----

  lemma BlockEndExact(now: u64, seconds: int)
    requires 0 <= now + seconds * NS < TWO_TO_64
    ensures BlockEnd(now, seconds) == now + seconds * NS
  {
  }

  /**
   A block lasts as long as its rule says: after a tick that matched a block of so many seconds, a packet of
   an address outside the bypass list is dropped exactly for that time.
   */
  lemma {:induction false} BlockLastsItsDuration(events: seq<Event>, e: Event, next: Event)
    requires Possible(0, events + [e]) && e.Tick? && next.Packet? && next.isProtected && !Trusted(events)
    requires var m := Matched(Continue(START, events).v, e);
             IsAction(m, Block) && 0 <= e.now + m.value.duration * NS < TWO_TO_64
    ensures var m := Matched(Continue(START, events).v, e);
            var r := Continue(START, events + [e]);
            Step(r, next).blockDrops == r.blockDrops + 1 <==> next.now < e.now + m.value.duration * NS
  {
    var r, m := Continue(START, events), Matched(Continue(START, events).v, e);
    BlockEndExact(e.now, m.value.duration);
    EventCounts(events, e);
    ContinueSnoc(START, events, e);
    var installs := Continue(START, events + [e]).installs;
    assert installs == r.installs + [Install(e.now, BlockEnd(e.now, m.value.duration))];
    BlockDropsExactlyUntilEnd(events + [e], next);
  }
}
