/** The blocks of one address over whole runs: when they drop packets, when they are extended, when they overlap. */
module BlockRuns {
  import opened Word
  import opened TokenBucket
  import opened Kernel
  import opened Rules
  import opened Agent
  import opened EnforcementRuns

  /** Whether the address is in the bypass list after these events. */
  predicate Trusted(events: seq<Event>) {
    events != [] &&
      var last := events[|events| - 1];
      last.Trust? || (!last.Distrust? && Trusted(events[..|events| - 1]))
  }

  /** The bypass list lets past the last of these events, a packet to a protected port. */
  predicate LetPast(events: seq<Event>)
    requires events != []
  {
    var last := events[|events| - 1];
    last.Packet? && last.isProtected && Trusted(events[..|events| - 1])
  }

  /** How many packets the bypass list let past. */
  function Bypassed(events: seq<Event>): nat {
    if events == [] then 0
    else Bypassed(events[..|events| - 1]) + if LetPast(events) then 1 else 0
  }

  /** How many of them came after the last tick. */
  function BypassedSinceTick(events: seq<Event>): nat {
    if events == [] || events[|events| - 1].Tick? then 0
    else BypassedSinceTick(events[..|events| - 1]) + if LetPast(events) then 1 else 0
  }

  /** The rate that the bypassed packets alone amount to at a tick after these events. */
  function BypassedRate(events: seq<Event>): int {
    TruncDiv(ToInt(Wrap(BypassedSinceTick(events))), 10)
  }

  predicate Disjoint(installs: seq<Install>) {
    forall i, j :: 0 <= i < j < |installs| ==> installs[i].until <= installs[j].start
  }

  /**
   The block list holds the end of the latest block, and while that lies ahead only bypassed packets
   have moved the counter since the agent read it.
   */
  predicate Booked(r: Run, events: seq<Event>) {
    && (r.v.kernel.bypass.Some? <==> Trusted(events)) && r.bypassed == Bypassed(events)
    && r.v.kernel.blockedUntil == (if r.installs == [] then None else Some(r.installs[|r.installs| - 1].until))
    && (forall i :: 0 <= i < |r.installs| ==> r.installs[i].start <= r.clock)
    && (Live(r.v.kernel.blockedUntil, r.clock) ==>
          && r.v.kernel.stats.Some?
          && r.v.kernel.stats.value.count == Wrap(r.v.prev + BypassedSinceTick(events)))
  }

  lemma {:induction false} EventCounts(events: seq<Event>, e: Event)
    ensures var all, past := events + [e], if e.Packet? && e.isProtected && Trusted(events) then 1 else 0;
            && (Trusted(all) <==> e.Trust? || (!e.Distrust? && Trusted(events)))
            && Bypassed(all) == Bypassed(events) + past
            && BypassedSinceTick(all) == if e.Tick? then 0 else BypassedSinceTick(events) + past
  {
    assert (events + [e])[..|events|] == events;
  }

  /** While a block is live a protected packet is counted exactly when it is bypassed. */
  lemma BypassedIsCounted(k: KernelView, k': KernelView, prev: u64, bypassed: nat, now: u64, verdict: Verdict, ns: u64)
    requires PacketEffect(k, k', verdict, now, ns) && Live(k.blockedUntil, now)
    requires k.stats.Some? && k.stats.value.count == Wrap(prev + bypassed)
    ensures k'.stats.Some? && k'.stats.value.count == Wrap(prev + bypassed + if k.bypass.Some? then 1 else 0)
  {
    WrapSucc(prev + bypassed);
  }

  /** What one packet leaves as it was, and what gets past a live block. */
  predicate PacketBooked(r: Run, r': Run, events: seq<Event>, e: Event) {
    && Booked(r', events + [e]) && r'.installs == r.installs
    && (Live(r.v.kernel.blockedUntil, e.now) ==>
         r'.rateDrops == r.rateDrops && r'.passed - r.passed == Bypassed(events + [e]) - Bypassed(events))
  }

  /** The books after a packet, from what it did to the block list, the bypass list and the counter. */
  lemma {:induction false} CountedBooks(r: Run, events: seq<Event>, e: Event, k': KernelView, verdict: Verdict, ns: u64)
    requires Booked(r, events) && r.clock <= e.now && e.Packet? && e.isProtected
    requires k'.bypass == r.v.kernel.bypass && k'.blockedUntil == r.v.kernel.blockedUntil
    requires Live(k'.blockedUntil, e.now) ==>
               && verdict == (if k'.bypass.Some? then Pass else Drop)
               && k'.stats.Some? && k'.stats.value.count == Wrap(r.v.prev + BypassedSinceTick(events + [e]))
    ensures PacketBooked(r, Account(r, k', verdict, e.now, ns), events, e)
  {
    EventCounts(events, e);
  }

  lemma {:induction false} AccountBooks(r: Run, events: seq<Event>, e: Event, k': KernelView, verdict: Verdict, ns: u64)
    requires Booked(r, events) && r.clock <= e.now && e.Packet? && e.isProtected
    requires PacketEffect(r.v.kernel, k', verdict, e.now, ns)
    ensures PacketBooked(r, Account(r, k', verdict, e.now, ns), events, e)
  {
    EventCounts(events, e);
    if Live(r.v.kernel.blockedUntil, e.now) {
      BypassedIsCounted(r.v.kernel, k', r.v.prev, BypassedSinceTick(events), e.now, verdict, ns);
    }
    CountedBooks(r, events, e, k', verdict, ns);
  }

  lemma {:induction false} UnprotectedBooks(r: Run, events: seq<Event>, e: Event)
    requires Booked(r, events) && r.clock <= e.now && e.Packet? && !e.isProtected
    ensures PacketBooked(r, r.(clock := e.now), events, e)
  {
    EventCounts(events, e);
  }

  lemma {:induction false} PacketBooks(r: Run, events: seq<Event>, e: Event)
    requires Booked(r, events) && r.clock <= e.now && e.Packet?
    ensures PacketBooked(r, Step(r, e), events, e)
  {
    if e.isProtected {
      FilterEffect(r.v.kernel, e.start, e.now, e.end);
      var (k, verdict) := FilterStep(r.v.kernel, e.start, e.now, e.end);
      AccountBooks(r, events, e, k, verdict, Wrap(e.end - e.start));
      assert Step(r, e) == Account(r, k, verdict, e.now, Wrap(e.end - e.start));
    } else {
      UnprotectedBooks(r, events, e);
    }
  }

  /** What a tick does to the readings and to the block list, leaving open what the limiter's maps become. */
  predicate TickEffect(v: IpView, v': IpView, m: Option<Rule>, now: u64) {
    && v'.kernel.bypass == v.kernel.bypass && v'.kernel.stats == v.kernel.stats
    && (v.kernel.stats == None ==> m == None && v' == v)
    && (v.kernel.stats.Some? ==> v'.prev == v.kernel.stats.value.count)
    && v'.kernel.blockedUntil == if IsAction(m, Block) then Some(BlockEnd(now, m.value.duration)) else v.kernel.blockedUntil
  }

  lemma TickHasEffect(v: IpView, e: Event)
    requires e.Tick?
    ensures TickEffect(v, TickStep(v, e.now, e.visited), Matched(v, e), e.now)
  {
  }

  /** The books after a tick that read the counter and installed no block. */
  lemma {:induction false} QuietTickBooks(r: Run, r': Run, events: seq<Event>, e: Event)
    requires Booked(r, events) && r.clock <= e.now == r'.clock && e.Tick? && r'.bypassed == r.bypassed
    requires r'.v.kernel.bypass == r.v.kernel.bypass && r'.v.kernel.stats == r.v.kernel.stats
    requires r'.v.kernel.stats.Some? ==> r'.v.prev == r'.v.kernel.stats.value.count
    requires r'.installs == r.installs && r'.v.kernel.blockedUntil == r.v.kernel.blockedUntil
    ensures Booked(r', events + [e])
  {
    EventCounts(events, e);
    WrapExact(r'.v.prev);
  }

  lemma {:induction false} InstallBooks(r: Run, r': Run, events: seq<Event>, e: Event, until: u64)
    requires Booked(r, events) && r.clock <= e.now == r'.clock && e.Tick? && r'.bypassed == r.bypassed
    requires r'.v.kernel.bypass == r.v.kernel.bypass
    requires r'.v.kernel.stats.Some? && r'.v.prev == r'.v.kernel.stats.value.count
    requires r'.installs == r.installs + [Install(e.now, until)] && r'.v.kernel.blockedUntil == Some(until)
    ensures Booked(r', events + [e])
  {
    EventCounts(events, e);
    WrapExact(r'.v.prev);
    assert r'.installs[|r'.installs| - 1] == Install(e.now, until);
  }

  lemma {:induction false} AccountTickBooks(r: Run, events: seq<Event>, e: Event, v': IpView, m: Option<Rule>)
    requires Booked(r, events) && r.clock <= e.now && e.Tick? && TickEffect(r.v, v', m, e.now)
    ensures Booked(AccountTick(r, v', m, e.now), events + [e])
  {
    var r' := AccountTick(r, v', m, e.now);
    if IsAction(m, Block) {
      InstallBooks(r, r', events, e, BlockEnd(e.now, m.value.duration));
    } else {
      assert r'.installs == r.installs;
      QuietTickBooks(r, r', events, e);
    }
  }

  lemma {:induction false} StepBooks(r: Run, events: seq<Event>, e: Event)
    requires Booked(r, events) && r.clock <= e.now
    ensures Booked(Step(r, e), events + [e])
  {
    match e
    case Packet(_, _, _, _) => PacketBooks(r, events, e);
    case Tick(_, _) =>
      TickHasEffect(r.v, e);
      AccountTickBooks(r, events, e, TickStep(r.v, e.now, e.visited), Matched(r.v, e));
    case _ => EventCounts(events, e);
  }

  lemma {:induction false} RunsAreBooked(events: seq<Event>)
    requires Possible(0, events)
    ensures Booked(Continue(START, events), events)
  {
    if events != [] {
      var init, last := events[..|events| - 1], events[|events| - 1];
      PossiblePrefix(0, events);
      RunsAreBooked(init);
      ClockFollows(START, init);
      assert events == init + [last];
      StepBooks(Continue(START, init), init, last);
    }
  }

  lemma WrapDifference(x: u64, k: nat)
    ensures Wrap(Wrap(x + k) - x) == Wrap(k)
  {
  }

  /** A tick during a live block matches the rules against the bypassed packets alone. */
  lemma {:induction false} BookedTick(r: Run, events: seq<Event>, e: Event)
    requires Booked(r, events) && r.clock <= e.now && e.Tick? && Live(r.v.kernel.blockedUntil, e.now)
    ensures Matched(r.v, e) == MatchIn(e.visited, BypassedRate(events))
  {
    WrapDifference(r.v.prev, BypassedSinceTick(events));
  }

  /**
   When a tick extends a live block, in every run: exactly when a block decides on the packets that the
   bypass list let past since the last tick; blocked packets never count. If they exceed no rule spelled
   "ratelimit", that is exactly when they exceed some block rule.
   */
  lemma {:induction false} ExtensionExactly(events: seq<Event>, e: Event)
    requires Possible(0, events) && e.Tick? && Continue(START, events).clock <= e.now
    requires Live(Continue(START, events).v.kernel.blockedUntil, e.now)
    ensures var r, rate := Continue(START, events), BypassedRate(events);
            && (Step(r, e).installs != r.installs <==> BlockDecides(e.visited, rate))
            && (!Triggered(e.visited, Ratelimit, rate) ==>
                 (BlockDecides(e.visited, rate) <==> Triggered(e.visited, Block, rate)))
  {
    RunsAreBooked(events);
    BookedTick(Continue(START, events), events, e);
    BlockMatchedIff(e.visited, BypassedRate(events));
    if !Triggered(e.visited, Ratelimit, BypassedRate(events)) {
      BlockWinsWithoutRatelimit(e.visited, BypassedRate(events));
    }
  }

  /** Event n of a run is a tick that comes before the end of a block and matches a block rule. */
  predicate Extends(events: seq<Event>, n: nat)
    requires n < |events|
  {
    && events[n].Tick?
    && Live(Continue(START, events[..n]).v.kernel.blockedUntil, events[n].now)
    && IsAction(MatchIn(events[n].visited, BypassedRate(events[..n])), Block)
  }

  ghost predicate NothingExtended(events: seq<Event>, from: nat) {
    forall n: nat :: from <= n < |events| ==> !Extends(events, n)
  }

  lemma {:induction false} NothingExtendedSnoc(events: seq<Event>, from: nat)
    requires events != []
    ensures var init := events[..|events| - 1];
            NothingExtended(events, from) <==>
              NothingExtended(init, from) && (from <= |init| ==> !Extends(events, |init|))
  {
    var init := events[..|events| - 1];
    assert forall n: nat :: n < |init| ==> init[..n] == events[..n];
    if NothingExtended(events, from) {
      forall n: nat | from <= n < |init| ensures !Extends(init, n) {
        assert !Extends(events, n);
      }
    } else {
      var n: nat :| from <= n < |events| && Extends(events, n);
      assert n < |init| ==> Extends(init, n);
    }
  }

  lemma {:induction false} DisjointSnoc(installs: seq<Install>, install: Install)
    requires forall i :: 0 <= i < |installs| ==> installs[i].start <= install.start
    ensures Disjoint(installs + [install]) <==>
              Disjoint(installs) && (installs != [] ==> installs[|installs| - 1].until <= install.start)
  {
    var all := installs + [install];
    assert forall i :: 0 <= i < |installs| ==> all[i] == installs[i];
    assert all[|installs|] == install;
    if Disjoint(all) {
      assert Disjoint(installs);
      assert installs != [] ==> all[|installs| - 1].until <= all[|installs|].start;
    }
  }

  lemma {:induction false} TickOverlaps(r: Run, events: seq<Event>, e: Event)
    requires Booked(r, events) && r.clock <= e.now && e.Tick?
    ensures Disjoint(Step(r, e).installs) <==>
              Disjoint(r.installs)
              && !(Live(r.v.kernel.blockedUntil, e.now) && IsAction(MatchIn(e.visited, BypassedRate(events)), Block))
  {
    if Live(r.v.kernel.blockedUntil, e.now) {
      BookedTick(r, events, e);
    }
    if IsAction(Matched(r.v, e), Block) {
      DisjointSnoc(r.installs, Install(e.now, BlockEnd(e.now, Matched(r.v, e).value.duration)));
    } else {
      assert Step(r, e).installs == r.installs;
    }
  }

  /** In every run the blocks of the address follow one another without overlap exactly when no tick extends one. */
  lemma {:induction false} NeverOverlapIff(events: seq<Event>)
    requires Possible(0, events)
    ensures Disjoint(Continue(START, events).installs) <==> NothingExtended(events, 0)
  {
    if events != [] {
      var init, last := events[..|events| - 1], events[|events| - 1];
      PossiblePrefix(0, events);
      NeverOverlapIff(init);
      NothingExtendedSnoc(events, 0);
      ClockFollows(START, init);
      RunsAreBooked(init);
      if last.Tick? {
        TickOverlaps(Continue(START, init), init, last);
      } else if last.Packet? {
        PacketBooks(Continue(START, init), init, last);
      }
    }
  }

  /** From r to r' nothing is installed exactly if nothing is extended, and then only bypassed packets get past the block. */
  predicate Course(r: Run, r': Run, bypassed: int, nothing: bool) {
    && |r'.installs| >= |r.installs|
    && (|r'.installs| == |r.installs| ==> r'.installs == r.installs)
    && (r'.installs == r.installs <==> nothing)
    && (r'.installs == r.installs ==> r'.passed - r.passed == bypassed && r'.rateDrops == r.rateDrops)
  }

  /** Of the latest block of a run, the given time is before its end. */
  predicate BeforeEnd(r: Run, now: u64) {
    r.installs != [] && now < r.installs[|r.installs| - 1].until
  }

  lemma CoursesCompose(r: Run, b: Run, r': Run, past: int, more: int, first: bool, second: bool)
    requires Course(r, b, past, first)
    requires |r'.installs| >= |b.installs| && (|r'.installs| == |b.installs| ==> r'.installs == b.installs)
    requires b.installs == r.installs ==> Course(b, r', more, second)
    ensures Course(r, r', past + more, first && second)
  {
  }

  lemma {:induction false} PacketCourse(b: Run, before: seq<Event>, last: Event)
    requires Booked(b, before) && b.clock <= last.now && !last.Tick?
    ensures Step(b, last).installs == b.installs
    ensures BeforeEnd(b, last.now) ==> Course(b, Step(b, last), Bypassed(before + [last]) - Bypassed(before), true)
  {
    EventCounts(before, last);
    if last.Packet? {
      PacketBooks(b, before, last);
    }
  }

  lemma {:induction false} TickCourse(b: Run, before: seq<Event>, last: Event)
    requires Booked(b, before) && b.clock <= last.now && last.Tick?
    ensures var r' := Step(b, last);
            |r'.installs| >= |b.installs| && (|r'.installs| == |b.installs| ==> r'.installs == b.installs)
    ensures BeforeEnd(b, last.now) ==>
              Course(b, Step(b, last), Bypassed(before + [last]) - Bypassed(before),
                     !IsAction(MatchIn(last.visited, BypassedRate(before)), Block))
  {
    EventCounts(before, last);
    if Live(b.v.kernel.blockedUntil, last.now) {
      BookedTick(b, before, last);
    }
  }

  lemma {:induction false} EventCourse(before: seq<Event>, last: Event)
    requires Possible(0, before + [last])
    ensures var all := before + [last];
            var b, r' := Continue(START, before), Continue(START, all);
            && |r'.installs| >= |b.installs| && (|r'.installs| == |b.installs| ==> r'.installs == b.installs)
            && (BeforeEnd(b, last.now) ==> Course(b, r', Bypassed(all) - Bypassed(before), !Extends(all, |before|)))
  {
    var b, all := Continue(START, before), before + [last];
    assert all[..|all| - 1] == before && all[|before|] == last;
    PossiblePrefix(0, all);
    ClockFollows(START, before);
    RunsAreBooked(before);
    ContinueSnoc(START, before, last);
    if last.Tick? {
      TickCourse(b, before, last);
    } else {
      PacketCourse(b, before, last);
    }
  }

  lemma {:induction false} MoreInOrder(from: u64, events: seq<Event>, more: seq<Event>)
    requires Possible(from, events + more) && |more| >= 2
    ensures more[|more| - 2].now <= more[|more| - 1].now
  {
    var all := events + more;
    assert all[|all| - 2] == more[|more| - 2] && all[|all| - 1] == more[|more| - 1];
  }

  /**
   From the latest block of these events on, all the events being given: nothing is installed exactly when
   no tick extends the block, and then the protected packets that pass are the bypassed ones.
   */
  ghost predicate RunsItsCourse(events: seq<Event>, all: seq<Event>) {
    Course(Continue(START, events), Continue(START, all), Bypassed(all) - Bypassed(events), NothingExtended(all, |events|))
  }

  lemma {:induction false} CourseGoesOn(events: seq<Event>, before: seq<Event>, last: Event)
    requires RunsItsCourse(events, before) && Possible(0, before + [last]) && |events| <= |before|
    requires BeforeEnd(Continue(START, events), last.now)
    ensures RunsItsCourse(events, before + [last])
  {
    var all := before + [last];
    assert all[..|before|] == before;
    EventCourse(before, last);
    assert Continue(START, before).installs == Continue(START, events).installs ==>
        BeforeEnd(Continue(START, before), last.now);
    NothingExtendedSnoc(all, |events|);
    CoursesCompose(Continue(START, events), Continue(START, before), Continue(START, all),
                   Bypassed(before) - Bypassed(events), Bypassed(all) - Bypassed(before),
                   NothingExtended(before, |events|), !Extends(all, |before|));
  }

  /** In every run a block is neither cut short nor prolonged before its end, exactly when no tick extends it. */
  lemma {:induction false} BlockRunsItsCourse(events: seq<Event>, more: seq<Event>)
    requires Possible(0, events + more)
    requires Continue(START, events).installs != []
    requires more != [] ==> BeforeEnd(Continue(START, events), more[|more| - 1].now)
    ensures RunsItsCourse(events, events + more)
    decreases more
  {
    if more == [] {
      assert events + more == events;
    } else {
      var init, last := more[..|more| - 1], more[|more| - 1];
      var before := events + init;
      assert events + more == before + [last];
      if init != [] {
        MoreInOrder(0, events, more);
      }
      PossiblePrefix(0, before + [last]);
      assert (before + [last])[..|before|] == before;
      BlockRunsItsCourse(events, init);
      CourseGoesOn(events, before, last);
    }
  }

  /** A protected packet is dropped by a block exactly when the address is not bypassed and the latest block's end is ahead. */
  lemma {:induction false} BlockDropsExactlyUntilEnd(events: seq<Event>, next: Event)
    requires Possible(0, events)
    requires next.Packet? && next.isProtected
    ensures var r := Continue(START, events);
            (Step(r, next).blockDrops == r.blockDrops + 1) <==>
              (!Trusted(events) && r.installs != [] && next.now < r.installs[|r.installs| - 1].until)
  {
    RunsAreBooked(events);
  }

  ghost predicate NegativeBlockRule(visited: seq<Rule>) {
    exists r :: r in visited && r.action == Block && r.threshold < 0
  }

  /** The address is never put in the bypass list and no block rule has a negative threshold. */
  ghost predicate Quiet(events: seq<Event>) {
    forall i :: 0 <= i < |events| ==>
      !events[i].Trust? && (events[i].Tick? ==> !NegativeBlockRule(events[i].visited))
  }

  lemma {:induction false} QuietBypassesNothing(events: seq<Event>, more: seq<Event>)
    requires !Trusted(events) && BypassedSinceTick(events) == 0 && Quiet(more)
    ensures !Trusted(events + more) && BypassedSinceTick(events + more) == 0 && Bypassed(events + more) == Bypassed(events)
    decreases more
  {
    var all := events + more;
    if more == [] {
      assert all == events;
    } else {
      assert all[..|all| - 1] == events + more[..|more| - 1];
      QuietBypassesNothing(events, more[..|more| - 1]);
    }
  }

  /** Without bypassed packets only a negative threshold can extend a block. */
  lemma {:induction false} QuietNeverExtends(events: seq<Event>, more: seq<Event>)
    requires !Trusted(events) && BypassedSinceTick(events) == 0 && Quiet(more)
    ensures NothingExtended(events + more, |events|)
  {
    var all := events + more;
    forall n: nat | |events| <= n < |all| ensures !Extends(all, n) {
      var part := more[..n - |events|];
      assert all[..n] == events + part && all[n] == more[n - |events|];
      QuietBypassesNothing(events, part);
      assert BypassedRate(all[..n]) == 0;
      if all[n].Tick? {
        MatchFindsExceeded(all[n].visited, 0);
      }
    }
  }

  /** Without bypass and negative thresholds the blocks of an address never overlap and are never extended. */
  lemma {:induction false} BlocksNeverOverlap(events: seq<Event>)
    requires Possible(0, events) && Quiet(events)
    ensures Disjoint(Continue(START, events).installs) && NothingExtended(events, 0)
  {
    assert [] + events == events;
    QuietNeverExtends([], events);
    NeverOverlapIff(events);
  }

  const HOUR_BLOCK := Rule(1, "", 0, Block, 3600, "")

  function TickAt(seconds: nat): Event
    requires seconds < 10000
  {
    Tick(Seconds(seconds), [HOUR_BLOCK])
  }

  /** The six ticks from second 20 to second 70. */
  function IdleTicks(): seq<Event> {
    seq(6, i requires 0 <= i < 6 => TickAt(20 + 10 * i))
  }

  /** Blocked for an hour at second 10, then in the bypass list for a minute, with a burst of packets near its end. */
  function Minute(): seq<Event> {
    Packets(1, 10) + [TickAt(10), Trust(Seconds(15))] + IdleTicks() + Packets(71, 10) + [Distrust(Seconds(75))]
  }

  lemma BusyTickBlocks(r: Run, seconds: nat)
    requires seconds < 1000 && r.v.kernel.stats.Some? && Diff(r.v) == 10
    ensures var r' := Step(r, TickAt(seconds));
            && r'.installs == r.installs + [Install(Seconds(seconds), Seconds(seconds + 3600))]
            && r'.v.prev == Seen(r'.v.kernel.stats) == Seen(r.v.kernel.stats)
            && r'.v.kernel.stats.Some? && r'.v.kernel.bypass == r.v.kernel.bypass
  {
    var t := TickAt(seconds);
    assert ReqPerSec(r.v) == 1;
    MatchSingle(HOUR_BLOCK, 1);
    WrapExact(Seconds(seconds + 3600));
    TickHasEffect(r.v, t);
  }

  /** The counter stands where the agent last read it. */
  predicate Idle(r: Run) {
    r.v.kernel.stats.Some? && r.v.prev == r.v.kernel.stats.value.count
  }

  /** From r to r' the counter, the bypass list and the blocks stayed as they were. */
  predicate Undisturbed(r: Run, r': Run) {
    && r'.installs == r.installs && r'.v.kernel.bypass == r.v.kernel.bypass
    && r'.v.kernel.stats == r.v.kernel.stats && Idle(r')
  }

  lemma IdleTickInstallsNothing(r: Run, e: Event)
    requires e.Tick? && e.visited == [HOUR_BLOCK] && Idle(r)
    ensures Undisturbed(r, Step(r, e))
  {
    assert ReqPerSec(r.v) == 0;
    MatchSingle(HOUR_BLOCK, 0);
    TickHasEffect(r.v, e);
  }

  predicate OnlyTicks(events: seq<Event>) {
    forall i :: 0 <= i < |events| ==> events[i].Tick? && events[i].visited == [HOUR_BLOCK]
  }

  lemma {:induction false} IdleTicksInstallNothing(r: Run, events: seq<Event>)
    requires OnlyTicks(events) && Idle(r)
    ensures Undisturbed(r, Continue(r, events))
  {
    if events != [] {
      var init, last := events[..|events| - 1], events[|events| - 1];
      IdleTicksInstallNothing(r, init);
      IdleTickInstallsNothing(Continue(r, init), last);
    }
  }

  lemma FirstHalfIsPossible()
    ensures Between(0, Packets(1, 10) + [TickAt(10), Trust(Seconds(15))] + IdleTicks(), Seconds(71))
  {
    var start, stay := Packets(1, 10), [TickAt(10), Trust(Seconds(15))];
    BetweenAppend(0, start, Seconds(1), stay, Seconds(15));
    IdleTicksBetween();
    BetweenAppend(0, start + stay, Seconds(15), IdleTicks(), Seconds(71));
  }

  lemma IdleTicksBetween()
    ensures Between(Seconds(15), IdleTicks(), Seconds(71))
  {
  }

  lemma SecondHalfIsPossible()
    ensures Between(Seconds(71), Packets(71, 10) + [Distrust(Seconds(75)), TickAt(80)], Seconds(80))
  {
    BetweenAppend(Seconds(71), Packets(71, 10), Seconds(71), [Distrust(Seconds(75)), TickAt(80)], Seconds(80));
  }

  lemma MinuteIsPossible()
    ensures Possible(0, Minute() + [TickAt(80)])
  {
    var first := Packets(1, 10) + [TickAt(10), Trust(Seconds(15))] + IdleTicks();
    var second := Packets(71, 10) + [Distrust(Seconds(75)), TickAt(80)];
    FirstHalfIsPossible();
    SecondHalfIsPossible();
    assert Minute() + [TickAt(80)] == first + second;
    BetweenAppend(0, first, Seconds(71), second, Seconds(80));
  }

  /** The address at second 15: blocked at second 10, and just put in the bypass list. */
  lemma BlockedAndTrusted()
    ensures var r := Continue(START, Packets(1, 10) + [TickAt(10), Trust(Seconds(15))]);
            && r.installs == [Install(Seconds(10), Seconds(3610))] && r.v.kernel.bypass.Some?
            && Idle(r) && Seen(r.v.kernel.stats) == 10
  {
    var start := Packets(1, 10);
    PacketsAreCounted(START, start[0], 10);
    ContinueSnoc(START, start, TickAt(10));
    WrapExact(10);
    BusyTickBlocks(Continue(START, start), 10);
    ContinueSnoc(START, start + [TickAt(10)], Trust(Seconds(15)));
    assert start + [TickAt(10), Trust(Seconds(15))] == start + [TickAt(10)] + [Trust(Seconds(15))];
  }

  lemma BypassedMinute(r: Run)
    requires r.v.kernel.bypass.Some? && Idle(r) && Seen(r.v.kernel.stats) == 10
    ensures var r' := Step(Continue(Continue(r, IdleTicks()), Packets(71, 10)), Distrust(Seconds(75)));
            && r'.v.kernel.bypass == None && r'.installs == r.installs
            && r'.v.kernel.stats.Some? && Diff(r'.v) == 10
  {
    IdleTicksInstallNothing(r, IdleTicks());
    var r1 := Continue(r, IdleTicks());
    PacketsAreCounted(r1, Packets(71, 10)[0], 10);
    LeavesWithDiff(r1, Continue(r1, Packets(71, 10)), 10);
  }

  lemma LeavesWithDiff(r: Run, r': Run, n: nat)
    requires Idle(r) && Counts(r, r', n) && 0 < n < 1000
    ensures var left := Step(r', Distrust(Seconds(75)));
            && left.v.kernel.bypass == None && left.installs == r.installs
            && left.v.kernel.stats.Some? && Diff(left.v) == n
  {
    WrapExact(n);
  }

  /**
   A run with a tick every ten seconds in which packets let past by the bypass list extend a live block,
   although the address has left the list at the tick: two blocks overlap.
   */
  lemma BypassedBlockIsExtended()
    ensures Possible(0, Minute() + [TickAt(80)])
    ensures Continue(START, Minute()).v.kernel.bypass == None
    ensures Continue(START, Minute() + [TickAt(80)]).installs
         == [Install(Seconds(10), Seconds(3610)), Install(Seconds(80), Seconds(3680))]
  {
    MinuteIsPossible();
    BlockedAndTrusted();
    var start := Packets(1, 10) + [TickAt(10), Trust(Seconds(15))];
    BypassedMinute(Continue(START, start));
    ContinueAppend(START, start, IdleTicks());
    ContinueAppend(START, start + IdleTicks(), Packets(71, 10));
    ContinueSnoc(START, start + IdleTicks() + Packets(71, 10), Distrust(Seconds(75)));
    BusyTickBlocks(Continue(START, Minute()), 80);
    ContinueSnoc(START, Minute(), TickAt(80));
  }
}
