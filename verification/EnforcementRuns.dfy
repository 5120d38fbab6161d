/**
 Whole runs of one source address: its packets in the kernel interleaved with the agent's ticks and
 with changes of the bypass list, on one monotone clock. PolicyFilter and Tick act on every address
 separately, so a run of the system is such a run for each address. The rule store may be different
 at every tick.
 */
module EnforcementRuns {
  import opened Word
  import opened TokenBucket
  import opened Kernel
  import opened Rules
  import opened Agent

  datatype Event =
    | Packet(isProtected: bool, start: u64, now: u64, end: u64)
    | Tick(now: u64, visited: seq<Rule>)
    | Trust(now: u64)
    | Distrust(now: u64)

  datatype Install = Install(start: u64, until: u64)

  /** The address's state with a ledger of its packets; the bypassed ones are among the passed ones. */
  datatype Run = Run(
    v: IpView,
    clock: u64,
    passed: nat,
    blockDrops: nat,
    rateDrops: nat,
    reported: int,
    latencySum: nat,
    installs: seq<Install>,
    bypassed: nat)

  const START := Run(FRESH, 0, 0, 0, 0, 0, 0, [], 0)

  /** Events in the order of their times, none before from. */
  predicate Possible(from: u64, events: seq<Event>) {
    && (forall i :: 0 <= i < |events| ==> from <= events[i].now)
    && (forall i, j :: 0 <= i < j < |events| ==> events[i].now <= events[j].now)
  }

  function Matched(v: IpView, e: Event): Option<Rule>
    requires e.Tick?
  {
    if v.kernel.stats == None then None else MatchIn(e.visited, ReqPerSec(v))
  }

  predicate DroppedByBlock(k: KernelView, now: u64) {
    k.bypass == None && Live(k.blockedUntil, now)
  }

  /** Books one protected packet that took ns nanoseconds and led to k'. */
  function Account(r: Run, k': KernelView, verdict: Verdict, now: u64, ns: u64): Run {
    var byBlock := DroppedByBlock(r.v.kernel, now);
    r.(v := r.v.(kernel := k'),
       clock := now,
       passed := r.passed + if verdict == Pass then 1 else 0,
       blockDrops := r.blockDrops + if byBlock then 1 else 0,
       rateDrops := r.rateDrops + if verdict == Drop && !byBlock then 1 else 0,
       latencySum := r.latencySum + ns,
       bypassed := r.bypassed + if r.v.kernel.bypass.Some? then 1 else 0)
  }

  /** Books one tick that matched m, led to v' and reported the record of the two views. */
  function AccountTick(r: Run, v': IpView, m: Option<Rule>, now: u64): Run {
    r.(v := v',
       clock := now,
       reported := r.reported + if r.v.kernel.stats == None then 0 else Stat(r.v, v').passed,
       installs := r.installs +
         if IsAction(m, Block) then [Install(now, BlockEnd(now, m.value.duration))] else [])
  }

  function Step(r: Run, e: Event): Run {
    var v := r.v;
    match e
    case Packet(isProtected, start, now, end) =>
      if !isProtected then r.(clock := now)
      else
        var (k, verdict) := FilterStep(v.kernel, start, now, end);
        Account(r, k, verdict, now, Wrap(end - start))
    case Tick(now, visited) =>
      AccountTick(r, TickStep(v, now, visited), Matched(v, e), now)
    case Trust(now) => r.(v := v.(kernel := v.kernel.(bypass := Some(now))), clock := now)
    case Distrust(now) => r.(v := v.(kernel := v.kernel.(bypass := None)), clock := now)
  }

  /** What a packet does to the maps; the token bucket decides only under a rate. */
  predicate PacketEffect(k: KernelView, k': KernelView, verdict: Verdict, now: u64, ns: u64) {
    && k'.bypass == k.bypass && k'.blockedUntil == k.blockedUntil && k'.rate == k.rate
    && k'.latency == Some(Timed(k.latency, ns))
    && k'.stats == (if DroppedByBlock(k, now) then k.stats else Some(Counted(k.stats, now)))
    && (DroppedByBlock(k, now) ==> verdict == Drop)
    && (k.bypass.Some? || k.rate == None ==> k'.bucket == k.bucket)
    && (k.bypass.Some? ==> verdict == Pass)
    && (k.rate == None && !DroppedByBlock(k, now) ==> verdict == Pass)
  }

  lemma FilterEffect(k: KernelView, start: u64, now: u64, end: u64)
    ensures var (k', verdict) := FilterStep(k, start, now, end);
            PacketEffect(k, k', verdict, now, Wrap(end - start))
  {
  }

  function Continue(r: Run, events: seq<Event>): Run {
    if events == [] then r else Step(Continue(r, events[..|events| - 1]), events[|events| - 1])
  }

  lemma {:induction false} ContinueSnoc(r: Run, events: seq<Event>, e: Event)
    ensures Continue(r, events + [e]) == Step(Continue(r, events), e)
  {
    assert (events + [e])[..|events|] == events;
  }

  lemma {:induction false} ContinueAppend(r: Run, events: seq<Event>, more: seq<Event>)
    ensures Continue(r, events + more) == Continue(Continue(r, events), more)
    decreases more
  {
    var all := events + more;
    if more == [] {
      assert all == events;
    } else {
      var init := more[..|more| - 1];
      assert all[..|all| - 1] == events + init;
      ContinueAppend(r, events, init);
    }
  }

  lemma {:induction false} PossiblePrefix(from: u64, events: seq<Event>)
    requires Possible(from, events) && events != []
    ensures Possible(from, events[..|events| - 1])
  {
  }

  lemma {:induction false} ClockFollows(r: Run, events: seq<Event>)
    requires Possible(r.clock, events)
    ensures Continue(r, events).clock == if events == [] then r.clock else events[|events| - 1].now
    ensures Continue(r, events).clock >= r.clock
  {
    if events != [] {
      ClockFollows(r, events[..|events| - 1]);
    }
  }

  // ---- runs given by their events ----

  function Seconds(n: nat): u64
    requires n < 10000
  {
    n * NS
  }

  /** A burst of packets to a protected port at one moment. */
  function Packets(seconds: nat, n: nat): seq<Event>
    requires seconds < 10000
  {
    Repeat(Packet(true, Seconds(seconds), Seconds(seconds), Seconds(seconds)), n)
  }

  /** Possible events that end by a given time. */
  predicate Between(from: u64, events: seq<Event>, to: u64) {
    Possible(from, events) && forall i :: 0 <= i < |events| ==> events[i].now <= to
  }

  lemma {:induction false} BetweenAppend(from: u64, events: seq<Event>, mid: u64, more: seq<Event>, to: u64)
    requires Between(from, events, mid) && Between(mid, more, to) && from <= mid <= to
    ensures Between(from, events + more, to)
  {
  }

  /** From r to r' nothing happened but n packets that the kernel counted. */
  predicate Counts(r: Run, r': Run, n: nat) {
    && r'.v.(kernel := r.v.kernel) == r.v && r'.installs == r.installs
    && r'.v.kernel.bypass == r.v.kernel.bypass && r'.v.kernel.rate == r.v.kernel.rate
    && r'.v.kernel.blockedUntil == r.v.kernel.blockedUntil
    && Seen(r'.v.kernel.stats) == Seen(r.v.kernel.stats) + n
    && (n > 0 ==> r'.v.kernel.stats.Some?)
  }

  lemma PacketIsCounted(r: Run, e: Event)
    requires e.Packet? && e.isProtected && !DroppedByBlock(r.v.kernel, e.now) && Seen(r.v.kernel.stats) + 1 < TWO_TO_64
    ensures Counts(r, Step(r, e), 1)
  {
    FilterEffect(r.v.kernel, e.start, e.now, e.end);
  }

  lemma {:induction false} PacketsAreCounted(r: Run, e: Event, n: nat)
    requires e.Packet? && e.isProtected && !DroppedByBlock(r.v.kernel, e.now)
    requires Seen(r.v.kernel.stats) + n < TWO_TO_64
    ensures Counts(r, Continue(r, Repeat(e, n)), n)
  {
    if n > 0 {
      assert Repeat(e, n)[..n - 1] == Repeat(e, n - 1);
      PacketsAreCounted(r, e, n - 1);
      PacketIsCounted(Continue(r, Repeat(e, n - 1)), e);
    }
  }

  // ---- packet conservation ----

  function Timings(latency: Option<Latency>): u64 {
    if latency.Some? then latency.value.packets else 0
  }

  function Seen(stats: Option<IpStats>): u64 {
    if stats.Some? then stats.value.count else 0
  }

  predicate Conserved(r: Run) {
    && Timings(r.v.kernel.latency) == Wrap(r.passed + r.blockDrops + r.rateDrops)
    && Seen(r.v.kernel.stats) == Wrap(r.passed + r.rateDrops)
    && r.v.prev == Wrap(r.reported)
  }

  lemma AccountConserves(r: Run, k': KernelView, verdict: Verdict, now: u64, ns: u64)
    requires Conserved(r) && PacketEffect(r.v.kernel, k', verdict, now, ns)
    ensures Conserved(Account(r, k', verdict, now, ns))
  {
    WrapSucc(r.passed + r.blockDrops + r.rateDrops);
    WrapSucc(r.passed + r.rateDrops);
  }

  lemma StepConserves(r: Run, e: Event)
    requires Conserved(r)
    ensures Conserved(Step(r, e))
  {
    match e
    case Packet(isProtected, start, now, end) =>
      if isProtected {
        FilterEffect(r.v.kernel, start, now, end);
        var (k, verdict) := FilterStep(r.v.kernel, start, now, end);
        AccountConserves(r, k, verdict, now, Wrap(end - start));
      }
    case Tick(_, _) =>
      if r.v.kernel.stats.Some? {
        WrapTelescopes(r.reported, r.v.kernel.stats.value.count);
      }
    case _ =>
  }

  /**
   Every packet to a protected port is in exactly one of three piles: passed, dropped by a block,
   dropped by the rate limiter. The latency map counts all three piles, the request counter all but
   the block drops, and the reported Passed values add up to the counter at the last tick: they
   include the rate limiter's drops.
   */
  lemma {:induction false} PacketsConserved(events: seq<Event>)
    requires Possible(0, events)
    ensures Conserved(Continue(START, events))
  {
    if events != [] {
      PossiblePrefix(0, events);
      PacketsConserved(events[..|events| - 1]);
      StepConserves(Continue(START, events[..|events| - 1]), events[|events| - 1]);
    }
  }

  // ---- latency ----

  predicate LatencySound(r: Run) {
    match r.v.kernel.latency
    case None => r.latencySum == 0 && r.passed + r.blockDrops + r.rateDrops == 0
    case Some(l) =>
      && l.total == r.latencySum
      && l.packets == r.passed + r.blockDrops + r.rateDrops >= 1
      && l.min <= l.max <= l.total
      && l.min * l.packets <= l.total <= l.max * l.packets
  }

  lemma BoundsGrow(min: nat, max: nat, packets: nat, total: nat, ns: nat, min': nat, max': nat)
    requires min * packets <= total <= max * packets
    requires min' <= min && min' <= ns && max' >= max && max' >= ns
    ensures min' * (packets + 1) <= total + ns <= max' * (packets + 1)
  {
    assert min' * packets <= min * packets;
    assert max * packets <= max' * packets;
  }

  lemma TimedSound(l: Latency, ns: u64)
    requires l.min <= l.max <= l.total && l.min * l.packets <= l.total <= l.max * l.packets
    requires l.total + ns < TWO_TO_64 && l.packets + 1 < TWO_TO_64
    ensures var l' := Timed(Some(l), ns);
            && l'.total == l.total + ns && l'.packets == l.packets + 1
            && l'.min <= l'.max <= l'.total && l'.min * l'.packets <= l'.total <= l'.max * l'.packets
  {
    var l' := Timed(Some(l), ns);
    WrapExact(l.total + ns);
    WrapExact(l.packets + 1);
    BoundsGrow(l.min, l.max, l.packets, l.total, ns, l'.min, l'.max);
  }

  lemma AccountKeepsLatency(r: Run, k': KernelView, verdict: Verdict, now: u64, ns: u64)
    requires LatencySound(r) && PacketEffect(r.v.kernel, k', verdict, now, ns)
    requires r.latencySum + ns < TWO_TO_64 && r.passed + r.blockDrops + r.rateDrops + 1 < TWO_TO_64
    ensures LatencySound(Account(r, k', verdict, now, ns))
  {
    if r.v.kernel.latency.Some? {
      TimedSound(r.v.kernel.latency.value, ns);
    }
  }

  lemma StepKeepsLatency(r: Run, e: Event)
    requires LatencySound(r)
    requires var r' := Step(r, e); r'.latencySum < TWO_TO_64 && r'.passed + r'.blockDrops + r'.rateDrops < TWO_TO_64
    ensures LatencySound(Step(r, e))
  {
    if e.Packet? && e.isProtected {
      FilterEffect(r.v.kernel, e.start, e.now, e.end);
      var (k, verdict) := FilterStep(r.v.kernel, e.start, e.now, e.end);
      AccountKeepsLatency(r, k, verdict, e.now, Wrap(e.end - e.start));
    }
  }

  lemma {:induction false} LatencyStaysSound(events: seq<Event>)
    requires var r := Continue(START, events);
             r.latencySum < TWO_TO_64 && r.passed + r.blockDrops + r.rateDrops < TWO_TO_64
    ensures LatencySound(Continue(START, events))
  {
    if events != [] {
      LatencyStaysSound(events[..|events| - 1]);
      StepKeepsLatency(Continue(START, events[..|events| - 1]), events[|events| - 1]);
    }
  }

  lemma QuotientBetween(min: nat, total: nat, max: nat, packets: nat)
    requires packets >= 1 && min * packets <= total <= max * packets
    ensures min <= total / packets <= max
  {
    var q := total / packets;
    assert q * packets <= total < (q + 1) * packets;
    MulLess(min, q + 1, packets);
    MulLess(q, max + 1, packets);
  }

  // ---- the times of the packets ----

  /** How long each protected packet of a run took, one time per packet. */
  function PacketTimes(events: seq<Event>): seq<u64> {
    if events == [] then []
    else
      var init, last := events[..|events| - 1], events[|events| - 1];
      PacketTimes(init) + if last.Packet? && last.isProtected then [Wrap(last.end - last.start)] else []
  }

  function Sum(times: seq<u64>): nat {
    if times == [] then 0 else Sum(times[..|times| - 1]) + times[|times| - 1]
  }

  predicate IsLeast(x: u64, times: seq<u64>) {
    x in times && forall t :: t in times ==> x <= t
  }

  predicate IsGreatest(x: u64, times: seq<u64>) {
    x in times && forall t :: t in times ==> t <= x
  }

  /** The latency entry holds total, number, least and greatest of these times, the first two as words. */
  predicate Records(latency: Option<Latency>, times: seq<u64>) {
    match latency
    case None => times == []
    case Some(l) =>
      l.total == Wrap(Sum(times)) && l.packets == Wrap(|times|) && IsLeast(l.min, times) && IsGreatest(l.max, times)
  }

  lemma WrapAdd(x: int, y: int)
    ensures Wrap(Wrap(x) + y) == Wrap(x + y)
  {
  }

  lemma {:induction false} TimedRecords(latency: Option<Latency>, times: seq<u64>, ns: u64)
    requires Records(latency, times)
    ensures Records(Some(Timed(latency, ns)), times + [ns])
  {
    var all := times + [ns];
    assert all[..|times|] == times && all[|times|] == ns;
    assert forall t :: t in all <==> t in times || t == ns;
    if latency == None {
      assert Sum(times) == 0;
      WrapExact(ns);
    } else {
      WrapAdd(Sum(times), ns);
      WrapSucc(|times|);
    }
  }

  predicate Timely(r: Run, times: seq<u64>) {
    && Records(r.v.kernel.latency, times)
    && r.latencySum == Sum(times)
    && r.passed + r.blockDrops + r.rateDrops == |times|
    && (r.v.kernel.stats.Some? ==> times != [])
  }

  lemma {:induction false} AccountTimely(r: Run, k': KernelView, verdict: Verdict, now: u64, ns: u64, times: seq<u64>)
    requires Timely(r, times) && PacketEffect(r.v.kernel, k', verdict, now, ns)
    ensures Timely(Account(r, k', verdict, now, ns), times + [ns])
  {
    TimedRecords(r.v.kernel.latency, times, ns);
    assert (times + [ns])[..|times|] == times;
  }

  /**
   In every run the latency map holds the number, the sum, the least and the greatest of the times of the
   protected packets, dropped ones included, and every such packet is in exactly one pile.
   */
  lemma {:induction false} TimesAreRecorded(events: seq<Event>)
    ensures Timely(Continue(START, events), PacketTimes(events))
  {
    if events != [] {
      var init, e := events[..|events| - 1], events[|events| - 1];
      TimesAreRecorded(init);
      var r := Continue(START, init);
      if e.Packet? && e.isProtected {
        FilterEffect(r.v.kernel, e.start, e.now, e.end);
        var (k, verdict) := FilterStep(r.v.kernel, e.start, e.now, e.end);
        AccountTimely(r, k, verdict, e.now, Wrap(e.end - e.start), PacketTimes(init));
      } else {
        assert PacketTimes(events) == PacketTimes(init);
        OthersTimely(r, e, PacketTimes(init));
      }
    }
  }

  /** Every protected packet is on exactly one pile. */
  lemma {:induction false} OnePileEach(events: seq<Event>)
    ensures var r := Continue(START, events); r.passed + r.blockDrops + r.rateDrops == |PacketTimes(events)|
  {
    TimesAreRecorded(events);
  }

  lemma {:induction false} OthersTimely(r: Run, e: Event, times: seq<u64>)
    requires Timely(r, times) && !(e.Packet? && e.isProtected)
    ensures Timely(Step(r, e), times)
  {
  }
}
