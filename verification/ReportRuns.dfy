/** The record that the agent reports for an address at a tick, against the run that led there. */
module ReportRuns {
  import opened Word
  import opened TokenBucket
  import opened Kernel
  import opened Rules
  import opened Agent
  import opened EnforcementRuns
  import opened BlockRuns
  import opened LimitRuns

  function Record(r: Run, e: Event): ClientStat
    requires e.Tick? && r.v.kernel.stats.Some?
  {
    Stat(r.v, Step(r, e).v)
  }

  lemma {:induction false} LimitIsGoInt(events: seq<Event>)
    requires LimitsWithin(events, -TWO_TO_63, TWO_TO_63 - 1)
    ensures var active := Continue(START, events).v.active;
            active.Some? ==> -TWO_TO_63 <= active.value < TWO_TO_63
  {
    if events != [] {
      var init, last := events[..|events| - 1], events[|events| - 1];
      LimitIsGoInt(init);
      if last.Tick? {
        MatchedThreshold(Continue(START, init).v, last, -TWO_TO_63, TWO_TO_63 - 1);
      }
    }
  }

  lemma WrapOfGoInt(x: int)
    requires -TWO_TO_63 <= x < TWO_TO_63
    ensures Wrap(x) == 0 <==> x == 0
  {
  }

  lemma RecordFields(r: Run, e: Event)
    requires e.Tick? && r.v.kernel.stats.Some?
    ensures var record, r' := Record(r, e), Step(r, e);
            && Matched(r.v, e) == MatchIn(e.visited, record.reqPerSec)
            && WholeTenth(record.reqPerSec, record.passed)
            && r'.reported == r.reported + record.passed
            && -TWO_TO_63 <= record.passed < TWO_TO_63
            && Wrap(record.passed) == Wrap(r.v.kernel.stats.value.count - r.v.prev)
            && (record.blocked <==> Live(r.v.kernel.blockedUntil, e.now))
            && (record.rateLimited <==> Limit(r'.v.active) != 0)
  {
    ToIntIsSigned(Diff(r.v));
    TruncDivTruncates(ToInt(Diff(r.v)));
  }

  /**
   What the agent reports at a tick of any run: the rate the rules were matched against, whole requests per
   second of the reported number; blocked exactly if the latest block's end was ahead; rate limited exactly
   if the kernel has a nonzero rate after the tick, the thresholds being Go integers.
   */
  lemma {:induction false} RecordIsTruthful(events: seq<Event>, e: Event)
    requires Possible(0, events + [e]) && e.Tick? && Continue(START, events).v.kernel.stats.Some?
    requires LimitsWithin(events + [e], -TWO_TO_63, TWO_TO_63 - 1)
    ensures var r, r' := Continue(START, events), Continue(START, events + [e]);
            var record := Record(r, e);
            && Matched(r.v, e) == MatchIn(e.visited, record.reqPerSec)
            && WholeTenth(record.reqPerSec, record.passed)
            && r'.reported == r.reported + record.passed
            && (record.blocked <==> BeforeEnd(r, e.now))
            && (record.rateLimited <==> r'.v.kernel.rate.Some? && r'.v.kernel.rate.value != 0)
  {
    var all := events + [e];
    assert all[..|events|] == events;
    PossiblePrefix(0, all);
    ContinueSnoc(START, events, e);
    RecordFields(Continue(START, events), e);
    RunsAreBooked(events);
    ShadowAgrees(all);
    LimitIsGoInt(all);
    var active := Continue(START, all).v.active;
    if active.Some? {
      WrapOfGoInt(active.value);
    }
  }

  predicate AddedUp(r: Run) {
    && 0 <= r.reported <= r.passed + r.rateDrops
    && r.v.prev == r.reported && Seen(r.v.kernel.stats) == r.passed + r.rateDrops
  }

  lemma StepAddsUp(r: Run, e: Event)
    requires AddedUp(r) && Step(r, e).passed + Step(r, e).rateDrops < TWO_TO_63
    requires Conserved(Step(r, e))
    ensures AddedUp(Step(r, e))
    ensures e.Tick? ==> Step(r, e).reported == r.passed + r.rateDrops
  {
    var r' := Step(r, e);
    if e.Tick? && r.v.kernel.stats.Some? {
      RecordFields(r, e);
      WrapExact(r.passed + r.rateDrops - r.reported);
    }
    WrapExact(r'.passed + r'.rateDrops);
  }

  lemma PilesGrow(r: Run, e: Event)
    ensures Step(r, e).passed >= r.passed && Step(r, e).rateDrops >= r.rateDrops
  {
  }

  /**
   Under 2^63 counted packets the reported numbers add up without wrap-around: after every tick their sum
   is the number of packets that passed or that the rate limiter dropped, and never more in between.
   */
  lemma {:induction false} ReportsAddUp(events: seq<Event>)
    requires Possible(0, events)
    requires var r := Continue(START, events); r.passed + r.rateDrops < TWO_TO_63
    ensures var r := Continue(START, events);
            && AddedUp(r)
            && (events != [] && events[|events| - 1].Tick? ==> r.reported == r.passed + r.rateDrops)
  {
    if events != [] {
      var init, last := events[..|events| - 1], events[|events| - 1];
      var r := Continue(START, init);
      PossiblePrefix(0, events);
      PilesGrow(r, last);
      ReportsAddUp(init);
      PacketsConserved(events);
      StepAddsUp(r, last);
      if last.Tick? {
        assert Step(r, last).passed == r.passed && Step(r, last).rateDrops == r.rateDrops;
      }
    }
  }

  /** The least, the mean and the greatest time in whole microseconds. */
  predicate ReportsTimes(record: ClientStat, times: seq<u64>) {
    && times != []
    && (exists least: u64 :: IsLeast(least, times) && record.minUs == least / 1000)
    && (exists greatest: u64 :: IsGreatest(greatest, times) && record.maxUs == greatest / 1000)
    && record.avgUs == Sum(times) / |times| / 1000
    && 0 <= record.minUs <= record.avgUs <= record.maxUs
  }

  lemma {:induction false} LatencyReported(l: Latency, times: seq<u64>)
    requires Records(Some(l), times) && times != [] && l.total == Sum(times) < TWO_TO_63 && l.packets == |times| < TWO_TO_63
    requires l.min <= l.max <= l.total && l.min * l.packets <= l.total <= l.max * l.packets
    ensures MinLatencyUs(l) == l.min / 1000 && MaxLatencyUs(l) == l.max / 1000
    ensures AvgLatencyUs(l) == Sum(times) / |times| / 1000
    ensures 0 <= MinLatencyUs(l) <= AvgLatencyUs(l) <= MaxLatencyUs(l)
  {
    QuotientBetween(l.min, l.total, l.max, l.packets);
  }

  /** The reported latencies are those of all protected packets so far, in the order minimum, average, maximum. */
  lemma {:induction false} ReportedLatenciesOrdered(events: seq<Event>, e: Event)
    requires e.Tick? && Continue(START, events).v.kernel.stats.Some?
    requires Sum(PacketTimes(events)) < TWO_TO_63 && |PacketTimes(events)| < TWO_TO_63
    ensures ReportsTimes(Record(Continue(START, events), e), PacketTimes(events))
  {
    var r, times := Continue(START, events), PacketTimes(events);
    TimesAreRecorded(events);
    LatencyStaysSound(events);
    var l := r.v.kernel.latency.value;
    LatencyReported(l, times);
    RecordLatency(r, e);
    assert IsLeast(l.min, times) && IsGreatest(l.max, times);
  }

  lemma RecordLatency(r: Run, e: Event)
    requires e.Tick? && r.v.kernel.stats.Some? && r.v.kernel.latency.Some?
    ensures var record, l := Record(r, e), r.v.kernel.latency.value;
            record.minUs == MinLatencyUs(l) && record.avgUs == AvgLatencyUs(l) && record.maxUs == MaxLatencyUs(l)
  {
  }
}
