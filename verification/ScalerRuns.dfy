/** The scaler over whole sequences of evaluated reports, given by their effective load indices. */
module ScalerRuns {
  import opened Word
  import opened Scaler

  function After(s: State, indices: seq<real>): State {
    if indices == [] then s
    else Decide(After(s, indices[..|indices| - 1]), indices[|indices| - 1]).0
  }

  function Published(s: State, indices: seq<real>): Publication
    requires indices != []
  {
    Decide(After(s, indices[..|indices| - 1]), indices[|indices| - 1]).1
  }

  /** Published escalations and published step-downs of a run. */
  function Rises(s: State, indices: seq<real>): nat {
    if indices == [] then 0
    else
      var init := indices[..|indices| - 1];
      Rises(s, init) + if After(s, indices).level > After(s, init).level then 1 else 0
  }

  function Falls(s: State, indices: seq<real>): nat {
    if indices == [] then 0
    else
      var init := indices[..|indices| - 1];
      Falls(s, init) + if After(s, indices).level < After(s, init).level then 1 else 0
  }

  /** What every state between reports satisfies. */
  predicate Settled(s: State) {
    s.escalation <= 2 && s.stable <= 2 && IndexToLevel(s.lastIndex) <= s.level
  }

  lemma DecideKeepsSettled(s: State, idx: real)
    requires Settled(s)
    ensures Settled(Decide(s, idx).0)
    ensures var (s', p) := Decide(s, idx);
            && (p == Nothing <==> s'.level == s.level)
            && (s'.level < s.level ==> s'.level == s.level - 1)
            && (s'.level > s.level ==> s'.level == IndexToLevel(idx) && s.escalation == 2)
            && (p.Limit? ==> p.level == s'.level > 0)
            && (p.Cleared? <==> s'.level == 0 < s.level)
  {
  }

  lemma {:induction false} RunsStaySettled(s: State, indices: seq<real>)
    requires Settled(s)
    ensures Settled(After(s, indices))
  {
    if indices != [] {
      RunsStaySettled(s, indices[..|indices| - 1]);
      DecideKeepsSettled(After(s, indices[..|indices| - 1]), indices[|indices| - 1]);
    }
  }

  /** Publications cost reports: three for each rise, two for each fall, plus what the counters hold. */
  lemma {:induction false} ChurnBound(s: State, indices: seq<real>)
    requires Settled(s)
    ensures var s' := After(s, indices);
            3 * Rises(s, indices) + 2 * Falls(s, indices) + s'.escalation + s'.stable
              <= |indices| + s.escalation + s.stable
  {
    if indices != [] {
      RunsStaySettled(s, indices[..|indices| - 1]);
      ChurnBound(s, indices[..|indices| - 1]);
    }
  }

  /** The escalation counter counts reports above the level, back to back, with the level unchanged. */
  lemma {:induction false} EscalationCountsConsecutive(indices: seq<real>, k: nat)
    requires k < After(INITIAL, indices).escalation
    ensures k < |indices|
    ensures var n := |indices| - 1 - k;
            && After(INITIAL, indices[..n]).level == After(INITIAL, indices).level
            && IndexToLevel(indices[n]) > After(INITIAL, indices).level
    decreases |indices|
  {
    if indices != [] {
      var init := indices[..|indices| - 1];
      RunsStaySettled(INITIAL, init);
      if k > 0 {
        EscalationCountsConsecutive(init, k - 1);
        var n := |indices| - 1 - k;
        assert init[..n] == indices[..n];
      }
    }
  }

  /** Two confirmed reports are the last two, both above the level, which did not move meanwhile. */
  lemma {:induction false} TwoConfirmed(indices: seq<real>)
    requires After(INITIAL, indices).escalation == 2
    ensures |indices| >= 2
    ensures var n, level := |indices|, After(INITIAL, indices).level;
            && After(INITIAL, indices[..n - 2]).level == After(INITIAL, indices[..n - 1]).level == level
            && IndexToLevel(indices[n - 2]) > level && IndexToLevel(indices[n - 1]) > level
  {
    EscalationCountsConsecutive(indices, 0);
    EscalationCountsConsecutive(indices, 1);
  }

  /** A rise goes straight to the last report's level, after three consecutive reports above an unchanged level. */
  lemma {:induction false} RiseNeedsThree(confirmed: seq<real>, idx: real)
    requires After(INITIAL, confirmed + [idx]).level > After(INITIAL, confirmed).level
    ensures |confirmed| >= 2
    ensures var n, level := |confirmed|, After(INITIAL, confirmed).level;
            && After(INITIAL, confirmed[..n - 2]).level == After(INITIAL, confirmed[..n - 1]).level == level
            && IndexToLevel(confirmed[n - 2]) > level && IndexToLevel(confirmed[n - 1]) > level && IndexToLevel(idx) > level
            && After(INITIAL, confirmed + [idx]).level == IndexToLevel(idx)
  {
    AfterAppend(INITIAL, confirmed, idx);
    RunsStaySettled(INITIAL, confirmed);
    DecideKeepsSettled(After(INITIAL, confirmed), idx);
    TwoConfirmed(confirmed);
  }

  /** How many of the last reports, without a break, were above the level they met. */
  function HighStreak(indices: seq<real>): nat {
    if indices == [] then 0
    else
      var init, last := indices[..|indices| - 1], indices[|indices| - 1];
      if IndexToLevel(last) > After(INITIAL, init).level then HighStreak(init) + 1 else 0
  }

  lemma {:induction false} EscalationIsStreak(indices: seq<real>)
    ensures After(INITIAL, indices).escalation == HighStreak(indices) % 3
  {
    if indices != [] {
      var init := indices[..|indices| - 1];
      EscalationIsStreak(init);
      RunsStaySettled(INITIAL, init);
    }
  }

  /**
   A report makes the level rise exactly when it is above the level, two more high reports came right before
   it (or five, or eight, if suppressed ones precede them), and the index is at least 10 away from the last
   published one; the level is then the report's.
   */
  lemma {:induction false} RisesIff(indices: seq<real>, idx: real)
    ensures var level := After(INITIAL, indices).level;
            After(INITIAL, indices + [idx]).level > level <==>
              && IndexToLevel(idx) > level && HighStreak(indices) % 3 == 2
              && Distance(idx, LatestPublishedIndex(indices)) >= 10.0
    ensures After(INITIAL, indices + [idx]).level > After(INITIAL, indices).level ==>
              After(INITIAL, indices + [idx]).level == IndexToLevel(idx)
  {
    AfterAppend(INITIAL, indices, idx);
    RunsStaySettled(INITIAL, indices);
    EscalationIsStreak(indices);
    PublicationsAreSpaced(indices);
  }

  // ---- what a fall needs ----

  /** Three reports in a row above the level, up to report j. */
  predicate ThirdAbove(indices: seq<real>, j: int, level: Level) {
    && 2 <= j < |indices|
    && IndexToLevel(indices[j - 2]) > level && IndexToLevel(indices[j - 1]) > level && IndexToLevel(indices[j]) > level
  }

  /** Report k is below the level, and no later report equals it or is the third in a row above it. */
  predicate CalmSince(indices: seq<real>, k: int, level: Level) {
    && 0 <= k < |indices| && IndexToLevel(indices[k]) < level
    && (forall j :: k < j < |indices| ==> IndexToLevel(indices[j]) != level)
    && (forall j :: k + 2 < j < |indices| ==> !ThirdAbove(indices, j, level))
  }

  /** Before report k and ever since, the level has been this one. */
  predicate LevelSince(indices: seq<real>, k: nat, level: Level)
    decreases |indices|
  {
    && After(INITIAL, indices).level == level
    && (k < |indices| ==> LevelSince(indices[..|indices| - 1], k, level))
  }

  /** A calm report that still counts: the level has not moved since. Other calm and up to two high reports may follow it. */
  predicate CalmPending(indices: seq<real>, k: int) {
    var level := After(INITIAL, indices).level;
    CalmSince(indices, k, level) && LevelSince(indices, k, level)
  }

  /** How many of the last two reports are above the level without a break. */
  function Streak(indices: seq<real>, level: Level): nat {
    var n := |indices|;
    if n == 0 || IndexToLevel(indices[n - 1]) <= level then 0
    else if n == 1 || IndexToLevel(indices[n - 2]) <= level then 1
    else 2
  }

  lemma {:induction false} CalmSinceSnoc(init: seq<real>, last: real, k: int, level: Level)
    requires 0 <= k < |init|
    ensures CalmSince(init + [last], k, level) <==>
              && CalmSince(init, k, level) && IndexToLevel(last) != level
              && !(IndexToLevel(last) > level && Streak(init, level) == 2)
  {
    var all, n := init + [last], |init|;
    assert all[n] == last && forall j :: 0 <= j < n ==> all[j] == init[j];
    if CalmSince(all, k, level) {
      forall j | k < j < n ensures IndexToLevel(init[j]) != level {
        assert IndexToLevel(all[j]) != level;
      }
      forall j | k + 2 < j < n ensures !ThirdAbove(init, j, level) {
        assert !ThirdAbove(all, j, level);
      }
      assert n > k + 2 ==> !ThirdAbove(all, n, level);
    } else if CalmSince(init, k, level) && IndexToLevel(last) != level {
      assert exists j :: k + 2 < j <= n && ThirdAbove(all, j, level);
      var j :| k + 2 < j <= n && ThirdAbove(all, j, level);
      assert j < n ==> ThirdAbove(init, j, level);
    }
  }

  lemma {:induction false} PendingSnoc(init: seq<real>, last: real, k: int)
    requires 0 <= k < |init|
    ensures var level, level' := After(INITIAL, init).level, After(INITIAL, init + [last]).level;
            CalmPending(init + [last], k) <==>
              && CalmPending(init, k) && level' == level && IndexToLevel(last) != level
              && !(IndexToLevel(last) > level && Streak(init, level) == 2)
  {
    var level' := After(INITIAL, init + [last]).level;
    CalmSinceSnoc(init, last, k, level');
    assert (init + [last])[..|init|] == init;
    assert LevelSince(init + [last], k, level') <==> LevelSince(init, k, level');
    assert LevelSince(init, k, level') ==> After(INITIAL, init).level == level';
  }

  /** A pending calm report is what the stable counter remembers; the escalation counter then counts the streak. */
  lemma {:induction false} PendingIsCounted(indices: seq<real>, k: int)
    requires CalmPending(indices, k)
    ensures After(INITIAL, indices).stable >= 1
    ensures After(INITIAL, indices).escalation == Streak(indices, After(INITIAL, indices).level)
    decreases |indices|
  {
    var init, last := indices[..|indices| - 1], indices[|indices| - 1];
    assert indices == init + [last];
    AfterAppend(INITIAL, init, last);
    RunsStaySettled(INITIAL, init);
    assert LevelSince(init, k, After(INITIAL, indices).level);
    if k < |init| {
      PendingSnoc(init, last, k);
      PendingIsCounted(init, k);
    }
  }

  lemma {:induction false} CountedIsPending(indices: seq<real>) returns (k: int)
    requires After(INITIAL, indices).stable >= 1
    ensures CalmPending(indices, k)
    decreases |indices|
  {
    var init, last := indices[..|indices| - 1], indices[|indices| - 1];
    assert indices == init + [last];
    AfterAppend(INITIAL, init, last);
    RunsStaySettled(INITIAL, init);
    DecideKeepsSettled(After(INITIAL, init), last);
    if IndexToLevel(last) < After(INITIAL, init).level {
      k := |init|;
    } else {
      k := CountedIsPending(init);
      PendingIsCounted(init, k);
      PendingSnoc(init, last, k);
    }
  }

  /**
   A report makes the level fall exactly when it is below the level while an earlier calm report is
   pending, and the level is 1 or the index is at least 10 away from the last published one.
   */
  lemma {:induction false} FallsIff(indices: seq<real>, idx: real)
    ensures var level := After(INITIAL, indices).level;
            After(INITIAL, indices + [idx]).level < level <==>
              && IndexToLevel(idx) < level
              && (exists k :: CalmPending(indices, k))
              && (level == 1 || Distance(idx, LatestPublishedIndex(indices)) >= 10.0)
  {
    AfterAppend(INITIAL, indices, idx);
    RunsStaySettled(INITIAL, indices);
    PublicationsAreSpaced(indices);
    if After(INITIAL, indices).stable >= 1 {
      var k := CountedIsPending(indices);
      assert CalmPending(indices, k);
    } else if k :| CalmPending(indices, k) {
      PendingIsCounted(indices, k);
    }
  }

  /** A fall whose two calm reports are not consecutive. */
  lemma FallWithoutConsecutiveCalm()
    ensures var s := After(INITIAL, [60.0, 60.0, 60.0]);
            && After(s, [20.0, 95.0]).level == 2 && IndexToLevel(95.0) > 2
            && After(s, [20.0, 95.0, 20.0]).level == 1
  {
    Unroll(INITIAL, 60.0, 60.0, 60.0);
    Unroll(After(INITIAL, [60.0, 60.0, 60.0]), 20.0, 95.0, 20.0);
  }

  // ---- responsiveness ----

  /** A report this far above the band is confirmed, or it raises the level when it is the third. */
  lemma LoadedReport(s: State, x: real)
    requires Settled(s) && s.level < 4 && x >= BandTop(s.level) + 10.0
    ensures var s' := Decide(s, x).0;
            if s.escalation == 2 then s'.level > s.level
            else s'.level == s.level && s'.escalation == s.escalation + 1 && Settled(s')
  {
  }

  /** Three reports at least 10 above the band raise the level within those three, from any reachable state. */
  lemma SustainedLoadRaises(s: State, x: real, y: real, z: real)
    requires Settled(s) && s.level < 4
    requires var bar := BandTop(s.level) + 10.0; x >= bar && y >= bar && z >= bar
    ensures || After(s, [x]).level > s.level
            || After(s, [x, y]).level > s.level
            || After(s, [x, y, z]).level > s.level
  {
    Unroll(s, x, y, z);
    LoadedReport(s, x);
    if s.escalation < 2 {
      var s1 := Decide(s, x).0;
      LoadedReport(s1, y);
      if s1.escalation < 2 {
        LoadedReport(Decide(s1, y).0, z);
      }
    }
  }

  /** At level 1 two calm reports always clear the rule. */
  lemma CalmClearsLevelOne(s: State, x: real, y: real)
    requires Settled(s) && s.level == 1 && x <= 30.0 && y <= 30.0
    ensures After(s, [x]).level == 0 || After(s, [x, y]).level == 0
  {
    Unroll(s, x, y, y);
  }

  lemma Unroll(s: State, x: real, y: real, z: real)
    ensures After(s, [x]) == Decide(s, x).0
    ensures After(s, [x, y]) == Decide(Decide(s, x).0, y).0
    ensures After(s, [x, y, z]) == Decide(Decide(Decide(s, x).0, y).0, z).0
  {
    assert [x] == [] + [x] && [x][..0] == [];
    assert [x, y][..1] == [x];
    assert [x, y, z][..2] == [x, y];
  }

  // ---- constant load ----

  /** Where a load index that stays at x leaves the level, for good. */
  function FinalLevel(s: State, x: real): Level {
    var target := IndexToLevel(x);
    var far := Distance(x, s.lastIndex) >= 10.0;
    if target > s.level then if far then target else s.level
    else if target == s.level then s.level
    else if s.level == 1 then 0
    else if !far then s.level
    else if s.level == 2 && target == 0 then 0
    else s.level - 1
  }

  function Changes(s: State, indices: seq<real>): nat {
    Rises(s, indices) + Falls(s, indices)
  }

  lemma AfterSnoc(s: State, x: real, n: nat)
    ensures After(s, Repeat(x, n + 1)) == Decide(After(s, Repeat(x, n)), x).0
    ensures Changes(s, Repeat(x, n + 1))
         == Changes(s, Repeat(x, n)) + if After(s, Repeat(x, n + 1)).level != After(s, Repeat(x, n)).level then 1 else 0
  {
    assert Repeat(x, n + 1)[..n] == Repeat(x, n);
  }

  /** The level no longer moves when every further report has index x. */
  predicate AtRest(s: State, x: real) {
    var target := IndexToLevel(x);
    || target == s.level
    || (Distance(x, s.lastIndex) < 10.0 && (target > s.level || s.level > 1))
  }

  lemma RestLasts(s: State, x: real)
    requires AtRest(s, x)
    ensures AtRest(Decide(s, x).0, x) && Decide(s, x).0.level == s.level
  {
  }

  /** After four reports at x the level is the final one, after at most two changes. */
  lemma FourReportsSettle(s: State, x: real)
    requires Settled(s)
    ensures var s4 := Decide(Decide(Decide(Decide(s, x).0, x).0, x).0, x).0;
            AtRest(s4, x) && s4.level == FinalLevel(s, x)
  {
    if !AtRest(s, x) {
      var target := IndexToLevel(x);
      if target > s.level {
        FarRiseSettles(s, x);
      } else {
        FarFallSettles(s, x);
      }
    } else {
      RestLasts(s, x);
      RestLasts(Decide(s, x).0, x);
      RestLasts(Decide(Decide(s, x).0, x).0, x);
      RestLasts(Decide(Decide(Decide(s, x).0, x).0, x).0, x);
    }
  }

  lemma FarRiseSettles(s: State, x: real)
    requires Settled(s) && IndexToLevel(x) > s.level && Distance(x, s.lastIndex) >= 10.0
    ensures var s4 := Decide(Decide(Decide(Decide(s, x).0, x).0, x).0, x).0;
            AtRest(s4, x) && s4.level == IndexToLevel(x)
  {
  }

  lemma FarFallSettles(s: State, x: real)
    requires Settled(s) && IndexToLevel(x) < s.level && (Distance(x, s.lastIndex) >= 10.0 || s.level == 1)
    ensures var s4 := Decide(Decide(Decide(Decide(s, x).0, x).0, x).0, x).0;
            AtRest(s4, x) && s4.level == FinalLevel(s, x)
  {
  }

  /** Under constant load the level is the closed form FinalLevel from the fourth report on, whatever came before. */
  lemma {:induction false} ConstantLoadFixedPoint(s: State, x: real, n: nat)
    requires Settled(s) && n >= 4
    ensures After(s, Repeat(x, n)).level == FinalLevel(s, x)
    ensures AtRest(After(s, Repeat(x, n)), x)
    ensures Changes(s, Repeat(x, n)) == Changes(s, Repeat(x, 4)) <= 2
  {
    SettledAfterFour(s, x);
    RestPersists(s, x, 4, n);
  }

  lemma {:induction false} RestPersists(s: State, x: real, m: nat, n: nat)
    requires m <= n && AtRest(After(s, Repeat(x, m)), x)
    ensures After(s, Repeat(x, n)).level == After(s, Repeat(x, m)).level
    ensures AtRest(After(s, Repeat(x, n)), x)
    ensures Changes(s, Repeat(x, n)) == Changes(s, Repeat(x, m))
  {
    if m < n {
      RestPersists(s, x, m, n - 1);
      RestSnoc(s, x, n - 1);
    }
  }

  lemma RestSnoc(s: State, x: real, n: nat)
    requires AtRest(After(s, Repeat(x, n)), x)
    ensures After(s, Repeat(x, n + 1)).level == After(s, Repeat(x, n)).level
    ensures AtRest(After(s, Repeat(x, n + 1)), x)
    ensures Changes(s, Repeat(x, n + 1)) == Changes(s, Repeat(x, n))
  {
    AfterSnoc(s, x, n);
    RestLasts(After(s, Repeat(x, n)), x);
  }

  lemma SettledAfterFour(s: State, x: real)
    requires Settled(s)
    ensures var s' := After(s, Repeat(x, 4)); AtRest(s', x) && s'.level == FinalLevel(s, x)
    ensures Changes(s, Repeat(x, 4)) <= 2
  {
    FirstFour(s, x);
    FourReportsSettle(s, x);
    AtMostTwoChanges(s, x);
  }

  lemma FirstFour(s: State, x: real)
    ensures var s1 := Decide(s, x).0;
            var s2 := Decide(s1, x).0;
            var s3 := Decide(s2, x).0;
            var s4 := Decide(s3, x).0;
            && After(s, Repeat(x, 4)) == s4
            && Changes(s, Repeat(x, 4)) ==
                 (if s1.level != s.level then 1 else 0) + (if s2.level != s1.level then 1 else 0)
                 + (if s3.level != s2.level then 1 else 0) + (if s4.level != s3.level then 1 else 0)
  {
    assert After(s, Repeat(x, 0)) == s;
    AfterSnoc(s, x, 0);
    AfterSnoc(s, x, 1);
    AfterSnoc(s, x, 2);
    AfterSnoc(s, x, 3);
  }

  lemma AtMostTwoChanges(s: State, x: real)
    requires Settled(s)
    ensures var s1 := Decide(s, x).0;
            var s2 := Decide(s1, x).0;
            var s3 := Decide(s2, x).0;
            var s4 := Decide(s3, x).0;
            (if s1.level != s.level then 1 else 0) + (if s2.level != s1.level then 1 else 0)
              + (if s3.level != s2.level then 1 else 0) + (if s4.level != s3.level then 1 else 0) <= 2
  {
  }

  /** Constant idle load brings the level back to 0 exactly from these states; from every other it never does. */
  lemma IdleRecoversIff(s: State, x: real, n: nat)
    requires Settled(s) && x <= 30.0 && n >= 4
    ensures After(s, Repeat(x, n)).level == 0
        <==> s.level <= 1 || (s.level == 2 && Distance(x, s.lastIndex) >= 10.0)
  {
    ConstantLoadFixedPoint(s, x, n);
  }

  /** Three saturated reports, then an idle machine: the level stays at 3 for ever. */
  lemma IdleAfterSpikeStaysLimited(n: nat)
    requires n >= 4
    ensures After(After(INITIAL, Repeat(100.0, 3)), Repeat(0.0, n)).level == 3
  {
    var s := After(INITIAL, Repeat(100.0, 3));
    assert Repeat(100.0, 3) == [100.0, 100.0, 100.0];
    Unroll(INITIAL, 100.0, 100.0, 100.0);
    ConstantLoadFixedPoint(s, 0.0, n);
  }

  // ---- spacing of publications ----

  /** The index of the latest publication of a run, 0 before the first. */
  function LatestPublishedIndex(indices: seq<real>): real {
    if indices == [] then 0.0
    else if Published(INITIAL, indices) != Nothing then indices[|indices| - 1]
    else LatestPublishedIndex(indices[..|indices| - 1])
  }

  /** A publication that leaves a limit in place is at least 10 index units from the publication before it. */
  lemma {:induction false} PublicationsAreSpaced(indices: seq<real>)
    ensures After(INITIAL, indices).lastIndex == LatestPublishedIndex(indices)
    ensures indices != [] && Published(INITIAL, indices).Limit? ==>
              Distance(indices[|indices| - 1], LatestPublishedIndex(indices[..|indices| - 1])) >= 10.0
  {
    if indices != [] {
      PublicationsAreSpaced(indices[..|indices| - 1]);
    }
  }

  // ---- from reports to effective indices ----

  datatype Report = Report(metrics: Metrics, day: Option<Baseline>, twoHours: Option<Baseline>)

  function AfterReports(s: State, reports: seq<Report>): State {
    if reports == [] then s
    else
      var last := reports[|reports| - 1];
      Evaluate(AfterReports(s, reports[..|reports| - 1]), last.metrics, last.day, last.twoHours).0
  }

  /** The indices by which the reports with a readable baseline were judged. */
  function EffectiveIndices(s: State, reports: seq<Report>): seq<real> {
    if reports == [] then []
    else
      var init, last := reports[..|reports| - 1], reports[|reports| - 1];
      EffectiveIndices(s, init) +
        if last.day == None then []
        else [Anchor(AfterReports(s, init), last.metrics, last.day.value, last.twoHours).1]
  }

  lemma {:induction false} AfterAppend(s: State, indices: seq<real>, idx: real)
    ensures After(s, indices + [idx]) == Decide(After(s, indices), idx).0
  {
    assert (indices + [idx])[..|indices|] == indices;
  }

  lemma DecideIgnoresDeviation(s: State, idx: real, deviation: nat)
    ensures Decide(s, idx).0.(deviation := deviation) == Decide(s.(deviation := deviation), idx).0
  {
  }

  lemma AnchorMovesDeviationOnly(s: State, m: Metrics, day: Baseline, twoHours: Option<Baseline>)
    ensures Anchor(s, m, day, twoHours).0.(deviation := s.deviation) == s
  {
  }

  /** Everything proved of runs of indices holds of runs of reports: only the deviation counter is extra. */
  lemma {:induction false} ReportsAreIndices(s: State, reports: seq<Report>)
    ensures AfterReports(s, reports).(deviation := s.deviation) == After(s, EffectiveIndices(s, reports))
    ensures |EffectiveIndices(s, reports)| <= |reports|
  {
    if reports != [] {
      var init, last := reports[..|reports| - 1], reports[|reports| - 1];
      ReportsAreIndices(s, init);
      if last.day.Some? {
        var before := AfterReports(s, init);
        var (anchored, idx) := Anchor(before, last.metrics, last.day.value, last.twoHours);
        AnchorMovesDeviationOnly(before, last.metrics, last.day.value, last.twoHours);
        DecideIgnoresDeviation(anchored, idx, s.deviation);
        AfterAppend(s, EffectiveIndices(s, init), idx);
      } else {
        assert EffectiveIndices(s, init) + [] == EffectiveIndices(s, init);
      }
    }
  }

  /** Re-anchoring can only touch a calm positive report that ten others preceded. */
  lemma AnchorKeepsIndex(s: State, m: Metrics, day: Baseline, twoHours: Option<Baseline>)
    requires s.level > 0 || LoadIndex(m, day) > 30.0 || LoadIndex(m, day) <= 0.0 || s.deviation < 10
    ensures Anchor(s, m, day, twoHours).1 == LoadIndex(m, day)
  {
  }

  /** A report within the lowest band, but above 0, while no limit is active. */
  predicate CalmPositive(s: State, r: Report) {
    r.day.Some? && s.level == 0 && 0.0 < LoadIndex(r.metrics, r.day.value) <= 30.0
  }

  /** The reports for which a baseline could be read. */
  function ReadableOnes(reports: seq<Report>): (rs: seq<Report>)
    ensures forall i :: 0 <= i < |rs| ==> rs[i].day.Some?
  {
    if reports == [] then []
    else
      var last := reports[|reports| - 1];
      ReadableOnes(reports[..|reports| - 1]) + if last.day.Some? then [last] else []
  }

  /** A report without a baseline leaves every counter, the level and the last index alone. */
  lemma {:induction false} UnreadableReportsChangeNothing(s: State, reports: seq<Report>)
    ensures AfterReports(s, ReadableOnes(reports)) == AfterReports(s, reports)
  {
    if reports != [] {
      var init, last := reports[..|reports| - 1], reports[|reports| - 1];
      UnreadableReportsChangeNothing(s, init);
      if last.day.Some? {
        assert (ReadableOnes(init) + [last])[..|ReadableOnes(init)|] == ReadableOnes(init);
      } else {
        assert ReadableOnes(init) + [] == ReadableOnes(init);
      }
    }
  }

  /** The deviation counter counts calm positive reports, back to back among the readable ones. */
  lemma {:induction false} DeviationCountsConsecutive(rs: seq<Report>, k: nat)
    requires k < AfterReports(INITIAL, rs).deviation
    requires forall i :: 0 <= i < |rs| ==> rs[i].day.Some?
    ensures k < |rs|
    ensures var n := |rs| - 1 - k; CalmPositive(AfterReports(INITIAL, rs[..n]), rs[n])
    decreases |rs|
  {
    if rs != [] && k > 0 {
      var init := rs[..|rs| - 1];
      DeviationCountsConsecutive(init, k - 1);
      var n := |rs| - 1 - k;
      assert init[..n] == rs[..n];
    }
  }

  lemma ReanchorIsCalm(s: State, r: Report)
    requires r.day.Some? && Anchor(s, r.metrics, r.day.value, r.twoHours).1 != LoadIndex(r.metrics, r.day.value)
    ensures CalmPositive(s, r) && s.deviation >= 10
  {
    var idx := LoadIndex(r.metrics, r.day.value);
    if s.level > 0 || idx > 30.0 || idx <= 0.0 || s.deviation < 10 {
      AnchorKeepsIndex(s, r.metrics, r.day.value, r.twoHours);
    }
  }

  /** The same count in a run in which some baseline queries fail. */
  lemma {:induction false} DeviationCountsReadable(reports: seq<Report>, k: nat)
    requires k < AfterReports(INITIAL, reports).deviation
    ensures k < |ReadableOnes(reports)|
    ensures var rs := ReadableOnes(reports);
            var n := |rs| - 1 - k;
            CalmPositive(AfterReports(INITIAL, rs[..n]), rs[n])
  {
    UnreadableReportsChangeNothing(INITIAL, reports);
    DeviationCountsConsecutive(ReadableOnes(reports), k);
  }

  /** The baseline is re-anchored only at the eleventh calm positive report in a row or later, failed queries aside. */
  lemma {:induction false} ReanchorNeedsEleven(reports: seq<Report>, r: Report, k: nat)
    requires r.day.Some? && k < 10
    requires var s := AfterReports(INITIAL, reports);
             Anchor(s, r.metrics, r.day.value, r.twoHours).1 != LoadIndex(r.metrics, r.day.value)
    ensures CalmPositive(AfterReports(INITIAL, reports), r)
    ensures k < |ReadableOnes(reports)|
    ensures var rs := ReadableOnes(reports);
            var n := |rs| - 1 - k;
            CalmPositive(AfterReports(INITIAL, rs[..n]), rs[n])
  {
    ReanchorIsCalm(AfterReports(INITIAL, reports), r);
    DeviationCountsReadable(reports, k);
  }

  /** Report i of these is calm and positive where it comes, with a two-hour baseline to be had. */
  predicate CalmAt(s: State, reports: seq<Report>, i: nat)
    requires i < |reports|
  {
    CalmPositive(AfterReports(s, reports[..i]), reports[i]) && reports[i].twoHours.Some?
  }

  ghost predicate CalmAllAlong(s: State, reports: seq<Report>) {
    forall i: nat :: i < |reports| ==> CalmAt(s, reports, i)
  }

  /** The report is judged by the two-hour baseline, and the count starts again. */
  predicate JudgedByTwoHours(s: State, r: Report) {
    && r.day.Some? && r.twoHours.Some?
    && var (s', idx) := Anchor(s, r.metrics, r.day.value, r.twoHours);
       idx == LoadIndex(r.metrics, r.twoHours.value) && s'.deviation == 0
  }

  predicate JudgedByDay(s: State, r: Report) {
    && r.day.Some?
    && var (s', idx) := Anchor(s, r.metrics, r.day.value, r.twoHours);
       idx == LoadIndex(r.metrics, r.day.value) && s'.deviation == s.deviation + 1
  }

  function NextCount(deviation: nat): nat {
    if deviation >= 10 then 0 else deviation + 1
  }

  lemma NextCountCycles(n: nat)
    ensures NextCount(n % 11) == (n + 1) % 11
  {
  }

  lemma CalmReportJudged(s: State, r: Report)
    requires CalmPositive(s, r) && r.twoHours.Some?
    ensures if s.deviation >= 10 then JudgedByTwoHours(s, r) else JudgedByDay(s, r)
    ensures Evaluate(s, r.metrics, r.day, r.twoHours).0.deviation == NextCount(s.deviation)
  {
    var (anchored, idx) := Anchor(s, r.metrics, r.day.value, r.twoHours);
    DecideIgnoresDeviation(anchored, idx, anchored.deviation);
  }

  lemma {:induction false} CalmReportCounted(s: State, reports: seq<Report>, i: nat)
    requires i < |reports| && CalmAt(s, reports, i)
    ensures AfterReports(s, reports[..i + 1]).deviation == NextCount(AfterReports(s, reports[..i]).deviation)
  {
    assert reports[..i + 1][..i] == reports[..i];
    CalmReportJudged(AfterReports(s, reports[..i]), reports[i]);
  }

  lemma {:induction false} CalmReportsCount(s: State, reports: seq<Report>, n: nat)
    requires s.deviation == 0 && CalmAllAlong(s, reports) && n <= |reports|
    ensures AfterReports(s, reports[..n]).deviation == n % 11
    decreases n
  {
    if n > 0 {
      CalmReportsCount(s, reports, n - 1);
      assert CalmAt(s, reports, n - 1);
      CalmReportCounted(s, reports, n - 1);
      NextCountCycles(n - 1);
    }
  }

  lemma BreakResetsCount(s: State, r: Report)
    requires r.day.Some? && !CalmPositive(s, r)
    ensures Evaluate(s, r.metrics, r.day, r.twoHours).0.deviation == 0
  {
    var (anchored, idx) := Anchor(s, r.metrics, r.day.value, r.twoHours);
    DecideIgnoresDeviation(anchored, idx, anchored.deviation);
  }

  /**
   Baseline shift detection does happen: after a report that is not calm and positive, or at the start, every
   eleventh of the calm positive reports that follow back to back, with a two-hour baseline to be had, is
   judged by that baseline, and the others by the one-day baseline.
   */
  lemma {:induction false} EveryEleventhReanchors(before: seq<Report>, calm: seq<Report>, i: nat)
    requires before != [] ==>
               var init, last := before[..|before| - 1], before[|before| - 1];
               last.day.Some? && !CalmPositive(AfterReports(INITIAL, init), last)
    requires CalmAllAlong(AfterReports(INITIAL, before), calm) && i < |calm|
    ensures var s := AfterReports(AfterReports(INITIAL, before), calm[..i]);
            if i % 11 == 10 then JudgedByTwoHours(s, calm[i]) else JudgedByDay(s, calm[i])
  {
    var s := AfterReports(INITIAL, before);
    if before != [] {
      BreakResetsCount(AfterReports(INITIAL, before[..|before| - 1]), before[|before| - 1]);
    }
    assert CalmAt(s, calm, i);
    CalmReportsCount(s, calm, i);
    CalmReportJudged(AfterReports(s, calm[..i]), calm[i]);
  }

  // ---- sustained load, from raw reports ----

  predicate AtLeast(reports: seq<Report>, bar: real) {
    forall i :: 0 <= i < |reports| ==> reports[i].day.Some? && LoadIndex(reports[i].metrics, reports[i].day.value) >= bar
  }

  /** Reports above the lowest band are judged by the one-day baseline. */
  lemma {:induction false} HighReportsKeepBar(s: State, reports: seq<Report>, bar: real)
    requires AtLeast(reports, bar) && bar > 30.0
    ensures |EffectiveIndices(s, reports)| == |reports|
    ensures forall i :: 0 <= i < |reports| ==> EffectiveIndices(s, reports)[i] >= bar
  {
    if reports != [] {
      var init, last := reports[..|reports| - 1], reports[|reports| - 1];
      HighReportsKeepBar(s, init, bar);
      AnchorKeepsIndex(AfterReports(s, init), last.metrics, last.day.value, last.twoHours);
    }
  }

  lemma {:induction false} ReportsSettle(reports: seq<Report>)
    ensures Settled(AfterReports(INITIAL, reports))
  {
    ReportsAreIndices(INITIAL, reports);
    RunsStaySettled(INITIAL, EffectiveIndices(INITIAL, reports));
  }

  lemma {:induction false} EffectivePrefix(s: State, reports: seq<Report>, n: nat, bar: real)
    requires n <= |reports| && AtLeast(reports, bar) && bar > 30.0
    ensures |EffectiveIndices(s, reports)| == |reports|
    ensures EffectiveIndices(s, reports[..n]) == EffectiveIndices(s, reports)[..n]
    decreases |reports|
  {
    HighReportsKeepBar(s, reports, bar);
    HighReportsKeepBar(s, reports[..n], bar);
    if n < |reports| {
      var init := reports[..|reports| - 1];
      EffectivePrefix(s, init, n, bar);
      HighReportsKeepBar(s, init, bar);
      assert reports[..n] == init[..n];
    } else {
      assert reports[..n] == reports;
    }
  }

  /**
   Whatever was reported before, three readable reports whose measured load is at least 10 above the
   band raise the level within those three: the re-anchored baseline cannot hide them.
   */
  lemma {:induction false} SustainedReportsRaise(before: seq<Report>, reports: seq<Report>)
    requires |reports| == 3 && AfterReports(INITIAL, before).level < 4
    requires AtLeast(reports, BandTop(AfterReports(INITIAL, before).level) + 10.0)
    ensures var s := AfterReports(INITIAL, before);
            || AfterReports(s, reports[..1]).level > s.level
            || AfterReports(s, reports[..2]).level > s.level
            || AfterReports(s, reports).level > s.level
  {
    var s := AfterReports(INITIAL, before);
    var bar, idx := BandTop(s.level) + 10.0, EffectiveIndices(s, reports);
    ReportsSettle(before);
    HighReportsKeepBar(s, reports, bar);
    EffectivePrefix(s, reports, 1, bar);
    EffectivePrefix(s, reports, 2, bar);
    ReportsAreIndices(s, reports[..1]);
    ReportsAreIndices(s, reports[..2]);
    ReportsAreIndices(s, reports);
    assert idx == [idx[0], idx[1], idx[2]] && idx[..1] == [idx[0]] && idx[..2] == [idx[0], idx[1]];
    SustainedLoadRaises(s, idx[0], idx[1], idx[2]);
  }
}
