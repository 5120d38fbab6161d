/** The adaptive scaler: a load index from four z-scores drives a five-level rate limit with hysteresis. */
module Scaler {
  import opened Word

  /** Rolling mean and standard deviation of one resource; both are aggregates of non-negative columns. */
  datatype BaselineStat = BaselineStat(mean: Amount, stddev: Amount)

  datatype Baseline = Baseline(cpu: BaselineStat, memory: BaselineStat, disk: BaselineStat, network: BaselineStat)

  /** One system report; network is bytes sent plus received. */
  datatype Metrics = Metrics(cpu: Amount, memory: Amount, disk: Amount, network: Amount)

  type Level = l: int | 0 <= l <= 4
  type ActiveLevel = l: int | 1 <= l <= 4 witness 1

  function IndexToLevel(idx: real): Level {
    if idx <= 30.0 then 0
    else if idx <= 50.0 then 1
    else if idx <= 70.0 then 2
    else if idx <= 90.0 then 3
    else 4
  }

  /** The highest index still in a level's band. */
  function BandTop(level: Level): real {
    30.0 + 20.0 * level as real
  }

  function LevelRateLimit(level: ActiveLevel): nat {
    match level
    case 1 => 400
    case 2 => 200
    case 3 => 100
    case _ => 50
  }

  /** BandTop names the bands: an index is within a level exactly between the tops of the level below and its own. */
  lemma BandsPartition(idx: real, level: Level)
    ensures IndexToLevel(idx) <= level <==> idx <= BandTop(level) || level == 4
  {
  }

  const MIN_CV_FLOOR := 0.10

  /** The standard deviation used as divisor: never under ten percent of the mean. */
  function Spread(b: BaselineStat): real {
    if b.stddev < b.mean * MIN_CV_FLOOR then b.mean * MIN_CV_FLOOR else b.stddev
  }

  function ZScore(value: real, b: BaselineStat): real {
    if b.mean == 0.0 then 0.0
    else
      SpreadPositive(b);
      (value - b.mean) / Spread(b)
  }

  lemma SpreadPositive(b: BaselineStat)
    requires b.mean != 0.0
    ensures Spread(b) >= b.mean * MIN_CV_FLOOR > 0.0
  {
  }

  function Pos(x: real): real {
    if x < 0.0 then 0.0 else x
  }

  function ComputeLoadIndex(zCpu: real, zMem: real, zDisk: real, zNet: real): real {
    var idx := Pos(zCpu) * 25.0 + Pos(zMem) * 25.0 + Pos(zDisk) * 25.0 + Pos(zNet) * 25.0;
    if idx > 100.0 then 100.0 else idx
  }

  function LoadIndex(m: Metrics, b: Baseline): real {
    ComputeLoadIndex(ZScore(m.cpu, b.cpu), ZScore(m.memory, b.memory), ZScore(m.disk, b.disk), ZScore(m.network, b.network))
  }

  // ---- detector arithmetic ----

  lemma ZScoreMonotone(v1: real, v2: real, b: BaselineStat)
    requires v1 <= v2
    ensures ZScore(v1, b) <= ZScore(v2, b)
  {
    if b.mean != 0.0 {
      SpreadPositive(b);
      DivMonotone(v1 - b.mean, v2 - b.mean, Spread(b));
    }
  }

  lemma DivMonotone(x: real, y: real, d: real)
    requires d > 0.0 && x <= y
    ensures x / d <= y / d
  {
    assert y / d - x / d == (y - x) / d;
  }

  predicate NoLess(m1: Metrics, m2: Metrics) {
    m1.cpu <= m2.cpu && m1.memory <= m2.memory && m1.disk <= m2.disk && m1.network <= m2.network
  }

  /** More load on any resource never lowers the level. */
  lemma LevelMonotone(m1: Metrics, m2: Metrics, b: Baseline)
    requires NoLess(m1, m2)
    ensures LoadIndex(m1, b) <= LoadIndex(m2, b)
    ensures IndexToLevel(LoadIndex(m1, b)) <= IndexToLevel(LoadIndex(m2, b))
  {
    ZScoreMonotone(m1.cpu, m2.cpu, b.cpu);
    ZScoreMonotone(m1.memory, m2.memory, b.memory);
    ZScoreMonotone(m1.disk, m2.disk, b.disk);
    ZScoreMonotone(m1.network, m2.network, b.network);
  }

  /** More load never gets a looser limit, and a stricter one exactly in a higher band: half for the next band, from 400 on. */
  lemma MoreLoadNeverLooser(m1: Metrics, m2: Metrics, b: Baseline)
    requires NoLess(m1, m2) && IndexToLevel(LoadIndex(m1, b)) > 0
    ensures var level1, level2 := IndexToLevel(LoadIndex(m1, b)), IndexToLevel(LoadIndex(m2, b));
            && level2 > 0
            && LevelRateLimit(level2) <= LevelRateLimit(level1)
            && (LevelRateLimit(level2) == LevelRateLimit(level1) <==> level2 == level1)
            && (level1 == 1 ==> LevelRateLimit(level1) == 400)
            && (level2 == level1 + 1 ==> LevelRateLimit(level1) == 2 * LevelRateLimit(level2))
  {
    LevelMonotone(m1, m2, b);
  }

  /** By which fraction of its mean a resource is over its baseline; 0 without a baseline. */
  function Excess(value: real, b: BaselineStat): real {
    if b.mean == 0.0 then 0.0 else Pos((value - b.mean) / b.mean)
  }

  lemma ZScoreWithinTenfoldExcess(value: real, b: BaselineStat)
    ensures 0.0 <= Pos(ZScore(value, b)) <= 10.0 * Excess(value, b)
  {
    if b.mean != 0.0 && value > b.mean {
      SpreadPositive(b);
      var over, s := value - b.mean, Spread(b);
      var z, e := over / s, over / b.mean;
      assert z * s == over && e * b.mean == over;
      assert z >= 0.0;
      assert z * (b.mean * 0.1) <= z * s;
      assert (10.0 * e - z) * (b.mean * 0.1) >= 0.0;
      NonNegativeFactor(10.0 * e - z, b.mean * 0.1);
    } else if b.mean != 0.0 {
      SpreadPositive(b);
      DivMonotone(value - b.mean, 0.0, Spread(b));
    }
  }

  lemma NonNegativeFactor(x: real, d: real)
    requires d > 0.0 && x * d >= 0.0
    ensures x >= 0.0
  {
  }

  /** The scaler leaves level 0 only when the resources together exceed their baselines by more than 12 percent. */
  lemma RaisedLevelMeansExcess(m: Metrics, b: Baseline)
    requires IndexToLevel(LoadIndex(m, b)) > 0
    ensures Excess(m.cpu, b.cpu) + Excess(m.memory, b.memory) + Excess(m.disk, b.disk) + Excess(m.network, b.network) > 0.12
  {
    ZScoreWithinTenfoldExcess(m.cpu, b.cpu);
    ZScoreWithinTenfoldExcess(m.memory, b.memory);
    ZScoreWithinTenfoldExcess(m.disk, b.disk);
    ZScoreWithinTenfoldExcess(m.network, b.network);
  }

  // ---- what every resource adds to the index ----

  function Capped(x: real): real {
    if x > 100.0 then 100.0 else x
  }

  /** The index of one resource alone. */
  function ResourceIndex(value: real, b: BaselineStat): real {
    Capped(25.0 * Pos(ZScore(value, b)))
  }

  /** The value is over its mean by so many standard deviations, and by so many tenths of the mean. */
  predicate OverBy(value: real, b: BaselineStat, deviations: real) {
    && b.mean != 0.0
    && value - b.mean >= deviations * b.stddev
    && value - b.mean >= deviations * (b.mean * 0.1)
  }

  /** The index is the capped sum of the indices of the four resources. */
  lemma IndexIsCappedSum(m: Metrics, b: Baseline)
    ensures LoadIndex(m, b) == Capped(
              ResourceIndex(m.cpu, b.cpu) + ResourceIndex(m.memory, b.memory)
              + ResourceIndex(m.disk, b.disk) + ResourceIndex(m.network, b.network))
  {
  }

  lemma QuotientAtLeastIff(x: real, d: real, bound: real)
    requires d > 0.0
    ensures x / d >= bound <==> x >= bound * d
  {
    var q := x / d;
    assert q * d == x;
    if q >= bound { assert (q - bound) * d >= 0.0; } else { assert (bound - q) * d > 0.0; }
  }

  lemma SpreadAtLeastIff(x: real, b: BaselineStat, deviations: real)
    requires deviations > 0.0
    ensures x >= deviations * Spread(b) <==> x >= deviations * b.stddev && x >= deviations * (b.mean * 0.1)
  {
    if b.stddev < b.mean * 0.1 {
      assert deviations * (b.mean * 0.1 - b.stddev) > 0.0;
    } else {
      assert deviations * (b.stddev - b.mean * 0.1) >= 0.0;
    }
  }

  /**
   The index of a resource reaches 25 for every deviation it is over its mean, the deviation being never
   less than a tenth of the mean; at or under its mean, or without a mean, it adds nothing.
   */
  lemma ResourceIndexIff(value: real, b: BaselineStat, deviations: real)
    requires 0.0 < deviations <= 4.0
    ensures ResourceIndex(value, b) >= 25.0 * deviations <==> OverBy(value, b, deviations)
    ensures value <= b.mean || b.mean == 0.0 ==> ResourceIndex(value, b) == 0.0
  {
    if b.mean != 0.0 {
      SpreadPositive(b);
      QuotientAtLeastIff(value - b.mean, Spread(b), deviations);
      SpreadAtLeastIff(value - b.mean, b, deviations);
      if value <= b.mean {
        DivMonotone(value - b.mean, 0.0, Spread(b));
      }
    }
  }

  /**
   Load on any one resource raises the index, 25 for every deviation up to 100; more than 1.2 deviations of
   one resource leave the lowest band, whatever the others do.
   */
  lemma AnyResourceRaises(m: Metrics, b: Baseline, deviations: real)
    requires 0.0 < deviations <= 4.0
    requires || OverBy(m.cpu, b.cpu, deviations) || OverBy(m.memory, b.memory, deviations)
             || OverBy(m.disk, b.disk, deviations) || OverBy(m.network, b.network, deviations)
    ensures LoadIndex(m, b) >= 25.0 * deviations
    ensures deviations > 1.2 ==> IndexToLevel(LoadIndex(m, b)) > 0
  {
    IndexIsCappedSum(m, b);
    ResourceIndexIff(m.cpu, b.cpu, deviations);
    ResourceIndexIff(m.memory, b.memory, deviations);
    ResourceIndexIff(m.disk, b.disk, deviations);
    ResourceIndexIff(m.network, b.network, deviations);
    assert ResourceIndex(m.cpu, b.cpu) >= 0.0 && ResourceIndex(m.memory, b.memory) >= 0.0;
    assert ResourceIndex(m.disk, b.disk) >= 0.0 && ResourceIndex(m.network, b.network) >= 0.0;
  }

  // ---- the controller ----

  datatype State = State(
    level: Level,
    stable: nat,
    escalation: nat,
    deviation: nat,
    lastIndex: real)

  const INITIAL := State(0, 0, 0, 0, 0.0)

  /** What one report makes the server publish. */
  datatype Publication = Nothing | Limit(level: ActiveLevel) | Cleared

  function Distance(x: real, y: real): real {
    if x >= y then x - y else y - x
  }

  /** Hysteresis and oscillation protection for one effective load index. */
  function Decide(s: State, idx: real): (State, Publication) {
    var target := IndexToLevel(idx);
    var (s', candidate) :=
      if target > s.level then
        if s.escalation + 1 < 3 then (s.(escalation := s.escalation + 1), s.level)
        else (s.(escalation := 0, stable := 0), target)
      else if target < s.level then
        var stable := if s.stable < 2 then s.stable + 1 else s.stable;
        (s.(escalation := 0, stable := stable), if stable >= 2 then s.level - 1 else s.level)
      else (s.(escalation := 0, stable := 0), s.level);
    if candidate == s.level then (s', Nothing)
    else if candidate > 0 && Distance(idx, s.lastIndex) < 10.0 then (s', Nothing)
    else
      (s'.(level := candidate, lastIndex := idx, stable := if candidate < s.level then 0 else s'.stable),
       if candidate > 0 then Limit(candidate) else Cleared)
  }

  /** The index the report is judged by, after a possible re-anchoring to the two-hour baseline. */
  function Anchor(s: State, m: Metrics, day: Baseline, twoHours: Option<Baseline>): (State, real) {
    var idx := LoadIndex(m, day);
    if s.level == 0 && IndexToLevel(idx) == 0 then
      var deviation := if idx > 0.0 then s.deviation + 1 else 0;
      if deviation > 10 && twoHours.Some? then (s.(deviation := 0), LoadIndex(m, twoHours.value))
      else (s.(deviation := deviation), idx)
    else (s.(deviation := 0), idx)
  }

  /** ProcessAdaptive: a failed baseline query skips the report. */
  function Evaluate(s: State, m: Metrics, day: Option<Baseline>, twoHours: Option<Baseline>): (State, Publication) {
    if day == None then (s, Nothing)
    else
      var (s', idx) := Anchor(s, m, day.value, twoHours);
      Decide(s', idx)
  }

  class AgentState {
    var loadIndex: real
    var activeRuleLevel: Level
    var stableCount: nat
    var escalationCount: nat
    var deviationCount: nat
    var lastPublishedIndex: real
    var published: seq<Publication>

    constructor ()
      ensures Value() == INITIAL && published == []
    {
      loadIndex, activeRuleLevel, lastPublishedIndex := 0.0, 0, 0.0;
      stableCount, escalationCount, deviationCount, published := 0, 0, 0, [];
    }

    function Value(): State
      reads this
    {
      State(activeRuleLevel, stableCount, escalationCount, deviationCount, lastPublishedIndex)
    }

    /** The baseline-shift detection: counts calm reports with a positive index and re-anchors after ten. */
    method Reanchor(m: Metrics, day: Baseline, twoHours: Option<Baseline>) returns (idx: real)
      modifies this`deviationCount
      ensures (Value(), idx) == Anchor(old(Value()), m, day, twoHours)
    {
      idx := LoadIndex(m, day);
      if activeRuleLevel == 0 && IndexToLevel(idx) == 0 {
        if idx > 0.0 {
          deviationCount := deviationCount + 1;
        } else {
          deviationCount := 0;
        }
        if deviationCount > 10 && twoHours.Some? {
          idx := LoadIndex(m, twoHours.value);
          deviationCount := 0;
        }
      } else {
        deviationCount := 0;
      }
    }

    method ProcessAdaptive(m: Metrics, day: Option<Baseline>, twoHours: Option<Baseline>)
      modifies this
      ensures Value() == Evaluate(old(Value()), m, day, twoHours).0
      ensures var publication := Evaluate(old(Value()), m, day, twoHours).1;
              published == old(published) + if publication == Nothing then [] else [publication]
      ensures day.Some? ==> loadIndex == Anchor(old(Value()), m, day.value, twoHours).1
    {
      if day == None { return; }
      var idx := Reanchor(m, day.value, twoHours);
      loadIndex := idx;
      var target := IndexToLevel(idx);
      var candidate := activeRuleLevel;
      if target > activeRuleLevel {
        escalationCount := escalationCount + 1;
        if escalationCount >= 3 {
          escalationCount := 0;
          candidate := target;
          stableCount := 0;
        }
      } else if target < activeRuleLevel {
        escalationCount := 0;
        if stableCount < 2 { stableCount := stableCount + 1; }
        if stableCount >= 2 { candidate := activeRuleLevel - 1; }
      } else {
        escalationCount, stableCount := 0, 0;
      }
      if candidate == activeRuleLevel { return; }
      if candidate > 0 && Distance(idx, lastPublishedIndex) < 10.0 { return; }
      var previous := activeRuleLevel;
      published := published + [if candidate > 0 then Limit(candidate) else Cleared];
      activeRuleLevel, lastPublishedIndex := candidate, idx;
      if candidate < previous { stableCount := 0; }
    }
  }
}
