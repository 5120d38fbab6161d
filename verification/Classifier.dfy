/** The server's per-address classifier and the bypass list it keeps in step at an agent. */
module Classifier {
  import opened Word
  import opened Rules

  const MIN_BASE_SAMPLES := 18
  const MIN_TRUSTED_SAMPLES := 360
  const MAX_CV := 0.5
  const Z_TRUST := 1.5
  const Z_SUSPICIOUS := 3.0
  const Z_BLOCK := 5.0
  const MIN_CV_FLOOR := 0.10

  datatype Baseline = Baseline(samples: nat, mean: Amount, stddev: Amount, current: Amount)

  datatype Category = Unknown | Normal | Trusted | Suspicious

  datatype Action = NoChange | WhitelistAdd | WhitelistRemove | Limit(rate: nat) | BlockIt

  function Abs(x: real): Amount {
    if x < 0.0 then -x else x
  }

  function Spread(bl: Baseline): Amount {
    if bl.stddev < bl.mean * MIN_CV_FLOOR then bl.mean * MIN_CV_FLOOR else bl.stddev
  }

  /** The distance of the current rate from the mean, up or down, in floored standard deviations. */
  function ZScore(bl: Baseline): real {
    if bl.mean == 0.0 then 0.0
    else
      SpreadPositive(bl);
      Abs(bl.current - bl.mean) / Spread(bl)
  }

  lemma SpreadPositive(bl: Baseline)
    requires bl.mean != 0.0
    ensures Spread(bl) >= bl.mean * MIN_CV_FLOOR > 0.0
  {
  }

  function Cv(bl: Baseline): real {
    if bl.mean == 0.0 then 0.0 else bl.stddev / bl.mean
  }

  function Ceil(x: real): int {
    -((-x).Floor)
  }

  function Cap(bl: Baseline, z: real): nat {
    var cap := Ceil(bl.mean * (if z < 4.0 then 1.5 else 0.8));
    if cap < 1 then 1 else cap
  }

  function Decide(bl: Baseline, wasWhitelisted: bool): (Category, Action) {
    var z := ZScore(bl);
    if bl.samples < MIN_BASE_SAMPLES then (Unknown, NoChange)
    else if z >= Z_BLOCK then (Suspicious, BlockIt)
    else if z >= Z_SUSPICIOUS then (Suspicious, if wasWhitelisted then WhitelistRemove else Limit(Cap(bl, z)))
    else if bl.samples >= MIN_TRUSTED_SAMPLES && z <= Z_TRUST && Cv(bl) <= MAX_CV then
      (Trusted, if wasWhitelisted then NoChange else WhitelistAdd)
    else (Normal, if wasWhitelisted then WhitelistRemove else NoChange)
  }

  // ---- detector arithmetic ----

  /** Comparing the z-score with a bound is comparing the deviation with that many spreads. */
  lemma ZBound(bl: Baseline, bound: real)
    requires bl.mean > 0.0
    ensures Spread(bl) > 0.0
    ensures ZScore(bl) >= bound <==> Abs(bl.current - bl.mean) >= bound * Spread(bl)
    ensures ZScore(bl) <= bound <==> Abs(bl.current - bl.mean) <= bound * Spread(bl)
  {
    SpreadPositive(bl);
    QuotientBound(Abs(bl.current - bl.mean), Spread(bl), bound);
  }

  lemma QuotientBound(x: real, d: real, bound: real)
    requires d > 0.0
    ensures x / d >= bound <==> x >= bound * d
    ensures x / d <= bound <==> x <= bound * d
  {
    var q := x / d;
    assert q * d == x;
    if q >= bound { assert (q - bound) * d >= 0.0; } else { assert (bound - q) * d > 0.0; }
    if q <= bound { assert (bound - q) * d >= 0.0; } else { assert (q - bound) * d > 0.0; }
  }

  /** A trusted verdict pins the current rate to within three quarters of the mean. */
  lemma TrustedMeansClose(bl: Baseline, wasWhitelisted: bool)
    requires bl.mean > 0.0 && Decide(bl, wasWhitelisted).0 == Trusted
    ensures 0.25 * bl.mean <= bl.current <= 1.75 * bl.mean
  {
    ZBound(bl, Z_TRUST);
    QuotientBound(bl.stddev, bl.mean, MAX_CV);
  }

  /** A deviation under thirty percent of the mean is never suspicious, however steady the history. */
  lemma SmallDeviationNotSuspicious(bl: Baseline, wasWhitelisted: bool)
    requires bl.mean > 0.0 && Abs(bl.current - bl.mean) < 0.3 * bl.mean
    ensures Decide(bl, wasWhitelisted).0 != Suspicious
  {
    ZBound(bl, Z_SUSPICIOUS);
    ZBound(bl, Z_BLOCK);
    SpreadPositive(bl);
  }

  /** The z-score is two-sided: an address that falls silent is suspicious exactly when its history was steady. */
  lemma SilenceIsSuspiciousIff(bl: Baseline, wasWhitelisted: bool)
    requires bl.samples >= MIN_BASE_SAMPLES && bl.mean > 0.0 && bl.current == 0.0
    ensures Decide(bl, wasWhitelisted).0 == Suspicious <==> 3.0 * Spread(bl) <= bl.mean
  {
    ZBound(bl, Z_SUSPICIOUS);
  }

  /** The cap is the scaled mean rounded up, and never 0; the tight cap is no looser than the lenient one. */
  lemma CapRoundsUp(bl: Baseline, z: real)
    ensures var scaled := bl.mean * (if z < 4.0 then 1.5 else 0.8);
            scaled <= Cap(bl, z) as real && (Cap(bl, z) == 1 || Cap(bl, z) as real < scaled + 1.0)
    ensures 1 <= Cap(bl, 4.0) <= Cap(bl, 3.0)
  {
  }

  /** The current rate is off the mean by so many standard deviations, and by so many tenths of the mean. */
  predicate OffBy(bl: Baseline, deviations: real) {
    && bl.mean > 0.0
    && Abs(bl.current - bl.mean) >= deviations * bl.stddev
    && Abs(bl.current - bl.mean) >= deviations * (bl.mean * 0.1)
  }

  /** Off the mean by at most one and a half such deviations, in a history that varies by at most half the mean. */
  predicate Steady(bl: Baseline) {
    bl.mean > 0.0 ==>
      && (Abs(bl.current - bl.mean) <= 1.5 * bl.stddev || Abs(bl.current - bl.mean) <= 1.5 * (bl.mean * 0.1))
      && bl.stddev <= 0.5 * bl.mean
  }

  lemma OffByIff(bl: Baseline, deviations: real)
    requires deviations > 0.0
    ensures ZScore(bl) >= deviations <==> OffBy(bl, deviations)
  {
    if bl.mean > 0.0 {
      ZBound(bl, deviations);
      if bl.stddev < bl.mean * 0.1 {
        assert deviations * (bl.mean * 0.1 - bl.stddev) > 0.0;
      } else {
        assert deviations * (bl.stddev - bl.mean * 0.1) >= 0.0;
      }
    }
  }

  lemma SteadyIff(bl: Baseline)
    ensures ZScore(bl) <= 1.5 && Cv(bl) <= 0.5 <==> Steady(bl)
  {
    if bl.mean > 0.0 {
      ZBound(bl, 1.5);
      QuotientBound(bl.stddev, bl.mean, 0.5);
    }
  }

  /** Which verdict a baseline gets, from its numbers. */
  function Verdict(bl: Baseline): Category {
    if bl.samples < 18 then Unknown
    else if OffBy(bl, 3.0) then Suspicious
    else if bl.samples >= 360 && Steady(bl) then Trusted
    else Normal
  }

  lemma DecideIsVerdict(bl: Baseline, wasWhitelisted: bool)
    ensures Decide(bl, wasWhitelisted).0 == Verdict(bl)
  {
    OffByIff(bl, 5.0);
    OffByIff(bl, 3.0);
    SteadyIff(bl);
  }

  // ---- the state machine of one address ----

  datatype Row = Row(category: Category, whitelisted: bool)

  datatype Notice = Add | Remove | Enforce(rule: Rule)

  const CLASSIFIER_ID: int := -2

  function LimitRule(ip: string, rate: nat): Rule {
    Rule(CLASSIFIER_ID, "classifier-ratelimit", rate, Rules.RateLimit, 0, ip)
  }

  function BlockRule(ip: string): Rule {
    Rule(CLASSIFIER_ID, "classifier-block", 0, Rules.Block, 60, ip)
  }

  function WasWhitelisted(row: Option<Row>): bool {
    row.Some? && row.value.whitelisted
  }

  /** upsertClassification: an unknown verdict keeps the flag, every other verdict sets it. */
  function Upserted(category: Category, whitelisted: bool): Row {
    Row(category, if category == Trusted then true else if category == Unknown then whitelisted else false)
  }

  /** One classification cycle for one address: its new row and what is published. */
  function Cycle(ip: string, row: Option<Row>, bl: Option<Baseline>): (Option<Row>, Option<Notice>) {
    if bl == None then (row, None)
    else
      var was := WasWhitelisted(row);
      var (category, action) := Decide(bl.value, was);
      var upserted := Upserted(category, was);
      if row.Some? && row.value.category == category then (Some(upserted), None)
      else
        match action
        case NoChange => (Some(upserted), None)
        case WhitelistAdd => (Some(upserted.(whitelisted := true)), Some(Add))
        case WhitelistRemove =>
          if was then (Some(upserted.(whitelisted := false)), Some(Remove)) else (Some(upserted), None)
        case Limit(rate) => (Some(upserted), Some(Enforce(LimitRule(ip, rate))))
        case BlockIt => (Some(upserted), Some(Enforce(BlockRule(ip))))
  }

  /** The least integer of at least 1 that is not below x. */
  predicate LeastCap(n: nat, x: real) {
    n >= 1 && n as real >= x && (n == 1 || (n - 1) as real < x)
  }

  /** A rule for this address only, under the classifier's ID. */
  predicate RuleFor(r: Rule, ip: string, action: Rules.Action) {
    r.id == CLASSIFIER_ID && r.topic == ip && r.action == action
  }

  predicate Enforces(notice: Option<Notice>, ip: string, action: Rules.Action) {
    notice.Some? && notice.value.Enforce? && RuleFor(notice.value.rule, ip, action)
  }

  /**
   What one cycle publishes and stores, for every row and baseline. A block of 60 seconds, exactly when the
   samples suffice, the rate is off by 5 deviations and the category was not suspicious. A rate limit, exactly
   when it is off by 3 but not by 5 and the address was neither flagged nor suspicious: the mean, scaled by
   1.5 under 4 deviations and by 0.8 from there, rounded up. An addition, exactly when the verdict becomes
   trusted without the flag; a removal, exactly when it becomes suspicious, short of a block, or normal with it.
   */
  lemma CyclePublishes(ip: string, row: Option<Row>, bl: Baseline)
    ensures var (row', notice) := Cycle(ip, row, Some(bl));
            var was, verdict := WasWhitelisted(row), Verdict(bl);
            var changed := !(row.Some? && row.value.category == verdict);
            && row'.Some? && row'.value.category == verdict
            && row'.value.whitelisted == (if verdict == Trusted then true else if verdict == Unknown then was else false)
            && (Enforces(notice, ip, Rules.Block) <==> changed && bl.samples >= 18 && OffBy(bl, 5.0))
            && (Enforces(notice, ip, Rules.Block) ==> notice.value.rule.threshold == 0 && notice.value.rule.duration == 60)
            && (Enforces(notice, ip, Rules.RateLimit) <==>
                  changed && bl.samples >= 18 && OffBy(bl, 3.0) && !OffBy(bl, 5.0) && !was)
            && (Enforces(notice, ip, Rules.RateLimit) ==>
                  LeastCap(notice.value.rule.threshold, bl.mean * (if OffBy(bl, 4.0) then 0.8 else 1.5)))
            && (notice.Some? && notice.value.Enforce? ==>
                  Enforces(notice, ip, Rules.Block) || Enforces(notice, ip, Rules.RateLimit))
            && (notice == Some(Add) <==> changed && verdict == Trusted && !was)
            && (notice == Some(Remove) <==>
                  changed && was && (verdict == Normal || (verdict == Suspicious && !OffBy(bl, 5.0))))
  {
    DecideIsVerdict(bl, WasWhitelisted(row));
    OffByIff(bl, 5.0);
    OffByIff(bl, 4.0);
    OffByIff(bl, 3.0);
  }

  class Engine {
    var rows: map<string, Row>
    var notices: seq<(string, Notice)>

    constructor ()
      ensures rows == map[] && notices == []
    {
      rows, notices := map[], [];
    }

    function RowOf(ip: string): Option<Row>
      reads this
    {
      if ip in rows then Some(rows[ip]) else None
    }

    /** bl is None when the baseline query fails. */
    method ClassifyIP(ip: string, bl: Option<Baseline>)
      modifies this
      ensures var (row, notice) := Cycle(ip, old(RowOf(ip)), bl);
              && RowOf(ip) == row
              && notices == old(notices) + (if notice.Some? then [(ip, notice.value)] else [])
      ensures forall other :: other != ip ==> RowOf(other) == old(RowOf(other))
    {
      if bl == None { return; }
      var seen := ip in rows;
      var prevCategory := if seen then rows[ip].category else Unknown;
      var wasWhitelisted := seen && rows[ip].whitelisted;
      var (category, action) := Decide(bl.value, wasWhitelisted);
      var flag := wasWhitelisted;
      if category == Trusted {
        flag := true;
      } else if category == Suspicious || category == Normal {
        flag := false;
      }
      rows := rows[ip := Row(category, flag)];
      if seen && category == prevCategory { return; }
      match action {
        case NoChange =>
        case WhitelistAdd =>
          notices := notices + [(ip, Add)];
          rows := rows[ip := Row(category, true)];
        case WhitelistRemove =>
          if wasWhitelisted {
            notices := notices + [(ip, Remove)];
            rows := rows[ip := Row(category, false)];
          }
        case Limit(rate) =>
          notices := notices + [(ip, Enforce(LimitRule(ip, rate)))];
        case BlockIt =>
          notices := notices + [(ip, Enforce(BlockRule(ip)))];
      }
    }
  }

  // ---- the bypass list of an agent that has seen the address ----

  datatype Event =
    | Evaluate(bl: Option<Baseline>)
    | Deliver
    | Restart

  /** pending are undelivered whitelist notices, true for an addition; sent are all of them. */
  datatype Address = Address(row: Option<Row>, bypass: bool, pending: seq<bool>, sent: seq<bool>, leaked: bool)

  const START := Address(None, false, [], [], false)

  /** A blocking verdict on a whitelisted address: the flag is cleared but no removal is published. */
  predicate Leaks(a: Address, e: Event) {
    e.Evaluate? && e.bl.Some? && WasWhitelisted(a.row) && Decide(e.bl.value, true).1 == BlockIt
  }

  function News(notice: Option<Notice>): seq<bool> {
    match notice
    case Some(Add) => [true]
    case Some(Remove) => [false]
    case _ => []
  }

  function Record(a: Address, row: Option<Row>, news: seq<bool>, leaks: bool): Address {
    a.(row := row, pending := a.pending + news, sent := a.sent + news, leaked := leaks || (a.leaked && news == []))
  }

  /** A restarted agent starts with empty maps and seeds the bypass list from the flagged rows. */
  function Step(ip: string, a: Address, e: Event): Address {
    match e
    case Evaluate(bl) =>
      var (row, notice) := Cycle(ip, a.row, bl);
      Record(a, row, News(notice), Leaks(a, e))
    case Deliver =>
      if a.pending == [] then a else a.(bypass := a.pending[0], pending := a.pending[1..])
    case Restart => a.(bypass := WasWhitelisted(a.row), pending := [], leaked := false)
  }

  /** Whether the address bypasses enforcement once the agent has handled every pending notice. */
  function Bypassed(a: Address): bool {
    if a.pending == [] then a.bypass else a.pending[|a.pending| - 1]
  }

  predicate RowSound(row: Option<Row>) {
    row.Some? ==>
      && (row.value.category == Trusted ==> row.value.whitelisted)
      && (row.value.whitelisted ==> row.value.category == Trusted || row.value.category == Unknown)
  }

  /** A cycle announces every change of the flag, except the one a blocking verdict makes. */
  lemma CycleAnnounces(ip: string, a: Address, bl: Option<Baseline>)
    requires RowSound(a.row)
    ensures var (row, notice) := Cycle(ip, a.row, bl);
            var was, flag, leaks := WasWhitelisted(a.row), WasWhitelisted(row), Leaks(a, Evaluate(bl));
            && RowSound(row)
            && News(notice) == (if was == flag || leaks then [] else [flag])
            && (leaks ==> was && !flag)
  {
  }

  predicate Consistent(a: Address) {
    var flag := WasWhitelisted(a.row);
    && RowSound(a.row)
    && (Bypassed(a) <==> flag || a.leaked)
    && !(flag && a.leaked)
    && (forall i :: 0 <= i < |a.sent| && !a.sent[i] ==> i > 0 && a.sent[i - 1])
    && (flag ==> a.sent != [] && a.sent[|a.sent| - 1])
  }

  lemma {:induction false} RecordConsistent(a: Address, row: Option<Row>, news: seq<bool>, leaks: bool)
    requires Consistent(a) && RowSound(row)
    requires var was, flag := WasWhitelisted(a.row), WasWhitelisted(row);
             && news == (if was == flag || leaks then [] else [flag])
             && (leaks ==> was && !flag)
    ensures Consistent(Record(a, row, news, leaks))
  {
  }

  lemma StepConsistent(ip: string, a: Address, e: Event)
    requires Consistent(a)
    ensures Consistent(Step(ip, a, e))
  {
    if e.Evaluate? {
      CycleAnnounces(ip, a, e.bl);
      var (row, notice) := Cycle(ip, a.row, e.bl);
      RecordConsistent(a, row, News(notice), Leaks(a, e));
    }
  }

  /** Additions and removals in turn, starting with an addition; an odd number so far exactly when flagged. */
  predicate InTurn(a: Address) {
    && !a.leaked
    && WasWhitelisted(a.row) == (|a.sent| % 2 == 1)
    && forall i :: 0 <= i < |a.sent| ==> a.sent[i] == (i % 2 == 0)
  }

  lemma StepInTurn(ip: string, a: Address, e: Event)
    requires Consistent(a) && InTurn(a) && !Leaks(a, e)
    ensures InTurn(Step(ip, a, e))
  {
    if e.Evaluate? {
      CycleAnnounces(ip, a, e.bl);
    }
  }

  function Run(ip: string, events: seq<Event>): Address {
    if events == [] then START
    else Step(ip, Run(ip, events[..|events| - 1]), events[|events| - 1])
  }

  /**
   Over every run: trusted means whitelisted, whitelisted means trusted or unknown and bypassed, a
   removal always follows an addition, and the bypass list differs from the flag exactly after a
   blocking verdict on a whitelisted address that no later addition or restart has repaired.
   */
  lemma {:induction false} BypassFollowsFlag(ip: string, events: seq<Event>)
    ensures Consistent(Run(ip, events))
    ensures (Bypassed(Run(ip, events)) == WasWhitelisted(Run(ip, events).row)) <==> !Run(ip, events).leaked
  {
    if events != [] {
      BypassFollowsFlag(ip, events[..|events| - 1]);
      StepConsistent(ip, Run(ip, events[..|events| - 1]), events[|events| - 1]);
    }
  }

  const STEADY := Baseline(360, 100.0, 0.0, 100.0)
  const SPIKE := Baseline(360, 100.0, 0.0, 150.0)

  /** A run that leaks: a steady address is whitelisted, and its jump by half takes the flag away but not the bypass. */
  lemma LeakIsReached(ip: string)
    ensures var a := Run(ip, [Evaluate(Some(STEADY)), Deliver, Evaluate(Some(SPIKE))]);
            && a.bypass && a.pending == [] && a.leaked
            && a.row == Some(Row(Suspicious, false)) && a.sent == [true]
  {
    ZBound(STEADY, Z_TRUST);
    ZBound(SPIKE, Z_BLOCK);
    assert Decide(STEADY, false) == (Trusted, WhitelistAdd);
    assert Decide(SPIKE, true) == (Suspicious, BlockIt);
    var e1, e3 := Evaluate(Some(STEADY)), Evaluate(Some(SPIKE));
    var events := [e1, Deliver, e3];
    assert events[..2] == [e1, Deliver] && [e1, Deliver][..1] == [e1] && [e1][..0] == [];
    assert Run(ip, []) == START;
    assert Run(ip, [e1]) == Address(Some(Row(Trusted, true)), false, [true], [true], false);
    assert Run(ip, [e1, Deliver]) == Address(Some(Row(Trusted, true)), true, [], [true], false);
  }

  predicate LeakFree(ip: string, events: seq<Event>) {
    forall n :: 0 <= n < |events| ==> !Leaks(Run(ip, events[..n]), events[n])
  }

  /** Without such a verdict the two sets are equal and additions and removals strictly alternate. */
  lemma {:induction false} LeakFreeAlternates(ip: string, events: seq<Event>)
    requires LeakFree(ip, events)
    ensures InTurn(Run(ip, events))
    ensures Bypassed(Run(ip, events)) == WasWhitelisted(Run(ip, events).row)
  {
    BypassFollowsFlag(ip, events);
    if events != [] {
      var init := events[..|events| - 1];
      assert forall n :: 0 <= n < |init| ==> init[..n] == events[..n] && init[n] == events[n];
      LeakFreeAlternates(ip, init);
      BypassFollowsFlag(ip, init);
      StepInTurn(ip, Run(ip, init), events[|events| - 1]);
    }
  }

  /** A blocking verdict is published exactly when the address was not suspicious already. */
  lemma BlockPublishedIff(ip: string, a: Address, bl: Baseline)
    requires bl.samples >= MIN_BASE_SAMPLES && ZScore(bl) >= Z_BLOCK
    ensures Cycle(ip, a.row, Some(bl)).1 == Some(Enforce(BlockRule(ip)))
        <==> !(a.row.Some? && a.row.value.category == Suspicious)
  {
  }

  function Cycles(ip: string, row: Option<Row>, bls: seq<Baseline>): Option<Row> {
    if bls == [] then row else Cycle(ip, Cycles(ip, row, bls[..|bls| - 1]), Some(bls[|bls| - 1])).0
  }

  /** Once suspicious, an address that stays so gets no further rule, however far its rate climbs. */
  lemma {:induction false} SuspicionNeverEscalates(ip: string, row: Option<Row>, bls: seq<Baseline>, next: Baseline)
    requires row.Some? && row.value.category == Suspicious
    requires forall i :: 0 <= i < |bls| ==> bls[i].samples >= MIN_BASE_SAMPLES && ZScore(bls[i]) >= Z_SUSPICIOUS
    requires next.samples >= MIN_BASE_SAMPLES && ZScore(next) >= Z_SUSPICIOUS
    ensures Cycles(ip, row, bls).Some? && Cycles(ip, row, bls).value.category == Suspicious
    ensures Cycle(ip, Cycles(ip, row, bls), Some(next)).1 == None
    decreases bls
  {
    if bls != [] {
      SuspicionNeverEscalates(ip, row, bls[..|bls| - 1], bls[|bls| - 1]);
    }
  }

  /**
   In a store, the rule meant for one address makes every address with traffic match a block, exactly
   unless the first exceeded rule is spelled "ratelimit".
   */
  lemma {:induction false} BlockRuleMatchesEveryAddress(ip: string, visited: seq<Rule>, reqPerSec: int)
    requires BlockRule(ip) in visited && reqPerSec > 0
    ensures IsAction(MatchIn(visited, reqPerSec), Rules.Block)
        <==> !IsAction(FirstExceeded(visited, reqPerSec), Ratelimit)
  {
    assert Exceeded(BlockRule(ip), reqPerSec);
    BlockMatchedIff(visited, reqPerSec);
  }
}
