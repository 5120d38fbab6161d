/** The agent's 10-second loop: read the counters, match rules, write blocks and rate limits back. */
module Agent {
  import opened Word
  import opened TokenBucket
  import opened Kernel
  import opened Rules
  import opened RuleStoreModel

  /** What the agent reports about one address for one tick. */
  datatype ClientStat = ClientStat(
    reqPerSec: int, blocked: bool, rateLimited: bool, passed: int, avgUs: int, minUs: int, maxUs: int)

  /** The kernel's and the loop's knowledge of one address. */
  datatype IpView = IpView(kernel: KernelView, prev: u64, wasBlocked: bool, active: Option<int>)

  const FRESH := IpView(UNSEEN, 0, false, None)

  /** Reading an absent key of activeRateLimits gives 0. */
  function Limit(active: Option<int>): int {
    match active
    case None => 0
    case Some(t) => t
  }

  function Diff(v: IpView): u64
    requires v.kernel.stats.Some?
  {
    Wrap(v.kernel.stats.value.count - v.prev)
  }

  function ReqPerSec(v: IpView): int
    requires v.kernel.stats.Some?
  {
    TruncDiv(ToInt(Diff(v)), 10)
  }

  /** The enforcement branches, given the current and the previous blocked flag and the matched rule. */
  function Act(v: IpView, isBlocked: bool, wasBlocked: bool, rule: Option<Rule>, now: u64): IpView {
    if IsAction(rule, Block) then
      v.(kernel := v.kernel.(blockedUntil := Some(BlockEnd(now, rule.value.duration))))
    else if isBlocked || wasBlocked then v
    else if IsAction(rule, RateLimit) then
      if Limit(v.active) == rule.value.threshold then v
      else v.(kernel := v.kernel.(rate := Some(Wrap(rule.value.threshold))), active := Some(rule.value.threshold))
    else if Limit(v.active) != 0 then
      v.(kernel := v.kernel.(rate := None, bucket := None), active := None)
    else v
  }

  lemma ActKeepsReadings(v: IpView, isBlocked: bool, wasBlocked: bool, rule: Option<Rule>, now: u64)
    ensures var v' := Act(v, isBlocked, wasBlocked, rule, now);
            && v'.prev == v.prev && v'.wasBlocked == v.wasBlocked
            && v'.kernel.stats == v.kernel.stats && v'.kernel.latency == v.kernel.latency
            && v'.kernel.bypass == v.kernel.bypass
  {
  }

  /** One visit to a counted address: remember the counter and the blocked flag, then act on the matched rule. */
  function React(v: IpView, now: u64, rule: Option<Rule>): IpView
    requires v.kernel.stats.Some?
  {
    var isBlocked := Live(v.kernel.blockedUntil, now);
    Act(v.(prev := v.kernel.stats.value.count, wasBlocked := isBlocked), isBlocked, v.wasBlocked, rule, now)
  }

  /** The reported record; a missing latency entry reports zeros. */
  function Report(diff: u64, isBlocked: bool, active: Option<int>, latency: Option<Latency>): ClientStat {
    var (avg, min, max) := match latency
      case None => (0, 0, 0)
      case Some(l) => (AvgLatencyUs(l), MinLatencyUs(l), MaxLatencyUs(l));
    ClientStat(TruncDiv(ToInt(diff), 10), isBlocked, Limit(active) != 0, ToInt(diff), avg, min, max)
  }

  function Stat(v: IpView, v': IpView): ClientStat
    requires v.kernel.stats.Some?
  {
    Report(Diff(v), v'.wasBlocked, v'.active, v.kernel.latency)
  }

  /** One tick for one address, for one order of visiting the rules; addresses the kernel never counted are not visited. */
  function TickStep(v: IpView, now: u64, visited: seq<Rule>): IpView {
    if v.kernel.stats == None then v else React(v, now, MatchIn(visited, ReqPerSec(v)))
  }

  class Enforcer {
    const program: PolicyProgram
    const store: RuleStore
    var prevCounts: map<Ip, u64>
    var prevBlocked: map<Ip, bool>
    var activeRateLimits: map<Ip, int>

    constructor (program: PolicyProgram, store: RuleStore)
      ensures this.program == program && this.store == store
      ensures forall ip :: View(ip) == IpView(program.View(ip), 0, false, None)
    {
      this.program, this.store := program, store;
      prevCounts, prevBlocked, activeRateLimits := map[], map[], map[];
    }

    function View(ip: Ip): IpView
      reads this, program
    {
      IpView(
        program.View(ip),
        if ip in prevCounts then prevCounts[ip] else 0,
        ip in prevBlocked && prevBlocked[ip],
        Get(activeRateLimits, ip))
    }

    method Enforce(ip: Ip, isBlocked: bool, wasBlocked: bool, rule: Option<Rule>, now: u64)
      modifies this`activeRateLimits, program
      ensures View(ip) == Act(old(View(ip)), isBlocked, wasBlocked, rule, now)
      ensures forall other :: other != ip ==> View(other) == old(View(other))
      ensures program.requestCount == old(program.requestCount) && program.latencyMap == old(program.latencyMap)
    {
      var limit := if ip in activeRateLimits then activeRateLimits[ip] else 0;
      if isBlocked {
        if rule.Some? && rule.value.action == Block {
          program.BlockIP(ip, rule.value.duration, now);
        }
      } else if wasBlocked {
        if rule.Some? && rule.value.action == Block {
          program.BlockIP(ip, rule.value.duration, now);
        }
      } else if rule.Some? && rule.value.action == Block {
        program.BlockIP(ip, rule.value.duration, now);
      } else if rule.Some? && rule.value.action == RateLimit {
        if limit != rule.value.threshold {
          program.SetRateLimit(ip, Wrap(rule.value.threshold));
          activeRateLimits := activeRateLimits[ip := rule.value.threshold];
        }
      } else if limit != 0 {
        program.RemoveRateLimit(ip);
        activeRateLimits := activeRateLimits - {ip};
      }
    }

    /** Reads the counter and the block list, and remembers both for the next tick. */
    method Observe(ip: Ip, count: u64, now: u64) returns (diff: u64, isBlocked: bool, wasBlocked: bool)
      modifies this`prevCounts, this`prevBlocked
      ensures diff == Wrap(count - old(View(ip)).prev)
      ensures isBlocked == Live(old(View(ip)).kernel.blockedUntil, now) && wasBlocked == old(View(ip)).wasBlocked
      ensures View(ip) == old(View(ip)).(prev := count, wasBlocked := isBlocked)
      ensures forall other :: other != ip ==> View(other) == old(View(other))
    {
      var prev: int := if ip in prevCounts then prevCounts[ip] else 0;
      diff := Wrap(count - prev);
      prevCounts := prevCounts[ip := count];
      isBlocked := program.IsBlocked(ip, now);
      wasBlocked := ip in prevBlocked && prevBlocked[ip];
      prevBlocked := prevBlocked[ip := isBlocked];
    }

    /** The loop body for one address. */
    method TickOne(ip: Ip, count: u64, now: u64) returns (stat: ClientStat, ghost visited: seq<Rule>)
      requires ip in program.requestCount && program.requestCount[ip].count == count
      modifies this, program
      ensures program.requestCount == old(program.requestCount)
      ensures IsListing(visited, store.rules)
      ensures View(ip) == TickStep(old(View(ip)), now, visited)
      ensures stat == Stat(old(View(ip)), View(ip))
      ensures forall other :: other != ip ==> View(other) == old(View(other))
    {
      ghost var v := View(ip);
      assert v.kernel.stats.Some? && v.kernel.stats.value.count == count;
      var diff, isBlocked, wasBlocked := Observe(ip, count, now);
      assert diff == Diff(v);
      var rule;
      rule, visited := store.Match(TruncDiv(ToInt(diff), 10));
      Enforce(ip, isBlocked, wasBlocked, rule, now);
      assert View(ip) == React(v, now, rule);
      ActKeepsReadings(v.(prev := count, wasBlocked := isBlocked), isBlocked, wasBlocked, rule, now);
      stat := Report(diff, isBlocked, Get(activeRateLimits, ip), Get(program.latencyMap, ip));
    }

    /** One tick: every counted address takes one step, every other address stays as it was. */
    method Tick(now: u64) returns (stats: map<Ip, ClientStat>, ghost orders: map<Ip, seq<Rule>>)
      modifies this, program
      ensures stats.Keys == orders.Keys == old(program.requestCount).Keys
      ensures forall ip :: ip in orders ==>
        && IsListing(orders[ip], store.rules)
        && View(ip) == TickStep(old(View(ip)), now, orders[ip])
        && stats[ip] == Stat(old(View(ip)), View(ip))
      ensures forall ip :: ip !in orders ==> View(ip) == old(View(ip))
    {
      var counts := program.requestCount;
      var remaining := counts.Keys;
      stats, orders := map[], map[];
      while remaining != {}
        invariant remaining <= counts.Keys
        invariant program.requestCount == counts
        invariant stats.Keys == orders.Keys == counts.Keys - remaining
        invariant forall ip :: ip in orders ==>
          && IsListing(orders[ip], store.rules)
          && View(ip) == TickStep(old(View(ip)), now, orders[ip])
          && stats[ip] == Stat(old(View(ip)), View(ip))
        invariant forall ip :: ip !in orders ==> View(ip) == old(View(ip))
        decreases remaining
      {
        ghost var _ := Member(remaining);
        var ip: Ip :| ip in remaining;
        ghost var visited;
        var stat;
        stat, visited := TickOne(ip, counts[ip].count, now);
        stats, orders := stats[ip := stat], orders[ip := visited];
        remaining := remaining - {ip};
      }
    }
  }
}
