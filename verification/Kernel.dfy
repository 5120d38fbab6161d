/** The BPF maps, the XDP program that runs per packet, and the agent's helpers that read and write the maps. */
module Kernel {
  import opened Word
  import opened TokenBucket

  type Ip = x: int | 0 <= x < 0x1_0000_0000
  type Port = x: int | 0 <= x < 0x1_0000

  datatype IpStats = IpStats(count: u64, lastSeen: u64)
  datatype Latency = Latency(total: u64, packets: u64, min: u64, max: u64)

  /** Everything the maps hold about one source address. */
  datatype KernelView = KernelView(
    stats: Option<IpStats>,
    blockedUntil: Option<u64>,
    bucket: Option<Bucket>,
    latency: Option<Latency>,
    rate: Option<u64>,
    bypass: Option<u64>)

  const UNSEEN := KernelView(None, None, None, None, None, None)

  function Get<K, V>(m: map<K, V>, k: K): Option<V> {
    if k in m then Some(m[k]) else None
  }

  predicate Live(blockedUntil: Option<u64>, now: u64) {
    blockedUntil.Some? && blockedUntil.value > now
  }

  function Counted(stats: Option<IpStats>, now: u64): IpStats {
    match stats
    case None => IpStats(1, now)
    case Some(s) => IpStats(Wrap(s.count + 1), now)
  }

  function Timed(latency: Option<Latency>, ns: u64): Latency {
    match latency
    case None => Latency(ns, 1, ns, ns)
    case Some(l) => Latency(
      Wrap(l.total + ns),
      Wrap(l.packets + 1),
      if ns < l.min then ns else l.min,
      if ns > l.max then ns else l.max)
  }

  /** The maps after enforcement of one packet to a protected port, before its latency is recorded. */
  function Enforce(v: KernelView, now: u64): (KernelView, Verdict) {
    if v.bypass.Some? then (v.(stats := Some(Counted(v.stats, now))), Pass)
    else if Live(v.blockedUntil, now) then (v, Drop)
    else
      var counted := v.(stats := Some(Counted(v.stats, now)));
      match v.rate
      case None => (counted, Pass)
      case Some(rate) =>
        var (bucket, verdict) := Admit(v.bucket, rate, now);
        (counted.(bucket := Some(bucket)), verdict)
  }

  /** One packet to a protected port; the three times are the program's three clock readings. */
  function FilterStep(v: KernelView, start: u64, now: u64, end: u64): (KernelView, Verdict) {
    var (v', verdict) := Enforce(v, now);
    (v'.(latency := Some(Timed(v'.latency, Wrap(end - start)))), verdict)
  }

  /** Expiry of a block of the given whole seconds: int64 nanoseconds added to the clock as a 64-bit word. */
  function BlockEnd(now: u64, seconds: int): u64 {
    Wrap(now + seconds * NS)
  }

  // ---- reported latencies: Go int64 arithmetic ----

  function AvgLatencyUs(l: Latency): int {
    if l.packets == 0 then 0
    else if ToInt(l.packets) > 0 then TruncDiv(TruncDiv(ToInt(l.total), ToInt(l.packets)), 1000)
    else TruncDiv(-TruncDiv(ToInt(l.total), -ToInt(l.packets)), 1000)
  }

  function MinLatencyUs(l: Latency): int {
    TruncDiv(ToInt(l.min), 1000)
  }

  function MaxLatencyUs(l: Latency): int {
    TruncDiv(ToInt(l.max), 1000)
  }

  class PolicyProgram {
    var requestCount: map<Ip, IpStats>
    var blockList: map<Ip, u64>
    var rateLimitMap: map<Ip, Bucket>
    var latencyMap: map<Ip, Latency>
    var rateLimitConfig: map<Ip, u64>
    var protectedPorts: set<Port>
    var bypassList: map<Ip, u64>

    constructor ()
      ensures protectedPorts == {} && forall ip :: View(ip) == UNSEEN
    {
      requestCount, blockList, rateLimitMap, latencyMap := map[], map[], map[], map[];
      rateLimitConfig, protectedPorts, bypassList := map[], {}, map[];
    }

    function View(ip: Ip): KernelView
      reads this
    {
      KernelView(
        Get(requestCount, ip), Get(blockList, ip), Get(rateLimitMap, ip),
        Get(latencyMap, ip), Get(rateLimitConfig, ip), Get(bypassList, ip))
    }

    method CheckRateLimit(src: Ip, now: u64) returns (verdict: Verdict)
      modifies this`rateLimitMap
      ensures src !in rateLimitConfig ==> verdict == Pass && rateLimitMap == old(rateLimitMap)
      ensures src in rateLimitConfig ==>
                var (bucket, admitted) := Admit(Get(old(rateLimitMap), src), rateLimitConfig[src], now);
                rateLimitMap == old(rateLimitMap)[src := bucket] && verdict == admitted
    {
      if src !in rateLimitConfig { return Pass; }
      var rate := rateLimitConfig[src];
      var burst := Burst(rate);
      if src !in rateLimitMap {
        rateLimitMap := rateLimitMap[src := Bucket(Wrap(burst as int - 1), now)];
        return Pass;
      }
      var state := rateLimitMap[src];
      var newTokens := Earned(state, rate, now);
      if newTokens > 0 {
        var tokens := Wrap(state.tokens + newTokens);
        if tokens > burst { tokens := burst; }
        state := Bucket(tokens, now);
      }
      verdict := Drop;
      if state.tokens > 0 {
        state := state.(tokens := state.tokens - 1);
        verdict := Pass;
      }
      rateLimitMap := rateLimitMap[src := state];
    }

    method UpdateLatency(src: Ip, ns: u64)
      modifies this`latencyMap
      ensures latencyMap == old(latencyMap)[src := Timed(Get(old(latencyMap), src), ns)]
    {
      if src !in latencyMap {
        latencyMap := latencyMap[src := Latency(ns, 1, ns, ns)];
        return;
      }
      var stats := latencyMap[src];
      stats := stats.(total := Wrap(stats.total + ns), packets := Wrap(stats.packets + 1));
      if ns < stats.min { stats := stats.(min := ns); }
      if ns > stats.max { stats := stats.(max := ns); }
      latencyMap := latencyMap[src := stats];
    }

    method Count(src: Ip, now: u64)
      modifies this`requestCount
      ensures requestCount == old(requestCount)[src := Counted(Get(old(requestCount), src), now)]
    {
      if src in requestCount {
        requestCount := requestCount[src := IpStats(Wrap(requestCount[src].count + 1), now)];
      } else {
        requestCount := requestCount[src := IpStats(1, now)];
      }
    }

    /** One TCP or UDP packet, already parsed. It touches the maps of its own source only. */
    method PolicyFilter(src: Ip, port: Port, start: u64, now: u64, end: u64) returns (action: Verdict)
      modifies this
      ensures protectedPorts == old(protectedPorts)
      ensures port !in protectedPorts ==> action == Pass && View(src) == old(View(src))
      ensures port in protectedPorts ==> (View(src), action) == FilterStep(old(View(src)), start, now, end)
      ensures forall ip :: ip != src ==> View(ip) == old(View(ip))
    {
      if port !in protectedPorts { return Pass; }
      action := Pass;
      if src in bypassList {
        Count(src, now);
      } else if src in blockList && blockList[src] > now {
        action := Drop;
      } else {
        Count(src, now);
        action := CheckRateLimit(src, now);
      }
      UpdateLatency(src, Wrap(end - start));
    }

    method BlockIP(ip: Ip, seconds: int, now: u64)
      modifies this`blockList
      ensures blockList == old(blockList)[ip := BlockEnd(now, seconds)]
    {
      blockList := blockList[ip := Wrap(now + seconds * NS)];
    }

    method IsBlocked(ip: Ip, now: u64) returns (blocked: bool)
      ensures blocked <==> Live(View(ip).blockedUntil, now)
    {
      blocked := ip in blockList && now < blockList[ip];
    }

    method SetRateLimit(ip: Ip, ratePerSec: u64)
      modifies this`rateLimitConfig
      ensures rateLimitConfig == old(rateLimitConfig)[ip := ratePerSec]
    {
      rateLimitConfig := rateLimitConfig[ip := ratePerSec];
    }

    /** Drops the configured rate and the bucket, so a later limit starts with a full burst. */
    method RemoveRateLimit(ip: Ip)
      modifies this`rateLimitConfig, this`rateLimitMap
      ensures rateLimitConfig == old(rateLimitConfig) - {ip} && rateLimitMap == old(rateLimitMap) - {ip}
    {
      rateLimitConfig, rateLimitMap := rateLimitConfig - {ip}, rateLimitMap - {ip};
    }

    method AddToBypassList(ip: Ip, now: u64)
      modifies this`bypassList
      ensures bypassList == old(bypassList)[ip := now]
    {
      bypassList := bypassList[ip := now];
    }

    method RemoveFromBypassList(ip: Ip)
      modifies this`bypassList
      ensures bypassList == old(bypassList) - {ip}
    {
      bypassList := bypassList - {ip};
    }
  }
}
