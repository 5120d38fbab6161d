/** Policy rules and the choice Match makes among them, for every iteration order of the rule map. */
module Rules {
  import opened Word

  /**
   The action string of a rule. The API documents "block" and "rate_limit" but stores any string;
   Ratelimit is the spelling "ratelimit" that Match tests for, Other every remaining string.
   */
  datatype Action = Block | RateLimit | Ratelimit | Other(spelling: string)

  /** models.PolicyRule without its creation time, which no modelled decision reads. */
  datatype Rule = Rule(id: int, name: string, threshold: int, action: Action, duration: int, topic: string)

  type RuleMap = map<int, Rule>

  /** The rules of the map in one of its iteration orders: every key is visited once. */
  ghost predicate IsListing(visited: seq<Rule>, rules: RuleMap)
    decreases |visited|
  {
    if visited == [] then rules == map[]
    else
      var last := |visited| - 1;
      exists id :: id in rules && rules[id] == visited[last] && IsListing(visited[..last], rules - {id})
  }

  lemma {:induction false} ListingSnoc(visited: seq<Rule>, rules: RuleMap, id: int)
    requires id in rules && IsListing(visited, rules - {id})
    ensures IsListing(visited + [rules[id]], rules)
  {
    assert (visited + [rules[id]])[..|visited|] == visited;
  }

  lemma {:induction false} ListingCons(visited: seq<Rule>, rules: RuleMap, id: int)
    requires id in rules && IsListing(visited, rules - {id})
    ensures IsListing([rules[id]] + visited, rules)
    decreases |visited|
  {
    if visited == [] {
      assert [rules[id]] + visited == [] + [rules[id]];
      ListingSnoc([], rules, id);
    } else {
      var last := |visited| - 1;
      var k :| k in rules - {id} && rules[k] == visited[last] && IsListing(visited[..last], rules - {id} - {k});
      assert rules - {id} - {k} == rules - {k} - {id};
      ListingCons(visited[..last], rules - {k}, id);
      ListingSnoc([rules[id]] + visited[..last], rules, k);
      assert [rules[id]] + visited == ([rules[id]] + visited[..last]) + [rules[k]];
    }
  }

  /** Every map can be iterated over. */
  lemma SomeListing(rules: RuleMap) returns (visited: seq<Rule>)
    ensures IsListing(visited, rules)
    decreases rules.Keys
  {
    if rules.Keys == {} {
      visited := [];
    } else {
      var id := Member(rules.Keys);
      visited := SomeListing(rules - {id});
      ListingSnoc(visited, rules, id);
      visited := visited + [rules[id]];
    }
  }

  lemma {:induction false} ListingHasExactly(visited: seq<Rule>, rules: RuleMap)
    requires IsListing(visited, rules)
    ensures forall id :: id in rules ==> rules[id] in visited
    ensures forall r :: r in visited ==> exists id :: id in rules && rules[id] == r
    decreases |visited|
  {
    if visited != [] {
      var last := |visited| - 1;
      var k :| k in rules && rules[k] == visited[last] && IsListing(visited[..last], rules - {k});
      ListingHasExactly(visited[..last], rules - {k});
      assert visited == visited[..last] + [visited[last]];
      forall id | id in rules ensures rules[id] in visited {
        if id != k {
          assert (rules - {k})[id] in visited[..last];
        }
      }
      forall r | r in visited ensures exists id :: id in rules && rules[id] == r {
        if r in visited[..last] {
          var id :| id in rules - {k} && (rules - {k})[id] == r;
          assert id in rules && rules[id] == r;
        }
      }
    }
  }

  predicate Exceeded(rule: Rule, reqPerSec: int) {
    reqPerSec > rule.threshold
  }

  /** The loop body of Match. */
  function Better(best: Option<Rule>, rule: Rule, reqPerSec: int): Option<Rule> {
    if !Exceeded(rule, reqPerSec) then best
    else if best == None then Some(rule)
    else if rule.action == Block && best.value.action != Ratelimit then Some(rule)
    else if rule.action == best.value.action && rule.threshold > best.value.threshold then Some(rule)
    else best
  }

  /** The best rule after visiting the rules in order. */
  function MatchIn(visited: seq<Rule>, reqPerSec: int): Option<Rule> {
    if visited == [] then None
    else Better(MatchIn(visited[..|visited| - 1], reqPerSec), visited[|visited| - 1], reqPerSec)
  }

  lemma {:induction false} MatchSnoc(visited: seq<Rule>, rule: Rule, reqPerSec: int)
    ensures MatchIn(visited + [rule], reqPerSec) == Better(MatchIn(visited, reqPerSec), rule, reqPerSec)
  {
    assert (visited + [rule])[..|visited|] == visited;
  }

  predicate IsAction(rule: Option<Rule>, action: Action) {
    rule.Some? && rule.value.action == action
  }

  lemma MatchSingle(rule: Rule, reqPerSec: int)
    ensures MatchIn([rule], reqPerSec) == if Exceeded(rule, reqPerSec) then Some(rule) else None
  {
    assert [rule] == [] + [rule];
    MatchSnoc([], rule, reqPerSec);
  }

  /** Some rule with this action is exceeded. */
  ghost predicate Triggered(visited: seq<Rule>, action: Action, reqPerSec: int) {
    exists r :: r in visited && r.action == action && Exceeded(r, reqPerSec)
  }

  /** Every exceeded rule has one of the two documented actions. */
  ghost predicate ExceededKnown(visited: seq<Rule>, reqPerSec: int) {
    forall r :: r in visited && Exceeded(r, reqPerSec) ==> r.action == Block || r.action == RateLimit
  }

  /** The first visited rule that is exceeded. */
  function FirstExceeded(visited: seq<Rule>, reqPerSec: int): Option<Rule> {
    if visited == [] then None
    else
      var first, last := FirstExceeded(visited[..|visited| - 1], reqPerSec), visited[|visited| - 1];
      if first == None && Exceeded(last, reqPerSec) then Some(last) else first
  }

  /** Some block is exceeded, and the first exceeded rule is not spelled "ratelimit". */
  ghost predicate BlockDecides(visited: seq<Rule>, reqPerSec: int) {
    Triggered(visited, Block, reqPerSec) && !IsAction(FirstExceeded(visited, reqPerSec), Ratelimit)
  }

  /** m has this action, is exceeded, and no exceeded rule with this action has a higher threshold. */
  ghost predicate HighestOf(m: Option<Rule>, action: Action, visited: seq<Rule>, reqPerSec: int) {
    && IsAction(m, action) && m.value in visited && Exceeded(m.value, reqPerSec)
    && forall r :: r in visited && r.action == action && Exceeded(r, reqPerSec) ==> r.threshold <= m.value.threshold
  }

  /** Position k holds the first of the exceeded rules with this action that have the highest threshold. */
  predicate FirstHighestAt(visited: seq<Rule>, k: int, action: Action, reqPerSec: int) {
    && 0 <= k < |visited| && visited[k].action == action && Exceeded(visited[k], reqPerSec)
    && (forall i :: 0 <= i < |visited| && visited[i].action == action && Exceeded(visited[i], reqPerSec) ==>
          visited[i].threshold <= visited[k].threshold)
    && (forall i :: 0 <= i < k && visited[i].action == action && Exceeded(visited[i], reqPerSec) ==>
          visited[i].threshold < visited[k].threshold)
  }

  /** Position k holds the last exceeded block. */
  predicate LastBlockAt(visited: seq<Rule>, k: int, reqPerSec: int) {
    && 0 <= k < |visited| && visited[k].action == Block && Exceeded(visited[k], reqPerSec)
    && forall i :: k < i < |visited| && visited[i].action == Block ==> !Exceeded(visited[i], reqPerSec)
  }

  /** The result is always a visited rule whose threshold is exceeded, and nil only when there is none. */
  lemma {:induction false} MatchFindsExceeded(visited: seq<Rule>, reqPerSec: int)
    ensures var m, first := MatchIn(visited, reqPerSec), FirstExceeded(visited, reqPerSec);
            && (m.Some? ==> m.value in visited && Exceeded(m.value, reqPerSec))
            && (m.None? <==> forall r :: r in visited ==> !Exceeded(r, reqPerSec))
            && (first.Some? ==> first.value in visited && Exceeded(first.value, reqPerSec))
            && (first.None? <==> m.None?)
  {
    if visited != [] {
      var init, last := visited[..|visited| - 1], visited[|visited| - 1];
      assert visited == init + [last];
      MatchFindsExceeded(init, reqPerSec);
    }
  }

  lemma {:induction false} TriggeredSnoc(init: seq<Rule>, last: Rule, action: Action, reqPerSec: int)
    ensures Triggered(init + [last], action, reqPerSec) <==>
              Triggered(init, action, reqPerSec) || (last.action == action && Exceeded(last, reqPerSec))
  {
    assert last in init + [last];
    if Triggered(init, action, reqPerSec) {
      var r :| r in init && r.action == action && Exceeded(r, reqPerSec);
      assert r in init + [last];
    }
  }

  lemma {:induction false} LastBlockSnoc(init: seq<Rule>, last: Rule, k: int, reqPerSec: int)
    ensures LastBlockAt(init + [last], k, reqPerSec) <==>
              if last.action == Block && Exceeded(last, reqPerSec) then k == |init| else LastBlockAt(init, k, reqPerSec)
  {
    var all := init + [last];
    assert all[|init|] == last && forall i :: 0 <= i < |init| ==> all[i] == init[i];
  }

  lemma {:induction false} HighestSnoc(init: seq<Rule>, last: Rule, reqPerSec: int)
    requires var first := FirstExceeded(init + [last], reqPerSec);
             && (init + [last])[..|init|] == init && !BlockDecides(init + [last], reqPerSec) && first.Some?
    requires var first := FirstExceeded(init, reqPerSec);
             first.Some? ==>
               && first.value.action != Block && HighestOf(MatchIn(init, reqPerSec), first.value.action, init, reqPerSec)
               && exists k :: FirstHighestAt(init, k, first.value.action, reqPerSec) && MatchIn(init, reqPerSec) == Some(init[k])
    ensures var all := init + [last];
            var action := FirstExceeded(all, reqPerSec).value.action;
            exists k :: FirstHighestAt(all, k, action, reqPerSec) && MatchIn(all, reqPerSec) == Some(all[k])
  {
    var all, n := init + [last], |init|;
    assert all[n] == last && forall i :: 0 <= i < n ==> all[i] == init[i];
    MatchFindsExceeded(init, reqPerSec);
    TriggeredSnoc(init, last, Block, reqPerSec);
    var first := FirstExceeded(init, reqPerSec);
    if first == None {
      assert forall i :: 0 <= i < n ==> init[i] in init;
      assert FirstHighestAt(all, n, last.action, reqPerSec);
    } else {
      var action := first.value.action;
      var k :| FirstHighestAt(init, k, action, reqPerSec) && MatchIn(init, reqPerSec) == Some(init[k]);
      if last.action == action && Exceeded(last, reqPerSec) && last.threshold > init[k].threshold {
        assert FirstHighestAt(all, n, action, reqPerSec);
      } else {
        assert FirstHighestAt(all, k, action, reqPerSec);
      }
    }
  }

  /**
   Match for any actions and any iteration order. The first exceeded rule fixes the action of the result,
   unless it is not spelled "ratelimit" and some block is exceeded: then the result is the last exceeded
   block. A result that is no block is the first with the highest exceeded threshold of its action.
   */
  lemma {:induction false} MatchOutcome(visited: seq<Rule>, reqPerSec: int)
    ensures var m, first := MatchIn(visited, reqPerSec), FirstExceeded(visited, reqPerSec);
            && (m.Some? <==> first.Some?)
            && (BlockDecides(visited, reqPerSec) ==>
                 exists k :: LastBlockAt(visited, k, reqPerSec) && m == Some(visited[k]))
            && (first.Some? && !BlockDecides(visited, reqPerSec) ==>
                 && first.value.action != Block && HighestOf(m, first.value.action, visited, reqPerSec)
                 && exists k :: FirstHighestAt(visited, k, first.value.action, reqPerSec) && m == Some(visited[k]))
  {
    if visited != [] {
      var init, last := visited[..|visited| - 1], visited[|visited| - 1];
      assert visited == init + [last];
      MatchOutcome(init, reqPerSec);
      MatchFindsExceeded(init, reqPerSec);
      TriggeredSnoc(init, last, Block, reqPerSec);
      if BlockDecides(visited, reqPerSec) {
        if last.action == Block && Exceeded(last, reqPerSec) {
          LastBlockSnoc(init, last, |init|, reqPerSec);
        } else {
          var k :| LastBlockAt(init, k, reqPerSec) && MatchIn(init, reqPerSec) == Some(init[k]);
          LastBlockSnoc(init, last, k, reqPerSec);
        }
      } else if FirstExceeded(visited, reqPerSec).Some? {
        HighestSnoc(init, last, reqPerSec);
      }
    }
  }

  /** The result is a block exactly when a block decides, whatever the other actions are. */
  lemma {:induction false} BlockMatchedIff(visited: seq<Rule>, reqPerSec: int)
    ensures IsAction(MatchIn(visited, reqPerSec), Block) <==> BlockDecides(visited, reqPerSec)
  {
    MatchOutcome(visited, reqPerSec);
  }

  /**
   For every iteration order: nil exactly when no threshold is strictly exceeded, a block rule
   exactly when some block rule is exceeded, and otherwise the highest exceeded threshold.
   */
  lemma {:induction false} MatchMeaning(visited: seq<Rule>, reqPerSec: int)
    requires ExceededKnown(visited, reqPerSec)
    ensures var m := MatchIn(visited, reqPerSec);
            && (m.None? <==> forall r :: r in visited ==> !Exceeded(r, reqPerSec))
            && (m.Some? ==> m.value in visited && Exceeded(m.value, reqPerSec))
            && (IsAction(m, Block) <==> Triggered(visited, Block, reqPerSec))
            && (IsAction(m, RateLimit) ==>
                 forall r :: r in visited && Exceeded(r, reqPerSec) ==>
                   r.action == RateLimit && r.threshold <= m.value.threshold)
  {
    MatchFindsExceeded(visited, reqPerSec);
    MatchOutcome(visited, reqPerSec);
  }

  /** Without an exceeded rule spelled "ratelimit", a block is chosen exactly when one is exceeded. */
  lemma {:induction false} BlockWinsWithoutRatelimit(visited: seq<Rule>, reqPerSec: int)
    requires !Triggered(visited, Ratelimit, reqPerSec)
    ensures IsAction(MatchIn(visited, reqPerSec), Block) <==> Triggered(visited, Block, reqPerSec)
  {
    MatchFindsExceeded(visited, reqPerSec);
    BlockMatchedIff(visited, reqPerSec);
  }

  /** The last exceeded block is the result, whatever its threshold, exactly when the first exceeded rule is not spelled "ratelimit". */
  lemma {:induction false} LastBlockWins(visited: seq<Rule>, k: nat, reqPerSec: int)
    requires LastBlockAt(visited, k, reqPerSec)
    ensures MatchIn(visited, reqPerSec) == Some(visited[k]) <==> !IsAction(FirstExceeded(visited, reqPerSec), Ratelimit)
  {
    MatchOutcome(visited, reqPerSec);
    assert visited[k] in visited;
    if BlockDecides(visited, reqPerSec) {
      var j :| LastBlockAt(visited, j, reqPerSec) && MatchIn(visited, reqPerSec) == Some(visited[j]);
      assert j == k;
    }
  }

  lemma {:induction false} FirstInFront(visited: seq<Rule>, reqPerSec: int)
    requires visited != [] && Exceeded(visited[0], reqPerSec)
    ensures FirstExceeded(visited, reqPerSec) == Some(visited[0])
    decreases |visited|
  {
    var init := visited[..|visited| - 1];
    if init == [] {
      assert FirstExceeded(init, reqPerSec) == None;
    } else {
      FirstInFront(init, reqPerSec);
    }
  }

  ghost predicate SomeExceeded(rules: RuleMap, action: Action, reqPerSec: int) {
    exists id :: id in rules && rules[id].action == action && Exceeded(rules[id], reqPerSec)
  }

  ghost predicate BlocksInEveryOrder(rules: RuleMap, reqPerSec: int) {
    forall visited :: IsListing(visited, rules) ==> Severity(MatchIn(visited, reqPerSec)) == 2
  }

  /** A block beats every other rule, in every iteration order, exactly when no exceeded rule is spelled "ratelimit". */
  lemma BlockBeatsRestIff(rules: RuleMap, reqPerSec: int)
    requires SomeExceeded(rules, Block, reqPerSec)
    ensures BlocksInEveryOrder(rules, reqPerSec) <==> !SomeExceeded(rules, Ratelimit, reqPerSec)
  {
    if SomeExceeded(rules, Ratelimit, reqPerSec) {
      var a :| a in rules && rules[a].action == Ratelimit && Exceeded(rules[a], reqPerSec);
      var visited := FirstRuleDecides(rules, a, reqPerSec);
      assert IsListing(visited, rules) && Severity(MatchIn(visited, reqPerSec)) != 2;
    } else {
      forall visited | IsListing(visited, rules) ensures Severity(MatchIn(visited, reqPerSec)) == 2 {
        BlockInOrder(rules, visited, reqPerSec);
      }
    }
  }

  /** Some iteration order gives the action of this exceeded rule: one that visits it first. */
  lemma FirstRuleDecides(rules: RuleMap, id: int, reqPerSec: int) returns (visited: seq<Rule>)
    requires id in rules && Exceeded(rules[id], reqPerSec)
    requires rules[id].action == Ratelimit || rules[id].action == Block || !SomeExceeded(rules, Block, reqPerSec)
    ensures IsListing(visited, rules)
    ensures MatchIn(visited, reqPerSec).Some? && MatchIn(visited, reqPerSec).value.action == rules[id].action
  {
    var rest := SomeListing(rules - {id});
    ListingCons(rest, rules, id);
    visited := [rules[id]] + rest;
    FirstInFront(visited, reqPerSec);
    MatchOutcome(visited, reqPerSec);
    ListingHasExactly(visited, rules);
  }

  lemma {:induction false} BlockInOrder(rules: RuleMap, visited: seq<Rule>, reqPerSec: int)
    requires SomeExceeded(rules, Block, reqPerSec) && !SomeExceeded(rules, Ratelimit, reqPerSec)
    requires IsListing(visited, rules)
    ensures Severity(MatchIn(visited, reqPerSec)) == 2
  {
    ListingHasExactly(visited, rules);
    var b :| b in rules && rules[b].action == Block && Exceeded(rules[b], reqPerSec);
    assert rules[b] in visited;
    BlockWinsWithoutRatelimit(visited, reqPerSec);
  }

  /** The same facts in terms of the map that was iterated over. */
  lemma {:induction false} MatchOverRules(rules: RuleMap, visited: seq<Rule>, reqPerSec: int)
    requires IsListing(visited, rules)
    ensures var m := MatchIn(visited, reqPerSec);
            && (m.None? <==> forall id :: id in rules ==> reqPerSec <= rules[id].threshold)
            && (m.Some? ==> reqPerSec > m.value.threshold && exists id :: id in rules && rules[id] == m.value)
            && (!SomeExceeded(rules, Ratelimit, reqPerSec) ==>
                 ((m.Some? && m.value.action == Block) <==> SomeExceeded(rules, Block, reqPerSec)))
  {
    ListingHasExactly(visited, rules);
    MatchFindsExceeded(visited, reqPerSec);
    if !SomeExceeded(rules, Ratelimit, reqPerSec) {
      BlockWinsWithoutRatelimit(visited, reqPerSec);
    }
    assert MatchIn(visited, reqPerSec).None? ==> forall id :: id in rules ==> !Exceeded(rules[id], reqPerSec);
  }

  ghost predicate OnlyLimitsExceeded(rules: RuleMap, reqPerSec: int) {
    forall id :: id in rules && Exceeded(rules[id], reqPerSec) ==> rules[id].action == RateLimit
  }

  ghost predicate HighestLimitInEveryOrder(rules: RuleMap, reqPerSec: int) {
    forall visited :: IsListing(visited, rules) ==> HighestOf(MatchIn(visited, reqPerSec), RateLimit, visited, reqPerSec)
  }

  /**
   With no exceeded block, the highest exceeded rate limit wins in every iteration order exactly when no
   exceeded rule has an undocumented action: such a rule, visited first, shadows every rate limit.
   */
  lemma HighestLimitWinsIff(rules: RuleMap, reqPerSec: int)
    requires SomeExceeded(rules, RateLimit, reqPerSec) && !SomeExceeded(rules, Block, reqPerSec)
    ensures HighestLimitInEveryOrder(rules, reqPerSec) <==> OnlyLimitsExceeded(rules, reqPerSec)
  {
    if OnlyLimitsExceeded(rules, reqPerSec) {
      forall visited | IsListing(visited, rules) ensures HighestOf(MatchIn(visited, reqPerSec), RateLimit, visited, reqPerSec) {
        LimitInOrder(rules, visited, reqPerSec);
      }
    } else {
      var a :| a in rules && Exceeded(rules[a], reqPerSec) && rules[a].action != RateLimit;
      var visited := FirstRuleDecides(rules, a, reqPerSec);
      assert IsListing(visited, rules) && !HighestOf(MatchIn(visited, reqPerSec), RateLimit, visited, reqPerSec);
    }
  }

  lemma {:induction false} LimitInOrder(rules: RuleMap, visited: seq<Rule>, reqPerSec: int)
    requires SomeExceeded(rules, RateLimit, reqPerSec) && OnlyLimitsExceeded(rules, reqPerSec)
    requires IsListing(visited, rules)
    ensures HighestOf(MatchIn(visited, reqPerSec), RateLimit, visited, reqPerSec)
  {
    ListingHasExactly(visited, rules);
    var a :| a in rules && rules[a].action == RateLimit && Exceeded(rules[a], reqPerSec);
    assert rules[a] in visited;
    MatchMeaning(visited, reqPerSec);
  }

  /** How strictly the agent acts on an outcome: a rule with any other action is treated like none. */
  function Severity(m: Option<Rule>): nat {
    match m
    case None => 0
    case Some(r) => if r.action == Block then 2 else if r.action == RateLimit then 1 else 0
  }

  ghost predicate NeverMilder(rules: RuleMap, rate1: int, rate2: int) {
    forall visited1, visited2 :: IsListing(visited1, rules) && IsListing(visited2, rules) ==>
      Severity(MatchIn(visited1, rate1)) <= Severity(MatchIn(visited2, rate2))
  }

  /** What keeps the stricter outcome at the higher rate: nothing undocumented that could shadow it is exceeded there. */
  ghost predicate NothingShadows(rules: RuleMap, rate1: int, rate2: int) {
    if SomeExceeded(rules, Block, rate1) then !SomeExceeded(rules, Ratelimit, rate2)
    else if !SomeExceeded(rules, RateLimit, rate1) then true
    else if SomeExceeded(rules, Block, rate2) then !SomeExceeded(rules, Ratelimit, rate2)
    else OnlyLimitsExceeded(rules, rate2)
  }

  lemma HighestSeverity(rules: RuleMap, reqPerSec: int) returns (visited: seq<Rule>)
    requires SomeExceeded(rules, Block, reqPerSec) || SomeExceeded(rules, RateLimit, reqPerSec)
    ensures IsListing(visited, rules)
    ensures Severity(MatchIn(visited, reqPerSec)) == if SomeExceeded(rules, Block, reqPerSec) then 2 else 1
  {
    var action := if SomeExceeded(rules, Block, reqPerSec) then Block else RateLimit;
    var a :| a in rules && rules[a].action == action && Exceeded(rules[a], reqPerSec);
    visited := FirstRuleDecides(rules, a, reqPerSec);
  }

  lemma {:induction false} SeverityAtMost(rules: RuleMap, visited: seq<Rule>, reqPerSec: int)
    requires IsListing(visited, rules)
    ensures Severity(MatchIn(visited, reqPerSec)) == 2 ==> SomeExceeded(rules, Block, reqPerSec)
    ensures Severity(MatchIn(visited, reqPerSec)) == 1 ==> SomeExceeded(rules, RateLimit, reqPerSec)
  {
    ListingHasExactly(visited, rules);
    MatchFindsExceeded(visited, reqPerSec);
  }

  lemma ExceededGrows(rules: RuleMap, action: Action, rate1: int, rate2: int)
    requires rate1 <= rate2 && SomeExceeded(rules, action, rate1)
    ensures SomeExceeded(rules, action, rate2)
  {
    var a :| a in rules && rules[a].action == action && Exceeded(rules[a], rate1);
    assert Exceeded(rules[a], rate2);
  }

  /**
   More traffic never gets a milder action, whatever orders the two calls iterate in, exactly when
   nothing undocumented can shadow the stricter rule; with the two documented actions nothing can.
   */
  lemma SeverityMonotoneIff(rules: RuleMap, rate1: int, rate2: int)
    requires rate1 <= rate2
    ensures NeverMilder(rules, rate1, rate2) <==> NothingShadows(rules, rate1, rate2)
  {
    if NothingShadows(rules, rate1, rate2) {
      forall visited1, visited2 | IsListing(visited1, rules) && IsListing(visited2, rules)
        ensures Severity(MatchIn(visited1, rate1)) <= Severity(MatchIn(visited2, rate2))
      {
        NothingShadowsSuffices(rules, visited1, rate1, visited2, rate2);
      }
    } else {
      var visited1, visited2 := ShadowedOrders(rules, rate1, rate2);
      assert IsListing(visited1, rules) && IsListing(visited2, rules);
    }
  }

  lemma {:induction false} NothingShadowsSuffices(rules: RuleMap, visited1: seq<Rule>, rate1: int, visited2: seq<Rule>, rate2: int)
    requires rate1 <= rate2 && NothingShadows(rules, rate1, rate2)
    requires IsListing(visited1, rules) && IsListing(visited2, rules)
    ensures Severity(MatchIn(visited1, rate1)) <= Severity(MatchIn(visited2, rate2))
  {
    SeverityAtMost(rules, visited1, rate1);
    if SomeExceeded(rules, Block, rate1) {
      ExceededGrows(rules, Block, rate1, rate2);
      BlockInOrder(rules, visited2, rate2);
    } else if SomeExceeded(rules, RateLimit, rate1) {
      if SomeExceeded(rules, Block, rate2) {
        BlockInOrder(rules, visited2, rate2);
      } else {
        ExceededGrows(rules, RateLimit, rate1, rate2);
        LimitInOrder(rules, visited2, rate2);
      }
    }
  }

  lemma ShadowedOrders(rules: RuleMap, rate1: int, rate2: int) returns (visited1: seq<Rule>, visited2: seq<Rule>)
    requires rate1 <= rate2 && !NothingShadows(rules, rate1, rate2)
    ensures IsListing(visited1, rules) && IsListing(visited2, rules)
    ensures Severity(MatchIn(visited1, rate1)) > Severity(MatchIn(visited2, rate2))
  {
    visited1 := HighestSeverity(rules, rate1);
    if SomeExceeded(rules, Ratelimit, rate2) {
      var a :| a in rules && rules[a].action == Ratelimit && Exceeded(rules[a], rate2);
      visited2 := FirstRuleDecides(rules, a, rate2);
    } else {
      var a :| a in rules && Exceeded(rules[a], rate2) && rules[a].action != RateLimit;
      visited2 := FirstRuleDecides(rules, a, rate2);
    }
  }

  ghost predicate SameBlockThresholds(rules: RuleMap, reqPerSec: int) {
    forall a, b ::
      && a in rules && rules[a].action == Block && Exceeded(rules[a], reqPerSec)
      && b in rules && rules[b].action == Block && Exceeded(rules[b], reqPerSec)
      ==> rules[a].threshold == rules[b].threshold
  }

  /** In every iteration order a block that is chosen has the highest threshold of the exceeded blocks. */
  ghost predicate HighestBlockInEveryOrder(rules: RuleMap, reqPerSec: int) {
    forall visited :: IsListing(visited, rules) ==>
      var m := MatchIn(visited, reqPerSec);
      IsAction(m, Block) ==> HighestOf(m, Block, visited, reqPerSec)
  }

  /**
   Highest threshold wins among blocks, as the comment above Match promises, for every iteration
   order exactly when the exceeded block rules all have one threshold.
   */
  lemma HighestBlockWinsIff(rules: RuleMap, reqPerSec: int)
    ensures HighestBlockInEveryOrder(rules, reqPerSec) <==> SameBlockThresholds(rules, reqPerSec)
  {
    if SameBlockThresholds(rules, reqPerSec) {
      forall visited | IsListing(visited, rules) && IsAction(MatchIn(visited, reqPerSec), Block)
        ensures HighestOf(MatchIn(visited, reqPerSec), Block, visited, reqPerSec)
      {
        ListingHasExactly(visited, rules);
        MatchFindsExceeded(visited, reqPerSec);
      }
    } else {
      var a, b :|
        && a in rules && rules[a].action == Block && Exceeded(rules[a], reqPerSec)
        && b in rules && rules[b].action == Block && Exceeded(rules[b], reqPerSec)
        && rules[a].threshold < rules[b].threshold;
      var visited := LowerBlockCanWin(rules, a, b, reqPerSec);
      ListingHasExactly(visited, rules);
      assert rules[b] in visited;
      assert !HighestOf(MatchIn(visited, reqPerSec), Block, visited, reqPerSec);
    }
  }

  /** Of two exceeded blocks either one wins in some iteration order: with the other one first and itself last. */
  lemma LowerBlockCanWin(rules: RuleMap, a: int, b: int, reqPerSec: int) returns (visited: seq<Rule>)
    requires a in rules && rules[a].action == Block && Exceeded(rules[a], reqPerSec)
    requires b in rules && rules[b].action == Block && Exceeded(rules[b], reqPerSec) && a != b
    ensures IsListing(visited, rules) && MatchIn(visited, reqPerSec) == Some(rules[a])
  {
    var rest := SomeListing(rules - {a} - {b});
    ListingCons(rest, rules - {a}, b);
    var front := [rules[b]] + rest;
    ListingSnoc(front, rules, a);
    visited := front + [rules[a]];
    assert visited[0] == rules[b] && visited[|front|] == rules[a];
    FirstInFront(visited, reqPerSec);
    LastBlockWins(visited, |front|, reqPerSec);
  }
}
