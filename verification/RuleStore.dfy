/** The agent's in-memory rule map and the cache file that mirrors it. */
module RuleStoreModel {
  import opened Word
  import opened Rules

  /** The cache file: missing, not valid JSON, or a JSON array of rules. */
  datatype CacheFile = Absent | Corrupt | Listed(rules: seq<Rule>)

  ghost predicate KeyedById(rules: RuleMap) {
    forall id :: id in rules ==> rules[id].id == id
  }

  /** LoadFromDisk's loop: later entries of the file replace earlier ones with the same ID. */
  function Load(rules: RuleMap, listed: seq<Rule>): RuleMap
    decreases listed
  {
    if listed == [] then rules else Load(rules[listed[0].id := listed[0]], listed[1..])
  }

  /** The last rule of the list with this ID. */
  function Latest(rules: seq<Rule>, id: int): Option<Rule> {
    if rules == [] then None
    else
      var last := rules[|rules| - 1];
      if last.id == id then Some(last) else Latest(rules[..|rules| - 1], id)
  }

  lemma {:induction false} LoadSnoc(rules: RuleMap, listed: seq<Rule>, rule: Rule)
    ensures Load(rules, listed + [rule]) == Load(rules, listed)[rule.id := rule]
    decreases listed
  {
    if listed == [] {
      assert [] + [rule] == [rule] && [rule][1..] == [];
    } else {
      assert (listed + [rule])[1..] == listed[1..] + [rule];
      LoadSnoc(rules[listed[0].id := listed[0]], listed[1..], rule);
    }
  }

  /** Of several entries with one ID the last one is kept, over what the map held before; other IDs stay. */
  lemma {:induction false} LastEntryWins(rules: RuleMap, listed: seq<Rule>, id: int)
    ensures var loaded, latest := Load(rules, listed), Latest(listed, id);
            && (id in loaded <==> latest.Some? || id in rules)
            && (id in loaded ==> loaded[id] == if latest.Some? then latest.value else rules[id])
    decreases |listed|
  {
    if listed != [] {
      var init, last := listed[..|listed| - 1], listed[|listed| - 1];
      assert listed == init + [last];
      LastEntryWins(rules, init, id);
      LoadSnoc(rules, init, last);
    }
  }

  /** The file lists exactly the map; a missing file stands for the empty map. */
  ghost predicate Mirrors(file: CacheFile, rules: RuleMap) {
    match file
    case Absent => rules == map[]
    case Corrupt => false
    case Listed(listed) => IsListing(listed, rules)
  }

  lemma {:induction false} LoadAt(rules: RuleMap, listed: seq<Rule>)
    ensures var loaded := Load(rules, listed);
            && (forall i :: 0 <= i < |listed| ==> listed[i].id in loaded)
            && (forall id :: id in rules ==> id in loaded)
            && (forall id :: id in loaded ==>
                 || (id in rules && loaded[id] == rules[id])
                 || exists i :: 0 <= i < |listed| && listed[i].id == id && loaded[id] == listed[i])
    decreases listed
  {
    if listed != [] {
      var rest := listed[1..];
      LoadAt(rules[listed[0].id := listed[0]], rest);
      assert forall i :: 0 < i < |listed| ==> listed[i] == rest[i - 1];
      assert forall i :: 0 <= i < |rest| ==> rest[i] == listed[i + 1];
    }
  }

  /** Loading into an empty map gives m when the list holds m's rules, each once or more, and nothing else. */
  lemma {:induction false} LoadExactly(listed: seq<Rule>, m: RuleMap)
    requires forall i :: 0 <= i < |listed| ==> listed[i].id in m && m[listed[i].id] == listed[i]
    requires forall id :: id in m ==> m[id].id == id && m[id] in listed
    ensures Load(map[], listed) == m
  {
    LoadAt(map[], listed);
    var loaded := Load(map[], listed);
    forall id | id in m ensures id in loaded {
      var i :| 0 <= i < |listed| && listed[i] == m[id];
      assert listed[i].id in loaded;
    }
  }

  /** Loading a mirror into an empty store gives the mirrored store back, whatever order it was written in. */
  lemma {:induction false} LoadMirror(listed: seq<Rule>, rules: RuleMap)
    requires KeyedById(rules) && IsListing(listed, rules)
    ensures Load(map[], listed) == rules
  {
    ListingHasExactly(listed, rules);
    assert forall i :: 0 <= i < |listed| ==> listed[i] in listed;
    LoadExactly(listed, rules);
  }

  /** Writing, reading and loading is the identity: the disk mirror loses nothing. */
  lemma MirrorRestores(file: CacheFile, rules: RuleMap)
    requires KeyedById(rules) && Mirrors(file, rules)
    ensures rules == (match file case Listed(listed) => Load(map[], listed) case _ => map[])
  {
    if file.Listed? {
      LoadMirror(file.rules, rules);
    }
  }

  class RuleStore {
    var rules: RuleMap
    var file: CacheFile

    /** A new store is empty; the file is whatever an earlier run left. */
    constructor (leftover: CacheFile)
      ensures rules == map[] && file == leftover
    {
      rules := map[];
      file := leftover;
    }

    method SaveToDisk()
      modifies this`file
      ensures file.Listed? && Mirrors(file, rules)
    {
      var remaining, listed := rules.Keys, [];
      assert rules - remaining == map[];
      while remaining != {}
        invariant remaining <= rules.Keys
        invariant IsListing(listed, rules - remaining)
        decreases remaining
      {
        ghost var _ := Member(remaining);
        var id: int :| id in remaining;
        assert rules - (remaining - {id}) - {id} == rules - remaining;
        ListingSnoc(listed, rules - (remaining - {id}), id);
        listed := listed + [rules[id]];
        remaining := remaining - {id};
      }
      assert rules - remaining == rules;
      file := Listed(listed);
    }

    method Upsert(rule: Rule)
      modifies this
      ensures rules == old(rules)[rule.id := rule]
      ensures old(KeyedById(rules)) ==> KeyedById(rules)
      ensures Mirrors(file, rules)
    {
      rules := rules[rule.id := rule];
      SaveToDisk();
    }

    /** Deleting an unknown ID returns before saving, so then the file is only as good as it was. */
    method Delete(id: int)
      modifies this
      ensures rules == old(rules) - {id}
      ensures old(KeyedById(rules)) ==> KeyedById(rules)
      ensures id !in old(rules) ==> file == old(file)
      ensures Mirrors(file, rules) <==> id in old(rules) || old(Mirrors(file, rules))
    {
      if id !in rules {
        assert rules == rules - {id};
        return;
      }
      rules := rules - {id};
      SaveToDisk();
    }

    method Clear()
      modifies this
      ensures rules == map[] && file == Absent && Mirrors(file, rules)
    {
      rules := map[];
      file := Absent;
    }

    method LoadFromDisk()
      modifies this`rules
      ensures rules == if file.Listed? then Load(old(rules), file.rules) else old(rules)
      ensures old(KeyedById(rules)) ==> KeyedById(rules)
    {
      if !file.Listed? { return; }
      var listed := file.rules;
      ghost var before := rules;
      var i := 0;
      while i < |listed|
        invariant 0 <= i <= |listed|
        invariant Load(before, listed) == Load(rules, listed[i..])
        invariant old(KeyedById(rules)) ==> KeyedById(rules)
      {
        rules := rules[listed[i].id := listed[i]];
        assert listed[i..][1..] == listed[i + 1..];
        i := i + 1;
      }
    }

    /** Visits the rules in an arbitrary order; the result is what that order gives. */
    method Match(reqPerSec: int) returns (best: Option<Rule>, ghost visited: seq<Rule>)
      ensures IsListing(visited, rules) && best == MatchIn(visited, reqPerSec)
      ensures best.None? <==> forall id :: id in rules ==> reqPerSec <= rules[id].threshold
      ensures best.Some? ==> reqPerSec > best.value.threshold && exists id :: id in rules && rules[id] == best.value
      ensures !SomeExceeded(rules, Ratelimit, reqPerSec) ==>
                ((best.Some? && best.value.action == Block) <==> SomeExceeded(rules, Block, reqPerSec))
    {
      var remaining := rules.Keys;
      best, visited := None, [];
      assert rules - remaining == map[];
      while remaining != {}
        invariant remaining <= rules.Keys
        invariant IsListing(visited, rules - remaining)
        invariant best == MatchIn(visited, reqPerSec)
        decreases remaining
      {
        ghost var _ := Member(remaining);
        var id: int :| id in remaining;
        var rule := rules[id];
        assert rules - (remaining - {id}) - {id} == rules - remaining;
        ListingSnoc(visited, rules - (remaining - {id}), id);
        MatchSnoc(visited, rule, reqPerSec);
        remaining, visited := remaining - {id}, visited + [rule];
        if reqPerSec <= rule.threshold { continue; }
        if best == None {
          best := Some(rule);
          continue;
        }
        if rule.action == Block && best.value.action != Ratelimit {
          best := Some(rule);
          continue;
        }
        if rule.action == best.value.action && rule.threshold > best.value.threshold {
          best := Some(rule);
        }
      }
      assert rules - remaining == rules;
      MatchOverRules(rules, visited, reqPerSec);
    }
  }
}
