/** The server's rule handlers and the agent's listener and reload, as objects that update their state in place. */
module ReplicationNodes {
  import opened Word
  import opened Rules
  import opened RuleStoreModel
  import opened Bus
  import opened Replication

  /** The rows a fetch with this topic is answered with. */
  function ServedView(topic: string, rows: RuleMap): RuleMap {
    map id | id in rows && (topic == "" || rows[id].topic == topic || rows[id].topic == "") :: rows[id]
  }

  function Filter(rules: seq<Rule>, topic: string): seq<Rule> {
    if rules == [] then []
    else
      var last := rules[|rules| - 1];
      Filter(rules[..|rules| - 1], topic) + if last.topic == "" || last.topic == topic then [last] else []
  }

  lemma {:induction false} FilterKeeps(rules: seq<Rule>, topic: string)
    ensures forall r :: r in Filter(rules, topic) <==> r in rules && (r.topic == "" || r.topic == topic)
  {
    if rules != [] {
      FilterKeeps(rules[..|rules| - 1], topic);
      assert rules == rules[..|rules| - 1] + [rules[|rules| - 1]];
    }
  }

  /** Fetch, filter and load: the server's and the agent's filters together leave the fetched view. */
  lemma {:induction false} FetchFilterLoad(cfg: AgentConfig, rows: RuleMap, fetched: seq<Rule>)
    requires KeyedById(rows) && IsListing(fetched, ServedView(cfg.topic, rows))
    ensures Load(map[], Filter(fetched, cfg.topic)) == FetchView(cfg, rows)
  {
    ListingHasExactly(fetched, ServedView(cfg.topic, rows));
    FilterKeeps(fetched, cfg.topic);
    var kept := Filter(fetched, cfg.topic);
    forall i | 0 <= i < |kept|
      ensures kept[i].id in FetchView(cfg, rows) && FetchView(cfg, rows)[kept[i].id] == kept[i]
    {
      assert kept[i] in kept;
    }
    forall id | id in FetchView(cfg, rows) ensures rows[id] in kept {
      assert ServedView(cfg.topic, rows)[id] in fetched;
    }
    LoadExactly(kept, FetchView(cfg, rows));
  }

  class PolicyServer {
    var table: Table
    var published: seq<Publication>

    constructor ()
      ensures table == Table(map[], 1) && published == []
    {
      table, published := Table(map[], 1), [];
    }

    method CreateRule(body: Rule) returns (rule: Rule)
      modifies this
      ensures (table, Publication(SubjectOf(rule), Update(rule))) == Insert(old(table), body)
      ensures published == old(published) + [Publication(SubjectOf(rule), Update(rule))]
    {
      rule := body.(id := table.nextId);
      table := Table(table.rows[table.nextId := rule], table.nextId + 1);
      published := published + [Publication(SubjectOf(rule), Update(rule))];
    }

    method UpdateRule(id: int, body: Rule) returns (found: bool)
      modifies this
      ensures var (t, p) := Overwrite(old(table), id, body);
              && table == t
              && found == p.Some?
              && published == old(published) + (if found then [p.value] else [])
    {
      if id !in table.rows { return false; }
      var rule := body.(id := id);
      table := table.(rows := table.rows[id := rule]);
      published := published + [Publication(SubjectOf(rule), Update(rule))];
      found := true;
    }

    /** The row is read before it is deleted, so that its topic can address the message. */
    method DeleteRule(id: int) returns (found: bool)
      modifies this
      ensures var (t, p) := Erase(old(table), id);
              && table == t
              && found == p.Some?
              && published == old(published) + (if found then [p.value] else [])
    {
      if id !in table.rows { return false; }
      var rule := table.rows[id];
      table := table.(rows := table.rows - {id});
      published := published + [Publication(SubjectOf(rule), Delete(id))];
      found := true;
    }

    /** The reply to policy.fetch or GET /api/rules, in some row order. */
    method Fetch(topic: string) returns (rules: seq<Rule>)
      ensures IsListing(rules, ServedView(topic, table.rows))
    {
      rules := [];
      var remaining := table.rows.Keys;
      assert table.rows - remaining == map[];
      while remaining != {}
        invariant remaining <= table.rows.Keys
        invariant IsListing(rules, ServedView(topic, table.rows - remaining))
        decreases remaining
      {
        ghost var _ := Member(remaining);
        var id: int :| id in remaining;
        var r := table.rows[id];
        ghost var served := ServedView(topic, table.rows - (remaining - {id}));
        if topic == "" || r.topic == topic || r.topic == "" {
          assert served - {id} == ServedView(topic, table.rows - remaining);
          ListingSnoc(rules, served, id);
          rules := rules + [r];
        } else {
          assert served == ServedView(topic, table.rows - remaining);
        }
        remaining := remaining - {id};
      }
      assert table.rows - remaining == table.rows;
    }
  }

  class AgentNode {
    const cfg: AgentConfig
    const store: RuleStore
    var subscriptions: seq<Subscription>
    var inbox: seq<Message>

    constructor (cfg: AgentConfig, store: RuleStore)
      ensures this.cfg == cfg && this.store == store && subscriptions == [] && inbox == []
    {
      this.cfg, this.store := cfg, store;
      subscriptions, inbox := [], [];
    }

    method Start()
      modifies this`subscriptions
      ensures subscriptions == Subscriptions(cfg)
    {
      if cfg.topic == "" {
        subscriptions := [Exact(Base), AnyTag];
      } else {
        subscriptions := [Exact(Base), Exact(Tagged(cfg.topic)), Exact(Tagged(cfg.id))];
      }
    }

    /** Every matching subscription queues its own copy. */
    method Receive(p: Publication)
      modifies this`inbox
      ensures inbox == old(inbox) + Copies(subscriptions, p.subject, p.message)
    {
      var i := 0;
      while i < |subscriptions|
        invariant 0 <= i <= |subscriptions|
        invariant inbox + Copies(subscriptions[i..], p.subject, p.message)
               == old(inbox) + Copies(subscriptions, p.subject, p.message)
      {
        assert subscriptions[i..][1..] == subscriptions[i + 1..];
        if Matches(subscriptions[i], p.subject) {
          inbox := inbox + [p.message];
        }
        i := i + 1;
      }
    }

    /** Handles the oldest message; what the agent ends up with after all of them stays the same. */
    method HandleNext()
      requires inbox != []
      modifies this`inbox, store
      ensures store.rules == ApplyOne(old(store.rules), old(inbox)[0]) && inbox == old(inbox)[1..]
      ensures Apply(store.rules, inbox) == old(Apply(store.rules, inbox))
    {
      match inbox[0] {
        case Update(rule) => store.Upsert(rule);
        case Delete(id) => store.Delete(id);
      }
      inbox := inbox[1..];
    }

    /** The server is back: clear the store, then insert the fetched rules that filterRules keeps. */
    method Reload(fetched: seq<Rule>, ghost rows: RuleMap)
      requires KeyedById(rows) && IsListing(fetched, ServedView(cfg.topic, rows))
      modifies store
      ensures store.rules == FetchView(cfg, rows)
      ensures Mirrors(store.file, store.rules)
    {
      FetchFilterLoad(cfg, rows, fetched);
      var filtered := FilterRules(fetched, cfg.topic);
      store.Clear();
      var i := 0;
      while i < |filtered|
        invariant 0 <= i <= |filtered|
        invariant Load(store.rules, filtered[i..]) == Load(map[], filtered)
        invariant Mirrors(store.file, store.rules)
      {
        assert filtered[i..][1..] == filtered[i + 1..];
        store.Upsert(filtered[i]);
        i := i + 1;
      }
    }
  }

  method FilterRules(rules: seq<Rule>, topic: string) returns (filtered: seq<Rule>)
    ensures filtered == Filter(rules, topic)
    ensures forall r :: r in filtered <==> r in rules && (r.topic == "" || r.topic == topic)
  {
    filtered := [];
    var i := 0;
    while i < |rules|
      invariant 0 <= i <= |rules|
      invariant filtered == Filter(rules[..i], topic)
    {
      assert rules[..i + 1][..i] == rules[..i];
      if rules[i].topic == "" || rules[i].topic == topic {
        filtered := filtered + [rules[i]];
      }
      i := i + 1;
    }
    assert rules[..i] == rules;
    FilterKeeps(rules, topic);
  }
}
