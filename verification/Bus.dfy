/** Subjects, subscriptions and messages: who hears a published rule, and what hearing it does to a rule map. */
module Bus {
  import opened Word
  import opened Rules
  import opened RuleStoreModel

  datatype AgentConfig = AgentConfig(id: string, topic: string)

  /** The subject after "policy.update" or "policy.delete": none, or one tag. */
  datatype Subject = Base | Tagged(tag: string)

  datatype Subscription = Exact(subject: Subject) | AnyTag

  datatype Message = Update(rule: Rule) | Delete(id: int)

  function Id(m: Message): int {
    match m
    case Update(r) => r.id
    case Delete(id) => id
  }

  function SubjectOf(rule: Rule): Subject {
    if rule.topic == "" then Base else Tagged(rule.topic)
  }

  /** Listener.Start: an agent without a topic listens to every tag. */
  function Subscriptions(cfg: AgentConfig): seq<Subscription> {
    if cfg.topic == "" then [Exact(Base), AnyTag]
    else [Exact(Base), Exact(Tagged(cfg.topic)), Exact(Tagged(cfg.id))]
  }

  predicate Matches(sub: Subscription, subject: Subject) {
    match sub
    case Exact(s) => s == subject
    case AnyTag => subject.Tagged?
  }

  /** One copy for every matching subscription: an agent whose topic is its own ID hears twice. */
  function Copies(subs: seq<Subscription>, subject: Subject, m: Message): seq<Message>
    decreases subs
  {
    if subs == [] then []
    else (if Matches(subs[0], subject) then [m] else []) + Copies(subs[1..], subject, m)
  }

  predicate Hears(cfg: AgentConfig, subject: Subject) {
    subject == Base || cfg.topic == "" || subject.tag == cfg.topic || subject.tag == cfg.id
  }

  /** The rules whose updates reach the agent. */
  predicate Heard(cfg: AgentConfig, rule: Rule) {
    Hears(cfg, SubjectOf(rule))
  }

  /** The rules a fetch leaves after filterRules. */
  predicate Fetched(cfg: AgentConfig, rule: Rule) {
    rule.topic == "" || rule.topic == cfg.topic
  }

  function ApplyOne(rules: RuleMap, m: Message): RuleMap {
    match m
    case Update(r) => rules[r.id := r]
    case Delete(id) => rules - {id}
  }

  /** The rule map after all messages, oldest first. */
  function Apply(rules: RuleMap, messages: seq<Message>): RuleMap
    decreases messages
  {
    if messages == [] then rules else Apply(ApplyOne(rules, messages[0]), messages[1..])
  }

  predicate Touches(messages: seq<Message>, id: int) {
    exists i :: 0 <= i < |messages| && Id(messages[i]) == id
  }

  function At(rules: RuleMap, id: int): Option<Rule> {
    if id in rules then Some(rules[id]) else None
  }

  lemma {:induction false} ApplyAppend(rules: RuleMap, first: seq<Message>, second: seq<Message>)
    ensures Apply(rules, first + second) == Apply(Apply(rules, first), second)
    decreases first
  {
    if first == [] {
      assert first + second == second;
    } else {
      assert (first + second)[1..] == first[1..] + second;
      ApplyAppend(ApplyOne(rules, first[0]), first[1..], second);
    }
  }

  /**
   What a run of messages leaves at an ID depends on the starting map only when no message is about
   the ID; so replaying any suffix of the history on any map that already has its outcome changes nothing.
   */
  lemma {:induction false} ReplayForgetsStart(rules1: RuleMap, rules2: RuleMap, messages: seq<Message>, id: int)
    ensures (Touches(messages, id) || At(rules1, id) == At(rules2, id)) ==>
              At(Apply(rules1, messages), id) == At(Apply(rules2, messages), id)
    ensures !Touches(messages, id) ==> At(Apply(rules1, messages), id) == At(rules1, id)
    decreases messages
  {
    if messages != [] {
      var first, rest := messages[0], messages[1..];
      assert forall i :: 1 <= i < |messages| ==> messages[i] == rest[i - 1];
      assert forall i :: 0 <= i < |rest| ==> rest[i] == messages[i + 1];
      ReplayForgetsStart(ApplyOne(rules1, first), ApplyOne(rules2, first), rest, id);
    }
  }

  lemma {:induction false} CopiesOfOne(subs: seq<Subscription>, subject: Subject, m: Message)
    ensures var copies := Copies(subs, subject, m);
            && (forall i :: 0 <= i < |copies| ==> copies[i] == m)
            && (copies != [] <==> exists i :: 0 <= i < |subs| && Matches(subs[i], subject))
    decreases subs
  {
    if subs != [] {
      CopiesOfOne(subs[1..], subject, m);
      if i :| 0 <= i < |subs[1..]| && Matches(subs[1..][i], subject) {
        assert Matches(subs[i + 1], subject);
      }
      if i :| 0 < i < |subs| && Matches(subs[i], subject) {
        assert Matches(subs[1..][i - 1], subject);
      }
    }
  }

  lemma {:induction false} RepeatsActOnce(rules: RuleMap, copies: seq<Message>, m: Message)
    requires copies != [] && forall i :: 0 <= i < |copies| ==> copies[i] == m
    ensures Apply(rules, copies) == ApplyOne(rules, m)
    decreases copies
  {
    if |copies| > 1 {
      RepeatsActOnce(ApplyOne(rules, m), copies[1..], m);
      assert ApplyOne(ApplyOne(rules, m), m) == ApplyOne(rules, m);
    } else {
      assert copies[1..] == [];
    }
  }

  /** However many copies an agent hears, they act as one message; it hears one exactly when Hears says so. */
  lemma CopiesActOnce(cfg: AgentConfig, subject: Subject, m: Message, rules: RuleMap)
    ensures Apply(rules, Copies(Subscriptions(cfg), subject, m)) == if Hears(cfg, subject) then ApplyOne(rules, m) else rules
    ensures Copies(Subscriptions(cfg), subject, m) != [] <==> Hears(cfg, subject)
  {
    var subs := Subscriptions(cfg);
    CopiesOfOne(subs, subject, m);
    assert Hears(cfg, subject) <==> Matches(subs[0], subject) || Matches(subs[1], subject) || (|subs| == 3 && Matches(subs[2], subject));
    if Hears(cfg, subject) {
      RepeatsActOnce(rules, Copies(subs, subject, m), m);
    }
  }
}
