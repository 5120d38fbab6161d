/**
 The server's rule table, one agent's inbox and the agent's rule map, with the adaptive scaler's
 sentinel rule -1 and the classifier's sentinel rule -2 travelling on the same subjects. What the
 scaler publishes for other agents travels there too, and some agents hear it.
 */
module Replication {
  import opened Word
  import opened Rules
  import opened RuleStoreModel
  import opened Bus
  import Scaler
  import Classifier

  const AUTO_SCALE_ID: int := -1

  /** The policy_rules table: rows by ID and the next serial. */
  datatype Table = Table(rows: RuleMap, nextId: int)

  datatype Publication = Publication(subject: Subject, message: Message)

  /** A row inserted under the next serial, whatever ID the request body had, and its update message. */
  function Insert(t: Table, body: Rule): (Table, Publication) {
    var rule := body.(id := t.nextId);
    (Table(t.rows[t.nextId := rule], t.nextId + 1), Publication(SubjectOf(rule), Update(rule)))
  }

  /** An update of an unknown ID affects no row and publishes nothing. */
  function Overwrite(t: Table, id: int, body: Rule): (Table, Option<Publication>) {
    if id !in t.rows then (t, None)
    else
      var rule := body.(id := id);
      (t.(rows := t.rows[id := rule]), Some(Publication(SubjectOf(rule), Update(rule))))
  }

  /** The deletion is published under the topic the row had. */
  function Erase(t: Table, id: int): (Table, Option<Publication>) {
    if id !in t.rows then (t, None)
    else (t.(rows := t.rows - {id}), Some(Publication(SubjectOf(t.rows[id]), Delete(id))))
  }

  datatype System = System(
    table: Table,
    scaler: Scaler.State,
    store: RuleMap,
    inbox: seq<Message>)

  const START := System(Table(map[], 1), Scaler.INITIAL, map[], [])

  datatype Event =
    | Create(body: Rule)
    | Change(id: int, body: Rule)
    | Remove(id: int)
    | Report(metrics: Scaler.Metrics, day: Option<Scaler.Baseline>, twoHours: Option<Scaler.Baseline>, manual: seq<Rule>)
    | Elsewhere(other: string, publication: Scaler.Publication, manual: seq<Rule>)
    | Enforce(ip: string, body: Rule)
    | Deliver
    | Reload

  /** The adaptive rule for the agent with this ID. */
  function AdaptiveRule(agent: string, level: Scaler.ActiveLevel): Rule {
    Rule(AUTO_SCALE_ID, "adaptive", Scaler.LevelRateLimit(level), RateLimit, 0, agent)
  }

  function Publish(cfg: AgentConfig, s: System, subject: Subject, m: Message): System {
    s.(inbox := s.inbox + Copies(Subscriptions(cfg), subject, m))
  }

  function Send(cfg: AgentConfig, s: System, p: Option<Publication>): System {
    match p
    case None => s
    case Some(p) => Publish(cfg, s, p.subject, p.message)
  }

  /** restoreManualRules publishes each rule under the agent's ID. */
  function PublishAll(cfg: AgentConfig, s: System, agent: string, rules: seq<Rule>): System {
    if rules == [] then s
    else
      var last := rules[|rules| - 1];
      Publish(cfg, PublishAll(cfg, s, agent, rules[..|rules| - 1]), Tagged(agent), Update(last))
  }

  /** What the scaler sends for one agent after one report of that agent. */
  function Announce(cfg: AgentConfig, s: System, agent: string, p: Scaler.Publication, manual: seq<Rule>): System {
    match p
    case Nothing => s
    case Limit(level) => Publish(cfg, s, Tagged(agent), Update(AdaptiveRule(agent, level)))
    case Cleared => PublishAll(cfg, Publish(cfg, s, Tagged(agent), Delete(AUTO_SCALE_ID)), agent, manual)
  }

  function FetchView(cfg: AgentConfig, db: RuleMap): RuleMap {
    map id | id in db && Fetched(cfg, db[id]) :: db[id]
  }

  function Step(cfg: AgentConfig, s: System, e: Event): System {
    match e
    case Create(body) =>
      var (table, p) := Insert(s.table, body);
      Send(cfg, s.(table := table), Some(p))
    case Change(id, body) =>
      var (table, p) := Overwrite(s.table, id, body);
      Send(cfg, s.(table := table), p)
    case Remove(id) =>
      var (table, p) := Erase(s.table, id);
      Send(cfg, s.(table := table), p)
    case Report(metrics, day, twoHours, manual) =>
      var (scaler, publication) := Scaler.Evaluate(s.scaler, metrics, day, twoHours);
      Announce(cfg, s.(scaler := scaler), cfg.id, publication, manual)
    case Elsewhere(other, publication, manual) => Announce(cfg, s, other, publication, manual)
    case Enforce(ip, body) => Publish(cfg, s, Tagged(ip), Update(body.(id := Classifier.CLASSIFIER_ID, topic := ip)))
    case Deliver =>
      if s.inbox == [] then s else s.(store := ApplyOne(s.store, s.inbox[0]), inbox := s.inbox[1..])
    case Reload => s.(store := FetchView(cfg, s.table.rows))
  }

  ghost predicate Restorable(s: System, agent: string, manual: seq<Rule>) {
    forall r :: r in manual ==> exists id :: id in s.table.rows && s.table.rows[id] == r && r.topic == agent
  }

  /**
   A clearing report restores rules of the database with the agent's ID as topic; a failed query restores
   fewer. Agents have nonempty IDs of their own.
   */
  ghost predicate Possible(cfg: AgentConfig, s: System, e: Event) {
    match e
    case Report(_, _, _, manual) => Restorable(s, cfg.id, manual)
    case Elsewhere(other, _, manual) => other != cfg.id && other != "" && Restorable(s, other, manual)
    case _ => true
  }

  /** The agent's rule map once it has handled everything sent to it. */
  function Drained(s: System): RuleMap {
    Apply(s.store, s.inbox)
  }

  /** IDs whose contents the protocol determines: database rules and the adaptive sentinel. */
  predicate Tracked(id: int) {
    id > 0 || id == AUTO_SCALE_ID
  }

  function Expected(cfg: AgentConfig, s: System, id: int): Option<Rule> {
    if id == AUTO_SCALE_ID then
      if s.scaler.level == 0 then None else Some(AdaptiveRule(cfg.id, s.scaler.level))
    else if id in s.table.rows && Heard(cfg, s.table.rows[id]) then Some(s.table.rows[id])
    else None
  }

  /** The drained store has the expected contents at an ID. */
  predicate Right(cfg: AgentConfig, s: System, id: int) {
    At(Drained(s), id) == Expected(cfg, s, id)
  }

  ghost predicate InSync(cfg: AgentConfig, s: System) {
    forall id :: Tracked(id) ==> Right(cfg, s, id)
  }

  /** What the pending messages say about the IDs they touch is, taken together, true of the server. */
  ghost predicate InboxTruthful(cfg: AgentConfig, s: System) {
    forall id :: Tracked(id) && Touches(s.inbox, id) ==> Right(cfg, s, id)
  }

  /** The two at once: on all tracked IDs, or on those the pending messages touch. */
  ghost predicate SyncOn(cfg: AgentConfig, s: System, all: bool) {
    forall id :: Tracked(id) && (all || Touches(s.inbox, id)) ==> Right(cfg, s, id)
  }

  ghost predicate TableOk(s: System) {
    && s.table.nextId >= 1
    && (forall id :: id in s.table.rows ==> 0 < id < s.table.nextId && s.table.rows[id].id == id)
  }

  // ---- publishing ----

  lemma DrainedAfterPublish(cfg: AgentConfig, s: System, subject: Subject, m: Message)
    ensures Drained(Publish(cfg, s, subject, m)) == if Hears(cfg, subject) then ApplyOne(Drained(s), m) else Drained(s)
    ensures !Hears(cfg, subject) ==> Publish(cfg, s, subject, m) == s
  {
    ApplyAppend(s.store, s.inbox, Copies(Subscriptions(cfg), subject, m));
    CopiesActOnce(cfg, subject, m, Drained(s));
  }

  lemma TouchedAfterPublish(cfg: AgentConfig, s: System, subject: Subject, m: Message, id: int)
    requires id != Id(m)
    ensures Touches(Publish(cfg, s, subject, m).inbox, id) <==> Touches(s.inbox, id)
  {
    var copies := Copies(Subscriptions(cfg), subject, m);
    CopiesOfOne(Subscriptions(cfg), subject, m);
    var inbox := s.inbox + copies;
    assert forall i :: |s.inbox| <= i < |inbox| ==> inbox[i] == copies[i - |s.inbox|] == m;
    if i :| 0 <= i < |s.inbox| && Id(s.inbox[i]) == id {
      assert inbox[i] == s.inbox[i];
    }
  }

  /** A message the agent hears must be true; one it does not hear must have nothing to correct. */
  lemma PublishKeeps(cfg: AgentConfig, s: System, subject: Subject, m: Message, all: bool)
    requires forall id :: Tracked(id) && id != Id(m) && (all || Touches(s.inbox, id)) ==> Right(cfg, s, id)
    requires Hears(cfg, subject) && Tracked(Id(m)) ==> At(ApplyOne(map[], m), Id(m)) == Expected(cfg, s, Id(m))
    requires !Hears(cfg, subject) && Tracked(Id(m)) && (all || Touches(s.inbox, Id(m))) ==> Right(cfg, s, Id(m))
    ensures SyncOn(cfg, Publish(cfg, s, subject, m), all)
  {
    var s' := Publish(cfg, s, subject, m);
    DrainedAfterPublish(cfg, s, subject, m);
    forall id | Tracked(id) && (all || Touches(s'.inbox, id)) ensures Right(cfg, s', id) {
      if id != Id(m) {
        TouchedAfterPublish(cfg, s, subject, m, id);
      }
    }
  }

  /** Restoring database rules says nothing the server does not. */
  lemma {:induction false} RestoringKeeps(cfg: AgentConfig, s: System, agent: string, rules: seq<Rule>, all: bool)
    requires TableOk(s) && SyncOn(cfg, s, all) && agent != "" && Restorable(s, agent, rules)
    ensures SyncOn(cfg, PublishAll(cfg, s, agent, rules), all)
    ensures PublishAll(cfg, s, agent, rules).(inbox := s.inbox) == s
    decreases rules
  {
    if rules != [] {
      var init, last := rules[..|rules| - 1], rules[|rules| - 1];
      assert forall r :: r in init ==> r in rules;
      RestoringKeeps(cfg, s, agent, init, all);
      assert last in rules;
      var id :| id in s.table.rows && s.table.rows[id] == last && last.topic == agent;
      PublishKeeps(cfg, PublishAll(cfg, s, agent, init), Tagged(agent), Update(last), all);
    }
  }

  /** Restoring rules that the agent already has, or will have, changes nothing. */
  lemma {:induction false} RestoringIsIdempotent(cfg: AgentConfig, s: System, agent: string, rules: seq<Rule>)
    requires forall r :: r in rules ==> At(Drained(s), r.id) == Some(r)
    ensures Drained(PublishAll(cfg, s, agent, rules)) == Drained(s)
    decreases rules
  {
    if rules != [] {
      var init, last := rules[..|rules| - 1], rules[|rules| - 1];
      RestoringIsIdempotent(cfg, s, agent, init);
      assert last in rules;
      DrainedAfterPublish(cfg, PublishAll(cfg, s, agent, init), Tagged(agent), Update(last));
    }
  }

  lemma {:induction false} PublishAllFrame(cfg: AgentConfig, s: System, agent: string, rules: seq<Rule>)
    ensures PublishAll(cfg, s, agent, rules).(inbox := s.inbox) == s
    ensures !Hears(cfg, Tagged(agent)) ==> PublishAll(cfg, s, agent, rules) == s
    decreases rules
  {
    if rules != [] {
      PublishAllFrame(cfg, s, agent, rules[..|rules| - 1]);
      DrainedAfterPublish(cfg, PublishAll(cfg, s, agent, rules[..|rules| - 1]), Tagged(agent), Update(rules[|rules| - 1]));
    }
  }

  lemma {:induction false} AnnounceFrame(cfg: AgentConfig, s: System, agent: string, p: Scaler.Publication, manual: seq<Rule>)
    ensures Announce(cfg, s, agent, p, manual).(inbox := s.inbox) == s
    ensures !Hears(cfg, Tagged(agent)) ==> Announce(cfg, s, agent, p, manual) == s
  {
    match p
    case Nothing =>
    case Limit(level) => DrainedAfterPublish(cfg, s, Tagged(agent), Update(AdaptiveRule(agent, level)));
    case Cleared =>
      DrainedAfterPublish(cfg, s, Tagged(agent), Delete(AUTO_SCALE_ID));
      PublishAllFrame(cfg, Publish(cfg, s, Tagged(agent), Delete(AUTO_SCALE_ID)), agent, manual);
  }

  /** No two rules of the list share an ID. */
  predicate DistinctIds(rules: seq<Rule>) {
    forall i, j :: 0 <= i < j < |rules| ==> rules[i].id != rules[j].id
  }

  lemma {:induction false} LatestOf(rules: seq<Rule>, i: nat)
    requires DistinctIds(rules) && i < |rules|
    ensures Latest(rules, rules[i].id) == Some(rules[i])
    decreases |rules|
  {
    var n := |rules| - 1;
    if i < n {
      assert rules[i].id != rules[n].id;
      LatestOf(rules[..n], i);
    }
  }

  lemma {:induction false} LatestNone(rules: seq<Rule>, id: int)
    requires forall r :: r in rules ==> r.id != id
    ensures Latest(rules, id) == None
  {
    if rules != [] {
      assert rules[|rules| - 1] in rules;
      LatestNone(rules[..|rules| - 1], id);
    }
  }

  lemma {:induction false} RestoredRulesArrive(cfg: AgentConfig, s: System, agent: string, rules: seq<Rule>, id: int)
    requires Hears(cfg, Tagged(agent))
    ensures var latest := Latest(rules, id);
            At(Drained(PublishAll(cfg, s, agent, rules)), id) == if latest.Some? then latest else At(Drained(s), id)
    decreases rules
  {
    if rules != [] {
      var init, last := rules[..|rules| - 1], rules[|rules| - 1];
      RestoredRulesArrive(cfg, s, agent, init, id);
      DrainedAfterPublish(cfg, PublishAll(cfg, s, agent, init), Tagged(agent), Update(last));
    }
  }

  /**
   A clearing report, whatever the agent held: rule -1 is gone, every restored rule is there as it was sent,
   and everything else is as it was.
   */
  lemma {:induction false} ClearingRestores(cfg: AgentConfig, s: System, agent: string, manual: seq<Rule>)
    requires Hears(cfg, Tagged(agent)) && DistinctIds(manual) && (forall r :: r in manual ==> r.id != AUTO_SCALE_ID)
    ensures var before, after := Drained(s), Drained(Announce(cfg, s, agent, Scaler.Cleared, manual));
            && At(after, AUTO_SCALE_ID) == None
            && (forall r :: r in manual ==> At(after, r.id) == Some(r))
            && (forall id :: id != AUTO_SCALE_ID && (forall r :: r in manual ==> r.id != id) ==> At(after, id) == At(before, id))
  {
    DrainedAfterPublish(cfg, s, Tagged(agent), Delete(AUTO_SCALE_ID));
    var s1, after := Publish(cfg, s, Tagged(agent), Delete(AUTO_SCALE_ID)), Drained(Announce(cfg, s, agent, Scaler.Cleared, manual));
    forall r | r in manual ensures At(after, r.id) == Some(r) {
      var i :| 0 <= i < |manual| && manual[i] == r;
      LatestOf(manual, i);
      RestoredRulesArrive(cfg, s1, agent, manual, r.id);
    }
    forall id | forall r :: r in manual ==> r.id != id ensures At(after, id) == At(Drained(s1), id) {
      LatestNone(manual, id);
      RestoredRulesArrive(cfg, s1, agent, manual, id);
    }
  }

  // ---- what every step keeps ----

  /** An update that takes a rule out of this agent's hearing: the old topic reached it, the new one does not. */
  predicate Hides(cfg: AgentConfig, s: System, e: Event) {
    e.Change? && e.id in s.table.rows && Heard(cfg, s.table.rows[e.id]) && !Heard(cfg, e.body)
  }

  /** Another agent's adaptive rule that this agent hears, or its removal while this agent has a rule of its own. */
  predicate Intrudes(cfg: AgentConfig, s: System, e: Event) {
    && e.Elsewhere? && Hears(cfg, Tagged(e.other))
    && (e.publication.Limit? || (e.publication.Cleared? && s.scaler.level > 0))
  }

  lemma TableStaysOk(cfg: AgentConfig, s: System, e: Event)
    requires TableOk(s)
    ensures TableOk(Step(cfg, s, e))
  {
    match e
    case Report(metrics, day, twoHours, manual) =>
      var (scaler, publication) := Scaler.Evaluate(s.scaler, metrics, day, twoHours);
      AnnounceFrame(cfg, s.(scaler := scaler), cfg.id, publication, manual);
    case Elsewhere(other, publication, manual) => AnnounceFrame(cfg, s, other, publication, manual);
    case _ =>
  }

  lemma TableStepKeeps(cfg: AgentConfig, s: System, e: Event, all: bool)
    requires TableOk(s) && SyncOn(cfg, s, all) && (e.Create? || e.Change? || e.Remove?)
    requires Hides(cfg, s, e) ==> !all && !Touches(s.inbox, e.id)
    ensures SyncOn(cfg, Step(cfg, s, e), all)
  {
    match e
    case Create(body) =>
      var (table, p) := Insert(s.table, body);
      PublishKeeps(cfg, s.(table := table), p.subject, p.message, all);
    case Change(id, body) =>
      var (table, p) := Overwrite(s.table, id, body);
      if p.Some? {
        PublishKeeps(cfg, s.(table := table), p.value.subject, p.value.message, all);
      }
    case Remove(id) =>
      var (table, p) := Erase(s.table, id);
      if p.Some? {
        PublishKeeps(cfg, s.(table := table), p.value.subject, p.value.message, all);
      }
  }

  lemma {:induction false} ClearKeeps(cfg: AgentConfig, s: System, agent: string, manual: seq<Rule>, all: bool)
    requires TableOk(s) && agent != "" && Restorable(s, agent, manual)
    requires forall id :: Tracked(id) && id != AUTO_SCALE_ID && (all || Touches(s.inbox, id)) ==> Right(cfg, s, id)
    requires Hears(cfg, Tagged(agent)) && s.scaler.level == 0
    ensures SyncOn(cfg, Announce(cfg, s, agent, Scaler.Cleared, manual), all)
  {
    PublishKeeps(cfg, s, Tagged(agent), Delete(AUTO_SCALE_ID), all);
    RestoringKeeps(cfg, Publish(cfg, s, Tagged(agent), Delete(AUTO_SCALE_ID)), agent, manual, all);
  }

  lemma ReportKeeps(cfg: AgentConfig, s: System, e: Event, all: bool)
    requires TableOk(s) && SyncOn(cfg, s, all) && e.Report? && Possible(cfg, s, e)
    requires cfg.id != ""
    ensures SyncOn(cfg, Step(cfg, s, e), all)
  {
    var (scaler, publication) := Scaler.Evaluate(s.scaler, e.metrics, e.day, e.twoHours);
    EvaluatePublishesLevel(s.scaler, e.metrics, e.day, e.twoHours);
    var s1 := s.(scaler := scaler);
    match publication
    case Nothing =>
    case Limit(level) => PublishKeeps(cfg, s1, Tagged(cfg.id), Update(AdaptiveRule(cfg.id, level)), all);
    case Cleared => ClearKeeps(cfg, s1, cfg.id, e.manual, all);
  }

  lemma ElsewhereKeeps(cfg: AgentConfig, s: System, e: Event, all: bool)
    requires TableOk(s) && SyncOn(cfg, s, all) && e.Elsewhere? && Possible(cfg, s, e)
    requires !Intrudes(cfg, s, e)
    ensures SyncOn(cfg, Step(cfg, s, e), all)
  {
    if Hears(cfg, Tagged(e.other)) {
      if e.publication.Cleared? {
        ClearKeeps(cfg, s, e.other, e.manual, all);
      }
    } else {
      AnnounceFrame(cfg, s, e.other, e.publication, e.manual);
    }
  }

  /** A report publishes exactly when it changes the level, and what it publishes is the new level. */
  lemma EvaluatePublishesLevel(s: Scaler.State, m: Scaler.Metrics, day: Option<Scaler.Baseline>, twoHours: Option<Scaler.Baseline>)
    ensures var (s', p) := Scaler.Evaluate(s, m, day, twoHours);
            && (p.Nothing? <==> s'.level == s.level)
            && (p.Limit? ==> p.level == s'.level > 0)
            && (p.Cleared? ==> s'.level == 0)
  {
  }

  lemma DeliverKeeps(cfg: AgentConfig, s: System, all: bool)
    requires SyncOn(cfg, s, all)
    ensures SyncOn(cfg, Step(cfg, s, Deliver), all)
  {
    if s.inbox != [] {
      var s' := Step(cfg, s, Deliver);
      forall id | Tracked(id) && (all || Touches(s'.inbox, id)) ensures Right(cfg, s', id) {
        if i :| 0 <= i < |s'.inbox| && Id(s'.inbox[i]) == id {
          assert s.inbox[i + 1] == s'.inbox[i];
        }
      }
    }
  }

  lemma ReloadKeepsTruth(cfg: AgentConfig, s: System)
    requires InboxTruthful(cfg, s)
    ensures InboxTruthful(cfg, Step(cfg, s, Reload))
  {
    var s' := Step(cfg, s, Reload);
    forall id | Tracked(id) && Touches(s'.inbox, id) ensures Right(cfg, s', id) {
      ReplayForgetsStart(s.store, s'.store, s.inbox, id);
    }
  }

  /** Every event but a reload; a hiding update is harmless to what is pending unless that is about the hidden rule. */
  lemma StepKeeps(cfg: AgentConfig, s: System, e: Event, all: bool)
    requires TableOk(s) && SyncOn(cfg, s, all) && Possible(cfg, s, e) && !e.Reload?
    requires cfg.id != "" && !Intrudes(cfg, s, e)
    requires Hides(cfg, s, e) ==> !all && !Touches(s.inbox, e.id)
    ensures SyncOn(cfg, Step(cfg, s, e), all)
  {
    match e
    case Create(_) => TableStepKeeps(cfg, s, e, all);
    case Change(_, _) => TableStepKeeps(cfg, s, e, all);
    case Remove(_) => TableStepKeeps(cfg, s, e, all);
    case Report(_, _, _, _) => ReportKeeps(cfg, s, e, all);
    case Elsewhere(_, _, _) => ElsewhereKeeps(cfg, s, e, all);
    case Enforce(ip, body) =>
      PublishKeeps(cfg, s, Tagged(ip), Update(body.(id := Classifier.CLASSIFIER_ID, topic := ip)), all);
    case Deliver => DeliverKeeps(cfg, s, all);
  }

  // ---- the exact conditions ----

  /** Which reloads lose nothing: every heard rule is fetched too or pending, and no adaptive rule is in force unless pending. */
  ghost predicate ReloadSafe(cfg: AgentConfig, s: System) {
    && (forall id :: id in s.table.rows && Heard(cfg, s.table.rows[id]) && !Fetched(cfg, s.table.rows[id]) ==>
          Touches(s.inbox, id))
    && (s.scaler.level > 0 ==> Touches(s.inbox, AUTO_SCALE_ID))
  }

  /**
   A reload over any store content, with any messages still pending, brings the agent in sync exactly
   when those are true and ReloadSafe holds.
   */
  lemma ReloadSyncsIff(cfg: AgentConfig, s: System)
    requires TableOk(s)
    ensures InSync(cfg, Step(cfg, s, Reload)) <==> ReloadSafe(cfg, s) && InboxTruthful(cfg, s)
  {
    var view := FetchView(cfg, s.table.rows);
    var s' := Step(cfg, s, Reload);
    forall id | Tracked(id)
      ensures At(Drained(s'), id) == if Touches(s.inbox, id) then At(Drained(s), id) else At(view, id)
    {
      ReplayForgetsStart(view, s.store, s.inbox, id);
    }
    assert forall id :: Expected(cfg, s', id) == Expected(cfg, s, id);
    if !InboxTruthful(cfg, s) {
      var id :| Tracked(id) && Touches(s.inbox, id) && !Right(cfg, s, id);
      assert !Right(cfg, s', id);
    } else if !ReloadSafe(cfg, s) {
      if s.scaler.level > 0 && !Touches(s.inbox, AUTO_SCALE_ID) {
        assert Tracked(AUTO_SCALE_ID) && AUTO_SCALE_ID !in view && !Right(cfg, s', AUTO_SCALE_ID);
      } else {
        var id :| id in s.table.rows && Heard(cfg, s.table.rows[id]) && !Fetched(cfg, s.table.rows[id]) && !Touches(s.inbox, id);
        assert Tracked(id) && At(view, id) == None && !Right(cfg, s', id);
      }
    }
  }

  /** An update breaks the agreement exactly when it hides the rule from the agent: the stale rule stays until a reload. */
  lemma ChangeKeepsSyncIff(cfg: AgentConfig, s: System, id: int, body: Rule)
    requires TableOk(s) && InSync(cfg, s)
    ensures InSync(cfg, Step(cfg, s, Change(id, body))) <==> !Hides(cfg, s, Change(id, body))
  {
    var e := Change(id, body);
    if Hides(cfg, s, e) {
      var (table, p) := Overwrite(s.table, id, body);
      DrainedAfterPublish(cfg, s.(table := table), p.value.subject, p.value.message);
      assert Tracked(id) && Right(cfg, s, id) && !Right(cfg, Step(cfg, s, e), id);
    } else {
      TableStepKeeps(cfg, s, e, true);
    }
  }

  /**
   Another agent's report breaks the agreement exactly when it intrudes: an agent without a topic, or
   whose topic is the other's ID, takes the other's adaptive rule for its own.
   */
  lemma ElsewhereKeepsSyncIff(cfg: AgentConfig, s: System, e: Event)
    requires TableOk(s) && InSync(cfg, s) && e.Elsewhere? && Possible(cfg, s, e)
    ensures InSync(cfg, Step(cfg, s, e)) <==> !Intrudes(cfg, s, e)
    ensures Hears(cfg, Tagged(e.other)) <==> cfg.topic == "" || cfg.topic == e.other
  {
    if !Intrudes(cfg, s, e) {
      ElsewhereKeeps(cfg, s, e, true);
    } else {
      var s' := Step(cfg, s, e);
      assert Tracked(AUTO_SCALE_ID);
      match e.publication
      case Limit(level) =>
        DrainedAfterPublish(cfg, s, Tagged(e.other), Update(AdaptiveRule(e.other, level)));
        assert !Right(cfg, s', AUTO_SCALE_ID);
      case Cleared =>
        var s1 := Publish(cfg, s, Tagged(e.other), Delete(AUTO_SCALE_ID));
        DrainedAfterPublish(cfg, s, Tagged(e.other), Delete(AUTO_SCALE_ID));
        forall r | r in e.manual ensures At(Drained(s1), r.id) == Some(r) {
          var id :| id in s.table.rows && s.table.rows[id] == r && r.topic == e.other;
          assert Tracked(id) && Right(cfg, s, id);
        }
        RestoringIsIdempotent(cfg, s1, e.other, e.manual);
        PublishAllFrame(cfg, s1, e.other, e.manual);
        assert !Right(cfg, s', AUTO_SCALE_ID);
    }
  }

  /** The agent's own escalations, step-downs and clears leave every database rule as it was. */
  lemma ReportLeavesRules(cfg: AgentConfig, s: System, e: Event, id: int)
    requires TableOk(s) && InSync(cfg, s) && e.Report? && Possible(cfg, s, e)
    requires cfg.id != "" && id > 0
    ensures At(Drained(Step(cfg, s, e)), id) == At(Drained(s), id)
  {
    ReportKeeps(cfg, s, e, true);
    var (scaler, publication) := Scaler.Evaluate(s.scaler, e.metrics, e.day, e.twoHours);
    AnnounceFrame(cfg, s.(scaler := scaler), cfg.id, publication, e.manual);
    assert Tracked(id) && Right(cfg, s, id) && Right(cfg, Step(cfg, s, e), id);
  }

  // ---- runs ----

  function Run(cfg: AgentConfig, s: System, events: seq<Event>): System {
    if events == [] then s
    else Step(cfg, Run(cfg, s, events[..|events| - 1]), events[|events| - 1])
  }

  /** Events that leave an agreeing agent in agreement. */
  ghost predicate Harmless(cfg: AgentConfig, s: System, e: Event) {
    && Possible(cfg, s, e)
    && !Hides(cfg, s, e)
    && !Intrudes(cfg, s, e)
    && (e.Reload? ==> ReloadSafe(cfg, s))
  }

  ghost predicate HarmlessRun(cfg: AgentConfig, s: System, events: seq<Event>) {
    forall n :: 0 <= n < |events| ==> Harmless(cfg, Run(cfg, s, events[..n]), events[n])
  }

  /**
   However creations, changes, removals, load reports of this and other agents, classifier rules,
   deliveries and safe reloads interleave, an agent in agreement stays so: once it has handled its inbox
   it holds exactly the database rules it should hear, and rule -1 exactly when the scaler's level is
   not 0, with that level's limit.
   */
  lemma {:induction false} AgentStaysInSync(cfg: AgentConfig, s: System, events: seq<Event>)
    requires TableOk(s) && InSync(cfg, s)
    requires cfg.id != "" && HarmlessRun(cfg, s, events)
    ensures TableOk(Run(cfg, s, events)) && InSync(cfg, Run(cfg, s, events))
    decreases events
  {
    if events != [] {
      var n := |events| - 1;
      var init, e := events[..n], events[n];
      forall k | 0 <= k < n ensures Harmless(cfg, Run(cfg, s, init[..k]), init[k]) {
        assert init[..k] == events[..k];
      }
      AgentStaysInSync(cfg, s, init);
      var s1 := Run(cfg, s, init);
      TableStaysOk(cfg, s1, e);
      if e.Reload? {
        ReloadSyncsIff(cfg, s1);
      } else {
        StepKeeps(cfg, s1, e, true);
      }
    }
  }

  /** Events after which the pending messages are still true: any reload, and hiding updates nothing is pending about. */
  ghost predicate Honest(cfg: AgentConfig, s: System, e: Event) {
    && Possible(cfg, s, e)
    && !Intrudes(cfg, s, e)
    && (Hides(cfg, s, e) ==> !Touches(s.inbox, e.id))
  }

  ghost predicate HonestRun(cfg: AgentConfig, s: System, events: seq<Event>) {
    forall n :: 0 <= n < |events| ==> Honest(cfg, Run(cfg, s, events[..n]), events[n])
  }

  lemma {:induction false} InboxStaysTruthful(cfg: AgentConfig, s: System, events: seq<Event>)
    requires TableOk(s) && InboxTruthful(cfg, s)
    requires cfg.id != "" && HonestRun(cfg, s, events)
    ensures TableOk(Run(cfg, s, events)) && InboxTruthful(cfg, Run(cfg, s, events))
    decreases events
  {
    if events != [] {
      var n := |events| - 1;
      var init, e := events[..n], events[n];
      forall k | 0 <= k < n ensures Honest(cfg, Run(cfg, s, init[..k]), init[k]) {
        assert init[..k] == events[..k];
      }
      InboxStaysTruthful(cfg, s, init);
      var s1 := Run(cfg, s, init);
      TableStaysOk(cfg, s1, e);
      if e.Reload? {
        ReloadKeepsTruth(cfg, s1);
      } else {
        StepKeeps(cfg, s1, e, false);
      }
    }
  }

  /**
   An agent that starts listening with any store content, against any table and level, is brought in
   sync by a reload after any run of events, exactly when the reload is safe: what it held before, and
   what hiding updates left behind, does not matter.
   */
  lemma {:induction false} ReloadRecoversFromAnything(cfg: AgentConfig, s: System, events: seq<Event>)
    requires TableOk(s) && s.inbox == []
    requires cfg.id != "" && HonestRun(cfg, s, events)
    ensures InSync(cfg, Step(cfg, Run(cfg, s, events), Reload)) <==> ReloadSafe(cfg, Run(cfg, s, events))
  {
    InboxStaysTruthful(cfg, s, events);
    ReloadSyncsIff(cfg, Run(cfg, s, events));
  }

  function Creations(events: seq<Event>): nat {
    if events == [] then 0
    else Creations(events[..|events| - 1]) + if events[|events| - 1].Create? then 1 else 0
  }

  /** What the requests last wrote under an ID: creations are numbered on from the first free serial. */
  function Written(t: Table, events: seq<Event>, id: int): Option<Rule> {
    if events == [] then At(t.rows, id)
    else
      var init := events[..|events| - 1];
      match events[|events| - 1]
      case Create(body) =>
        if id == t.nextId + Creations(init) then Some(body.(id := id)) else Written(t, init, id)
      case Change(i, body) =>
        if i == id && Written(t, init, id).Some? then Some(body.(id := id)) else Written(t, init, id)
      case Remove(i) => if i == id then None else Written(t, init, id)
      case _ => Written(t, init, id)
  }

  lemma OthersLeaveTable(cfg: AgentConfig, s: System, e: Event)
    requires !e.Create? && !e.Change? && !e.Remove?
    ensures Step(cfg, s, e).table == s.table
  {
    match e
    case Report(metrics, day, twoHours, manual) =>
      var (scaler, publication) := Scaler.Evaluate(s.scaler, metrics, day, twoHours);
      AnnounceFrame(cfg, s.(scaler := scaler), cfg.id, publication, manual);
    case Elsewhere(other, publication, manual) => AnnounceFrame(cfg, s, other, publication, manual);
    case _ =>
  }

  /** The table holds exactly what the requests of the run last wrote. */
  lemma {:induction false} TableHoldsLastWrites(cfg: AgentConfig, s: System, events: seq<Event>, id: int)
    ensures At(Run(cfg, s, events).table.rows, id) == Written(s.table, events, id)
    ensures Run(cfg, s, events).table.nextId == s.table.nextId + Creations(events)
    decreases events
  {
    if events != [] {
      var init, e := events[..|events| - 1], events[|events| - 1];
      TableHoldsLastWrites(cfg, s, init, id);
      if !e.Create? && !e.Change? && !e.Remove? {
        OthersLeaveTable(cfg, Run(cfg, s, init), e);
      }
    }
  }

  /** End to end: once its inbox is handled, the agent holds under every database ID the last rule written, if it should hear it. */
  lemma {:induction false} AgentHoldsLastWrites(cfg: AgentConfig, s: System, events: seq<Event>, id: int)
    requires TableOk(s) && InSync(cfg, s) && id > 0
    requires cfg.id != "" && HarmlessRun(cfg, s, events)
    ensures var written := Written(s.table, events, id);
            At(Drained(Run(cfg, s, events)), id) == if written.Some? && Heard(cfg, written.value) then written else None
  {
    AgentStaysInSync(cfg, s, events);
    TableHoldsLastWrites(cfg, s, events, id);
    assert Tracked(id) && Right(cfg, Run(cfg, s, events), id);
  }

  /** After draining, the adaptive limit in force at an agent in agreement is the one of the scaler's level. */
  lemma {:induction false} AdaptiveRuleFollowsLevel(cfg: AgentConfig, s: System, events: seq<Event>)
    requires TableOk(s) && InSync(cfg, s)
    requires cfg.id != "" && HarmlessRun(cfg, s, events)
    requires Run(cfg, s, events).inbox == []
    ensures var s' := Run(cfg, s, events);
            && (AUTO_SCALE_ID in s'.store <==> s'.scaler.level > 0)
            && (s'.scaler.level > 0 ==>
                 && s'.store[AUTO_SCALE_ID].threshold == Scaler.LevelRateLimit(s'.scaler.level)
                 && s'.store[AUTO_SCALE_ID].action == RateLimit)
  {
    AgentStaysInSync(cfg, s, events);
    assert Tracked(AUTO_SCALE_ID) && Right(cfg, Run(cfg, s, events), AUTO_SCALE_ID);
  }

  /**
   A drained reload loses nothing exactly when no adaptive rule is in force and every heard rule is fetched.
   The rules heard but not fetched are, for an agent with a topic, those tagged with its own ID only; for an
   agent without one, all tagged rules.
   */
  lemma DrainedReloadIff(cfg: AgentConfig, s: System)
    requires TableOk(s) && s.inbox == []
    ensures InSync(cfg, Step(cfg, s, Reload)) <==>
              (s.scaler.level == 0
               && forall id :: id in s.table.rows && Heard(cfg, s.table.rows[id]) ==> Fetched(cfg, s.table.rows[id]))
    ensures cfg.topic != "" ==>
              forall r :: (Heard(cfg, r) && !Fetched(cfg, r)) <==> (r.topic == cfg.id && r.topic != "" && r.topic != cfg.topic)
    ensures cfg.topic == "" ==> forall r :: (Heard(cfg, r) && !Fetched(cfg, r)) <==> r.topic != ""
  {
    ReloadSyncsIff(cfg, s);
  }

  /**
   A classifier rule for an address reaches exactly the agents without a topic or named like the address,
   and there it becomes rule -2; nothing else changes.
   */
  lemma ClassifierRuleReaches(cfg: AgentConfig, s: System, ip: string, body: Rule)
    ensures var s', rule := Step(cfg, s, Enforce(ip, body)), body.(id := Classifier.CLASSIFIER_ID, topic := ip);
            && (s'.inbox != s.inbox <==> cfg.topic == "" || cfg.topic == ip || cfg.id == ip)
            && Drained(s') == if s'.inbox != s.inbox then Drained(s)[Classifier.CLASSIFIER_ID := rule] else Drained(s)
  {
    var rule := body.(id := Classifier.CLASSIFIER_ID, topic := ip);
    CopiesActOnce(cfg, Tagged(ip), Update(rule), map[]);
    DrainedAfterPublish(cfg, s, Tagged(ip), Update(rule));
  }
}
