/**
 * The local rule engine: it selects and compiles rules, evaluates each event
 * against them within a time budget, and drives the correlator for the rules
 * that count events or follow a sequence.
 */
module EngineSpec {
  import opened Common
  import opened Rules
  import opened RuleCompiler
  import opened CorrelatorSpec
  import opened Detections

  datatype Detection = Detection(rule: Rule, score: real, groupKey: string)

  function GroupOf(event: Event, groupBy: string): string {
    var g := event.field(groupBy);
    if g == "" then "_default" else g
  }

  /** Two events fall in one group exactly if they agree in the field, where "_default" stands in for a missing one. */
  lemma GroupsApart(a: Event, b: Event, groupBy: string)
    ensures GroupOf(a, groupBy) == GroupOf(b, groupBy) <==>
              || a.field(groupBy) == b.field(groupBy)
              || (a.field(groupBy) == "" && b.field(groupBy) == "_default")
              || (a.field(groupBy) == "_default" && b.field(groupBy) == "")
  {
  }

  ghost predicate CorrelationMatches(rule: Rule, event: Event) {
    && rule.correlation.Some?
    && event.field("event_type") == rule.correlation.value.eventType
    && forall f | f in rule.correlation.value.conditions :: event.field(f) == rule.correlation.value.conditions[f]
  }

  /** A reference is looked up, a string is compared, and any other expected value is ignored. */
  ghost predicate FieldMatches(val: string, expected: Value, refs: ProfileRefs) {
    if expected.Obj? && "ref" in expected.fields && expected.fields["ref"].Str? then InRef(val, expected.fields["ref"].s, refs)
    else expected.Str? ==> val == expected.s
  }

  ghost predicate StepMatches(step: SequenceStep, event: Event, refs: ProfileRefs) {
    && event.field("event_type") == step.eventType
    && forall f | f in step.fieldMatch :: FieldMatches(event.field(f), step.fieldMatch[f], refs)
  }

  /** A counting rule overlooks an event of another type, or with another text in one of its condition fields, and no other. */
  lemma CorrelationMatchesExactly(rule: Rule, event: Event)
    requires rule.correlation.Some?
    ensures var spec := rule.correlation.value;
            !CorrelationMatches(rule, event) <==>
              || spec.eventType != event.field("event_type")
              || exists f :: f in spec.conditions && spec.conditions[f] != event.field(f)
  {
  }

  /** The value of a field is not what a step expects: another text, or not in the list it refers to. */
  predicate Misses(val: string, expected: Value, refs: ProfileRefs) {
    || (expected.Str? && expected.s != val)
    || (expected.Obj? && "ref" in expected.fields && expected.fields["ref"].Str?
        && (expected.fields["ref"].s !in refs || val !in refs[expected.fields["ref"].s]))
  }

  /** A step overlooks an event of another type or with a field that misses; other expected values never matter. */
  lemma StepMatchesExactly(step: SequenceStep, event: Event, refs: ProfileRefs)
    ensures !StepMatches(step, event, refs) <==>
              || step.eventType != event.field("event_type")
              || exists f :: f in step.fieldMatch && Misses(event.field(f), step.fieldMatch[f], refs)
  {
    if exists f :: f in step.fieldMatch && Misses(event.field(f), step.fieldMatch[f], refs) {
      var f :| f in step.fieldMatch && Misses(event.field(f), step.fieldMatch[f], refs);
      assert !FieldMatches(event.field(f), step.fieldMatch[f], refs);
    }
    forall f | f in step.fieldMatch && !FieldMatches(event.field(f), step.fieldMatch[f], refs)
      ensures Misses(event.field(f), step.fieldMatch[f], refs)
    {
    }
  }

  // The log behind the correlator's run

  /** One evaluated event: the references and the rules, in their order, it was evaluated with. */
  datatype Turn = Turn(event: Event, refs: ProfileRefs, rules: seq<Rule>)

  /** All turns so far, and per correlator call the place of its rule among the rules of its turn. */
  datatype Log = Log(turns: seq<Turn>, slots: seq<nat>)

  ghost predicate HasRule(turns: seq<Turn>, op: Op, slot: nat) {
    OfEvent(op) && op.event < |turns| && slot < |turns[op.event].rules|
  }

  /** The call is the one its rule makes for its event, and the event matches. */
  ghost predicate MadeFor(op: Op, slot: nat, turns: seq<Turn>) {
    match op
    case Increment(key, threshold, w, _, event, _) =>
      && HasRule(turns, op, slot)
      && var turn, rule := turns[event], turns[event].rules[slot];
      && CorrelationMatches(rule, turn.event)
      && var spec := rule.correlation.value;
         key == (rule.id, GroupOf(turn.event, spec.groupBy)) && threshold == spec.countThreshold && w == spec.timeframeSec
    case Advance(key, step, total, w, _, event, _) =>
      && HasRule(turns, op, slot)
      && var turn, rule := turns[event], turns[event].rules[slot];
      && rule.correlation.None? && rule.sequence.Some?
      && var spec := rule.sequence.value;
         && key == (rule.id, GroupOf(turn.event, spec.groupBy)) && total == |spec.steps| && w == spec.timeframeSec
         && step < total && StepMatches(spec.steps[step], turn.event, turn.refs)
    case Reset(_) => true
    case Cleanup(_) => true
  }

  ghost predicate ResetNext(tr: Trace, n: nat) {
    Fires(tr, n) ==> n + 1 < |tr.ops| && tr.ops[n+1] == Reset(tr.ops[n].key)
  }

  /** A firing call is followed at once by the reset of its counter. */
  ghost predicate ResetsAtOnce(tr: Trace) {
    forall n: nat | n < |tr.ops| :: ResetNext(tr, n)
  }

  /** Events are evaluated in turn, rules in their order, and a counting rule makes one call per event. */
  ghost predicate Follows(a: Op, i: nat, b: Op, j: nat) {
    OfEvent(a) && OfEvent(b) ==>
      a.event < b.event || (a.event == b.event && (i < j || (i == j && a.Advance? && b.Advance?)))
  }

  ghost predicate InOrder(tr: Trace, slots: seq<nat>)
    requires |slots| == |tr.ops|
  {
    forall m, n | 0 <= m < n < |tr.ops| :: Follows(tr.ops[m], slots[m], tr.ops[n], slots[n])
  }

  /** The log the engine keeps of its calls. */
  ghost predicate Logged(tr: Trace, log: Log) {
    && |tr.states| == |tr.ops| + 1 && |log.slots| == |tr.ops|
    && (forall n | 0 <= n < |tr.ops| :: MadeFor(tr.ops[n], log.slots[n], log.turns))
    && ResetsAtOnce(tr) && InOrder(tr, log.slots)
  }

  lemma ResetsAtOnceIsEnough(tr: Trace)
    requires ResetsAtOnce(tr)
    ensures ResetAfterFiring(tr)
  {
    forall i, j, key | 0 <= i < j < |tr.ops| && Fires(tr, i) && CountsFor(tr, i, key) && CountsFor(tr, j, key)
      ensures ResetBetween(tr, i, j, key)
    {
      assert ResetNext(tr, i);
      assert tr.ops[i+1] == Reset(key);
    }
  }

  /** The rule and the event behind call n. */
  function RuleAt(tr: Trace, log: Log, n: nat): Rule
    requires n < |tr.ops| == |log.slots| && HasRule(log.turns, tr.ops[n], log.slots[n])
  {
    log.turns[tr.ops[n].event].rules[log.slots[n]]
  }

  function TurnAt(tr: Trace, log: Log, n: nat): Turn
    requires n < |tr.ops| == |log.slots| && HasRule(log.turns, tr.ops[n], log.slots[n])
  {
    log.turns[tr.ops[n].event]
  }

  lemma LoggedConforms(tr: Trace, log: Log)
    requires Logged(tr, log)
    ensures ResetAfterFiring(tr) && EventsInOrder(tr) && StepsInRange(tr)
  {
    ResetsAtOnceIsEnough(tr);
    forall i, j | 0 <= i < j < |tr.ops| && OfEvent(tr.ops[i]) && OfEvent(tr.ops[j])
      ensures tr.ops[i].event <= tr.ops[j].event
    {
      assert Follows(tr.ops[i], log.slots[i], tr.ops[j], log.slots[j]);
    }
    forall n | 0 <= n < |tr.ops| && tr.ops[n].Advance?
      ensures tr.ops[n].step < tr.ops[n].total
    {
      assert MadeFor(tr.ops[n], log.slots[n], log.turns);
    }
  }

  // Counting detections

  /** The evaluation at m was made by a rule with this id, for an event that matches it as it was then. */
  ghost predicate CountedBy(tr: Trace, log: Log, m: nat, id: string, group: string) {
    && m < |tr.ops| == |log.slots| && HasRule(log.turns, tr.ops[m], log.slots[m])
    && var rule, event := RuleAt(tr, log, m), TurnAt(tr, log, m).event;
       rule.id == id && CorrelationMatches(rule, event) && GroupOf(event, rule.correlation.value.groupBy) == group
  }

  /**
   * Whatever reloads and repeated ids there were, a counting detection stands on
   * evaluations by rules with its id, each for an event that matches the rule as it
   * was then and falls in the detection's group; on exactly max(1, count_threshold)
   * of them unless an open window already held as many.
   */
  lemma CountingDetectionsStand(tr: Trace, cap: int, log: Log, n: nat)
    requires Executes(tr, cap) && Logged(tr, log) && n < |tr.ops| && Fires(tr, n)
    ensures HasRule(log.turns, tr.ops[n], log.slots[n]) && RuleAt(tr, log, n).correlation.Some?
    ensures var rule := RuleAt(tr, log, n);
            var spec := rule.correlation.value;
            var w := CounterTrail(tr, n + 1, tr.ops[n].key);
            && Increasing(w) && |w| > 0 && w[|w|-1] == n
            && (forall i | 0 <= i < |w| :: CountedBy(tr, log, w[i], rule.id, tr.ops[n].key.1))
            && tr.ops[n].now - tr.ops[w[0]].now <= Max(0, Window(spec.timeframeSec))
            && |w| >= Max(1, spec.countThreshold)
            && (|w| == Max(1, spec.countThreshold) <==> !AlreadyReached(tr, n))
  {
    LoggedConforms(tr, log);
    CountingDetectionWitnessed(tr, cap, n);
    assert MadeFor(tr.ops[n], log.slots[n], log.turns);
    var w := CounterTrail(tr, n + 1, tr.ops[n].key);
    forall i | 0 <= i < |w|
      ensures CountedBy(tr, log, w[i], tr.ops[n].key.0, tr.ops[n].key.1)
    {
      assert CountsFor(tr, w[i], tr.ops[n].key) && MadeFor(tr.ops[w[i]], log.slots[w[i]], log.turns);
    }
  }

  /** Among these rules the id of `rule` belongs to `rule` alone, and at most once. */
  ghost predicate Sole(rules: seq<Rule>, rule: Rule) {
    && (forall p | 0 <= p < |rules| && rules[p].id == rule.id :: rules[p] == rule)
    && (forall p, q | 0 <= p < q < |rules| && rules[p].id == rule.id :: rules[q].id != rule.id)
  }

  /** While events `from` to `to` were evaluated, no other rule had the id of `rule`. */
  ghost predicate Unchanged(log: Log, from: nat, to: nat, rule: Rule) {
    forall e | from <= e <= to && e < |log.turns| :: Sole(log.turns[e].rules, rule)
  }

  /** Since the first of the witnesses w of a detection at call n, no other rule had the id of its rule. */
  ghost predicate RuleUnchanged(tr: Trace, log: Log, w: seq<nat>, n: nat) {
    && n < |tr.ops| == |log.slots| && HasRule(log.turns, tr.ops[n], log.slots[n])
    && w != [] && w[0] < |tr.ops| && OfEvent(tr.ops[w[0]])
    && Unchanged(log, tr.ops[w[0]].event, tr.ops[n].event, RuleAt(tr, log, n))
  }

  ghost predicate SoleAt(tr: Trace, log: Log, m: nat, rule: Rule) {
    && m < |tr.ops| == |log.slots| && HasRule(log.turns, tr.ops[m], log.slots[m])
    && RuleAt(tr, log, m) == rule && Sole(TurnAt(tr, log, m).rules, rule)
  }

  /** All the calls w were made by the one rule. */
  ghost predicate AllBy(tr: Trace, log: Log, w: seq<nat>, rule: Rule) {
    forall i | 0 <= i < |w| :: SoleAt(tr, log, w[i], rule)
  }

  /** Call a comes before call b, and its event does not come after that of b. */
  ghost predicate Earlier(tr: Trace, a: nat, b: nat) {
    a < b < |tr.ops| && OfEvent(tr.ops[a]) && OfEvent(tr.ops[b]) && tr.ops[a].event <= tr.ops[b].event
  }

  ghost predicate StrictlyEarlier(tr: Trace, a: nat, b: nat) {
    Earlier(tr, a, b) && tr.ops[a].event < tr.ops[b].event
  }

  /**
   * If no other rule had its id since the first of them, a counting detection stands
   * on exactly max(1, count_threshold) different events, in order, each matching the
   * detection's rule and group, the last of them the firing one, within the timeframe.
   */
  lemma CountingDetectionsAreReal(tr: Trace, cap: int, log: Log, n: nat)
    requires Executes(tr, cap) && Logged(tr, log) && n < |tr.ops| && Fires(tr, n)
    requires RuleUnchanged(tr, log, CounterTrail(tr, n + 1, tr.ops[n].key), n)
    ensures RuleAt(tr, log, n).correlation.Some?
    ensures var rule := RuleAt(tr, log, n);
            var spec := rule.correlation.value;
            var w := CounterTrail(tr, n + 1, tr.ops[n].key);
            && |w| == Max(1, spec.countThreshold) && w[|w|-1] == n
            && (forall i | 0 <= i < |w| :: CountedBy(tr, log, w[i], rule.id, tr.ops[n].key.1)) && AllBy(tr, log, w, rule)
            && (forall i, j | 0 <= i < j < |w| :: StrictlyEarlier(tr, w[i], w[j]))
            && tr.ops[n].now - tr.ops[w[0]].now <= Max(0, Window(spec.timeframeSec))
  {
    LoggedConforms(tr, log);
    CountingDetectionsStand(tr, cap, log, n);
    CountingDetectionWitnessed(tr, cap, n);
    var rule, key, w := RuleAt(tr, log, n), tr.ops[n].key, CounterTrail(tr, n + 1, tr.ops[n].key);
    forall i | 0 <= i < |w|
      ensures SoleAt(tr, log, w[i], rule)
    {
      assert CountedBy(tr, log, w[i], rule.id, key.1);
      WitnessIsSole(tr, log, w[0], w[i], n, rule);
    }
    forall i, j | 0 <= i < j < |w|
      ensures StrictlyEarlier(tr, w[i], w[j])
    {
      assert SoleAt(tr, log, w[i], rule) && SoleAt(tr, log, w[j], rule);
      assert CountsFor(tr, w[i], key) && CountsFor(tr, w[j], key);
      assert Follows(tr.ops[w[i]], log.slots[w[i]], tr.ops[w[j]], log.slots[w[j]]);
    }
    assert |w| > 1 ==> MadeFor(tr.ops[w[|w|-2]], log.slots[w[|w|-2]], log.turns);
    assert MadeFor(tr.ops[n], log.slots[n], log.turns);
  }

  lemma WitnessIsSole(tr: Trace, log: Log, first: nat, m: nat, n: nat, rule: Rule)
    requires Logged(tr, log) && EventsInOrder(tr) && first <= m <= n < |tr.ops|
    requires OfEvent(tr.ops[first]) && OfEvent(tr.ops[n]) && HasRule(log.turns, tr.ops[m], log.slots[m])
    requires RuleAt(tr, log, m).id == rule.id && Unchanged(log, tr.ops[first].event, tr.ops[n].event, rule)
    ensures SoleAt(tr, log, m, rule)
  {
    assert tr.ops[first].event <= tr.ops[m].event <= tr.ops[n].event;
    assert Sole(log.turns[tr.ops[m].event].rules, rule);
  }

  /**
   * Across a reload before call m that gives the id its present rule, a detection stands
   * on that rule alone exactly when no count was carried over from before the reload.
   */
  lemma ReloadedDetectionsExactly(tr: Trace, cap: int, log: Log, n: nat, m: nat, e: nat)
    requires Executes(tr, cap) && Logged(tr, log) && m <= n < |tr.ops| && Fires(tr, n)
    requires HasRule(log.turns, tr.ops[n], log.slots[n])
    requires forall p | 0 <= p < |tr.ops| && OfEvent(tr.ops[p]) :: p < m <==> tr.ops[p].event < e
    requires forall t | 0 <= t < |log.turns| && t < e :: RuleAt(tr, log, n) !in log.turns[t].rules
    requires Unchanged(log, e, tr.ops[n].event, RuleAt(tr, log, n))
    ensures AllBy(tr, log, CounterTrail(tr, n + 1, tr.ops[n].key), RuleAt(tr, log, n)) <==> !Carried(tr, m, n + 1, tr.ops[n].key)
  {
    var rule, key, w := RuleAt(tr, log, n), tr.ops[n].key, CounterTrail(tr, n + 1, tr.ops[n].key);
    LoggedConforms(tr, log);
    CountingDetectionsStand(tr, cap, log, n);
    assert StepAt(tr, n);
    CarriedExactly(tr, cap, m, n + 1, key);
    assert CountedBy(tr, log, w[0], rule.id, key.1);
    if w[0] < m {
      assert RuleAt(tr, log, w[0]) in log.turns[tr.ops[w[0]].event].rules;
      assert !SoleAt(tr, log, w[0], rule);
    } else {
      forall i | 0 <= i < |w|
        ensures SoleAt(tr, log, w[i], rule)
      {
        assert CountedBy(tr, log, w[i], rule.id, key.1);
        assert w[0] <= w[i] <= n;
        WitnessIsSole(tr, log, w[0], w[i], n, rule);
      }
    }
  }

  // A reload in the middle of a count

  function Fixed(eventType: string): Event {
    Event(f => if f == "event_type" then eventType else "all")
  }

  function Counting(eventType: string, threshold: int): Rule {
    Rule("r", "high", "none", 1.0, [], Some(CorrelationSpec(eventType, "host", threshold, 60, map[])), None)
  }

  /** A threshold of three for "a" events becomes one of two for "b" events, between an "a" and a "b" event. */
  function ReloadedLog(): Log {
    Log([Turn(Fixed("a"), map[], [Counting("a", 3)]), Turn(Fixed("b"), map[], [Counting("b", 2)])], [0, 0, 0])
  }

  function WithCount(n: int): State {
    State(map[("r", "all") := Counter(n, 0, 0, Window(60))], map[])
  }

  function ReloadedRun(): Trace {
    var key := ("r", "all");
    Trace([Increment(key, 3, 60, 0, 0, None), Increment(key, 2, 60, 0, 1, None), Reset(key)],
          [EMPTY, WithCount(1), WithCount(2), EMPTY])
  }

  lemma ReloadedExecutes(cap: int)
    requires cap >= 1
    ensures Executes(ReloadedRun(), cap) && Fires(ReloadedRun(), 1) && !Fires(ReloadedRun(), 0)
  {
    var tr := ReloadedRun();
    assert StepAt(tr, 0) && LegalAt(tr, 0, cap);
    assert Bumped(Counter(1, 0, 0, Window(60)), Window(60), 0) == Counter(2, 0, 0, Window(60));
    assert tr.states[2].counters == tr.states[1].counters[("r", "all") := Counter(2, 0, 0, Window(60))];
    assert StepAt(tr, 1) && LegalAt(tr, 1, cap);
    assert tr.states[3].counters == tr.states[2].counters - {("r", "all")};
    assert StepAt(tr, 2) && LegalAt(tr, 2, cap);
  }

  lemma ReloadedLogged()
    requires !Fires(ReloadedRun(), 0)
    ensures Logged(ReloadedRun(), ReloadedLog())
  {
    ReloadedResets();
    ReloadedMadeFor();
    assert InOrder(ReloadedRun(), ReloadedLog().slots);
  }

  lemma ReloadedResets()
    requires !Fires(ReloadedRun(), 0)
    ensures ResetsAtOnce(ReloadedRun())
  {
    var tr := ReloadedRun();
    assert ResetNext(tr, 0) && ResetNext(tr, 1) && ResetNext(tr, 2);
  }

  lemma ReloadedMadeFor()
    ensures forall n | 0 <= n < 3 :: MadeFor(ReloadedRun().ops[n], 0, ReloadedLog().turns)
  {
    var ops, turns := ReloadedRun().ops, ReloadedLog().turns;
    assert turns[0].rules[0] == Counting("a", 3) && turns[1].rules[0] == Counting("b", 2);
    assert MadeFor(ops[0], 0, turns) && MadeFor(ops[1], 0, turns) && MadeFor(ops[2], 0, turns);
  }

  /** The reloaded rule fires on its first matching event: the count of the old rule is carried over to it. */
  lemma ReloadCarriesCount(cap: int)
    requires cap >= 1
    ensures var tr, log := ReloadedRun(), ReloadedLog();
            && Executes(tr, cap) && Logged(tr, log) && Fires(tr, 1)
            && CounterTrail(tr, 2, ("r", "all")) == [0, 1] && Carried(tr, 1, 2, ("r", "all"))
            && CorrelationMatches(RuleAt(tr, log, 1), TurnAt(tr, log, 1).event)
            && !CorrelationMatches(RuleAt(tr, log, 1), TurnAt(tr, log, 0).event)
  {
    ReloadedExecutes(cap);
    ReloadedLogged();
    var tr := ReloadedRun();
    assert CounterTrail(tr, 1, ("r", "all")) == [0];
    assert KeepsCounter(tr, 1, ("r", "all"));
  }

  // Sequence detections

  /** The evaluation at m offered step i of a rule with this id, for an event that matches it as it was then. */
  ghost predicate SteppedBy(tr: Trace, log: Log, m: nat, i: nat, id: string, group: string) {
    && m < |tr.ops| == |log.slots| && tr.ops[m].Advance? && HasRule(log.turns, tr.ops[m], log.slots[m])
    && var rule, turn := RuleAt(tr, log, m), TurnAt(tr, log, m);
       && rule.id == id && rule.sequence.Some? && i < |rule.sequence.value.steps|
       && StepMatches(rule.sequence.value.steps[i], turn.event, turn.refs)
       && GroupOf(turn.event, rule.sequence.value.groupBy) == group
  }

  /** The calls w offered the steps 0, 1, ... of rules with this id, in order. */
  ghost predicate SteppedInOrder(tr: Trace, log: Log, w: seq<nat>, id: string, group: string) {
    && (forall i | 0 <= i < |w| :: SteppedBy(tr, log, w[i], i, id, group))
    && (forall i, j | 0 <= i < j < |w| :: Earlier(tr, w[i], w[j]))
  }

  /**
   * Whatever reloads and repeated ids there were, a sequence detection has, for every
   * step of its rule, an evaluation of that step by a rule with its id, for an event
   * that matches it as it was then; in step order, at nondecreasing events, and
   * within the timeframe of the first.
   */
  lemma SequenceDetectionsStand(tr: Trace, cap: int, log: Log, n: nat)
    requires Executes(tr, cap) && Logged(tr, log) && n < |tr.ops| && Completes(tr, n)
    ensures HasRule(log.turns, tr.ops[n], log.slots[n]) && RuleAt(tr, log, n).sequence.Some?
    ensures var rule, w := RuleAt(tr, log, n), PriorSteps(tr, n) + [n];
            && |w| == |rule.sequence.value.steps|
            && SteppedInOrder(tr, log, w, rule.id, tr.ops[n].key.1)
            && tr.ops[n].now - tr.ops[w[0]].now <= Max(0, Window(rule.sequence.value.timeframeSec))
  {
    LoggedConforms(tr, log);
    SequenceDetectionWitnessed(tr, cap, n);
    assert MadeFor(tr.ops[n], log.slots[n], log.turns);
    var w := PriorSteps(tr, n) + [n];
    forall i | 0 <= i < |w|
      ensures SteppedBy(tr, log, w[i], i, tr.ops[n].key.0, tr.ops[n].key.1)
    {
      assert MatchesStep(tr, w[i], tr.ops[n].key, i) && MadeFor(tr.ops[w[i]], log.slots[w[i]], log.turns);
    }
  }

  /** No event evaluated so far matches two consecutive steps. */
  ghost predicate NoDoubleStep(turns: seq<Turn>, steps: seq<SequenceStep>) {
    forall e, i | 0 <= e < |turns| && 0 <= i < |steps| - 1 :: !MatchesBoth(turns[e], steps, i)
  }

  ghost predicate MatchesBoth(turn: Turn, steps: seq<SequenceStep>, i: nat)
    requires i + 1 < |steps|
  {
    StepMatches(steps[i], turn.event, turn.refs) && StepMatches(steps[i+1], turn.event, turn.refs)
  }

  lemma WitnessesAreSole(tr: Trace, log: Log, w: seq<nat>, n: nat)
    requires Logged(tr, log) && EventsInOrder(tr) && RuleUnchanged(tr, log, w, n) && w[|w|-1] == n
    requires SteppedInOrder(tr, log, w, RuleAt(tr, log, n).id, tr.ops[n].key.1)
    ensures AllBy(tr, log, w, RuleAt(tr, log, n))
  {
    var rule := RuleAt(tr, log, n);
    forall i | 0 <= i < |w|
      ensures SoleAt(tr, log, w[i], rule)
    {
      assert SteppedBy(tr, log, w[i], i, rule.id, tr.ops[n].key.1);
      assert i > 0 ==> Earlier(tr, w[0], w[i]);
      assert i < |w| - 1 ==> Earlier(tr, w[i], w[|w|-1]);
      WitnessIsSole(tr, log, w[0], w[i], n, rule);
    }
  }

  lemma StepsStrict(tr: Trace, log: Log, w: seq<nat>, rule: Rule, group: string, i: nat, j: nat)
    requires SteppedInOrder(tr, log, w, rule.id, group) && AllBy(tr, log, w, rule) && i < j < |w|
    requires rule.sequence.Some? && |w| <= |rule.sequence.value.steps| && NoDoubleStep(log.turns, rule.sequence.value.steps)
    ensures StrictlyEarlier(tr, w[i], w[j])
  {
    var next := i + 1;
    assert SteppedBy(tr, log, w[i], i, rule.id, group) && SteppedBy(tr, log, w[next], next, rule.id, group);
    assert SoleAt(tr, log, w[i], rule) && SoleAt(tr, log, w[next], rule);
    assert !MatchesBoth(TurnAt(tr, log, w[i]), rule.sequence.value.steps, i);
    assert Earlier(tr, w[i], w[next]) && (next < j ==> Earlier(tr, w[next], w[j]));
  }

  /**
   * If no other rule had its id since the first of them, a sequence detection has for
   * every step of its rule an event that matches the step, in the detection's group
   * and in order: at nondecreasing events, and strictly increasing ones if no event
   * matches two consecutive steps.
   */
  lemma SequenceDetectionsAreReal(tr: Trace, cap: int, log: Log, n: nat)
    requires Executes(tr, cap) && Logged(tr, log) && n < |tr.ops| && Completes(tr, n)
    requires RuleUnchanged(tr, log, PriorSteps(tr, n) + [n], n)
    ensures RuleAt(tr, log, n).sequence.Some?
    ensures var rule, w := RuleAt(tr, log, n), PriorSteps(tr, n) + [n];
            var spec := rule.sequence.value;
            && |w| == |spec.steps|
            && SteppedInOrder(tr, log, w, rule.id, tr.ops[n].key.1) && AllBy(tr, log, w, rule)
            && (NoDoubleStep(log.turns, spec.steps) ==> forall i, j | 0 <= i < j < |w| :: StrictlyEarlier(tr, w[i], w[j]))
            && tr.ops[n].now - tr.ops[w[0]].now <= Max(0, Window(spec.timeframeSec))
  {
    LoggedConforms(tr, log);
    SequenceDetectionsStand(tr, cap, log, n);
    var rule, w := RuleAt(tr, log, n), PriorSteps(tr, n) + [n];
    WitnessesAreSole(tr, log, w, n);
    if NoDoubleStep(log.turns, rule.sequence.value.steps) {
      forall i, j | 0 <= i < j < |w|
        ensures StrictlyEarlier(tr, w[i], w[j])
      {
        StepsStrict(tr, log, w, rule, tr.ops[n].key.1, i, j);
      }
    }
  }
}
