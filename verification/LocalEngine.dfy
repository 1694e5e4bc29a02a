/** The engine object: rule selection, compilation and the evaluation loop. */
module LocalEngine {
  import opened Common
  import opened Rules
  import opened RuleCompiler
  import opened CorrelatorSpec
  import opened CorrelatorImpl
  import opened Detections
  import opened EngineSpec

  // How the log of calls grows

  ghost predicate Grows(before: Trace, after: Trace) {
    && |before.states| == |before.ops| + 1 && |after.states| == |after.ops| + 1
    && before.ops <= after.ops && before.states <= after.states
  }

  /** Every call so far was made for an earlier event, or for event e and one of the rules before rule i. */
  ghost predicate Reached(tr: Trace, slots: seq<nat>, e: nat, i: nat) {
    |slots| == |tr.ops| && forall n | 0 <= n < |tr.ops| :: Precedes(tr.ops[n], slots[n], e, i)
  }

  ghost predicate Precedes(op: Op, slot: nat, e: nat, i: nat) {
    OfEvent(op) ==> op.event < e || (op.event == e && slot < i)
  }

  /** The same, but for steps offered by rule i itself. */
  ghost predicate Stepping(tr: Trace, slots: seq<nat>, e: nat, i: nat) {
    |slots| == |tr.ops| && forall n | 0 <= n < |tr.ops| ::
      Precedes(tr.ops[n], slots[n], e, i) || (tr.ops[n].Advance? && tr.ops[n].event == e && slots[n] == i)
  }

  lemma ExtendLogged(tr: Trace, log: Log, op: Op, slot: nat)
    requires Logged(tr, log) && MadeFor(op, slot, log.turns) && !(op.Increment? && Output(Current(tr), op))
    requires OfEvent(op) ==> if op.Increment? then Reached(tr, log.slots, op.event, slot) else Stepping(tr, log.slots, op.event, slot)
    ensures Grows(tr, Extend(tr, op))
    ensures Logged(Extend(tr, op), log.(slots := log.slots + [slot]))
  {
    var tr' := Extend(tr, op);
    forall n: nat | n < |tr'.ops|
      ensures ResetNext(tr', n)
    {
      assert n < |tr.ops| ==> ResetNext(tr, n) && (Fires(tr', n) <==> Fires(tr, n));
    }
    ExtendOrder(tr, log.slots, op, slot);
  }

  lemma ExtendOrder(tr: Trace, slots: seq<nat>, op: Op, slot: nat)
    requires |tr.states| > 0 && |slots| == |tr.ops| && InOrder(tr, slots)
    requires OfEvent(op) ==> if op.Increment? then Reached(tr, slots, op.event, slot) else Stepping(tr, slots, op.event, slot)
    ensures InOrder(Extend(tr, op), slots + [slot])
  {
    var tr', slots' := Extend(tr, op), slots + [slot];
    forall m, n | 0 <= m < n < |tr'.ops|
      ensures Follows(tr'.ops[m], slots'[m], tr'.ops[n], slots'[n])
    {
      if n < |tr.ops| {
        assert Follows(tr.ops[m], slots[m], tr.ops[n], slots[n]);
      } else if OfEvent(op) {
        assert op.Increment? ==> Precedes(tr.ops[m], slots[m], op.event, slot);
      }
    }
  }

  lemma ExtendFired(tr: Trace, log: Log, op: Op, slot: nat)
    requires Logged(tr, log) && op.Increment? && MadeFor(op, slot, log.turns)
    requires Reached(tr, log.slots, op.event, slot)
    ensures Grows(tr, Extend(Extend(tr, op), Reset(op.key)))
    ensures Logged(Extend(Extend(tr, op), Reset(op.key)), log.(slots := log.slots + [slot, 0]))
  {
    var mid := Extend(tr, op);
    var tr' := Extend(mid, Reset(op.key));
    forall n: nat | n < |tr'.ops|
      ensures ResetNext(tr', n)
    {
      assert n < |tr.ops| ==> ResetNext(tr, n) && (Fires(tr', n) <==> Fires(tr, n));
    }
    ExtendOrder(tr, log.slots, op, slot);
    ExtendOrder(mid, log.slots + [slot], Reset(op.key), 0);
    assert log.slots + [slot] + [0] == log.slots + [slot, 0];
  }

  /** A new event starts a turn that no call was made for yet. */
  lemma TurnStarts(tr: Trace, log: Log, turn: Turn)
    requires Logged(tr, log)
    ensures Logged(tr, log.(turns := log.turns + [turn])) && Reached(tr, log.slots, |log.turns|, 0)
  {
    var turns := log.turns + [turn];
    forall n | 0 <= n < |tr.ops|
      ensures MadeFor(tr.ops[n], log.slots[n], turns) && Precedes(tr.ops[n], log.slots[n], |log.turns|, 0)
    {
      assert MadeFor(tr.ops[n], log.slots[n], log.turns);
    }
  }

  // What one rule does with one event

  ghost predicate CountsEvent(op: Op, rule: Rule, event: Event)
    requires rule.correlation.Some?
  {
    && op.Increment? && CorrelationMatches(rule, event)
    && var spec := rule.correlation.value;
       op.key == (rule.id, GroupOf(event, spec.groupBy)) && op.threshold == spec.countThreshold && op.windowSec == spec.timeframeSec
  }

  /** The log after a counting call: one that fires is followed by its reset. */
  ghost function AfterCount(tr: Trace, op: Op): Trace
    requires |tr.states| > 0 && op.Increment?
  {
    if Output(Current(tr), op) then Extend(Extend(tr, op), Reset(op.key)) else Extend(tr, op)
  }

  ghost predicate CorrelationOutcome(rule: Rule, event: Event, before: Trace, after: Trace, found: Option<Detection>)
    requires rule.correlation.Some? && |before.states| > 0
  {
    if !CorrelationMatches(rule, event) then after == before && found.None?
    else exists op: Op :: CountsEvent(op, rule, event) && after == AfterCount(before, op)
           && found == if Output(Current(before), op) then Some(Detection(rule, rule.threshold, op.key.1)) else None
  }

  /** Some call from `from` on offers step to its tracker. */
  ghost predicate Offered(tr: Trace, from: nat, step: nat) {
    exists n | from <= n < |tr.ops| :: tr.ops[n].Advance? && tr.ops[n].step == step
  }

  /** Call n of the run on one event offers a later step than the calls before it. */
  ghost predicate InStepOrder(tr: Trace, from: nat, n: nat, upTo: nat)
    requires n < |tr.ops|
  {
    && tr.ops[n].Advance? && tr.ops[n].step < upTo
    && forall m | from <= m < n :: tr.ops[m].Advance? && tr.ops[m].step < tr.ops[n].step
  }

  /**
   * What a sequence rule does with one event, up to step upTo: it offers the
   * matching steps in ascending order and stops at one that completes the sequence.
   */
  ghost predicate SequenceOutcome(spec: SequenceSpec, event: Event, refs: ProfileRefs, before: Trace, after: Trace, complete: bool, upTo: nat)
    requires upTo <= |spec.steps|
  {
    && Grows(before, after)
    && (forall s | 0 <= s < upTo && StepMatches(spec.steps[s], event, refs) :: Offered(after, |before.ops|, s))
    && (forall n | |before.ops| <= n < |after.ops| :: InStepOrder(after, |before.ops|, n, upTo))
    && (forall n: nat | |before.ops| <= n < |after.ops| :: Completes(after, n) <==> complete && n == |after.ops| - 1)
    && (complete ==> |before.ops| < |after.ops|)
  }

  lemma SequenceOutcomeSkip(spec: SequenceSpec, event: Event, refs: ProfileRefs, before: Trace, after: Trace, s: nat)
    requires s < |spec.steps| && SequenceOutcome(spec, event, refs, before, after, false, s)
    requires !StepMatches(spec.steps[s], event, refs)
    ensures SequenceOutcome(spec, event, refs, before, after, false, s + 1)
  {
    var next := s + 1;
    forall n | |before.ops| <= n < |after.ops|
      ensures InStepOrder(after, |before.ops|, n, next)
    {
      assert InStepOrder(after, |before.ops|, n, s);
    }
  }

  lemma SequenceOutcomeOffer(spec: SequenceSpec, event: Event, refs: ProfileRefs, before: Trace, mid: Trace, op: Op, s: nat)
    requires s < |spec.steps| && SequenceOutcome(spec, event, refs, before, mid, false, s)
    requires op.Advance? && op.step == s
    ensures SequenceOutcome(spec, event, refs, before, Extend(mid, op), Output(Current(mid), op), s + 1)
  {
    var after, from, next := Extend(mid, op), |before.ops|, s + 1;
    assert after.ops[|mid.ops|] == op;
    forall i | 0 <= i < s + 1 && StepMatches(spec.steps[i], event, refs)
      ensures Offered(after, from, i)
    {
      if i < s {
        var n :| from <= n < |mid.ops| && mid.ops[n].Advance? && mid.ops[n].step == i;
        assert after.ops[n] == mid.ops[n];
      }
    }
    forall n | from <= n < |after.ops|
      ensures InStepOrder(after, from, n, next)
    {
      if n < |mid.ops| {
        assert InStepOrder(mid, from, n, s);
      } else {
        forall m | from <= m < n
          ensures after.ops[m].Advance? && after.ops[m].step < s
        {
          assert InStepOrder(mid, from, m, s);
        }
      }
    }
    forall n: nat | from <= n < |mid.ops|
      ensures !Completes(after, n)
    {
      assert Completes(after, n) <==> Completes(mid, n);
    }
  }

  /** What any rule does with one event. */
  ghost predicate RuleOutcome(cr: CompiledRule, event: Event, refs: ProfileRefs, lib: Lib, before: Trace, after: Trace,
                              found: Option<Detection>)
    requires |before.states| > 0
  {
    var r := cr.rule;
    if r.correlation.Some? then CorrelationOutcome(r, event, before, after, found)
    else if r.sequence.Some? then
      && (exists upTo: nat | upTo <= |r.sequence.value.steps| ::
            && SequenceOutcome(r.sequence.value, event, refs, before, after, found.Some?, upTo)
            && (found.None? ==> upTo == |r.sequence.value.steps|))
      && (found.Some? ==> found.value == Detection(r, r.threshold, GroupOf(event, r.sequence.value.groupBy)))
    else
      && after == before
      && var score := Score(r.conditions, event, refs, lib);
         found == if |r.conditions| > 0 && score >= r.threshold then Some(Detection(r, score, "")) else None
  }

  /** What one pass over the rules does: rule i of the first `cut` takes traces[i] to traces[i+1]. */
  ghost predicate PassStep(compiled: seq<CompiledRule>, level: int, event: Event, refs: ProfileRefs, lib: Lib,
                           traces: seq<Trace>, outcomes: seq<Option<Detection>>, i: nat)
    requires i < |compiled| && i < |outcomes| && i + 1 < |traces| && |traces[i].states| > 0
  {
    if SeverityAllowed(level, compiled[i].rule.severity) then
      RuleOutcome(compiled[i], event, refs, lib, traces[i], traces[i+1], outcomes[i])
    else
      traces[i+1] == traces[i] && outcomes[i].None?
  }

  ghost predicate Pass(compiled: seq<CompiledRule>, level: int, event: Event, refs: ProfileRefs, lib: Lib,
                       traces: seq<Trace>, outcomes: seq<Option<Detection>>, cut: nat)
  {
    && cut <= |compiled| && |outcomes| == cut && |traces| == cut + 1
    && (forall i | 0 <= i <= cut :: |traces[i].states| > 0)
    && (forall i | 0 <= i < cut :: PassStep(compiled, level, event, refs, lib, traces, outcomes, i))
  }

  lemma PassExtends(compiled: seq<CompiledRule>, level: int, event: Event, refs: ProfileRefs, lib: Lib,
                    traces: seq<Trace>, outcomes: seq<Option<Detection>>, cut: nat, after: Trace, found: Option<Detection>)
    requires Pass(compiled, level, event, refs, lib, traces, outcomes, cut) && cut < |compiled|
    requires |after.states| > 0
    requires if SeverityAllowed(level, compiled[cut].rule.severity) then
               RuleOutcome(compiled[cut], event, refs, lib, traces[cut], after, found)
             else
               after == traces[cut] && found.None?
    ensures Pass(compiled, level, event, refs, lib, traces + [after], outcomes + [found], cut + 1)
  {
    var traces', outcomes' := traces + [after], outcomes + [found];
    forall i | 0 <= i < cut + 1
      ensures PassStep(compiled, level, event, refs, lib, traces', outcomes', i)
    {
      assert i < cut ==> PassStep(compiled, level, event, refs, lib, traces, outcomes, i);
      assert traces'[i] == traces[i];
    }
  }

  function Found(outcomes: seq<Option<Detection>>): seq<Detection> {
    if outcomes == [] then []
    else
      var n := |outcomes| - 1;
      Found(outcomes[..n]) + if outcomes[n].Some? then [outcomes[n].value] else []
  }

  /** The detections of a pass are those of its rules, in the order of the rules. */
  lemma {:induction false} FoundInOrder(a: seq<Option<Detection>>, b: seq<Option<Detection>>)
    ensures Found(a + b) == Found(a) + Found(b)
    ensures |a| == 1 ==> Found(a) == if a[0].Some? then [a[0].value] else []
  {
    if |a| == 1 {
      assert a[..0] == [];
    }
    if b == [] {
      assert a + b == a;
    } else {
      var n := |b| - 1;
      FoundInOrder(a, b[..n]);
      assert (a + b)[..|a| + n] == a + b[..n];
    }
  }

  class Engine {
    const correlator: Correlator
    const cache: RegexCache
    const maxRules: nat
    const budgetPerEvent: int
    var compiled: seq<CompiledRule>
    var profileRefs: ProfileRefs
    var degradeLevel: int

    /** The events evaluated and the rule behind each correlator call. */
    ghost var log: Log

    ghost predicate CallsValid()
      reads this, correlator
    {
      correlator.Valid() && Logged(correlator.trace, log)
    }

    ghost predicate RuleValid(cr: CompiledRule) {
      Compiled(cr.rule, cr, cache.lib)
    }

    ghost predicate RulesValid()
      reads this
    {
      && (forall i | 0 <= i < |compiled| :: RuleValid(compiled[i]))
      && BySeverity(RulesOf(compiled))
    }

    ghost predicate Valid()
      reads this, correlator, cache
    {
      CallsValid() && RulesValid() && cache.Valid()
    }

    constructor (maxRules: nat, budgetPerEvent: int, maxGroups: int, regexCacheSize: int, lib: Lib)
      ensures Valid() && fresh(correlator) && fresh(cache)
      ensures this.maxRules == maxRules && this.budgetPerEvent == budgetPerEvent && cache.lib == lib
      ensures compiled == [] && correlator.trace == EMPTY_TRACE
    {
      correlator := new Correlator(maxGroups);
      cache := new RegexCache(regexCacheSize, lib);
      this.maxRules := maxRules;
      this.budgetPerEvent := budgetPerEvent;
      compiled := [];
      profileRefs := map[];
      degradeLevel := 0;
      log := Log([], []);
    }

    method SetDegradeLevel(level: int)
      requires Valid()
      modifies this`degradeLevel
      ensures Valid() && 0 <= degradeLevel <= 4
      ensures 0 <= level <= 4 ==> degradeLevel == level
      ensures level < 0 ==> degradeLevel == 0
      ensures level > 4 ==> degradeLevel == 4
    {
      degradeLevel := if level < 0 then 0 else if level > 4 then 4 else level;
    }

    /** Rebuilds the compiled rules: the most severe maxRules of the set, in severity order. */
    method Recompile(current: Option<RuleSet>) returns (ghost dropped: seq<Rule>)
      requires Valid()
      modifies this`compiled, cache
      ensures Valid()
      ensures current.None? ==> compiled == []
      ensures current.Some? ==>
                && |compiled| == Min(|current.value.rules|, maxRules)
                && multiset(RulesOf(compiled)) + multiset(dropped) == multiset(current.value.rules)
                && forall k, d | k in RulesOf(compiled) && d in dropped :: SeverityPriority(k.severity) <= SeverityPriority(d.severity)
    {
      dropped := [];
      if current.None? {
        compiled := [];
        return;
      }
      var rules;
      rules, dropped := SelectRules(current.value.rules, maxRules);
      CompileAll(rules);
    }

    method CompileAll(rules: seq<Rule>)
      requires Valid() && BySeverity(rules)
      modifies this`compiled, cache
      ensures Valid() && RulesOf(compiled) == rules && |compiled| == |rules|
    {
      compiled := CompileRules(rules, cache);
      assert RulesOf(compiled) == rules;
    }

    /** New baseline references; they stay dynamic, and the rules are rebuilt. */
    method SetProfileRefs(refs: ProfileRefs, current: Option<RuleSet>) returns (ghost dropped: seq<Rule>)
      requires Valid()
      modifies this`profileRefs, this`compiled, cache
      ensures Valid() && profileRefs == refs
      ensures current.None? ==> compiled == []
      ensures current.Some? ==>
                && |compiled| == Min(|current.value.rules|, maxRules)
                && multiset(RulesOf(compiled)) + multiset(dropped) == multiset(current.value.rules)
                && forall k, d | k in RulesOf(compiled) && d in dropped :: SeverityPriority(k.severity) <= SeverityPriority(d.severity)
    {
      profileRefs := refs;
      dropped := Recompile(current);
    }

    /** Rule `slot` of the latest turn is r. */
    ghost predicate InTurn(r: Rule, slot: nat, event: Event, refs: ProfileRefs)
      reads this
    {
      && log.turns != []
      && var turn := log.turns[|log.turns|-1];
      turn.event == event && turn.refs == refs && slot < |turn.rules| && turn.rules[slot] == r
    }

    /** It is r's turn: no call was made yet for it or a rule after it. */
    ghost predicate Due(r: Rule, slot: nat, event: Event, refs: ProfileRefs)
      reads this, correlator
    {
      InTurn(r, slot, event, refs) && Reached(correlator.trace, log.slots, |log.turns| - 1, slot)
    }

    /** Counts a matching event; a counter that fires is reset at once. */
    method CountEvent(r: Rule, ghost slot: nat, event: Event, ghost refs: ProfileRefs, groupValue: string, now: int) returns (fired: bool)
      requires CallsValid() && CorrelationMatches(r, event) && groupValue == GroupOf(event, r.correlation.value.groupBy)
      requires Due(r, slot, event, refs)
      modifies correlator, this`log
      ensures CallsValid() && Grows(old(correlator.trace), correlator.trace)
      ensures log.turns == old(log.turns) && Reached(correlator.trace, log.slots, |log.turns| - 1, slot + 1)
      ensures exists op: Op :: CountsEvent(op, r, event) && correlator.trace == AfterCount(old(correlator.trace), op)
                && fired == Output(Current(old(correlator.trace)), op)
    {
      var spec := r.correlation.value;
      ghost var before, turn := correlator.trace, |log.turns| - 1;
      fired := correlator.IncrementCounter(r.id, groupValue, spec.countThreshold, spec.timeframeSec, now, turn);
      ghost var op := correlator.trace.ops[|before.ops|];
      assert correlator.trace == Extend(before, op);
      assert CountsEvent(op, r, event) && MadeFor(op, slot, log.turns);
      if fired {
        correlator.ResetCounter(r.id, groupValue);
        ExtendFired(before, log, op, slot);
        log := log.(slots := log.slots + [slot, 0]);
      } else {
        ExtendLogged(before, log, op, slot);
        log := log.(slots := log.slots + [slot]);
      }
    }

    method EvaluateCorrelation(cr: CompiledRule, ghost slot: nat, event: Event, ghost refs: ProfileRefs, now: int)
      returns (found: Option<Detection>)
      requires CallsValid() && cr.rule.correlation.Some? && Due(cr.rule, slot, event, refs)
      modifies correlator, this`log
      ensures CallsValid() && Grows(old(correlator.trace), correlator.trace)
      ensures log.turns == old(log.turns) && Reached(correlator.trace, log.slots, |log.turns| - 1, slot + 1)
      ensures CorrelationOutcome(cr.rule, event, old(correlator.trace), correlator.trace, found)
    {
      var spec := cr.rule.correlation.value;
      if event.field("event_type") != spec.eventType {
        return None;
      }
      var fields := spec.conditions.Keys;
      while fields != {}
        invariant fields <= spec.conditions.Keys
        invariant forall f | f in spec.conditions && f !in fields :: event.field(f) == spec.conditions[f]
      {
        var f :| f in fields;
        if event.field(f) != spec.conditions[f] {
          return None;
        }
        fields := fields - {f};
      }
      assert CorrelationMatches(cr.rule, event);
      var groupValue := GroupOf(event, spec.groupBy);
      var fired := CountEvent(cr.rule, slot, event, refs, groupValue, now);
      found := if fired then Some(Detection(cr.rule, cr.rule.threshold, groupValue)) else None;
    }

    method MatchStep(step: SequenceStep, event: Event, refs: ProfileRefs) returns (matched: bool)
      ensures matched <==> StepMatches(step, event, refs)
    {
      if event.field("event_type") != step.eventType {
        return false;
      }
      var fields := step.fieldMatch.Keys;
      while fields != {}
        invariant fields <= step.fieldMatch.Keys
        invariant forall f | f in step.fieldMatch && f !in fields :: FieldMatches(event.field(f), step.fieldMatch[f], refs)
      {
        var f :| f in fields;
        var val, expected := event.field(f), step.fieldMatch[f];
        if expected.Obj? && "ref" in expected.fields && expected.fields["ref"].Str? {
          var found := MatchInList(val, expected.fields["ref"].s, refs);
          if !found {
            return false;
          }
        } else if expected.Str? && val != expected.s {
          return false;
        }
        fields := fields - {f};
      }
      return true;
    }

    /** One matching step goes to the correlator, and into the log. */
    method OfferStep(r: Rule, ghost slot: nat, event: Event, ghost refs: ProfileRefs, stepIdx: nat, groupValue: string, now: int)
      returns (complete: bool)
      requires CallsValid() && r.correlation.None? && r.sequence.Some?
      requires stepIdx < |r.sequence.value.steps| && StepMatches(r.sequence.value.steps[stepIdx], event, refs)
      requires groupValue == GroupOf(event, r.sequence.value.groupBy)
      requires InTurn(r, slot, event, refs) && Stepping(correlator.trace, log.slots, |log.turns| - 1, slot)
      modifies correlator, this`log
      ensures CallsValid() && log.turns == old(log.turns)
      ensures Stepping(correlator.trace, log.slots, |log.turns| - 1, slot)
      ensures |correlator.trace.ops| == |old(correlator.trace).ops| + 1
      ensures var op := correlator.trace.ops[|old(correlator.trace).ops|];
              && correlator.trace == Extend(old(correlator.trace), op) && op.Advance? && op.step == stepIdx
              && complete == Output(Current(old(correlator.trace)), op)
    {
      var spec := r.sequence.value;
      ghost var mid, turn := correlator.trace, |log.turns| - 1;
      complete := correlator.AdvanceSequence(r.id, groupValue, stepIdx, |spec.steps|, spec.timeframeSec, now, turn);
      ghost var op := correlator.trace.ops[|mid.ops|];
      assert correlator.trace == Extend(mid, op) && MadeFor(op, slot, log.turns);
      ExtendLogged(mid, log, op, slot);
      log := log.(slots := log.slots + [slot]);
    }

    /** One step of the rule, offered if the event matches it. */
    method TryStep(r: Rule, ghost slot: nat, event: Event, refs: ProfileRefs, stepIdx: nat, groupValue: string, now: int,
                   ghost before: Trace)
      returns (complete: bool)
      requires CallsValid() && r.correlation.None? && r.sequence.Some? && stepIdx < |r.sequence.value.steps|
      requires groupValue == GroupOf(event, r.sequence.value.groupBy)
      requires InTurn(r, slot, event, refs) && Stepping(correlator.trace, log.slots, |log.turns| - 1, slot)
      requires SequenceOutcome(r.sequence.value, event, refs, before, correlator.trace, false, stepIdx)
      modifies correlator, this`log
      ensures CallsValid() && log.turns == old(log.turns)
      ensures Stepping(correlator.trace, log.slots, |log.turns| - 1, slot)
      ensures SequenceOutcome(r.sequence.value, event, refs, before, correlator.trace, complete, stepIdx + 1)
    {
      var spec := r.sequence.value;
      var matched := MatchStep(spec.steps[stepIdx], event, refs);
      if !matched {
        SequenceOutcomeSkip(spec, event, refs, before, correlator.trace, stepIdx);
        return false;
      }
      ghost var mid := correlator.trace;
      complete := OfferStep(r, slot, event, refs, stepIdx, groupValue, now);
      SequenceOutcomeOffer(spec, event, refs, before, mid, correlator.trace.ops[|mid.ops|], stepIdx);
    }

    /** The steps of the rule in order, up to one that completes the sequence. */
    method OfferSteps(r: Rule, ghost slot: nat, event: Event, refs: ProfileRefs, groupValue: string, now: nat -> int)
      returns (complete: bool, ghost upTo: nat)
      requires CallsValid() && r.correlation.None? && r.sequence.Some? && Due(r, slot, event, refs)
      requires groupValue == GroupOf(event, r.sequence.value.groupBy)
      modifies correlator, this`log
      ensures CallsValid() && log.turns == old(log.turns)
      ensures Stepping(correlator.trace, log.slots, |log.turns| - 1, slot)
      ensures upTo <= |r.sequence.value.steps| && (!complete ==> upTo == |r.sequence.value.steps|)
      ensures SequenceOutcome(r.sequence.value, event, refs, old(correlator.trace), correlator.trace, complete, upTo)
    {
      var steps := r.sequence.value.steps;
      ghost var before := correlator.trace;
      for stepIdx := 0 to |steps|
        invariant CallsValid() && log.turns == old(log.turns)
        invariant Stepping(correlator.trace, log.slots, |log.turns| - 1, slot)
        invariant SequenceOutcome(r.sequence.value, event, refs, before, correlator.trace, false, stepIdx)
      {
        complete := TryStep(r, slot, event, refs, stepIdx, groupValue, now(stepIdx), before);
        if complete {
          return true, stepIdx + 1;
        }
      }
      return false, |steps|;
    }

    /** `now` gives the clock reading of each correlator call. */
    method EvaluateSequence(cr: CompiledRule, ghost slot: nat, event: Event, refs: ProfileRefs, now: nat -> int)
      returns (found: Option<Detection>, ghost upTo: nat)
      requires CallsValid() && cr.rule.correlation.None? && cr.rule.sequence.Some? && Due(cr.rule, slot, event, refs)
      modifies correlator, this`log
      ensures CallsValid()
      ensures log.turns == old(log.turns) && Reached(correlator.trace, log.slots, |log.turns| - 1, slot + 1)
      ensures upTo <= |cr.rule.sequence.value.steps|
      ensures SequenceOutcome(cr.rule.sequence.value, event, refs, old(correlator.trace), correlator.trace, found.Some?, upTo)
      ensures found.None? ==> upTo == |cr.rule.sequence.value.steps|
      ensures found.Some? ==> found.value == Detection(cr.rule, cr.rule.threshold, GroupOf(event, cr.rule.sequence.value.groupBy))
    {
      var groupValue := GroupOf(event, cr.rule.sequence.value.groupBy);
      var complete;
      complete, upTo := OfferSteps(cr.rule, slot, event, refs, groupValue, now);
      found := if complete then Some(Detection(cr.rule, cr.rule.threshold, groupValue)) else None;
    }

    method EvaluateRule(cr: CompiledRule, ghost slot: nat, event: Event, refs: ProfileRefs, now: nat -> int)
      returns (found: Option<Detection>)
      requires CallsValid() && RuleValid(cr) && Due(cr.rule, slot, event, refs)
      modifies correlator, this`log
      ensures CallsValid()
      ensures log.turns == old(log.turns) && Reached(correlator.trace, log.slots, |log.turns| - 1, slot + 1)
      ensures RuleOutcome(cr, event, refs, cache.lib, old(correlator.trace), correlator.trace, found)
    {
      if cr.rule.correlation.Some? {
        found := EvaluateCorrelation(cr, slot, event, refs, now(0));
      } else if cr.rule.sequence.Some? {
        ghost var upTo;
        found, upTo := EvaluateSequence(cr, slot, event, refs, now);
      } else if |cr.rule.conditions| > 0 {
        var fired, score := EvaluateSimple(cr, event, refs, cache.lib);
        found := if fired then Some(Detection(cr.rule, score, "")) else None;
      } else {
        found := None;
      }
    }

    /** Rule i of a pass; a rule whose severity the degradation level leaves out is skipped. */
    method EvaluateNext(rules: seq<CompiledRule>, i: nat, level: int, event: Event, refs: ProfileRefs, now: nat -> int,
                        ghost traces: seq<Trace>, ghost outcomes: seq<Option<Detection>>)
      returns (found: Option<Detection>)
      requires CallsValid() && i < |rules| && RuleValid(rules[i]) && Due(rules[i].rule, i, event, refs)
      requires Pass(rules, level, event, refs, cache.lib, traces, outcomes, i) && traces[i] == correlator.trace
      modifies correlator, this`log
      ensures CallsValid()
      ensures log.turns == old(log.turns) && Reached(correlator.trace, log.slots, |log.turns| - 1, i + 1)
      ensures Pass(rules, level, event, refs, cache.lib, traces + [correlator.trace], outcomes + [found], i + 1)
    {
      found := None;
      if SeverityAllowed(level, rules[i].rule.severity) {
        found := EvaluateRule(rules[i], i, event, refs, now);
      }
      PassExtends(rules, level, event, refs, cache.lib, traces, outcomes, i, correlator.trace, found);
    }

    /**
     * The loop of Evaluate. clock(i) is the reading before rule i, and now(i)
     * gives the readings taken while evaluating it.
     */
    method EvaluateRules(rules: seq<CompiledRule>, level: int, event: Event, refs: ProfileRefs, deadline: int,
                         clock: nat -> int, now: nat -> nat -> int)
      returns (detections: seq<Detection>, ghost cut: nat, ghost traces: seq<Trace>, ghost outcomes: seq<Option<Detection>>)
      requires CallsValid() && forall i | 0 <= i < |rules| :: RuleValid(rules[i])
      requires log.turns != [] && log.turns[|log.turns|-1] == Turn(event, refs, RulesOf(rules))
      requires Reached(correlator.trace, log.slots, |log.turns| - 1, 0)
      modifies correlator, this`log
      ensures CallsValid() && log.turns == old(log.turns)
      ensures Pass(rules, level, event, refs, cache.lib, traces, outcomes, cut)
      ensures traces[0] == old(correlator.trace) && traces[cut] == correlator.trace
      ensures detections == Found(outcomes)
      ensures forall i | 0 <= i < cut :: clock(i) <= deadline
      ensures cut < |rules| ==> clock(cut) > deadline
    {
      detections, cut, traces, outcomes := [], 0, [correlator.trace], [];
      for i := 0 to |rules|
        invariant cut == i
        invariant CallsValid() && log.turns == old(log.turns)
        invariant Reached(correlator.trace, log.slots, |log.turns| - 1, i)
        invariant Pass(rules, level, event, refs, cache.lib, traces, outcomes, cut)
        invariant traces[0] == old(correlator.trace) && traces[cut] == correlator.trace
        invariant detections == Found(outcomes)
        invariant forall k | 0 <= k < cut :: clock(k) <= deadline
      {
        if clock(i) > deadline {
          return;
        }
        var found := EvaluateNext(rules, i, level, event, refs, now(i), traces, outcomes);
        if found.Some? {
          detections := detections + [found.value];
        }
        assert (outcomes + [found])[..cut] == outcomes;
        cut, traces, outcomes := cut + 1, traces + [correlator.trace], outcomes + [found];
      }
    }

    /** One event against all rules within the time budget. */
    method Evaluate(event: Event, start: int, clock: nat -> int, now: nat -> nat -> int)
      returns (detections: seq<Detection>, ghost cut: nat, ghost traces: seq<Trace>, ghost outcomes: seq<Option<Detection>>)
      requires Valid()
      modifies correlator, this`log
      ensures Valid() && log.turns == old(log.turns) + [Turn(event, profileRefs, RulesOf(compiled))]
      ensures Pass(compiled, degradeLevel, event, profileRefs, cache.lib, traces, outcomes, cut)
      ensures traces[0] == old(correlator.trace) && traces[cut] == correlator.trace
      ensures detections == Found(outcomes)
      ensures forall i | 0 <= i < cut :: clock(i) <= start + budgetPerEvent
      ensures cut < |compiled| ==> clock(cut) > start + budgetPerEvent
      ensures !MixesLowAndUnnamed(RulesOf(compiled)) ==> SeverityRespected(RulesOf(compiled), degradeLevel, cut)
    {
      ghost var turn := Turn(event, profileRefs, RulesOf(compiled));
      TurnStarts(correlator.trace, log, turn);
      log := log.(turns := log.turns + [turn]);
      detections, cut, traces, outcomes :=
        EvaluateRules(compiled, degradeLevel, event, profileRefs, start + budgetPerEvent, clock, now);
      SeverityRespectedExactly(RulesOf(compiled));
    }

    /** The periodic cleanup of the correlator. */
    method CleanupCorrelator(now: int)
      requires Valid()
      modifies correlator, this`log
      ensures Valid() && log.turns == old(log.turns)
      ensures correlator.trace == Extend(old(correlator.trace), Cleanup(now))
    {
      ExtendLogged(correlator.trace, log, Cleanup(now), 0);
      correlator.Cleanup(now);
      log := log.(slots := log.slots + [0]);
    }
  }

  function RulesOf(compiled: seq<CompiledRule>): (rules: seq<Rule>)
    ensures |rules| == |compiled|
    ensures forall i | 0 <= i < |compiled| :: rules[i] == compiled[i].rule
  {
    if compiled == [] then [] else RulesOf(compiled[..|compiled|-1]) + [compiled[|compiled|-1].rule]
  }
}
