/** The rule format the agent evaluates, and the orders and policies on severities. */
module Rules {
  import opened Common

  /** A rule value as JSON decoding or Go code leaves it. */
  datatype Value =
    | Null
    | Bool(b: bool)
    | Float(r: real)
    | Int(i: int)
    | Number(text: string)       // a JSON number kept as text
    | Str(s: string)
    | List(items: seq<Value>)    // []interface{}
    | Strs(strs: seq<string>)    // []string
    | Obj(fields: map<string, Value>)

  datatype Condition = Condition(field: string, op: string, value: Value, weight: real)

  datatype CorrelationSpec = CorrelationSpec(
    eventType: string, groupBy: string, countThreshold: int, timeframeSec: int, conditions: map<string, string>)

  datatype SequenceStep = SequenceStep(eventType: string, fieldMatch: map<string, Value>)

  datatype SequenceSpec = SequenceSpec(timeframeSec: int, steps: seq<SequenceStep>, groupBy: string)

  datatype Rule = Rule(
    id: string, severity: string, response: string, threshold: real,
    conditions: seq<Condition>, correlation: Option<CorrelationSpec>, sequence: Option<SequenceSpec>)

  datatype RuleSet = RuleSet(version: int, rules: seq<Rule>)

  /** An event through its field lookup: the text of a field, or "" when it has none. */
  datatype Event = Event(field: string -> string)

  type ProfileRefs = map<string, seq<string>>

  // Severities

  function SeverityPriority(severity: string): nat {
    if severity == "critical" then 0
    else if severity == "high" then 1
    else if severity == "medium" then 2
    else if severity == "low" then 3
    else 4
  }

  predicate SeverityAllowed(level: int, severity: string) {
    if level == 0 then true
    else if level == 1 then severity != "low"
    else if level == 2 || level == 3 then severity == "critical" || severity == "high"
    else severity == "critical"
  }

  predicate IsActionAllowed(policy: string, severity: string) {
    if policy == "always_act" then true
    else if policy == "critical_high" then severity == "critical" || severity == "high"
    else if policy == "critical_only" then severity == "critical"
    else false
  }

  /** What each degradation level still evaluates. */
  lemma DegradationLevels(level: int, severity: string)
    requires 0 <= level <= 4
    ensures severity == "critical" ==> SeverityAllowed(level, severity)
    ensures severity == "high" ==> (SeverityAllowed(level, severity) <==> level <= 3)
    ensures severity == "medium" ==> (SeverityAllowed(level, severity) <==> level <= 1)
    ensures severity == "low" ==> (SeverityAllowed(level, severity) <==> level == 0)
    ensures SeverityPriority(severity) == 4 ==> (SeverityAllowed(level, severity) <==> level <= 1)
  {
  }

  /** The more degraded, the less is evaluated. */
  lemma DegradationMonotone(level: int, higher: int, severity: string)
    requires 0 <= level <= higher <= 4 && SeverityAllowed(higher, severity)
    ensures SeverityAllowed(level, severity)
  {
  }

  /** Which severities each policy lets act; a policy of any other name lets none. */
  lemma PolicyActs(policy: string, severity: string)
    ensures policy == "always_act" ==> IsActionAllowed(policy, severity)
    ensures policy == "critical_high" ==> (IsActionAllowed(policy, severity) <==> SeverityPriority(severity) <= 1)
    ensures policy == "critical_only" ==> (IsActionAllowed(policy, severity) <==> SeverityPriority(severity) == 0)
    ensures policy !in ["always_act", "critical_high", "critical_only"] ==> !IsActionAllowed(policy, severity)
  {
  }

  ghost predicate BySeverity(rules: seq<Rule>) {
    forall i, j | 0 <= i < j < |rules| :: SeverityPriority(rules[i].severity) <= SeverityPriority(rules[j].severity)
  }

  /**
   * The rules one pass over `rules` evaluates when its time budget runs out
   * before rule `cut`.
   */
  ghost predicate Evaluated(rules: seq<Rule>, level: int, cut: nat, i: nat) {
    i < cut && i < |rules| && SeverityAllowed(level, rules[i].severity)
  }

  /** No rule left out is strictly more severe than a rule evaluated. */
  ghost predicate SeverityRespected(rules: seq<Rule>, level: int, cut: nat) {
    forall i, j | 0 <= i < |rules| && 0 <= j < |rules| && Evaluated(rules, level, cut, i) && !Evaluated(rules, level, cut, j) ::
      SeverityPriority(rules[i].severity) <= SeverityPriority(rules[j].severity)
  }

  ghost predicate HasSeverityPriority(rules: seq<Rule>, p: int) {
    exists i :: 0 <= i < |rules| && SeverityPriority(rules[i].severity) == p
  }

  ghost predicate MixesLowAndUnnamed(rules: seq<Rule>) {
    HasSeverityPriority(rules, 3) && HasSeverityPriority(rules, 4)
  }

  /**
   * Every degradation level and every budget cut-off respects severity exactly
   * when the rules do not mix "low" with a severity outside the four names:
   * level 1 leaves the first out and keeps the second.
   */
  lemma SeverityRespectedExactly(rules: seq<Rule>)
    requires BySeverity(rules)
    ensures (forall level: int, cut: nat :: SeverityRespected(rules, level, cut))
            <==> !MixesLowAndUnnamed(rules)
  {
    if MixesLowAndUnnamed(rules) {
      var low :| 0 <= low < |rules| && SeverityPriority(rules[low].severity) == 3;
      var other :| 0 <= other < |rules| && SeverityPriority(rules[other].severity) == 4;
      assert Evaluated(rules, 1, |rules|, other) && !Evaluated(rules, 1, |rules|, low);
      assert !SeverityRespected(rules, 1, |rules|);
    } else {
      forall level: int, cut: nat
        ensures SeverityRespected(rules, level, cut)
      {
        forall i, j | 0 <= i < |rules| && 0 <= j < |rules| && Evaluated(rules, level, cut, i) && !Evaluated(rules, level, cut, j)
          ensures SeverityPriority(rules[i].severity) <= SeverityPriority(rules[j].severity)
        {
          if j < cut {
            AllowedDownward(rules, level, i, j);
          }
        }
      }
    }
  }

  lemma AllowedDownward(rules: seq<Rule>, level: int, i: nat, j: nat)
    requires i < |rules| && j < |rules|
    requires !MixesLowAndUnnamed(rules)
    requires SeverityAllowed(level, rules[i].severity) && !SeverityAllowed(level, rules[j].severity)
    ensures SeverityPriority(rules[i].severity) <= SeverityPriority(rules[j].severity)
  {
  }

  // Sorting and truncation

  lemma InsertedBySeverity(sorted: seq<Rule>, r: Rule, k: nat)
    requires BySeverity(sorted) && k <= |sorted|
    requires k > 0 ==> SeverityPriority(sorted[k-1].severity) <= SeverityPriority(r.severity)
    requires forall i | k <= i < |sorted| :: SeverityPriority(r.severity) < SeverityPriority(sorted[i].severity)
    ensures BySeverity(sorted[..k] + [r] + sorted[k..])
  {
  }

  lemma InsertedOnce(sorted: seq<Rule>, r: Rule, k: nat)
    requires k <= |sorted|
    ensures multiset(sorted[..k] + [r] + sorted[k..]) == multiset(sorted) + multiset{r}
  {
    assert sorted == sorted[..k] + sorted[k..];
  }

  /** Inserts a rule after the rules that are at least as severe. */
  method InsertBySeverity(sorted: seq<Rule>, r: Rule) returns (result: seq<Rule>)
    requires BySeverity(sorted)
    ensures BySeverity(result)
    ensures multiset(result) == multiset(sorted) + multiset{r}
  {
    var k := |sorted|;
    while k > 0 && SeverityPriority(r.severity) < SeverityPriority(sorted[k-1].severity)
      invariant 0 <= k <= |sorted|
      invariant forall i | k <= i < |sorted| :: SeverityPriority(r.severity) < SeverityPriority(sorted[i].severity)
    {
      k := k - 1;
    }
    InsertedBySeverity(sorted, r, k);
    InsertedOnce(sorted, r, k);
    result := sorted[..k] + [r] + sorted[k..];
  }

  method SortBySeverity(rules: seq<Rule>) returns (sorted: seq<Rule>)
    ensures BySeverity(sorted)
    ensures multiset(sorted) == multiset(rules)
  {
    sorted := [];
    for n := 0 to |rules|
      invariant BySeverity(sorted)
      invariant multiset(sorted) == multiset(rules[..n])
    {
      sorted := InsertBySeverity(sorted, rules[n]);
      assert rules[..n + 1] == rules[..n] + [rules[n]];
    }
    assert rules[..|rules|] == rules;
  }

  /** The rules the engine keeps: the most severe maxRules of them, in severity order. */
  method SelectRules(rules: seq<Rule>, maxRules: nat) returns (kept: seq<Rule>, ghost dropped: seq<Rule>)
    ensures BySeverity(kept)
    ensures |kept| == Min(|rules|, maxRules)
    ensures multiset(kept) + multiset(dropped) == multiset(rules)
    ensures forall k, d | k in kept && d in dropped :: SeverityPriority(k.severity) <= SeverityPriority(d.severity)
  {
    var selected := rules;
    dropped := [];
    if |selected| > maxRules {
      selected := SortBySeverity(selected);
      SameSize(selected, rules);
      dropped := selected[maxRules..];
      assert selected == selected[..maxRules] + dropped;
      assert forall k, d | k in selected[..maxRules] && d in dropped :: SeverityPriority(k.severity) <= SeverityPriority(d.severity);
      selected := selected[..maxRules];
    }
    kept := SortBySeverity(selected);
    SameSize(kept, selected);
    assert forall k | k in kept :: k in multiset(selected);
  }

  lemma SameSize<T>(a: seq<T>, b: seq<T>)
    requires multiset(a) == multiset(b)
    ensures |a| == |b|
  {
    assert |multiset(a)| == |a| && |multiset(b)| == |b|;
  }
}
