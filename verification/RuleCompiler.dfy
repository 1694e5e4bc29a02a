/**
 * Compilation of rules (patterns compiled through a bounded cache, list values
 * turned into sets) and the evaluation of simple rules, compiled and direct.
 */
module RuleCompiler {
  import opened Common
  import opened Rules

  /** A compiled pattern, whatever the regular expression library makes of it. */
  datatype Regex = Regex(program: string)

  /** The library functions evaluation relies on. */
  datatype Lib = Lib(
    compile: string -> Option<Regex>,
    matches: (Regex, string) -> bool,
    parseFloat: string -> Option<real>)

  // The meaning of a condition, read off its raw value

  predicate OccursAt(s: string, sub: string, i: nat) {
    i + |sub| <= |s| && s[i..i + |sub|] == sub
  }

  predicate Contains(s: string, sub: string) {
    exists i | 0 <= i <= |s| :: OccursAt(s, sub, i)
  }

  ghost predicate InRef(val: string, name: string, refs: ProfileRefs) {
    name in refs && val in refs[name]
  }

  ghost predicate IsIn(val: string, value: Value, refs: ProfileRefs) {
    match value
    case Obj(fields) => "ref" in fields && fields["ref"].Str? && InRef(val, fields["ref"].s, refs)
    case List(items) => Str(val) in items
    case Strs(strs) => val in strs
    case _ => false
  }

  function Threshold(value: Value, lib: Lib): Option<real> {
    match value
    case Float(r) => Some(r)
    case Number(text) => lib.parseFloat(text)
    case Str(s) => lib.parseFloat(s)
    case Int(i) => Some(i as real)
    case _ => None
  }

  predicate Compares(op: string, a: real, b: real) {
    (op == "gt" && a > b) || (op == "lt" && a < b) || (op == "gte" && a >= b) || (op == "lte" && a <= b)
  }

  ghost predicate NumericHolds(op: string, val: string, value: Value, lib: Lib) {
    var a, b := lib.parseFloat(val), Threshold(value, lib);
    a.Some? && b.Some? && Compares(op, a.value, b.value)
  }

  ghost predicate Holds(c: Condition, val: string, refs: ProfileRefs, lib: Lib) {
    if c.op == "eq" then c.value.Str? && val == c.value.s
    else if c.op == "neq" then c.value.Str? && val != c.value.s
    else if c.op == "contains" then c.value.Str? && Contains(val, c.value.s)
    else if c.op == "regex" then
      c.value.Str? && lib.compile(c.value.s).Some? && lib.matches(lib.compile(c.value.s).value, val)
    else if c.op == "in" then IsIn(val, c.value, refs)
    else if c.op == "not_in" then !IsIn(val, c.value, refs)
    else NumericHolds(c.op, val, c.value, lib)
  }

  /** The weights of the conditions that hold; a condition on a missing field never does. */
  ghost function Score(conditions: seq<Condition>, event: Event, refs: ProfileRefs, lib: Lib): real {
    if conditions == [] then 0.0
    else
      var n := |conditions| - 1;
      var c, val := conditions[n], event.field(conditions[n].field);
      Score(conditions[..n], event, refs, lib) + if val != "" && Holds(c, val, refs, lib) then c.weight else 0.0
  }

  // What each operator matches

  /** An ordering operator compares the number in the field with the number of the condition. */
  lemma NumericOrder(c: Condition, val: string, refs: ProfileRefs, lib: Lib, number: real, bound: real)
    requires lib.parseFloat(val) == Some(number) && Threshold(c.value, lib) == Some(bound)
    ensures c.op == "gt" ==> (Holds(c, val, refs, lib) <==> number > bound)
    ensures c.op == "lt" ==> (Holds(c, val, refs, lib) <==> number < bound)
    ensures c.op == "gte" ==> (Holds(c, val, refs, lib) <==> number > bound || number == bound)
    ensures c.op == "lte" ==> (Holds(c, val, refs, lib) <==> number < bound || number == bound)
  {
  }

  const OPERATORS: set<string> := {"eq", "neq", "contains", "regex", "in", "not_in"}

  /** Where the field or the bound is no number no ordering operator matches, and an unknown operator never does. */
  lemma NoNumberNoMatch(c: Condition, val: string, refs: ProfileRefs, lib: Lib)
    requires c.op !in OPERATORS
    requires lib.parseFloat(val).None? || Threshold(c.value, lib).None? || c.op !in ["gt", "lt", "gte", "lte"]
    ensures !Holds(c, val, refs, lib)
  {
  }

  /** The bound of a condition: a number, or a text that parses as one. */
  lemma BoundMeans(value: Value, lib: Lib)
    ensures value.Float? ==> Threshold(value, lib) == Some(value.r)
    ensures value.Int? ==> Threshold(value, lib) == Some(value.i as real)
    ensures value.Str? ==> Threshold(value, lib) == lib.parseFloat(value.s)
    ensures value.Number? ==> Threshold(value, lib) == lib.parseFloat(value.text)
    ensures value.Null? || value.Bool? || value.List? || value.Strs? || value.Obj? ==> Threshold(value, lib).None?
  {
  }

  /** Equality, its negation, and occurrence as a part, for a text; nothing else is ever equal, unequal or contained. */
  lemma TextOperators(c: Condition, val: string, refs: ProfileRefs, lib: Lib)
    ensures c.op == "eq" ==> (Holds(c, val, refs, lib) <==> c.value == Str(val))
    ensures c.op == "neq" ==> (Holds(c, val, refs, lib) <==> c.value.Str? && c.value != Str(val))
    ensures c.op == "contains" ==>
              (Holds(c, val, refs, lib) <==> c.value.Str? && exists pre: string, post: string :: val == pre + c.value.s + post)
    ensures c.op == "regex" && Holds(c, val, refs, lib) ==>
              c.value.Str? && lib.compile(c.value.s).Some? && lib.matches(lib.compile(c.value.s).value, val)
    ensures c.op == "regex" && !Holds(c, val, refs, lib) && c.value.Str? ==>
              lib.compile(c.value.s).None? || !lib.matches(lib.compile(c.value.s).value, val)
  {
    if c.op == "contains" && c.value.Str? {
      var sub := c.value.s;
      if Contains(val, sub) {
        var i :| 0 <= i <= |val| && OccursAt(val, sub, i);
        assert val == val[..i] + sub + val[i + |sub|..];
      }
      forall pre: string, post: string | val == pre + sub + post
        ensures Contains(val, sub)
      {
        assert val[|pre|..|pre| + |sub|] == sub;
        assert OccursAt(val, sub, |pre|);
      }
    }
  }

  /** A value is in a list, or in the list a reference names now; "not_in" is the negation, of unknown references too. */
  lemma ListOperators(c: Condition, val: string, refs: ProfileRefs, lib: Lib)
    requires c.op == "in" || c.op == "not_in"
    ensures c.value.Strs? ==> (Holds(c, val, refs, lib) <==> (c.op == "in" <==> exists i :: 0 <= i < |c.value.strs| && c.value.strs[i] == val))
    ensures c.value.List? ==> (Holds(c, val, refs, lib) <==> (c.op == "in" <==> exists i :: 0 <= i < |c.value.items| && c.value.items[i] == Str(val)))
    ensures c.value.Obj? && "ref" in c.value.fields && c.value.fields["ref"].Str? && c.value.fields["ref"].s in refs ==>
              (Holds(c, val, refs, lib) <==> (c.op == "in" <==> val in refs[c.value.fields["ref"].s]))
    ensures c.value.Obj? && "ref" in c.value.fields && c.value.fields["ref"].Str? && c.value.fields["ref"].s !in refs ==>
              (Holds(c, val, refs, lib) <==> c.op == "not_in")
    ensures c.value.Null? || c.value.Bool? || c.value.Float? || c.value.Int? || c.value.Number? || c.value.Str? ==>
              (Holds(c, val, refs, lib) <==> c.op == "not_in")
  {
  }

  /** Scores add up over the conditions. */
  lemma {:induction false} ScoreAdds(a: seq<Condition>, b: seq<Condition>, event: Event, refs: ProfileRefs, lib: Lib)
    ensures Score(a + b, event, refs, lib) == Score(a, event, refs, lib) + Score(b, event, refs, lib)
  {
    if b == [] {
      assert a + b == a;
    } else {
      var n := |b| - 1;
      ScoreAdds(a, b[..n], event, refs, lib);
      assert (a + b)[..|a + b| - 1] == a + b[..n];
    }
  }

  /** One condition that holds is worth its weight, and one that does not, or whose field is missing, nothing. */
  lemma ScoreOfOne(c: Condition, event: Event, refs: ProfileRefs, lib: Lib)
    ensures Score([c], event, refs, lib) ==
              if event.field(c.field) != "" && Holds(c, event.field(c.field), refs, lib) then c.weight else 0.0
  {
    assert [c][..0] == [];
  }

  /** A rule of one ordering condition, whose threshold is its weight, fires exactly on fields beyond the bound. */
  lemma NumericRuleFires(c: Condition, event: Event, refs: ProfileRefs, lib: Lib, bound: real)
    requires c.weight > 0.0 && Threshold(c.value, lib) == Some(bound)
    ensures var val := event.field(c.field);
            var fires := Score([c], event, refs, lib) >= c.weight;
            && (c.op == "gt" ==> (fires <==> val != "" && lib.parseFloat(val).Some? && lib.parseFloat(val).value > bound))
            && (c.op == "lt" ==> (fires <==> val != "" && lib.parseFloat(val).Some? && lib.parseFloat(val).value < bound))
            && (c.op == "gte" ==> (fires <==> val != "" && lib.parseFloat(val).Some? && lib.parseFloat(val).value >= bound))
            && (c.op == "lte" ==> (fires <==> val != "" && lib.parseFloat(val).Some? && lib.parseFloat(val).value <= bound))
  {
    ScoreOfOne(c, event, refs, lib);
  }

  // Compiled form

  datatype CompiledCondition = CompiledCondition(cond: Condition, strVal: string, hasStr: bool, inSet: Option<set<string>>)

  datatype CompiledRule = CompiledRule(
    rule: Rule, patterns: map<nat, Regex>, conditions: seq<CompiledCondition>)

  /** A one-element list that holds a profile reference. */
  predicate IsRefList(items: seq<Value>) {
    |items| == 1 && items[0].Obj? && "ref" in items[0].fields
  }

  /** A set stands for a list value; None leaves the value to be read on each evaluation. */
  ghost predicate SetFor(value: Value, inSet: Option<set<string>>) {
    match value
    case List(items) =>
      if IsRefList(items) then inSet.None?
      else inSet.Some? && forall s :: s in inSet.value <==> Str(s) in items
    case Strs(strs) => inSet.Some? && forall s :: s in inSet.value <==> s in strs
    case _ => inSet.None?
  }

  ghost predicate ConditionCompiled(c: Condition, cc: CompiledCondition) {
    && cc.cond == c
    && (c.op == "eq" || c.op == "neq" || c.op == "contains" ==>
          cc.hasStr == c.value.Str? && (c.value.Str? ==> cc.strVal == c.value.s))
    && (c.op == "in" || c.op == "not_in" ==> SetFor(c.value, cc.inSet))
  }

  ghost predicate PatternCompiled(c: Condition, i: nat, patterns: map<nat, Regex>, lib: Lib) {
    if c.op == "regex" && c.value.Str? && lib.compile(c.value.s).Some? then
      i in patterns && patterns[i] == lib.compile(c.value.s).value
    else
      i !in patterns
  }

  /** What CompileRules promises of one rule; no cache history shows in it. */
  ghost predicate Compiled(r: Rule, cr: CompiledRule, lib: Lib) {
    && cr.rule == r
    && |cr.conditions| == |r.conditions|
    && (forall i | 0 <= i < |r.conditions| :: ConditionCompiled(r.conditions[i], cr.conditions[i]))
    && (forall i | 0 <= i < |r.conditions| :: PatternCompiled(r.conditions[i], i, cr.patterns, lib))
  }

  /** A bounded cache of compiled patterns. */
  class RegexCache {
    var entries: map<string, Regex>
    const maxSize: int
    const lib: Lib

    ghost predicate Valid()
      reads this
    {
      && |entries| <= Max(1, maxSize)
      && forall p | p in entries :: lib.compile(p) == Some(entries[p])
    }

    constructor (maxSize: int, lib: Lib)
      ensures Valid() && this.lib == lib && this.maxSize == maxSize
    {
      entries := map[];
      this.maxSize := maxSize;
      this.lib := lib;
    }

    /** Always what a fresh compilation would return; a full cache loses an arbitrary entry. */
    method Get(pattern: string) returns (re: Option<Regex>)
      requires Valid()
      modifies this
      ensures Valid()
      ensures re == lib.compile(pattern)
      ensures re.Some? ==> pattern in entries
    {
      if pattern in entries {
        return Some(entries[pattern]);
      }
      re := lib.compile(pattern);
      if re.None? {
        return;
      }
      if |entries| >= maxSize && entries != map[] {
        var victim :| victim in entries;
        entries := entries - {victim};
      }
      entries := entries[pattern := re.value];
    }
  }

  method BuildInSet(value: Value) returns (inSet: Option<set<string>>)
    ensures SetFor(value, inSet)
  {
    match value
    case List(items) =>
      if IsRefList(items) {
        return None;
      }
      var s: set<string> := {};
      for n := 0 to |items|
        invariant forall x :: x in s <==> Str(x) in items[..n]
      {
        assert items[..n + 1] == items[..n] + [items[n]];
        if items[n].Str? {
          s := s + {items[n].s};
        }
      }
      assert items[..|items|] == items;
      return Some(s);
    case Strs(strs) =>
      var s: set<string> := {};
      for n := 0 to |strs|
        invariant forall x :: x in s <==> x in strs[..n]
      {
        assert strs[..n + 1] == strs[..n] + [strs[n]];
        s := s + {strs[n]};
      }
      assert strs[..|strs|] == strs;
      return Some(s);
    case _ =>
      return None;
  }

  method CompileRule(r: Rule, cache: RegexCache) returns (cr: CompiledRule)
    requires cache.Valid()
    modifies cache
    ensures cache.Valid()
    ensures Compiled(r, cr, cache.lib)
  {
    var patterns: map<nat, Regex> := map[];
    var conditions: seq<CompiledCondition> := [];
    for i := 0 to |r.conditions|
      invariant cache.Valid()
      invariant |conditions| == i
      invariant forall k | k in patterns :: k < i
      invariant forall k | 0 <= k < i :: ConditionCompiled(r.conditions[k], conditions[k])
      invariant forall k | 0 <= k < i :: PatternCompiled(r.conditions[k], k, patterns, cache.lib)
    {
      var cond := r.conditions[i];
      var cc := CompiledCondition(cond, "", false, None);
      if cond.op == "eq" || cond.op == "neq" || cond.op == "contains" {
        if cond.value.Str? {
          cc := cc.(strVal := cond.value.s, hasStr := true);
        }
      } else if cond.op == "regex" {
        if cond.value.Str? {
          var re := cache.Get(cond.value.s);
          if re.Some? {
            patterns := patterns[i := re.value];
          }
        }
      } else if cond.op == "in" || cond.op == "not_in" {
        var inSet := BuildInSet(cond.value);
        cc := cc.(inSet := inSet);
      }
      conditions := conditions + [cc];
    }
    cr := CompiledRule(r, patterns, conditions);
  }

  method CompileRules(rules: seq<Rule>, cache: RegexCache) returns (compiled: seq<CompiledRule>)
    requires cache.Valid()
    modifies cache
    ensures cache.Valid()
    ensures |compiled| == |rules|
    ensures forall i | 0 <= i < |rules| :: Compiled(rules[i], compiled[i], cache.lib)
  {
    compiled := [];
    for n := 0 to |rules|
      invariant cache.Valid()
      invariant |compiled| == n
      invariant forall i | 0 <= i < n :: Compiled(rules[i], compiled[i], cache.lib)
    {
      var cr := CompileRule(rules[n], cache);
      compiled := compiled + [cr];
    }
  }

  // Evaluation of compiled conditions

  method MatchInList(val: string, name: string, refs: ProfileRefs) returns (found: bool)
    ensures found <==> InRef(val, name, refs)
  {
    if name !in refs {
      return false;
    }
    var list := refs[name];
    for n := 0 to |list|
      invariant val !in list[..n]
    {
      if list[n] == val {
        return true;
      }
    }
    return false;
  }

  method MatchIn(val: string, value: Value, refs: ProfileRefs) returns (found: bool)
    ensures found <==> IsIn(val, value, refs)
  {
    if value.Obj? && "ref" in value.fields && value.fields["ref"].Str? {
      found := MatchInList(val, value.fields["ref"].s, refs);
      return;
    }
    match value
    case List(items) =>
      for n := 0 to |items|
        invariant Str(val) !in items[..n]
      {
        if items[n].Str? && items[n].s == val {
          return true;
        }
      }
      return false;
    case Strs(strs) =>
      for n := 0 to |strs|
        invariant val !in strs[..n]
      {
        if strs[n] == val {
          return true;
        }
      }
      return false;
    case _ =>
      return false;
  }

  method MatchNumeric(op: string, val: string, value: Value, lib: Lib) returns (matched: bool)
    ensures matched <==> NumericHolds(op, val, value, lib)
  {
    var a := lib.parseFloat(val);
    if a.None? {
      return false;
    }
    var b := Threshold(value, lib);
    matched := b.Some? && Compares(op, a.value, b.value);
  }

  /** Set lookup, pattern table and pre-extracted text decide as the raw condition does. */
  method MatchCondition(cc: CompiledCondition, i: nat, patterns: map<nat, Regex>, val: string, refs: ProfileRefs, lib: Lib)
    returns (matched: bool)
    requires ConditionCompiled(cc.cond, cc) && PatternCompiled(cc.cond, i, patterns, lib)
    ensures matched <==> Holds(cc.cond, val, refs, lib)
  {
    matched := false;
    var op := cc.cond.op;
    if op == "eq" {
      matched := cc.hasStr && val == cc.strVal;
    } else if op == "neq" {
      matched := cc.hasStr && val != cc.strVal;
    } else if op == "contains" {
      matched := cc.hasStr && Contains(val, cc.strVal);
    } else if op == "regex" {
      matched := i in patterns && lib.matches(patterns[i], val);
    } else if op == "in" || op == "not_in" {
      var found: bool;
      if cc.inSet.Some? {
        found := val in cc.inSet.value;
      } else {
        found := MatchIn(val, cc.cond.value, refs);
      }
      matched := if op == "in" then found else !found;
    } else {
      matched := MatchNumeric(op, val, cc.cond.value, lib);
    }
  }

  /** A rule of one condition, whose threshold is the condition's weight. */
  predicate OneCondition(r: Rule) {
    |r.conditions| == 1 && 0.0 < r.conditions[0].weight == r.threshold
  }

  /** A compiled simple rule scores an event as its raw conditions do. */
  method EvaluateSimple(cr: CompiledRule, event: Event, refs: ProfileRefs, lib: Lib) returns (fired: bool, score: real)
    requires Compiled(cr.rule, cr, lib)
    ensures score == Score(cr.rule.conditions, event, refs, lib)
    ensures fired <==> score >= cr.rule.threshold
    ensures OneCondition(cr.rule) ==>
              var c := cr.rule.conditions[0];
              fired <==> event.field(c.field) != "" && Holds(c, event.field(c.field), refs, lib)
  {
    score := 0.0;
    for i := 0 to |cr.conditions|
      invariant score == Score(cr.rule.conditions[..i], event, refs, lib)
    {
      var cc := cr.conditions[i];
      assert ConditionCompiled(cr.rule.conditions[i], cc) && PatternCompiled(cr.rule.conditions[i], i, cr.patterns, lib);
      assert cr.rule.conditions[..i + 1][..i] == cr.rule.conditions[..i];
      var val := event.field(cc.cond.field);
      if val == "" {
        continue;
      }
      var matched := MatchCondition(cc, i, cr.patterns, val, refs, lib);
      if matched {
        score := score + cc.cond.weight;
      }
    }
    assert cr.rule.conditions[..|cr.conditions|] == cr.rule.conditions;
    fired := score >= cr.rule.threshold;
    if |cr.rule.conditions| == 1 {
      ScoreOfOne(cr.rule.conditions[0], event, refs, lib);
      assert cr.rule.conditions == [cr.rule.conditions[0]];
    }
  }
}
