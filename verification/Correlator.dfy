/** A two-level map (rule, then group) as a representation of a flat map keyed by both. */
module NestedMaps {
  import opened Common
  import opened CorrelatorSpec

  type Nested<T> = map<string, map<string, T>>

  /** m and flat hold the same entries. */
  ghost predicate Flattens<T>(m: Nested<T>, flat: map<Key, T>) {
    && (forall k | k in flat :: k.0 in m && k.1 in m[k.0] && m[k.0][k.1] == flat[k])
    && (forall r, g | r in m && g in m[r] :: (r, g) in flat)
  }

  lemma NewRowFlattens<T>(m: Nested<T>, flat: map<Key, T>, r: string)
    requires Flattens(m, flat) && r !in m
    ensures Flattens(m[r := map[]], flat)
  {
  }

  lemma PutFlattens<T>(m: Nested<T>, flat: map<Key, T>, r: string, g: string, v: T)
    requires Flattens(m, flat) && r in m
    ensures Flattens(m[r := m[r][g := v]], flat[(r, g) := v])
  {
  }

  lemma DeleteFlattens<T>(m: Nested<T>, flat: map<Key, T>, r: string, g: string)
    requires Flattens(m, flat) && r in m
    ensures Flattens(m[r := m[r] - {g}], flat - {(r, g)})
  {
  }

  lemma NoRowFlattens<T>(m: Nested<T>, flat: map<Key, T>, r: string, g: string)
    requires Flattens(m, flat)
    ensures (r, g) in flat <==> r in m && g in m[r]
  {
  }

  ghost function Row(r: string, gs: set<string>): set<Key> {
    set g | g in gs :: (r, g)
  }

  lemma {:induction false} RowSize(r: string, gs: set<string>)
    ensures |Row(r, gs)| == |gs|
  {
    if gs == {} {
      assert Row(r, gs) == {};
    } else {
      var g :| g in gs;
      RowSize(r, gs - {g});
      assert Row(r, gs) == Row(r, gs - {g}) + {(r, g)};
    }
  }

  /** The entries outside the given rows. */
  ghost function Outside(keys: set<Key>, rows: set<string>): set<Key> {
    set k | k in keys && k.0 !in rows
  }

  lemma OutsideGrows<T>(m: Nested<T>, flat: map<Key, T>, rows: set<string>, r: string)
    requires Flattens(m, flat) && r in rows && r in m
    ensures Outside(flat.Keys, rows - {r}) == Outside(flat.Keys, rows) + Row(r, m[r].Keys)
  {
  }

  method TotalEntries<T>(m: Nested<T>, ghost flat: map<Key, T>) returns (n: nat)
    requires Flattens(m, flat)
    ensures n == |flat|
  {
    n := 0;
    var rest := m.Keys;
    assert Outside(flat.Keys, rest) == {};
    while rest != {}
      invariant rest <= m.Keys
      invariant n == |Outside(flat.Keys, rest)|
    {
      var r :| r in rest;
      OutsideGrows(m, flat, rest, r);
      RowSize(r, m[r].Keys);
      n := n + |m[r]|;
      rest := rest - {r};
    }
    assert Outside(flat.Keys, rest) == flat.Keys;
  }

  /**
   * The scan after the entries in `visited`: what it holds is the oldest entry of the
   * rules in `after`, those visited since an older entry under the empty id, that of
   * group w, made it start over.
   */
  ghost predicate OldestOf<T>(flat: map<Key, T>, seen: T -> int, visited: set<Key>, r: string, g: string, time: int,
                              after: set<string>, w: string)
  {
    && "" !in after
    && (forall k | k in visited && k in flat && k.0 != "" && k.0 !in after :: ("", w) in flat && seen(flat[("", w)]) < seen(flat[k]))
    && if r == "" then forall k | k in visited :: k.0 !in after
       else
         && r in after && (r, g) in visited && (r, g) in flat && time == seen(flat[(r, g)])
         && forall k | k in visited && k in flat && k.0 in after :: time <= seen(flat[k])
  }

  lemma OldestStep<T>(flat: map<Key, T>, seen: T -> int, visited: set<Key>, r: string, g: string, time: int,
                      after: set<string>, w: string, k: Key)
    requires OldestOf(flat, seen, visited, r, g, time, after, w) && k in flat && k.0 in after
    ensures if r == "" || seen(flat[k]) < time then OldestOf(flat, seen, visited + {k}, k.0, k.1, seen(flat[k]), after, w)
            else OldestOf(flat, seen, visited + {k}, r, g, time, after, w)
  {
  }

  /** Nothing visited under a named rule has been forgotten. */
  ghost predicate AllCompared(visited: set<Key>, after: set<string>) {
    forall k | k in visited :: k.0 == "" || k.0 in after
  }

  /** A row about to be scanned counts as compared. */
  lemma CompareRow<T>(flat: map<Key, T>, seen: T -> int, visited: set<Key>, r: string, g: string, time: int,
                      after: set<string>, w: string, row: string)
    requires OldestOf(flat, seen, visited, r, g, time, after, w)
    requires row != "" && forall k | k in visited :: k.0 != row
    ensures OldestOf(flat, seen, visited, r, g, time, after + {row}, w)
  {
  }

  /** An older entry under the empty id makes the scan forget what it holds. */
  lemma OldestRestarts<T>(flat: map<Key, T>, seen: T -> int, visited: set<Key>, r: string, g: string, time: int,
                          after: set<string>, w: string, k: Key)
    requires OldestOf(flat, seen, visited, r, g, time, after, w) && k in flat && k.0 == ""
    requires r != "" ==> AllCompared(visited, after)
    ensures if r == "" then OldestOf(flat, seen, visited + {k}, "", k.1, seen(flat[k]), after, w)
            else if seen(flat[k]) < time then OldestOf(flat, seen, visited + {k}, "", k.1, seen(flat[k]), {}, k.1)
            else OldestOf(flat, seen, visited + {k}, r, g, time, after, w)
  {
  }

  lemma ScanComplete<T>(flat: map<Key, T>, seen: T -> int, visited: set<Key>, r: string, g: string, time: int,
                        after: set<string>, w: string)
    requires OldestOf(flat, seen, visited, r, g, time, after, w) && visited == flat.Keys
    ensures ScanEndsWith(flat, seen, if r == "" then None else Some((r, g)))
  {
    assert Scanned(flat, seen, if r == "" then None else Some((r, g)), after, w);
  }

  /** The scan of one row. */
  method ScanRow<T>(row: map<string, T>, r: string, seen: T -> int, oldestRule: string, oldestGroup: string, oldestTime: int,
                    ghost flat: map<Key, T>, ghost visited: set<Key>, ghost after: set<string>, ghost w: string)
    returns (rule: string, group: string, time: int, ghost after': set<string>, ghost w': string)
    requires forall g | g in row :: (r, g) in flat && flat[(r, g)] == row[g]
    requires OldestOf(flat, seen, visited, oldestRule, oldestGroup, oldestTime, after, w)
    requires if r == "" then oldestRule != "" ==> AllCompared(visited, after) else r in after
    ensures OldestOf(flat, seen, visited + Row(r, row.Keys), rule, group, time, after', w')
    ensures r != "" ==> after' == after
  {
    rule, group, time, after', w' := oldestRule, oldestGroup, oldestTime, after, w;
    var groups := row.Keys;
    ghost var done: set<Key> := visited;
    assert Row(r, row.Keys - groups) == {};
    while groups != {}
      invariant groups <= row.Keys && done == visited + Row(r, row.Keys - groups)
      invariant r != "" ==> after' == after
      invariant r == "" && rule != "" ==> AllCompared(done, after')
      invariant OldestOf(flat, seen, done, rule, group, time, after', w')
    {
      var g :| g in groups;
      if r == "" {
        OldestRestarts(flat, seen, done, rule, group, time, after', w', (r, g));
      } else {
        OldestStep(flat, seen, done, rule, group, time, after', w', (r, g));
      }
      if rule == "" || seen(row[g]) < time {
        if r == "" && rule != "" {
          after', w' := {}, g;
        }
        rule, group, time := r, g, seen(row[g]);
      }
      done, groups := done + {(r, g)}, groups - {g};
    }
  }

  /** Scans every entry in arbitrary order; an empty rule id is taken to mean that none was found yet. */
  method FindOldest<T>(m: Nested<T>, seen: T -> int, ghost flat: map<Key, T>) returns (oldestRule: string, oldestGroup: string)
    requires Flattens(m, flat)
    ensures ScanEndsWith(flat, seen, if oldestRule == "" then None else Some((oldestRule, oldestGroup)))
  {
    var oldestTime := 0;
    oldestRule, oldestGroup := "", "";
    var rules := m.Keys;
    ghost var visited: set<Key>, after: set<string>, w := {}, {}, "";
    while rules != {}
      invariant rules <= m.Keys && visited == Outside(flat.Keys, rules)
      invariant "" in rules ==> AllCompared(visited, after)
      invariant OldestOf(flat, seen, visited, oldestRule, oldestGroup, oldestTime, after, w)
    {
      var r :| r in rules;
      if r != "" {
        CompareRow(flat, seen, visited, oldestRule, oldestGroup, oldestTime, after, w, r);
        after := after + {r};
      }
      oldestRule, oldestGroup, oldestTime, after, w :=
        ScanRow(m[r], r, seen, oldestRule, oldestGroup, oldestTime, flat, visited, after, w);
      OutsideGrows(m, flat, rules, r);
      rules, visited := rules - {r}, visited + Row(r, m[r].Keys);
    }
    assert visited == flat.Keys;
    ScanComplete(flat, seen, visited, oldestRule, oldestGroup, oldestTime, after, w);
  }

  /** kept is row without its stale entries. */
  ghost predicate Cleaned<T>(row: map<string, T>, kept: map<string, T>, seen: T -> int, window: T -> int, now: int) {
    && (forall g | g in kept :: g in row && kept[g] == row[g])
    && (forall g | g in row :: g in kept <==> !Stale(seen(row[g]), window(row[g]), now))
  }

  method CleanRow<T>(row: map<string, T>, seen: T -> int, window: T -> int, now: int) returns (kept: map<string, T>)
    ensures Cleaned(row, kept, seen, window, now)
  {
    kept := row;
    var groups := row.Keys;
    while groups != {}
      invariant groups <= row.Keys
      invariant forall g | g in kept :: g in row && kept[g] == row[g]
      invariant forall g | g in row :: g in kept <==> g in groups || !Stale(seen(row[g]), window(row[g]), now)
    {
      var g :| g in groups;
      if now - seen(row[g]) > window(row[g]) * 2 {
        kept := kept - {g};
      }
      groups := groups - {g};
    }
  }

  ghost function RowAt<T>(m: Nested<T>, r: string): map<string, T> {
    if r in m then m[r] else map[]
  }

  lemma CleanedFlattens<T>(m: Nested<T>, kept: Nested<T>, flat: map<Key, T>, seen: T -> int, window: T -> int, now: int)
    requires Flattens(m, flat) && kept.Keys <= m.Keys
    requires forall r | r in m :: Cleaned(m[r], RowAt(kept, r), seen, window, now)
    ensures Flattens(kept, Live(flat, seen, window, now))
  {
  }

  /** Deletes the stale entries of every row, and the rows left empty. */
  method Clean<T>(m: Nested<T>, seen: T -> int, window: T -> int, now: int, ghost flat: map<Key, T>) returns (kept: Nested<T>)
    requires Flattens(m, flat)
    ensures kept.Keys <= m.Keys && forall r | r in kept :: kept[r] != map[]
    ensures Flattens(kept, Live(flat, seen, window, now))
  {
    kept := m;
    var rules := m.Keys;
    while rules != {}
      invariant rules <= kept.Keys <= m.Keys
      invariant forall r | r in kept && r !in rules :: kept[r] != map[]
      invariant forall r | r in rules :: kept[r] == m[r]
      invariant forall r | r in m && r !in rules :: Cleaned(m[r], RowAt(kept, r), seen, window, now)
    {
      var r :| r in rules;
      var row := CleanRow(m[r], seen, window, now);
      ghost var before := kept;
      kept := if row == map[] then kept - {r} else kept[r := row];
      rules := rules - {r};
      assert RowAt(kept, r) == row;
      forall x | x in m && x !in rules
        ensures Cleaned(m[x], RowAt(kept, x), seen, window, now)
      {
        assert x != r ==> RowAt(kept, x) == RowAt(before, x);
      }
    }
    CleanedFlattens(m, kept, flat, seen, window, now);
  }
}

/** The bounded event correlator, whose calls are serialised by its lock. */
module CorrelatorImpl {
  import opened Common
  import opened CorrelatorSpec
  import opened NestedMaps

  /** flat with an entry for key: the old one, or a new one that may have evicted another. */
  ghost predicate Filled<T>(flat: map<Key, T>, filled: map<Key, T>, key: Key, entry: T, seen: T -> int, cap: int, victim: Option<Key>) {
    if key in flat then filled == flat && victim.None?
    else filled == Evict(flat, victim)[key := entry] && LegalVictim(flat, seen, cap, victim)
  }

  lemma IncrementEffect(s: State, op: Op, filled: map<Key, Counter>, cg: Counter, cap: int)
    requires op.Increment?
    requires Filled(s.counters, filled, op.key, Counter(0, op.now, op.now, Window(op.windowSec)), CounterSeen, cap, op.victim)
    requires cg == Bumped(filled[op.key], Window(op.windowSec), op.now)
    ensures Legal(s, op, cap)
    ensures Apply(s, op) == s.(counters := filled[op.key := cg])
    ensures Output(s, op) <==> cg.count >= op.threshold
  {
  }

  /** A later step without a tracker changes nothing. */
  lemma IgnoredStep(s: State, op: Op, cap: int)
    requires op.Advance? && op.key !in s.sequences && op.step != 0 && op.victim.None?
    ensures Legal(s, op, cap) && Apply(s, op) == s && !Output(s, op)
  {
  }

  lemma AdvanceEffect(s: State, op: Op, filled: map<Key, Tracker>, st: Tracker, complete: bool, cap: int)
    requires op.Advance? && (op.key in s.sequences || op.step == 0)
    requires Filled(s.sequences, filled, op.key, Tracker(0, [], 0, Window(op.windowSec)), TrackerSeen, cap, op.victim)
    requires (st, complete) == Stepped(Refreshed(filled[op.key], Window(op.windowSec), op.now), op.step, op.total, op.now)
    ensures Legal(s, op, cap)
    ensures Apply(s, op) == s.(sequences := filled[op.key := st])
    ensures Output(s, op) <==> complete
  {
  }

  class Correlator {
    var counters: Nested<Counter>
    var sequences: Nested<Tracker>
    const maxGroups: int

    /** Every call made so far. */
    ghost var trace: Trace

    ghost predicate Represents(s: State)
      reads this
    {
      Flattens(counters, s.counters) && Flattens(sequences, s.sequences)
    }

    ghost predicate Valid()
      reads this
    {
      && Executes(trace, maxGroups)
      && Represents(Current(trace))
    }

    constructor (maxGroups: int)
      ensures Valid() && this.maxGroups == maxGroups
      ensures trace == EMPTY_TRACE
    {
      counters := map[];
      sequences := map[];
      this.maxGroups := maxGroups;
      trace := EMPTY_TRACE;
    }

    /** Makes sure the counter of key exists. */
    method OpenCounter(ruleID: string, groupValue: string, entry: Counter, ghost flat: map<Key, Counter>)
      returns (ghost filled: map<Key, Counter>, ghost victim: Option<Key>)
      requires Flattens(counters, flat)
      modifies this`counters
      ensures ruleID in counters && groupValue in counters[ruleID]
      ensures Flattens(counters, filled)
      ensures Filled(flat, filled, (ruleID, groupValue), entry, CounterSeen, maxGroups, victim)
      ensures counters[ruleID][groupValue] == filled[(ruleID, groupValue)]
    {
      NoRowFlattens(counters, flat, ruleID, groupValue);
      victim, filled := None, flat;
      if ruleID !in counters {
        NewRowFlattens(counters, flat, ruleID);
        counters := counters[ruleID := map[]];
      }
      if groupValue !in counters[ruleID] {
        victim := EvictCountersIfNeeded(flat);
        filled := Evict(flat, victim);
        PutFlattens(counters, filled, ruleID, groupValue, entry);
        counters := counters[ruleID := counters[ruleID][groupValue := entry]];
        filled := filled[(ruleID, groupValue) := entry];
      }
    }

    /** Counts one event, and tells whether the threshold is reached within the window. */
    method IncrementCounter(ruleID: string, groupValue: string, threshold: int, windowSec: int, now: int, ghost event: nat)
      returns (fired: bool)
      requires Valid()
      modifies this
      ensures Valid()
      ensures exists v :: trace == Extend(old(trace), Increment((ruleID, groupValue), threshold, windowSec, now, event, v))
      ensures fired == Output(Current(old(trace)), trace.ops[|old(trace).ops|])
    {
      ghost var key, flat := (ruleID, groupValue), Current(trace).counters;
      var window := Window(windowSec);
      ghost var filled, victim := OpenCounter(ruleID, groupValue, Counter(0, now, now, window), flat);
      ghost var op := Increment(key, threshold, windowSec, now, event, victim);
      var cg := counters[ruleID][groupValue];
      if now - cg.firstSeen > window {
        cg := cg.(count := 0, firstSeen := now);
      }
      cg := cg.(count := cg.count + 1, lastSeen := now);
      PutFlattens(counters, filled, ruleID, groupValue, cg);
      counters := counters[ruleID := counters[ruleID][groupValue := cg]];
      fired := cg.count >= threshold;
      IncrementEffect(Current(trace), op, filled, cg, maxGroups);
      Record(op, Current(trace).(counters := filled[key := cg]));
    }

    /** Makes sure the tracker of key exists. */
    method OpenTracker(ruleID: string, groupValue: string, entry: Tracker, ghost flat: map<Key, Tracker>)
      returns (ghost filled: map<Key, Tracker>, ghost victim: Option<Key>)
      requires Flattens(sequences, flat)
      modifies this`sequences
      ensures ruleID in sequences && groupValue in sequences[ruleID]
      ensures Flattens(sequences, filled)
      ensures Filled(flat, filled, (ruleID, groupValue), entry, TrackerSeen, maxGroups, victim)
      ensures sequences[ruleID][groupValue] == filled[(ruleID, groupValue)]
    {
      NoRowFlattens(sequences, flat, ruleID, groupValue);
      victim, filled := None, flat;
      if ruleID !in sequences {
        NewRowFlattens(sequences, flat, ruleID);
        sequences := sequences[ruleID := map[]];
      }
      if groupValue !in sequences[ruleID] {
        victim := EvictSequencesIfNeeded(flat);
        filled := Evict(flat, victim);
        PutFlattens(sequences, filled, ruleID, groupValue, entry);
        sequences := sequences[ruleID := sequences[ruleID][groupValue := entry]];
        filled := filled[(ruleID, groupValue) := entry];
      }
    }

    /** Starts the tracker over if its window expired, then takes the step if it is the expected one. */
    static method StepTracker(tracker: Tracker, stepIndex: nat, totalSteps: nat, window: int, now: int)
      returns (st: Tracker, complete: bool)
      ensures (st, complete) == Stepped(Refreshed(tracker, window, now), stepIndex, totalSteps, now)
    {
      st, complete := tracker, false;
      if |st.timestamps| > 0 && now - st.timestamps[0] > window {
        st := st.(stepsMatched := 0, timestamps := []);
        if stepIndex != 0 {
          return;
        }
      }
      if stepIndex != st.stepsMatched {
        return;
      }
      st := st.(stepsMatched := st.stepsMatched + 1, timestamps := st.timestamps + [now], lastSeen := now);
      if st.stepsMatched >= totalSteps {
        st := st.(stepsMatched := 0, timestamps := []);
        complete := true;
      }
    }

    /** Offers an event as step stepIndex of its rule, and tells whether the sequence is complete. */
    method AdvanceSequence(ruleID: string, groupValue: string, stepIndex: nat, totalSteps: nat, windowSec: int, now: int,
                           ghost event: nat)
      returns (complete: bool)
      requires Valid()
      modifies this
      ensures Valid()
      ensures exists v :: trace == Extend(old(trace), Advance((ruleID, groupValue), stepIndex, totalSteps, windowSec, now, event, v))
      ensures complete == Output(Current(old(trace)), trace.ops[|old(trace).ops|])
    {
      ghost var key, flat := (ruleID, groupValue), Current(trace).sequences;
      NoRowFlattens(sequences, flat, ruleID, groupValue);
      var window := Window(windowSec);
      complete := false;
      if stepIndex != 0 && (ruleID !in sequences || groupValue !in sequences[ruleID]) {
        ghost var ignored := Advance(key, stepIndex, totalSteps, windowSec, now, event, None);
        IgnoredStep(Current(trace), ignored, maxGroups);
        Record(ignored, Current(trace));
        return;
      }
      ghost var filled, victim := OpenTracker(ruleID, groupValue, Tracker(0, [], 0, window), flat);
      ghost var op := Advance(key, stepIndex, totalSteps, windowSec, now, event, victim);
      var st, done := StepTracker(sequences[ruleID][groupValue], stepIndex, totalSteps, window, now);
      complete := done;
      PutFlattens(sequences, filled, ruleID, groupValue, st);
      sequences := sequences[ruleID := sequences[ruleID][groupValue := st]];
      AdvanceEffect(Current(trace), op, filled, st, complete, maxGroups);
      Record(op, Current(trace).(sequences := filled[key := st]));
    }

    /** Adds to the trace a call whose effect is already in the maps. */
    ghost method Record(op: Op, after: State)
      requires Executes(trace, maxGroups)
      requires Legal(Current(trace), op, maxGroups)
      requires after == Apply(Current(trace), op) && Represents(after)
      modifies this`trace
      ensures Valid() && trace == Extend(old(trace), op)
    {
      ExtendExecutes(trace, op, maxGroups);
      trace := Extend(trace, op);
    }

    /** Drops the counter of a rule that has just acted. */
    method ResetCounter(ruleID: string, groupValue: string)
      requires Valid()
      modifies this
      ensures Valid()
      ensures trace == Extend(old(trace), Reset((ruleID, groupValue)))
    {
      NoRowFlattens(counters, Current(trace).counters, ruleID, groupValue);
      if ruleID in counters {
        DeleteFlattens(counters, Current(trace).counters, ruleID, groupValue);
        counters := counters[ruleID := counters[ruleID] - {groupValue}];
      }
      Record(Reset((ruleID, groupValue)), Apply(Current(trace), Reset((ruleID, groupValue))));
    }

    /** Drops every entry unused for more than twice its window. */
    method Cleanup(now: int)
      requires Valid()
      modifies this
      ensures Valid()
      ensures trace == Extend(old(trace), CorrelatorSpec.Cleanup(now))
      ensures (forall r | r in counters :: counters[r] != map[]) && forall r | r in sequences :: sequences[r] != map[]
    {
      counters := Clean(counters, CounterSeen, CounterWindow, now, Current(trace).counters);
      sequences := Clean(sequences, TrackerSeen, TrackerWindow, now, Current(trace).sequences);
      Record(CorrelatorSpec.Cleanup(now), Apply(Current(trace), CorrelatorSpec.Cleanup(now)));
    }

    method EvictCountersIfNeeded(ghost flat: map<Key, Counter>) returns (ghost victim: Option<Key>)
      requires Flattens(counters, flat)
      modifies this`counters
      ensures counters.Keys == old(counters).Keys
      ensures LegalVictim(flat, CounterSeen, maxGroups, victim)
      ensures Flattens(counters, Evict(flat, victim))
    {
      victim := None;
      var n := TotalEntries(counters, flat);
      if n < maxGroups {
        return;
      }
      var oldestRule, oldestGroup := FindOldest(counters, CounterSeen, flat);
      if oldestRule != "" {
        DeleteFlattens(counters, flat, oldestRule, oldestGroup);
        counters := counters[oldestRule := counters[oldestRule] - {oldestGroup}];
        victim := Some((oldestRule, oldestGroup));
      }
    }

    method EvictSequencesIfNeeded(ghost flat: map<Key, Tracker>) returns (ghost victim: Option<Key>)
      requires Flattens(sequences, flat)
      modifies this`sequences
      ensures sequences.Keys == old(sequences).Keys
      ensures LegalVictim(flat, TrackerSeen, maxGroups, victim)
      ensures Flattens(sequences, Evict(flat, victim))
    {
      victim := None;
      var n := TotalEntries(sequences, flat);
      if n < maxGroups {
        return;
      }
      var oldestRule, oldestGroup := FindOldest(sequences, TrackerSeen, flat);
      if oldestRule != "" {
        DeleteFlattens(sequences, flat, oldestRule, oldestGroup);
        sequences := sequences[oldestRule := sequences[oldestRule] - {oldestGroup}];
        victim := Some((oldestRule, oldestGroup));
      }
    }
  }
}
