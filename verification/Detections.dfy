/**
 * Every detection of a counting or sequence rule is backed by events that really
 * happened: a firing call names the calls that led to it. The trails below are
 * read off the run itself, and hold through evictions, resets and cleanups.
 */
module Detections {
  import opened Common
  import opened CorrelatorSpec

  ghost predicate Increasing(s: seq<nat>) {
    forall i, j | 0 <= i < j < |s| :: s[i] < s[j]
  }

  // Counting rules

  ghost predicate Fires(tr: Trace, n: nat) {
    n < |tr.ops| && n < |tr.states| && tr.ops[n].Increment? && Output(tr.states[n], tr.ops[n])
  }

  ghost predicate CountsFor(tr: Trace, n: nat, key: Key) {
    n < |tr.ops| && tr.ops[n].Increment? && tr.ops[n].key == key
  }

  ghost predicate ResetBetween(tr: Trace, i: nat, j: nat, key: Key)
    requires j <= |tr.ops|
  {
    exists r | i < r < j :: tr.ops[r] == Reset(key)
  }

  /** The engine resets the counter of a rule that fired before it counts for it again. */
  ghost predicate ResetAfterFiring(tr: Trace) {
    forall i, j, key | 0 <= i < j < |tr.ops| && Fires(tr, i) && CountsFor(tr, i, key) && CountsFor(tr, j, key) ::
      ResetBetween(tr, i, j, key)
  }

  /** The counter of key is in the map and its window is still open for the call at n. */
  ghost predicate CountsOn(s: State, op: Op)
    requires op.Increment?
  {
    op.key in s.counters && op.now - s.counters[op.key].firstSeen <= Window(op.windowSec)
  }

  /** The calls counted by the entry of key after n calls. */
  ghost function CounterTrail(tr: Trace, n: nat, key: Key): seq<nat>
    requires n <= |tr.ops| < |tr.states|
  {
    if n == 0 then []
    else if CountsFor(tr, n - 1, key) then
      (if CountsOn(tr.states[n-1], tr.ops[n-1]) then CounterTrail(tr, n - 1, key) else []) + [n - 1]
    else CounterTrail(tr, n - 1, key)
  }

  /** The trail of an entry is what its count and firstSeen say, and starts after the last reset. */
  ghost predicate Counted(tr: Trace, n: nat, key: Key, c: Counter, trail: seq<nat>)
    requires n <= |tr.ops|
  {
    && |trail| == c.count >= 1
    && Increasing(trail)
    && (forall i | 0 <= i < |trail| :: trail[i] < n && CountsFor(tr, trail[i], key))
    && tr.ops[trail[0]].now == c.firstSeen
    && !ResetBetween(tr, trail[0], n, key)
  }

  /** What one call does to one counter. */
  lemma CounterStep(s: State, op: Op, key: Key)
    requires key in Apply(s, op).counters
    ensures var c := Apply(s, op).counters[key];
            if op.Increment? && op.key == key then
              && c.firstSeen == (if CountsOn(s, op) then s.counters[key].firstSeen else op.now)
              && c.count == (if CountsOn(s, op) then s.counters[key].count + 1 else 1)
              && (Output(s, op) <==> c.count >= op.threshold)
            else
              op != Reset(key) && key in s.counters && c == s.counters[key]
  {
  }

  lemma {:induction false} CountedAlways(tr: Trace, cap: int, n: nat, key: Key)
    requires Executes(tr, cap) && n <= |tr.ops|
    requires key in tr.states[n].counters
    ensures Counted(tr, n, key, tr.states[n].counters[key], CounterTrail(tr, n, key))
  {
    assert StepAt(tr, n - 1);
    CounterStep(tr.states[n-1], tr.ops[n-1], key);
    if !CountsFor(tr, n - 1, key) || CountsOn(tr.states[n-1], tr.ops[n-1]) {
      CountedAlways(tr, cap, n - 1, key);
    }
  }

  /** The count of an entry is at or above the threshold of its last call only when that call fired. */
  lemma {:induction false} PendingIffFired(tr: Trace, cap: int, n: nat, key: Key)
    requires Executes(tr, cap) && n <= |tr.ops|
    requires key in tr.states[n].counters
    ensures var trail := CounterTrail(tr, n, key);
            && |trail| > 0 && CountsFor(tr, trail[|trail|-1], key)
            && (Fires(tr, trail[|trail|-1]) <==> tr.states[n].counters[key].count >= tr.ops[trail[|trail|-1]].threshold)
  {
    assert StepAt(tr, n - 1);
    CounterStep(tr.states[n-1], tr.ops[n-1], key);
    if !CountsFor(tr, n - 1, key) {
      PendingIffFired(tr, cap, n - 1, key);
    }
  }

  /** Before a call that counts, the entry is below the threshold of the call before. */
  lemma NotYetFired(tr: Trace, cap: int, n: nat, key: Key)
    requires Executes(tr, cap) && ResetAfterFiring(tr)
    requires n < |tr.ops| && CountsFor(tr, n, key) && key in tr.states[n].counters
    ensures var trail := CounterTrail(tr, n, key);
            && |trail| > 0 && CountsFor(tr, trail[|trail|-1], key)
            && tr.states[n].counters[key].count < tr.ops[trail[|trail|-1]].threshold
  {
    CountedAlways(tr, cap, n, key);
    PendingIffFired(tr, cap, n, key);
    var trail := CounterTrail(tr, n, key);
    var p := trail[|trail|-1];
    assert CountsFor(tr, p, key) && trail[0] <= p;
    NoResetLater(tr, trail[0], p, n, key);
    assert !Fires(tr, p);
  }

  lemma NoResetLater(tr: Trace, i: nat, p: nat, n: nat, key: Key)
    requires i <= p <= n <= |tr.ops| && !ResetBetween(tr, i, n, key)
    ensures !ResetBetween(tr, p, n, key)
  {
  }

  /** An open window already holds the count that the call at n asks for. */
  ghost predicate AlreadyReached(tr: Trace, n: nat)
    requires n < |tr.ops| && n < |tr.states| && tr.ops[n].Increment?
  {
    CountsOn(tr.states[n], tr.ops[n]) && tr.states[n].counters[tr.ops[n].key].count >= tr.ops[n].threshold
  }

  /**
   * A firing stands on calls of its rule and group, ending with the firing one and
   * within its timeframe. There are exactly max(1, threshold) of them, unless the
   * window already held that many, which takes a threshold lowered since the call
   * before.
   */
  lemma CountingDetectionWitnessed(tr: Trace, cap: int, n: nat)
    requires Executes(tr, cap) && ResetAfterFiring(tr)
    requires n < |tr.ops| && Fires(tr, n)
    ensures var key, threshold := tr.ops[n].key, tr.ops[n].threshold;
            var w := CounterTrail(tr, n + 1, key);
            && Increasing(w) && |w| > 0 && w[|w|-1] == n
            && (forall i | 0 <= i < |w| :: w[i] <= n && CountsFor(tr, w[i], key))
            && tr.ops[n].now - tr.ops[w[0]].now <= Max(0, Window(tr.ops[n].windowSec))
            && |w| >= Max(1, threshold)
            && (|w| == Max(1, threshold) <==> !AlreadyReached(tr, n))
            && (AlreadyReached(tr, n) ==> |w| > 1 && threshold < tr.ops[w[|w|-2]].threshold)
  {
    var key := tr.ops[n].key;
    assert StepAt(tr, n);
    CounterStep(tr.states[n], tr.ops[n], key);
    CountedAlways(tr, cap, n + 1, key);
    if CountsOn(tr.states[n], tr.ops[n]) {
      CountedAlways(tr, cap, n, key);
      NotYetFired(tr, cap, n, key);
    }
  }

  /** A call fires exactly when the calls counted in its window, with it, reach its threshold. */
  lemma FiresExactly(tr: Trace, cap: int, n: nat)
    requires Executes(tr, cap) && n < |tr.ops| && tr.ops[n].Increment?
    ensures Fires(tr, n) <==> |CounterTrail(tr, n + 1, tr.ops[n].key)| >= tr.ops[n].threshold
  {
    assert StepAt(tr, n);
    CounterStep(tr.states[n], tr.ops[n], tr.ops[n].key);
    CountedAlways(tr, cap, n + 1, tr.ops[n].key);
  }

  ghost predicate EventsInOrder(tr: Trace) {
    forall i, j | 0 <= i < j < |tr.ops| && OfEvent(tr.ops[i]) && OfEvent(tr.ops[j]) :: tr.ops[i].event <= tr.ops[j].event
  }

  ghost predicate OfEvent(op: Op) {
    op.Increment? || op.Advance?
  }

  /** From call `from` on no event is counted twice for key. */
  ghost predicate CountedOnce(tr: Trace, from: nat, key: Key) {
    forall i, j | from <= i < j < |tr.ops| && CountsFor(tr, i, key) && CountsFor(tr, j, key) ::
      tr.ops[i].event != tr.ops[j].event
  }

  /** The calls behind a firing are for as many different events, in order, if none of them is counted twice. */
  lemma CountedEventsDistinct(tr: Trace, cap: int, n: nat)
    requires Executes(tr, cap) && ResetAfterFiring(tr) && EventsInOrder(tr)
    requires n < |tr.ops| && Fires(tr, n)
    requires CounterTrail(tr, n + 1, tr.ops[n].key) != []
    requires CountedOnce(tr, CounterTrail(tr, n + 1, tr.ops[n].key)[0], tr.ops[n].key)
    ensures var w := CounterTrail(tr, n + 1, tr.ops[n].key);
            forall i, j | 0 <= i < j < |w| ::
              && w[i] < w[j] < |tr.ops| && tr.ops[w[i]].Increment? && tr.ops[w[j]].Increment?
              && tr.ops[w[i]].event < tr.ops[w[j]].event
  {
    CountingDetectionWitnessed(tr, cap, n);
    var key, w := tr.ops[n].key, CounterTrail(tr, n + 1, tr.ops[n].key);
    forall i, j | 0 <= i < j < |w|
      ensures w[i] < w[j] < |tr.ops| && tr.ops[w[i]].Increment? && tr.ops[w[j]].Increment? && tr.ops[w[i]].event < tr.ops[w[j]].event
    {
      assert w[0] <= w[i] < w[j] && CountsFor(tr, w[i], key) && CountsFor(tr, w[j], key);
    }
  }

  /** No call is counted towards two firings. */
  lemma FiringsDisjoint(tr: Trace, cap: int, i: nat, j: nat)
    requires Executes(tr, cap) && ResetAfterFiring(tr)
    requires i < j < |tr.ops| && Fires(tr, i) && Fires(tr, j)
    ensures var u, v := CounterTrail(tr, i + 1, tr.ops[i].key), CounterTrail(tr, j + 1, tr.ops[j].key);
            forall x, y | 0 <= x < |u| && 0 <= y < |v| :: u[x] != v[y]
  {
    var key := tr.ops[i].key;
    CountingDetectionWitnessed(tr, cap, i);
    CountingDetectionWitnessed(tr, cap, j);
    var u, v := CounterTrail(tr, i + 1, key), CounterTrail(tr, j + 1, tr.ops[j].key);
    if tr.ops[j].key == key {
      assert CountsFor(tr, i, key) && CountsFor(tr, j, key);
      var r :| i < r < j && tr.ops[r] == Reset(key);
      assert StepAt(tr, j);
      CountedAlways(tr, cap, j + 1, key);
      assert v[0] >= r;
    } else {
      forall x, y | 0 <= x < |u| && 0 <= y < |v|
        ensures u[x] != v[y]
      {
        assert CountsFor(tr, u[x], key) && CountsFor(tr, v[y], tr.ops[j].key);
      }
    }
  }

  /** The call at p neither finds the entry of key missing nor starts it over. */
  ghost predicate KeepsCounter(tr: Trace, p: nat, key: Key)
    requires p < |tr.ops| < |tr.states|
  {
    key in tr.states[p].counters && (CountsFor(tr, p, key) ==> CountsOn(tr.states[p], tr.ops[p]))
  }

  /** The entry that key has before call m is still the one it has before call n. */
  ghost predicate Carried(tr: Trace, m: nat, n: nat, key: Key)
    requires m <= n <= |tr.ops| < |tr.states|
  {
    key in tr.states[n].counters && forall p | m <= p < n :: KeepsCounter(tr, p, key)
  }

  /** A count rests on calls from before call m exactly when its entry is carried over from there. */
  lemma {:induction false} CarriedExactly(tr: Trace, cap: int, m: nat, n: nat, key: Key)
    requires Executes(tr, cap) && m <= n <= |tr.ops| && key in tr.states[n].counters
    ensures var trail := CounterTrail(tr, n, key);
            |trail| > 0 && (trail[0] < m <==> Carried(tr, m, n, key))
  {
    CountedAlways(tr, cap, n, key);
    if m < n {
      assert StepAt(tr, n - 1);
      CounterStep(tr.states[n-1], tr.ops[n-1], key);
      if key in tr.states[n-1].counters {
        CarriedExactly(tr, cap, m, n - 1, key);
      }
      assert Carried(tr, m, n, key) ==> KeepsCounter(tr, n - 1, key);
    }
  }

  // Sequence rules

  ghost predicate Completes(tr: Trace, n: nat) {
    n < |tr.ops| && n < |tr.states| && tr.ops[n].Advance? && Output(tr.states[n], tr.ops[n])
  }

  /** The tracker of key is in the map and its first step is still in the window for the call. */
  ghost predicate Continues(s: State, op: Op)
    requires op.Advance?
  {
    op.key in s.sequences && !Expired(s.sequences[op.key], Window(op.windowSec), op.now)
  }

  ghost predicate AdvancesFor(tr: Trace, n: nat, key: Key) {
    n < |tr.ops| && tr.ops[n].Advance? && tr.ops[n].key == key
  }

  ghost predicate MatchesStep(tr: Trace, n: nat, key: Key, step: nat) {
    AdvancesFor(tr, n, key) && tr.ops[n].step == step
  }

  /** The steps the call at n builds on. */
  ghost function PriorSteps(tr: Trace, n: nat): seq<nat>
    requires n < |tr.ops| < |tr.states| && tr.ops[n].Advance?
    decreases n, 1
  {
    if Continues(tr.states[n], tr.ops[n]) then StepTrail(tr, n, tr.ops[n].key) else []
  }

  /** The calls that matched the steps the tracker of key holds after n calls. */
  ghost function StepTrail(tr: Trace, n: nat, key: Key): seq<nat>
    requires n <= |tr.ops| < |tr.states|
    decreases n, 0
  {
    if n == 0 then []
    else if AdvancesFor(tr, n - 1, key) then
      var prior := PriorSteps(tr, n - 1);
      if tr.ops[n-1].step != |prior| then prior
      else if Completes(tr, n - 1) then []
      else prior + [n - 1]
    else StepTrail(tr, n - 1, key)
  }

  ghost predicate Tracked(tr: Trace, n: nat, key: Key, t: Tracker, trail: seq<nat>)
    requires n <= |tr.ops|
  {
    && |trail| == t.stepsMatched == |t.timestamps|
    && Increasing(trail)
    && forall i | 0 <= i < |trail| ::
         trail[i] < n && MatchesStep(tr, trail[i], key, i) && tr.ops[trail[i]].now == t.timestamps[i]
  }

  /** What one call does to one tracker. */
  lemma TrackerStep(s: State, op: Op, key: Key)
    requires key in Apply(s, op).sequences
    ensures var t := Apply(s, op).sequences[key];
            if op.Advance? && op.key == key then
              var times := if Continues(s, op) then s.sequences[key].timestamps else [];
              var matched := if Continues(s, op) then s.sequences[key].stepsMatched else 0;
              (key in s.sequences && |s.sequences[key].timestamps| == s.sequences[key].stepsMatched) || key !in s.sequences ==>
                && (Output(s, op) <==> op.step == matched && matched + 1 >= op.total)
                && t.timestamps == (if op.step != matched then times else if Output(s, op) then [] else times + [op.now])
                && t.stepsMatched == |t.timestamps|
            else
              key in s.sequences && t == s.sequences[key]
  {
  }

  /** Every step offered is one of the steps of its rule. */
  ghost predicate StepsInRange(tr: Trace) {
    forall n | 0 <= n < |tr.ops| && tr.ops[n].Advance? :: tr.ops[n].step < tr.ops[n].total
  }

  /** Between calls a tracker holds one timestamp per matched step, and never all of them. */
  lemma {:induction false} TrackedAlways(tr: Trace, cap: int, n: nat, key: Key)
    requires Executes(tr, cap) && n <= |tr.ops|
    requires key in tr.states[n].sequences
    ensures var trail := StepTrail(tr, n, key);
            && Tracked(tr, n, key, tr.states[n].sequences[key], trail)
            && Unfinished(tr, trail)
  {
    assert StepAt(tr, n - 1);
    if key in tr.states[n-1].sequences {
      TrackedAlways(tr, cap, n - 1, key);
    }
    TrackerStep(tr.states[n-1], tr.ops[n-1], key);
    if AdvancesFor(tr, n - 1, key) {
      TrackedStep(tr, cap, n - 1, key);
    }
  }

  /** The steps matched so far are fewer than the call for the last of them asks for. */
  ghost predicate Unfinished(tr: Trace, trail: seq<nat>) {
    trail != [] ==>
      var last := trail[|trail|-1];
      last < |tr.ops| && tr.ops[last].Advance? && |trail| < tr.ops[last].total
  }

  lemma TrackedStep(tr: Trace, cap: int, n: nat, key: Key)
    requires Executes(tr, cap) && n < |tr.ops| && AdvancesFor(tr, n, key) && key in tr.states[n+1].sequences
    requires key in tr.states[n].sequences ==>
               Tracked(tr, n, key, tr.states[n].sequences[key], StepTrail(tr, n, key)) && Unfinished(tr, StepTrail(tr, n, key))
    ensures Tracked(tr, n + 1, key, tr.states[n+1].sequences[key], StepTrail(tr, n + 1, key))
    ensures Unfinished(tr, StepTrail(tr, n + 1, key))
  {
    assert StepAt(tr, n);
    TrackerStep(tr.states[n], tr.ops[n], key);
    var prior, trail := PriorSteps(tr, n), StepTrail(tr, n + 1, key);
    assert trail == if tr.ops[n].step != |prior| then prior else if Completes(tr, n) then [] else prior + [n];
    assert forall i | 0 <= i < |prior| :: prior[i] < n && MatchesStep(tr, prior[i], key, i);
    assert tr.ops[n].step == |prior| ==> MatchesStep(tr, n, key, |prior|);
  }

  /** Only the tracker of its own key can complete, at the step it waits for. */
  lemma CompletionStep(tr: Trace, cap: int, n: nat)
    requires Executes(tr, cap) && StepsInRange(tr) && n < |tr.ops| && Completes(tr, n)
    ensures tr.ops[n].key in tr.states[n+1].sequences
    ensures var prior := PriorSteps(tr, n);
            && tr.ops[n].step == |prior| == tr.ops[n].total - 1
            && (Continues(tr.states[n], tr.ops[n]) ==>
                  Tracked(tr, n, tr.ops[n].key, tr.states[n].sequences[tr.ops[n].key], prior))
  {
    assert StepAt(tr, n);
    if tr.ops[n].key in tr.states[n].sequences {
      TrackedAlways(tr, cap, n, tr.ops[n].key);
    }
  }

  /**
   * A completed sequence has one call for each step 0..k-1, in order, ending with
   * the completing one and within its timeframe.
   */
  lemma SequenceDetectionWitnessed(tr: Trace, cap: int, n: nat)
    requires Executes(tr, cap) && StepsInRange(tr) && n < |tr.ops| && Completes(tr, n)
    ensures var key := tr.ops[n].key;
            var w := PriorSteps(tr, n) + [n];
            && |w| == tr.ops[n].total
            && Increasing(w)
            && (forall i | 0 <= i < |w| :: w[i] <= n && MatchesStep(tr, w[i], key, i))
            && tr.ops[n].now - tr.ops[w[0]].now <= Max(0, Window(tr.ops[n].windowSec))
  {
    CompletionStep(tr, cap, n);
    assert MatchesStep(tr, n, tr.ops[n].key, tr.ops[n].step);
  }

  ghost predicate NoEventMatchesTwoSteps(tr: Trace, key: Key) {
    forall i: nat, j: nat, step: nat | MatchesStep(tr, i, key, step) && MatchesStep(tr, j, key, step + 1) ::
      tr.ops[i].event != tr.ops[j].event
  }

  /**
   * The events behind the steps come in nondecreasing order, and strictly
   * increasing order if no event matches two consecutive steps.
   */
  lemma SequenceEventsOrdered(tr: Trace, cap: int, n: nat, i: nat, j: nat)
    requires Executes(tr, cap) && StepsInRange(tr) && EventsInOrder(tr)
    requires n < |tr.ops| && Completes(tr, n)
    requires i < j < tr.ops[n].total
    ensures var w := PriorSteps(tr, n) + [n];
            && |w| == tr.ops[n].total
            && w[i] < w[i+1] <= w[j] <= n && tr.ops[w[i]].Advance? && tr.ops[w[i+1]].Advance? && tr.ops[w[j]].Advance?
            && tr.ops[w[i]].event <= tr.ops[w[i+1]].event <= tr.ops[w[j]].event
            && (NoEventMatchesTwoSteps(tr, tr.ops[n].key) ==> tr.ops[w[i]].event < tr.ops[w[j]].event)
  {
    SequenceDetectionWitnessed(tr, cap, n);
    var key, w := tr.ops[n].key, PriorSteps(tr, n) + [n];
    assert MatchesStep(tr, w[i], key, i) && MatchesStep(tr, w[j], key, j);
    var mid := w[i+1];
    assert MatchesStep(tr, mid, key, i + 1);
    assert mid == w[j] || mid < w[j];
  }

  /** No call is a step of two completions. */
  lemma CompletionsDisjoint(tr: Trace, cap: int, i: nat, j: nat)
    requires Executes(tr, cap) && StepsInRange(tr)
    requires i < j < |tr.ops| && Completes(tr, i) && Completes(tr, j)
    ensures var u, v := PriorSteps(tr, i) + [i], PriorSteps(tr, j) + [j];
            forall x, y | 0 <= x < |u| && 0 <= y < |v| :: u[x] != v[y]
  {
    SequenceDetectionWitnessed(tr, cap, i);
    SequenceDetectionWitnessed(tr, cap, j);
    TrailAfterCompletion(tr, cap, i, j);
    var u, v := PriorSteps(tr, i) + [i], PriorSteps(tr, j) + [j];
    forall x, y | 0 <= x < |u| && 0 <= y < |v|
      ensures u[x] != v[y]
    {
      assert MatchesStep(tr, u[x], tr.ops[i].key, x) && MatchesStep(tr, v[y], tr.ops[j].key, y);
      if tr.ops[i].key == tr.ops[j].key {
        assert u[x] <= i;
        var prior := PriorSteps(tr, j);
        assert prior == [] || prior == StepTrail(tr, j, tr.ops[i].key);
        assert y < |prior| ==> v[y] == prior[y];
      }
    }
  }

  /** Completion empties the tracker, so every step it holds later came later. */
  lemma {:induction false} TrailAfterCompletion(tr: Trace, cap: int, i: nat, n: nat)
    requires Executes(tr, cap) && StepsInRange(tr)
    requires i < n <= |tr.ops| && Completes(tr, i)
    ensures var trail := StepTrail(tr, n, tr.ops[i].key);
            forall x | 0 <= x < |trail| :: i < trail[x]
  {
    if n - 1 == i {
      assert AdvancesFor(tr, i, tr.ops[i].key);
      CompletionStep(tr, cap, i);
    } else {
      TrailAfterCompletion(tr, cap, i, n - 1);
      if AdvancesFor(tr, n - 1, tr.ops[i].key) {
        var prior := PriorSteps(tr, n - 1);
        assert prior == [] || prior == StepTrail(tr, n - 1, tr.ops[i].key);
        assert forall x | 0 <= x < |prior| :: i < prior[x];
      }
    }
  }

  /** The call at p finds steps matched for key and does not start them over. */
  ghost predicate KeepsSteps(tr: Trace, p: nat, key: Key)
    requires p < |tr.ops| < |tr.states|
  {
    && key in tr.states[p].sequences && tr.states[p].sequences[key].stepsMatched > 0
    && (AdvancesFor(tr, p, key) ==> Continues(tr.states[p], tr.ops[p]))
  }

  ghost predicate CarriedSteps(tr: Trace, m: nat, n: nat, key: Key)
    requires m <= n <= |tr.ops| < |tr.states|
  {
    forall p | m <= p < n :: KeepsSteps(tr, p, key)
  }

  /** What a call that keeps the steps of key does to their trail. */
  lemma TrailKept(tr: Trace, cap: int, p: nat, key: Key)
    requires Executes(tr, cap) && p < |tr.ops| && key in tr.states[p+1].sequences && StepTrail(tr, p + 1, key) != []
    ensures if KeepsSteps(tr, p, key) then StepTrail(tr, p, key) != [] && StepTrail(tr, p + 1, key)[0] == StepTrail(tr, p, key)[0]
            else StepTrail(tr, p + 1, key)[0] == p
  {
    assert StepAt(tr, p);
    TrackedAlways(tr, cap, p + 1, key);
    if key in tr.states[p].sequences {
      TrackedAlways(tr, cap, p, key);
    }
    TrackerStep(tr.states[p], tr.ops[p], key);
  }

  lemma {:induction false} StepsCarried(tr: Trace, cap: int, m: nat, n: nat, key: Key)
    requires Executes(tr, cap) && m <= n <= |tr.ops| && key in tr.states[n].sequences && StepTrail(tr, n, key) != []
    ensures StepTrail(tr, n, key)[0] < m <==> CarriedSteps(tr, m, n, key)
  {
    if m == n {
      TrackedAlways(tr, cap, n, key);
    } else {
      TrailKept(tr, cap, n - 1, key);
      if KeepsSteps(tr, n - 1, key) {
        StepsCarried(tr, cap, m, n - 1, key);
      }
    }
  }

  /** A completion rests on calls from before call m exactly when matched steps are carried over from there. */
  lemma CarriedStepsExactly(tr: Trace, cap: int, m: nat, n: nat)
    requires Executes(tr, cap) && m <= n < |tr.ops| && tr.ops[n].Advance?
    ensures (PriorSteps(tr, n) + [n])[0] < m <==> KeepsSteps(tr, n, tr.ops[n].key) && CarriedSteps(tr, m, n, tr.ops[n].key)
  {
    var key := tr.ops[n].key;
    if Continues(tr.states[n], tr.ops[n]) {
      TrackedAlways(tr, cap, n, key);
      if StepTrail(tr, n, key) != [] {
        StepsCarried(tr, cap, m, n, key);
      }
    }
  }
}
