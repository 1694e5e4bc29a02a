/**
 * When the correlator must fire. A counter's window opens with the first event it
 * counts and does not slide, and a sequence is followed from its first step on, so
 * enough events within a timeframe may go unnoticed; how many cannot is proved here.
 */
module Completeness {
  import opened Common
  import opened CorrelatorSpec
  import opened Detections

  // Counting rules

  /** Call p counts for key, with the parameters of one rule. */
  ghost predicate CountsWith(tr: Trace, p: nat, key: Key, threshold: int, windowSec: int) {
    CountsFor(tr, p, key) && tr.ops[p].threshold == threshold && tr.ops[p].windowSec == windowSec
  }

  /** Of the calls m to n every one for key has these parameters and a reading within [from, to], and key stays in the map. */
  ghost predicate Steady(tr: Trace, m: nat, n: nat, key: Key, threshold: int, windowSec: int, from: int, to: int) {
    && (forall p | m <= p <= n && CountsFor(tr, p, key) ::
          CountsWith(tr, p, key, threshold, windowSec) && from <= tr.ops[p].now <= to)
    && (forall p | m < p <= n + 1 && p < |tr.states| :: key in tr.states[p].counters)
  }

  ghost predicate RestartsAt(tr: Trace, p: nat, key: Key) {
    p < |tr.states| && CountsFor(tr, p, key) && !CountsOn(tr.states[p], tr.ops[p])
  }

  /** None of the calls after m and up to n starts the counter of key over. */
  ghost predicate NoRestart(tr: Trace, m: nat, n: nat, key: Key) {
    forall p | m < p <= n :: !RestartsAt(tr, p, key)
  }

  function CountAt(tr: Trace, n: nat, key: Key): int {
    if n < |tr.states| && key in tr.states[n].counters then tr.states[n].counters[key].count else 0
  }

  function FirstSeenAt(tr: Trace, n: nat, key: Key): int {
    if n < |tr.states| && key in tr.states[n].counters then tr.states[n].counters[key].firstSeen else 0
  }

  /** What call p does to the counter of key while it stays in the map. */
  lemma CallStep(tr: Trace, cap: int, p: nat, key: Key)
    requires Executes(tr, cap) && p < |tr.ops| && key in tr.states[p+1].counters
    ensures !CountsFor(tr, p, key) ==>
              CountAt(tr, p + 1, key) == CountAt(tr, p, key) && FirstSeenAt(tr, p + 1, key) == FirstSeenAt(tr, p, key)
    ensures RestartsAt(tr, p, key) ==> CountAt(tr, p + 1, key) == 1 && FirstSeenAt(tr, p + 1, key) == tr.ops[p].now
    ensures CountsFor(tr, p, key) && !RestartsAt(tr, p, key) ==>
              CountAt(tr, p + 1, key) == CountAt(tr, p, key) + 1 && FirstSeenAt(tr, p + 1, key) == FirstSeenAt(tr, p, key)
    ensures CountsFor(tr, p, key) ==> (Fires(tr, p) <==> CountAt(tr, p + 1, key) >= tr.ops[p].threshold)
  {
    assert StepAt(tr, p);
    CounterStep(tr.states[p], tr.ops[p], key);
  }

  /** Without a restart the count never falls, and the window stays open from the same time. */
  lemma {:induction false} CountNeverFalls(tr: Trace, cap: int, m: nat, n: nat, key: Key)
    requires Executes(tr, cap) && m <= n < |tr.ops| && NoRestart(tr, m, n, key)
    requires forall p | m < p <= n + 1 :: key in tr.states[p].counters
    ensures CountAt(tr, m + 1, key) <= CountAt(tr, n + 1, key)
    ensures FirstSeenAt(tr, m + 1, key) == FirstSeenAt(tr, n + 1, key)
    ensures m < n && CountsFor(tr, n, key) ==> CountAt(tr, m + 1, key) < CountAt(tr, n + 1, key)
  {
    if m < n {
      CountNeverFalls(tr, cap, m, n - 1, key);
      assert !RestartsAt(tr, n, key);
      CallStep(tr, cap, n, key);
    }
  }

  /** The calls c, in order, all counting for key. */
  ghost predicate Burst(tr: Trace, c: seq<nat>, key: Key) {
    Increasing(c) && forall i | 0 <= i < |c| :: CountsFor(tr, c[i], key)
  }

  /** Without a restart every call of a burst raises the count. */
  lemma {:induction false} BurstCounts(tr: Trace, cap: int, c: seq<nat>, i: nat, j: nat, key: Key)
    requires Executes(tr, cap) && Burst(tr, c, key) && i <= j < |c| && NoRestart(tr, c[i], c[j], key)
    requires forall p | c[i] < p <= c[j] + 1 :: key in tr.states[p].counters
    ensures CountAt(tr, c[j] + 1, key) >= CountAt(tr, c[i] + 1, key) + j - i
  {
    if i < j {
      BurstCounts(tr, cap, c, i, j - 1, key);
      assert CountsFor(tr, c[j-1], key) && CountsFor(tr, c[j], key);
      CountNeverFalls(tr, cap, c[j-1], c[j], key);
    }
  }

  /** A window opened at time `from` or later is not over by time `to`. */
  lemma {:induction false} OpenStays(tr: Trace, cap: int, m: nat, n: nat, key: Key, threshold: int, windowSec: int, from: int, to: int)
    requires Executes(tr, cap) && m <= n < |tr.ops| && Steady(tr, m, n, key, threshold, windowSec, from, to)
    requires to - from <= Window(windowSec) && from <= FirstSeenAt(tr, m + 1, key)
    ensures NoRestart(tr, m, n, key)
  {
    if m < n {
      assert Steady(tr, m, n - 1, key, threshold, windowSec, from, to);
      OpenStays(tr, cap, m, n - 1, key, threshold, windowSec, from, to);
      CountNeverFalls(tr, cap, m, n - 1, key);
      assert CountsFor(tr, n, key) ==> CountsWith(tr, n, key, threshold, windowSec);
      assert !RestartsAt(tr, n, key);
    }
  }

  /** Some call of the burst fires. */
  ghost predicate SomeFires(tr: Trace, c: seq<nat>) {
    exists i :: 0 <= i < |c| && Fires(tr, c[i])
  }

  lemma EnoughFires(tr: Trace, cap: int, c: seq<nat>, j: nat, key: Key, threshold: int, windowSec: int)
    requires Executes(tr, cap) && Burst(tr, c, key) && j < |c| && CountsWith(tr, c[j], key, threshold, windowSec)
    requires key in tr.states[c[j]+1].counters && CountAt(tr, c[j] + 1, key) >= threshold
    ensures SomeFires(tr, c)
  {
    CallStep(tr, cap, c[j], key);
  }

  /**
   * As long as its counter is neither evicted, cleaned up nor reset, a counting rule of
   * threshold k notices any max(1, 2k - 2) matching events within its timeframe.
   */
  lemma BurstFires(tr: Trace, cap: int, c: seq<nat>, key: Key, threshold: int, windowSec: int)
    requires Executes(tr, cap) && Burst(tr, c, key) && |c| == Max(1, 2 * threshold - 2) && c[|c|-1] < |tr.ops|
    requires Steady(tr, c[0], c[|c|-1], key, threshold, windowSec, tr.ops[c[0]].now, tr.ops[c[|c|-1]].now)
    requires tr.ops[c[|c|-1]].now - tr.ops[c[0]].now <= Window(windowSec)
    ensures SomeFires(tr, c)
  {
    var first, last, from, to := c[0], c[|c|-1], tr.ops[c[0]].now, tr.ops[c[|c|-1]].now;
    forall i | 0 <= i < |c|
      ensures first <= c[i] <= last && CountsWith(tr, c[i], key, threshold, windowSec) && key in tr.states[c[i]+1].counters
    {
      assert CountsFor(tr, c[i], key);
    }
    CallStep(tr, cap, first, key);
    if threshold <= 1 {
      CountedAlways(tr, cap, first + 1, key);
      EnoughFires(tr, cap, c, 0, key, threshold, windowSec);
    } else if RestartsAt(tr, first, key) {
      OpenStays(tr, cap, first, last, key, threshold, windowSec, from, to);
      BurstCounts(tr, cap, c, 0, threshold - 1, key);
      EnoughFires(tr, cap, c, threshold - 1, key, threshold, windowSec);
    } else {
      assert first == c[0];
      CountedAlways(tr, cap, first, key);
      var middle := c[threshold - 2];
      if NoRestart(tr, first, middle, key) {
        BurstCounts(tr, cap, c, 0, threshold - 2, key);
        EnoughFires(tr, cap, c, threshold - 2, key, threshold, windowSec);
      } else {
        var p: nat :| first < p <= middle && RestartsAt(tr, p, key);
        RestartThenFires(tr, cap, c, p, key, threshold, windowSec);
      }
    }
  }

  /** A restart in the first half of the burst leaves enough calls in the new window. */
  lemma RestartThenFires(tr: Trace, cap: int, c: seq<nat>, p: nat, key: Key, threshold: int, windowSec: int)
    requires Executes(tr, cap) && Burst(tr, c, key) && threshold >= 2 && |c| == 2 * threshold - 2 && c[|c|-1] < |tr.ops|
    requires Steady(tr, c[0], c[|c|-1], key, threshold, windowSec, tr.ops[c[0]].now, tr.ops[c[|c|-1]].now)
    requires tr.ops[c[|c|-1]].now - tr.ops[c[0]].now <= Window(windowSec)
    requires c[0] < p <= c[threshold - 2] && RestartsAt(tr, p, key)
    ensures SomeFires(tr, c)
  {
    var n := |c| - 1;
    var last, middle, from, to := c[n], c[threshold - 2], tr.ops[c[0]].now, tr.ops[c[n]].now;
    assert middle <= last && CountsFor(tr, last, key) && CountsWith(tr, last, key, threshold, windowSec);
    CallStep(tr, cap, p, key);
    assert CountsFor(tr, p, key) && from <= tr.ops[p].now;
    assert Steady(tr, p, last, key, threshold, windowSec, from, to);
    OpenStays(tr, cap, p, last, key, threshold, windowSec, from, to);
    CountNeverFalls(tr, cap, p, middle, key);
    BurstCounts(tr, cap, c, threshold - 2, n, key);
    EnoughFires(tr, cap, c, n, key, threshold, windowSec);
  }

  /** Three events within a timeframe of 60 s, among four at 0, 50, 61 and 62 s, for a threshold of three. */
  function StraddlingRun(): Trace {
    var key, w := ("r", "g"), Window(60);
    Trace([Increment(key, 3, 60, 0, 0, None), Increment(key, 3, 60, 50 * SECOND, 1, None),
           Increment(key, 3, 60, 61 * SECOND, 2, None), Increment(key, 3, 60, 62 * SECOND, 3, None)],
          [EMPTY, OneCounter(key, Counter(1, 0, 0, w)), OneCounter(key, Counter(2, 0, 50 * SECOND, w)),
           OneCounter(key, Counter(1, 61 * SECOND, 61 * SECOND, w)), OneCounter(key, Counter(2, 61 * SECOND, 62 * SECOND, w))])
  }

  function OneCounter(key: Key, c: Counter): State {
    State(map[key := c], map[])
  }

  lemma StraddlingStep(key: Key, c: Counter, now: int, event: nat)
    ensures Apply(OneCounter(key, c), Increment(key, 3, 60, now, event, None)) == OneCounter(key, Bumped(c, Window(60), now))
  {
  }

  /** The threshold is met within the timeframe, but not within one window: nothing fires. */
  lemma StraddlingBurstMissed(cap: int)
    requires cap >= 1
    ensures Executes(StraddlingRun(), cap)
    ensures forall n | 0 <= n < 4 :: !Fires(StraddlingRun(), n)
    ensures StraddlingRun().ops[3].now - StraddlingRun().ops[1].now == 12 * SECOND < 60 * 1_000_000_000 == Window(60)
  {
    var tr, key, w := StraddlingRun(), ("r", "g"), Window(60);
    assert tr.states[1].counters == AfterIncrement(map[], key, 60, 0, None);
    StraddlingStep(key, Counter(1, 0, 0, w), 50 * SECOND, 1);
    StraddlingStep(key, Counter(2, 0, 50 * SECOND, w), 61 * SECOND, 2);
    StraddlingStep(key, Counter(1, 61 * SECOND, 61 * SECOND, w), 62 * SECOND, 3);
    assert StepAt(tr, 0) && StepAt(tr, 1) && StepAt(tr, 2) && StepAt(tr, 3);
    assert LegalAt(tr, 0, cap) && LegalAt(tr, 1, cap) && LegalAt(tr, 2, cap) && LegalAt(tr, 3, cap);
  }

  // Sequence rules

  /** The calls c offer the steps 0, 1, ... of one rule, one after the other, and no others come between. */
  ghost predicate InSteps(tr: Trace, c: seq<nat>, key: Key, windowSec: int) {
    && |c| > 0 && Increasing(c) && c[|c|-1] < |tr.ops|
    && (forall i | 0 <= i < |c| :: MatchesStep(tr, c[i], key, i) && tr.ops[c[i]].total == |c| && tr.ops[c[i]].windowSec == windowSec)
    && (forall i, p | 0 < i < |c| && c[i-1] < p < c[i] :: !AdvancesFor(tr, p, key))
  }

  /** Before call n no step of key is matched, or the window of those that are is over. */
  ghost predicate StartsAfresh(tr: Trace, n: nat, key: Key)
    requires n < |tr.ops| < |tr.states| && tr.ops[n].Advance? && tr.ops[n].key == key
  {
    Continues(tr.states[n], tr.ops[n]) ==> tr.states[n].sequences[key].stepsMatched == 0
  }

  /** The tracker of key holds i steps, the first of them from time `since`. */
  ghost predicate Holding(s: State, key: Key, i: nat, since: int) {
    key in s.sequences && s.sequences[key].stepsMatched == i == |s.sequences[key].timestamps|
    && (i > 0 ==> s.sequences[key].timestamps[0] == since)
  }

  /** Calls for other trackers leave a kept one alone. */
  lemma {:induction false} HoldingStays(tr: Trace, cap: int, m: nat, n: nat, key: Key, i: nat, since: int)
    requires Executes(tr, cap) && m <= n <= |tr.ops| && Holding(tr.states[m], key, i, since)
    requires forall p | m <= p < n :: !AdvancesFor(tr, p, key)
    requires forall p | m <= p <= n :: key in tr.states[p].sequences
    ensures Holding(tr.states[n], key, i, since)
  {
    if m < n {
      HoldingStays(tr, cap, m, n - 1, key, i, since);
      assert StepAt(tr, n - 1) && !AdvancesFor(tr, n - 1, key);
      TrackerStep(tr.states[n-1], tr.ops[n-1], key);
    }
  }

  /** After the i-th of the calls, short of the last, i steps are matched. */
  lemma {:induction false} StepsMatched(tr: Trace, cap: int, c: seq<nat>, i: nat, key: Key, windowSec: int)
    requires Executes(tr, cap) && InSteps(tr, c, key, windowSec) && i < |c| - 1 && StartsAfresh(tr, c[0], key)
    requires forall p | c[0] < p <= c[|c|-1] + 1 :: key in tr.states[p].sequences
    requires forall j | 0 <= j < |c| :: tr.ops[c[j]].now - tr.ops[c[0]].now <= Window(windowSec)
    ensures Holding(tr.states[c[i]+1], key, i + 1, tr.ops[c[0]].now)
  {
    var p := c[i];
    assert StepAt(tr, p) && MatchesStep(tr, p, key, i) && p < c[|c|-1];
    if i == 0 {
      if key in tr.states[p].sequences {
        TrackedAlways(tr, cap, p, key);
      }
    } else {
      StepsMatched(tr, cap, c, i - 1, key, windowSec);
      HoldingStays(tr, cap, c[i-1] + 1, p, key, i, tr.ops[c[0]].now);
    }
    TrackerStep(tr.states[p], tr.ops[p], key);
  }

  /**
   * As long as its tracker is neither evicted nor cleaned up, and no half-matched attempt
   * is still open, a rule whose steps are offered in order within its timeframe completes
   * with the last of them.
   */
  lemma StepsComplete(tr: Trace, cap: int, c: seq<nat>, key: Key, windowSec: int)
    requires Executes(tr, cap) && InSteps(tr, c, key, windowSec) && StartsAfresh(tr, c[0], key)
    requires forall p | c[0] < p <= c[|c|-1] + 1 :: key in tr.states[p].sequences
    requires forall j | 0 <= j < |c| :: tr.ops[c[j]].now - tr.ops[c[0]].now <= Window(windowSec)
    ensures Completes(tr, c[|c|-1])
  {
    var n := |c| - 1;
    var p := c[n];
    assert StepAt(tr, p) && MatchesStep(tr, p, key, n);
    if n == 0 {
      if key in tr.states[p].sequences {
        TrackedAlways(tr, cap, p, key);
      }
    } else {
      StepsMatched(tr, cap, c, n - 1, key, windowSec);
      HoldingStays(tr, cap, c[n-1] + 1, p, key, n, tr.ops[c[0]].now);
    }
    TrackerStep(tr.states[p], tr.ops[p], key);
  }

  /** Step 0 at 0 and 50 s and step 1 at 61 s, for a timeframe of 60 s. */
  function BlockedRun(): Trace {
    var key, w := ("r", "g"), Window(60);
    var waiting := State(map[], map[key := Tracker(1, [0], 0, w)]);
    Trace([Advance(key, 0, 2, 60, 0, 0, None), Advance(key, 0, 2, 60, 50 * SECOND, 1, None), Advance(key, 1, 2, 60, 61 * SECOND, 2, None)],
          [EMPTY, waiting, waiting, State(map[], map[key := Tracker(0, [], 0, w)])])
  }

  /** The second and third call are the two steps within the timeframe, but the attempt left open hides them. */
  lemma OpenAttemptHidesSteps(cap: int)
    requires cap >= 1
    ensures Executes(BlockedRun(), cap) && !StartsAfresh(BlockedRun(), 1, ("r", "g"))
    ensures forall n | 0 <= n < 3 :: !Completes(BlockedRun(), n)
    ensures BlockedRun().ops[2].now - BlockedRun().ops[1].now == 11 * SECOND < Window(60)
  {
    var tr, key, w := BlockedRun(), ("r", "g"), Window(60);
    assert Stepped(Tracker(0, [], 0, w), 0, 2, 0).0 == Tracker(1, [0], 0, w);
    assert tr.states[1].sequences == AfterAdvance(map[], key, 0, 2, 60, 0, None);
    assert tr.states[2].sequences == AfterAdvance(tr.states[1].sequences, key, 0, 2, 60, 50 * SECOND, None);
    assert tr.states[3].sequences == AfterAdvance(tr.states[2].sequences, key, 1, 2, 60, 61 * SECOND, None);
    assert StepAt(tr, 0) && StepAt(tr, 1) && StepAt(tr, 2);
    assert LegalAt(tr, 0, cap) && LegalAt(tr, 1, cap) && LegalAt(tr, 2, cap);
  }
}
