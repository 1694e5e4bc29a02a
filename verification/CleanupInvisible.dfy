/**
 * Periodic cleanup is only about memory. Of two runs that make the same calls,
 * one with Cleanup calls anywhere in between and one without, every call gets
 * the same answer, as long as the run without cleanups never fills a map.
 */
module CleanupInvisible {
  import opened Common
  import opened CorrelatorSpec

  /** The same call, whatever entry was evicted for it. */
  function Call(op: Op): Op {
    match op
    case Increment(key, threshold, w, now, event, _) => Increment(key, threshold, w, now, event, None)
    case Advance(key, step, total, w, now, event, _) => Advance(key, step, total, w, now, event, None)
    case Reset(_) => op
    case Cleanup(_) => op
  }

  function Time(op: Op, clock: int): int {
    if op.Reset? then clock else op.now
  }

  /** The clock after n calls of a run that began at start. */
  function Clock(ops: seq<Op>, n: nat, start: int): int
    requires n <= |ops|
  {
    if n == 0 then start else Time(ops[n-1], Clock(ops, n - 1, start))
  }

  ghost predicate ReadsForward(ops: seq<Op>, n: nat, start: int)
    requires n < |ops|
  {
    Clock(ops, n, start) <= Time(ops[n], Clock(ops, n, start))
  }

  /** Clock readings never go back. */
  ghost predicate Monotonic(ops: seq<Op>, start: int) {
    forall n | 0 <= n < |ops| :: ReadsForward(ops, n, start)
  }

  /** How many of the first n calls are not cleanups. */
  function Kept(ops: seq<Op>, n: nat): nat
    requires n <= |ops|
    ensures Kept(ops, n) <= n
  {
    if n == 0 then 0 else Kept(ops, n - 1) + if ops[n-1].Cleanup? then 0 else 1
  }

  ghost predicate Mirrored(ops: seq<Op>, plain: seq<Op>, n: nat)
    requires n < |ops|
  {
    !ops[n].Cleanup? ==> Kept(ops, n) < |plain| && Call(plain[Kept(ops, n)]) == Call(ops[n])
  }

  /** plain makes the calls of ops other than the cleanups, in the same order. */
  ghost predicate Strips(ops: seq<Op>, plain: seq<Op>) {
    && Kept(ops, |ops|) == |plain|
    && forall n | 0 <= n < |ops| :: Mirrored(ops, plain, n)
  }

  ghost predicate HasRoom(s: State, cap: int) {
    |s.counters| < cap && |s.sequences| < cap
  }

  ghost predicate RoomAt(tr: Trace, n: nat, cap: int) {
    n < |tr.states| ==> HasRoom(tr.states[n], cap)
  }

  ghost predicate NeverFull(tr: Trace, cap: int) {
    forall n: nat :: RoomAt(tr, n, cap)
  }

  /** One window per rule, as the rule set fixes it. */
  ghost predicate FixedWindows(ops: seq<Op>, windowSec: string -> int) {
    forall n | 0 <= n < |ops| :: WindowOf(ops[n], windowSec)
  }

  ghost predicate WindowOf(op: Op, windowSec: string -> int) {
    (op.Increment? || op.Advance?) ==> op.windowSec == windowSec(op.key.0)
  }

  // The invariant of a run, and the relation between the two runs

  ghost predicate TimedCounters(m: map<Key, Counter>, now: int, windowSec: string -> int) {
    forall k | k in m :: m[k].firstSeen <= m[k].lastSeen <= now && m[k].window == Window(windowSec(k.0))
  }

  ghost predicate TimedTracker(t: Tracker, now: int) {
    && t.stepsMatched == |t.timestamps|
    && t.lastSeen <= now
    && (|t.timestamps| > 0 ==> t.timestamps[0] <= t.lastSeen)
  }

  ghost predicate TimedTrackers(m: map<Key, Tracker>, now: int, windowSec: string -> int) {
    forall k | k in m :: TimedTracker(m[k], now) && m[k].window == Window(windowSec(k.0))
  }

  ghost predicate WellTimed(s: State, now: int, windowSec: string -> int) {
    TimedCounters(s.counters, now, windowSec) && TimedTrackers(s.sequences, now, windowSec)
  }

  /** An entry the next call on its key would start over anyway. */
  ghost predicate DeadCounter(c: Counter, now: int) { now - c.firstSeen > c.window }

  ghost predicate DeadTracker(t: Tracker, now: int) { |t.timestamps| == 0 || now - t.timestamps[0] > t.window }

  /** s lacks only dead entries of t. */
  ghost predicate SameCounters(s: map<Key, Counter>, t: map<Key, Counter>, now: int) {
    && (forall k | k in s :: k in t && s[k] == t[k])
    && (forall k | k in t && k !in s :: DeadCounter(t[k], now))
  }

  ghost predicate SameTrackers(s: map<Key, Tracker>, t: map<Key, Tracker>, now: int) {
    && (forall k | k in s :: k in t && s[k] == t[k])
    && (forall k | k in t && k !in s :: DeadTracker(t[k], now))
  }

  ghost predicate Simulates(s: State, t: State, now: int) {
    SameCounters(s.counters, t.counters, now) && SameTrackers(s.sequences, t.sequences, now)
  }

  lemma CleanupRemovesDead(s: State, t: State, before: int, now: int, windowSec: string -> int)
    requires Simulates(s, t, before) && WellTimed(t, before, windowSec) && before <= now
    ensures Simulates(Apply(s, Cleanup(now)), t, now) && WellTimed(t, now, windowSec)
  {
  }

  lemma NoVictim<V>(s: map<Key, V>, t: map<Key, V>, seen: V -> int, cap: int, victim: Option<Key>)
    requires s.Keys <= t.Keys && |t| < cap
    requires LegalVictim(s, seen, cap, victim)
    ensures victim.None?
  {
    RemoveShrinks(t, s);
  }

  lemma SameIncrement(s: map<Key, Counter>, t: map<Key, Counter>, key: Key, w: int, now: int, before: int, windowSec: string -> int)
    requires SameCounters(s, t, before) && TimedCounters(t, before, windowSec)
    requires before <= now && w == windowSec(key.0)
    ensures var s', t' := AfterIncrement(s, key, w, now, None), AfterIncrement(t, key, w, now, None);
            && NextCounter(s, key, w, now) == NextCounter(t, key, w, now)
            && SameCounters(s', t', now) && TimedCounters(t', now, windowSec)
  {
  }

  lemma SameAdvance(s: map<Key, Tracker>, t: map<Key, Tracker>, key: Key, step: nat, total: nat, w: int, now: int, before: int,
                    windowSec: string -> int)
    requires SameTrackers(s, t, before) && TimedTrackers(t, before, windowSec)
    requires before <= now && w == windowSec(key.0)
    ensures var s', t' := AfterAdvance(s, key, step, total, w, now, None), AfterAdvance(t, key, step, total, w, now, None);
            && NextTracker(s, key, step, total, w, now).1 == NextTracker(t, key, step, total, w, now).1
            && SameTrackers(s', t', now) && TimedTrackers(t', now, windowSec)
  {
  }

  lemma SameAnswer(s: State, t: State, a: Op, b: Op, before: int, windowSec: string -> int)
    requires !a.Cleanup? && a == b == Call(a)
    requires Simulates(s, t, before) && WellTimed(t, before, windowSec)
    requires before <= Time(a, before) && WindowOf(a, windowSec)
    ensures Output(s, a) == Output(t, b)
    ensures Simulates(Apply(s, a), Apply(t, b), Time(a, before))
    ensures WellTimed(Apply(t, b), Time(a, before), windowSec)
  {
    match a
    case Increment(key, _, w, now, _, _) => SameIncrement(s.counters, t.counters, key, w, now, before, windowSec);
    case Advance(key, step, total, w, now, _, _) => SameAdvance(s.sequences, t.sequences, key, step, total, w, now, before, windowSec);
    case Reset(key) =>
  }

  /** With room in both maps nothing is evicted, so the two calls are one. */
  lemma SameCall(s: State, t: State, a: Op, b: Op, cap: int, now: int)
    requires Simulates(s, t, now) && HasRoom(t, cap)
    requires !a.Cleanup? && Call(a) == Call(b)
    requires Legal(s, a, cap) && Legal(t, b, cap)
    ensures a == b == Call(a)
  {
    match a
    case Increment(key, _, w, now, _, v) =>
      if key !in s.counters {
        NoVictim(s.counters, t.counters, CounterSeen, cap, v);
      }
    case Advance(key, step, total, w, now, _, v) =>
      if key !in s.sequences && step == 0 {
        NoVictim(s.sequences, t.sequences, TrackerSeen, cap, v);
      }
    case Reset(key) =>
  }

  /** The runs under comparison: tr with cleanups, plain without, on one nondecreasing clock. */
  ghost predicate Comparable(tr: Trace, plain: Trace, cap: int, windowSec: string -> int, start: int) {
    && Executes(tr, cap) && Executes(plain, cap) && NeverFull(plain, cap)
    && Strips(tr.ops, plain.ops)
    && Monotonic(tr.ops, start) && FixedWindows(tr.ops, windowSec)
  }

  /** The states s and t that the two runs have reached before call n. */
  ghost predicate Abreast(s: State, t: State, now: int, windowSec: string -> int) {
    Simulates(s, t, now) && WellTimed(t, now, windowSec)
  }

  lemma KeptCall(tr: Trace, plain: Trace, cap: int, windowSec: string -> int, start: int, n: nat)
    requires Comparable(tr, plain, cap, windowSec, start)
    requires n < |tr.ops| && !tr.ops[n].Cleanup? && Kept(tr.ops, n) < |plain.ops|
    requires Abreast(tr.states[n], plain.states[Kept(tr.ops, n)], Clock(tr.ops, n, start), windowSec)
    ensures tr.ops[n] == plain.ops[Kept(tr.ops, n)] == Call(tr.ops[n])
  {
    var k := Kept(tr.ops, n);
    assert Mirrored(tr.ops, plain.ops, n) && LegalAt(tr, n, cap) && LegalAt(plain, k, cap) && RoomAt(plain, k, cap);
    SameCall(tr.states[n], plain.states[k], tr.ops[n], plain.ops[k], cap, Clock(tr.ops, n, start));
  }

  lemma KeptStep(tr: Trace, plain: Trace, cap: int, windowSec: string -> int, start: int, n: nat)
    requires Comparable(tr, plain, cap, windowSec, start)
    requires n < |tr.ops| && !tr.ops[n].Cleanup? && Kept(tr.ops, n) < |plain.ops|
    requires Abreast(tr.states[n], plain.states[Kept(tr.ops, n)], Clock(tr.ops, n, start), windowSec)
    ensures Output(tr.states[n], tr.ops[n]) == Output(plain.states[Kept(tr.ops, n)], plain.ops[Kept(tr.ops, n)])
    ensures Abreast(tr.states[n+1], plain.states[Kept(tr.ops, n) + 1], Clock(tr.ops, n + 1, start), windowSec)
  {
    KeptCall(tr, plain, cap, windowSec, start, n);
    var k, before := Kept(tr.ops, n), Clock(tr.ops, n, start);
    assert ReadsForward(tr.ops, n, start) && WindowOf(tr.ops[n], windowSec);
    assert StepAt(tr, n) && StepAt(plain, k);
    SameAnswer(tr.states[n], plain.states[k], tr.ops[n], plain.ops[k], before, windowSec);
  }

  lemma {:induction false} KeptMonotonic(ops: seq<Op>, m: nat, n: nat)
    requires m <= n <= |ops|
    ensures Kept(ops, m) <= Kept(ops, n)
  {
    if m < n {
      KeptMonotonic(ops, m, n - 1);
    }
  }

  /** After n calls of the cleaned run, the plain run has an equal state but for dead entries. */
  lemma {:induction false} RunsSimulate(tr: Trace, plain: Trace, cap: int, windowSec: string -> int, start: int, n: nat)
    requires Comparable(tr, plain, cap, windowSec, start)
    requires n <= |tr.ops|
    ensures Kept(tr.ops, n) <= |plain.ops|
    ensures Abreast(tr.states[n], plain.states[Kept(tr.ops, n)], Clock(tr.ops, n, start), windowSec)
  {
    KeptMonotonic(tr.ops, n, |tr.ops|);
    if n > 0 {
      RunsSimulate(tr, plain, cap, windowSec, start, n - 1);
      if tr.ops[n-1].Cleanup? {
        var before := Clock(tr.ops, n - 1, start);
        assert StepAt(tr, n - 1);
        assert ReadsForward(tr.ops, n - 1, start);
        CleanupRemovesDead(tr.states[n-1], plain.states[Kept(tr.ops, n - 1)], before, tr.ops[n-1].now, windowSec);
      } else {
        KeptStep(tr, plain, cap, windowSec, start, n - 1);
      }
    }
  }

  /** Inserting cleanups changes no answer, whatever the windows. */
  lemma CleanupIsInvisible(tr: Trace, plain: Trace, cap: int, windowSec: string -> int, start: int, n: nat)
    requires Comparable(tr, plain, cap, windowSec, start)
    requires n < |tr.ops| && !tr.ops[n].Cleanup?
    ensures Kept(tr.ops, n) < |plain.ops|
    ensures Output(tr.states[n], tr.ops[n]) == Output(plain.states[Kept(tr.ops, n)], plain.ops[Kept(tr.ops, n)])
  {
    assert Mirrored(tr.ops, plain.ops, n);
    assert Output(tr.states[n], tr.ops[n]) == Output(plain.states[Kept(tr.ops, n)], plain.ops[Kept(tr.ops, n)]) by {
      RunsSimulate(tr, plain, cap, windowSec, start, n);
      KeptStep(tr, plain, cap, windowSec, start, n);
    }
  }
}
