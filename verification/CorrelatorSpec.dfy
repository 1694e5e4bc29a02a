/**
 * What one call on the correlator does to its state, on flat maps keyed by
 * (rule, group). Every clock reading is an argument, and so is the victim of an
 * eviction: the source picks it while ranging over a map, so any entry that some
 * order of that range arrives at may be the one that goes.
 */
module CorrelatorSpec {
  import opened Common

  type Key = (string, string)  // (rule id, group value)

  datatype Counter = Counter(count: int, firstSeen: int, lastSeen: int, window: int)

  datatype Tracker = Tracker(stepsMatched: int, timestamps: seq<int>, lastSeen: int, window: int)

  datatype State = State(counters: map<Key, Counter>, sequences: map<Key, Tracker>)

  const EMPTY: State := State(map[], map[])

  /** One call. `event` numbers the event it was made for. */
  datatype Op =
    | Increment(key: Key, threshold: int, windowSec: int, now: int, event: nat, victim: Option<Key>)
    | Advance(key: Key, step: nat, total: nat, windowSec: int, now: int, event: nat, victim: Option<Key>)
    | Reset(key: Key)
    | Cleanup(now: int)

  function Window(windowSec: int): int {
    windowSec * SECOND
  }

  // Eviction

  /**
   * What a range over the map can end with. The scan takes an empty rule id for
   * "none found yet": an older entry under the empty id (that of group w) makes it
   * forget what it has seen, so only the rules in `after` are compared.
   */
  ghost predicate Scanned<T>(m: map<Key, T>, seen: T -> int, victim: Option<Key>, after: set<string>, w: string) {
    && "" !in after
    && (forall k | k in m && k.0 != "" && k.0 !in after :: ("", w) in m && seen(m[("", w)]) < seen(m[k]))
    && if victim.Some? then
         victim.value in m && victim.value.0 in after
         && forall k | k in m && k.0 in after :: seen(m[victim.value]) <= seen(m[k])
       else
         forall k | k in m :: k.0 !in after
  }

  ghost predicate ScanEndsWith<T>(m: map<Key, T>, seen: T -> int, victim: Option<Key>) {
    exists after, w :: Scanned(m, seen, victim, after, w)
  }

  /** Before a new entry goes in, a full map is scanned for an entry to evict. */
  ghost predicate LegalVictim<T>(m: map<Key, T>, seen: T -> int, cap: int, victim: Option<Key>) {
    if |m| < cap then victim.None?
    else ScanEndsWith(m, seen, victim)
  }

  /** Without an entry under the empty id, the victim is a least recently used entry, if there is any. */
  lemma VictimIsOldest<T>(m: map<Key, T>, seen: T -> int, cap: int, victim: Option<Key>)
    requires LegalVictim(m, seen, cap, victim) && |m| >= cap
    requires forall k | k in m :: k.0 != ""
    ensures victim.None? <==> m == map[]
    ensures victim.Some? ==> victim.value in m && forall k | k in m :: seen(m[victim.value]) <= seen(m[k])
  {
    var after, w :| Scanned(m, seen, victim, after, w);
    assert ("", w) !in m;
    if m != map[] {
      var k :| k in m;
      assert k.0 in after;
    }
  }

  function Evict<T>(m: map<Key, T>, victim: Option<Key>): map<Key, T> {
    if victim.Some? then m - {victim.value} else m
  }

  // Counters

  function CounterSeen(c: Counter): int { c.lastSeen }

  function CounterWindow(c: Counter): int { c.window }

  function Bumped(c: Counter, window: int, now: int): Counter {
    var current := if now - c.firstSeen > window then c.(count := 0, firstSeen := now) else c;
    current.(count := current.count + 1, lastSeen := now)
  }

  /** The entry of key after a call counted for it. */
  function NextCounter(m: map<Key, Counter>, key: Key, windowSec: int, now: int): Counter {
    var window := Window(windowSec);
    Bumped(if key in m then m[key] else Counter(0, now, now, window), window, now)
  }

  function AfterIncrement(m: map<Key, Counter>, key: Key, windowSec: int, now: int, victim: Option<Key>)
    : map<Key, Counter>
  {
    (if key in m then m else Evict(m, victim))[key := NextCounter(m, key, windowSec, now)]
  }

  // Sequence trackers

  function TrackerSeen(t: Tracker): int { t.lastSeen }

  function TrackerWindow(t: Tracker): int { t.window }

  predicate Expired(t: Tracker, window: int, now: int) {
    |t.timestamps| > 0 && now - t.timestamps[0] > window
  }

  /** A tracker whose first step is out of the window starts over. */
  function Refreshed(t: Tracker, window: int, now: int): Tracker {
    if Expired(t, window, now) then t.(stepsMatched := 0, timestamps := []) else t
  }

  /** The tracker after one step, and whether that step was the last one. */
  function Stepped(t: Tracker, step: nat, total: nat, now: int): (Tracker, bool) {
    if step != t.stepsMatched then (t, false)
    else if t.stepsMatched + 1 >= total then
      (t.(stepsMatched := 0, timestamps := [], lastSeen := now), true)
    else
      (t.(stepsMatched := t.stepsMatched + 1, timestamps := t.timestamps + [now], lastSeen := now), false)
  }

  /** The tracker of key after a call for one of its steps, and whether the call completed it. */
  function NextTracker(m: map<Key, Tracker>, key: Key, step: nat, total: nat, windowSec: int, now: int): (Tracker, bool) {
    var window := Window(windowSec);
    var t := if key in m then Refreshed(m[key], window, now) else Tracker(0, [], 0, window);
    Stepped(t, step, total, now)
  }

  /** Only the first step brings a new tracker in. */
  function AfterAdvance(m: map<Key, Tracker>, key: Key, step: nat, total: nat, windowSec: int, now: int, victim: Option<Key>)
    : map<Key, Tracker>
  {
    if key !in m && step != 0 then m
    else (if key in m then m else Evict(m, victim))[key := NextTracker(m, key, step, total, windowSec, now).0]
  }

  // Cleanup

  predicate Stale(lastSeen: int, window: int, now: int) {
    now - lastSeen > window * 2
  }

  function Live<T>(m: map<Key, T>, seen: T -> int, window: T -> int, now: int): map<Key, T> {
    map k | k in m && !Stale(seen(m[k]), window(m[k]), now) :: m[k]
  }

  /** A cleanup keeps an entry, as it is, exactly until it is unused for more than twice its window. */
  lemma CleanedExactly<T>(m: map<Key, T>, seen: T -> int, window: T -> int, now: int, k: Key)
    ensures k in Live(m, seen, window, now) <==> k in m && now - seen(m[k]) <= 2 * window(m[k])
    ensures k in Live(m, seen, window, now) ==> Live(m, seen, window, now)[k] == m[k]
  {
  }

  // One call, and a run of calls

  function Apply(s: State, op: Op): State {
    match op
    case Increment(key, _, w, now, _, v) => s.(counters := AfterIncrement(s.counters, key, w, now, v))
    case Advance(key, step, total, w, now, _, v) =>
      s.(sequences := AfterAdvance(s.sequences, key, step, total, w, now, v))
    case Reset(key) => s.(counters := s.counters - {key})
    case Cleanup(now) =>
      State(Live(s.counters, CounterSeen, CounterWindow, now), Live(s.sequences, TrackerSeen, TrackerWindow, now))
  }

  /** The boolean the call returns (Reset and Cleanup return nothing). */
  predicate Output(s: State, op: Op) {
    match op
    case Increment(key, threshold, w, now, _, _) => NextCounter(s.counters, key, w, now).count >= threshold
    case Advance(key, step, total, w, now, _, _) => NextTracker(s.sequences, key, step, total, w, now).1
    case Reset(_) => false
    case Cleanup(_) => false
  }

  ghost predicate Legal(s: State, op: Op, cap: int) {
    match op
    case Increment(key, _, _, _, _, v) =>
      if key in s.counters then v.None? else LegalVictim(s.counters, CounterSeen, cap, v)
    case Advance(key, step, _, _, _, _, v) =>
      if key in s.sequences || step != 0 then v.None? else LegalVictim(s.sequences, TrackerSeen, cap, v)
    case Reset(_) => true
    case Cleanup(_) => true
  }

  /** The calls made so far and the states around them: states[n] is the state before ops[n]. */
  datatype Trace = Trace(ops: seq<Op>, states: seq<State>)

  const EMPTY_TRACE: Trace := Trace([], [EMPTY])

  ghost predicate StepAt(tr: Trace, n: nat)
    requires n < |tr.ops| && |tr.states| == |tr.ops| + 1
  {
    tr.states[n+1] == Apply(tr.states[n], tr.ops[n])
  }

  ghost predicate LegalAt(tr: Trace, n: nat, cap: int)
    requires n < |tr.ops| && |tr.states| == |tr.ops| + 1
  {
    Legal(tr.states[n], tr.ops[n], cap)
  }

  /** A run of a fresh correlator whose maps are capped at cap. */
  ghost predicate Executes(tr: Trace, cap: int) {
    && |tr.states| == |tr.ops| + 1
    && tr.states[0] == EMPTY
    && (forall n | 0 <= n < |tr.ops| :: StepAt(tr, n))
    && (forall n | 0 <= n < |tr.ops| :: LegalAt(tr, n, cap))
  }

  function Current(tr: Trace): State
    requires |tr.states| > 0
  {
    tr.states[|tr.states|-1]
  }

  function Extend(tr: Trace, op: Op): Trace
    requires |tr.states| > 0
  {
    Trace(tr.ops + [op], tr.states + [Apply(Current(tr), op)])
  }

  lemma ExtendExecutes(tr: Trace, op: Op, cap: int)
    requires Executes(tr, cap) && Legal(Current(tr), op, cap)
    ensures Executes(Extend(tr, op), cap)
  {
    var tr' := Extend(tr, op);
    forall n | 0 <= n < |tr'.ops|
      ensures StepAt(tr', n)
    {
      assert n < |tr.ops| ==> StepAt(tr, n);
    }
    forall n | 0 <= n < |tr'.ops|
      ensures LegalAt(tr', n, cap)
    {
      assert n < |tr.ops| ==> LegalAt(tr, n, cap);
    }
  }

  // Bounded memory

  ghost predicate WithinCap(s: State, cap: int) {
    |s.counters| <= Max(1, cap) && |s.sequences| <= Max(1, cap)
  }

  ghost predicate UsesOnly(tr: Trace, ids: set<string>) {
    forall n | 0 <= n < |tr.ops| && (tr.ops[n].Increment? || tr.ops[n].Advance?) :: tr.ops[n].key.0 in ids
  }

  ghost predicate KeysIn(s: State, ids: set<string>) {
    (forall k | k in s.counters :: k.0 in ids) && (forall k | k in s.sequences :: k.0 in ids)
  }

  /** However long a run without the empty rule id, each of the two maps holds at most max(1, cap) entries. */
  lemma {:induction false} BoundedMemory(tr: Trace, cap: int, ids: set<string>, n: nat)
    requires Executes(tr, cap) && UsesOnly(tr, ids) && "" !in ids && n <= |tr.ops|
    ensures WithinCap(tr.states[n], cap) && KeysIn(tr.states[n], ids)
  {
    if n > 0 {
      BoundedMemory(tr, cap, ids, n - 1);
      assert StepAt(tr, n - 1) && LegalAt(tr, n - 1, cap);
      StepKeepsBound(tr.states[n-1], tr.ops[n-1], cap);
    }
  }

  lemma StepKeepsBound(s: State, op: Op, cap: int)
    requires WithinCap(s, cap) && Legal(s, op, cap)
    requires (forall k | k in s.counters :: k.0 != "") && forall k | k in s.sequences :: k.0 != ""
    ensures WithinCap(Apply(s, op), cap)
  {
    var s' := Apply(s, op);
    match op
    case Increment(key, _, w, now, _, v) =>
      if key !in s.counters {
        InsertKeepsBound(s.counters, CounterSeen, cap, v, key, s'.counters[key]);
      }
    case Advance(key, step, total, w, now, _, v) =>
      if key !in s.sequences && step == 0 {
        InsertKeepsBound(s.sequences, TrackerSeen, cap, v, key, s'.sequences[key]);
      }
    case Reset(key) =>
      RemoveShrinks(s.counters, s'.counters);
    case Cleanup(now) =>
      RemoveShrinks(s.counters, s'.counters);
      RemoveShrinks(s.sequences, s'.sequences);
  }

  lemma RemoveShrinks<T>(m: map<Key, T>, sub: map<Key, T>)
    requires sub.Keys <= m.Keys
    ensures |sub| <= |m|
  {
    SubsetSize(sub.Keys, m.Keys);
    assert |sub| == |sub.Keys| && |m| == |m.Keys|;
  }

  lemma SubsetSize<T>(a: set<T>, b: set<T>)
    requires a <= b
    ensures |a| <= |b|
  {
    assert b == a + (b - a);
  }

  lemma InsertKeepsBound<T>(m: map<Key, T>, seen: T -> int, cap: int, victim: Option<Key>, key: Key, value: T)
    requires |m| <= Max(1, cap) && key !in m && forall k | k in m :: k.0 != ""
    requires LegalVictim(m, seen, cap, victim)
    ensures |Evict(m, victim)[key := value]| <= Max(1, cap)
  {
    var e := Evict(m, victim);
    assert e[key := value].Keys == e.Keys + {key};
    if |m| >= cap {
      VictimIsOldest(m, seen, cap, victim);
    }
    if victim.Some? {
      assert e.Keys == m.Keys - {victim.value};
      assert |e.Keys| == |m.Keys| - 1;
    }
  }

  /** A run that counts for n different groups under the empty rule id. */
  function UnnamedRun(n: nat): (tr: Trace)
    ensures |tr.states| == n + 1 && |tr.ops| == n
  {
    if n == 0 then EMPTY_TRACE
    else Extend(UnnamedRun(n - 1), Increment(("", Name(n)), 1, 0, 0, 0, None))
  }

  /** All entries of m are under the empty id, with group names of at most n characters. */
  ghost predicate Unnamed(m: map<Key, Counter>, n: nat) {
    |m| == n && forall k | k in m :: k.0 == "" && |k.1| <= n
  }

  /** Nothing is ever evicted from a map that holds only entries under the empty id. */
  lemma UnnamedStep(m: map<Key, Counter>, n: nat, cap: int)
    requires Unnamed(m, n)
    ensures ("", Name(n + 1)) !in m && LegalVictim(m, CounterSeen, cap, None)
    ensures Unnamed(AfterIncrement(m, ("", Name(n + 1)), 0, 0, None), n + 1)
  {
    var key := ("", Name(n + 1));
    assert |m| >= cap ==> Scanned(m, CounterSeen, None, {}, "");
    var m' := AfterIncrement(m, key, 0, 0, None);
    assert m'.Keys == m.Keys + {key};
    assert |m'| == |m'.Keys| && |m| == |m.Keys|;
  }

  lemma {:induction false} UnnamedRunGrows(n: nat, cap: int)
    ensures Executes(UnnamedRun(n), cap) && Unnamed(Current(UnnamedRun(n)).counters, n)
  {
    if n > 0 {
      UnnamedRunGrows(n - 1, cap);
      var tr := UnnamedRun(n - 1);
      UnnamedStep(Current(tr).counters, n - 1, cap);
      ExtendExecutes(tr, Increment(("", Name(n)), 1, 0, 0, 0, None), cap);
    }
  }

  lemma {:induction false} UnnamedRunUses(n: nat)
    ensures UsesOnly(UnnamedRun(n), {""})
  {
    if n > 0 {
      UnnamedRunUses(n - 1);
    }
  }

  ghost predicate AlwaysWithinCap(tr: Trace, cap: int) {
    forall n | 0 <= n < |tr.states| :: WithinCap(tr.states[n], cap)
  }

  ghost predicate RunStaysWithinCap(tr: Trace, ids: set<string>, cap: int) {
    Executes(tr, cap) && UsesOnly(tr, ids) ==> AlwaysWithinCap(tr, cap)
  }

  /** Memory is bounded in every run over a set of rule ids exactly when the empty id is not among them. */
  lemma BoundedExactly(ids: set<string>, cap: int)
    ensures (forall tr :: RunStaysWithinCap(tr, ids, cap)) <==> "" !in ids
  {
    if "" in ids {
      var n := Max(1, cap) + 1;
      var tr := UnnamedRun(n);
      UnnamedRunGrows(n, cap);
      UnnamedRunUses(n);
      assert !WithinCap(tr.states[n], cap);
      assert !RunStaysWithinCap(tr, ids, cap);
    } else {
      forall tr | Executes(tr, cap) && UsesOnly(tr, ids)
        ensures AlwaysWithinCap(tr, cap)
      {
        forall n | 0 <= n < |tr.states|
          ensures WithinCap(tr.states[n], cap)
        {
          BoundedMemory(tr, cap, ids, n);
        }
      }
    }
  }
}
