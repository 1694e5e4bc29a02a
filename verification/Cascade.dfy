/**
 * The cascade limiter of the autonomy controller. A run interleaves the checks
 * and recordings of one event loop with the ticks of the cleanup loop.
 */
module CascadeSpec {
  import opened Common

  datatype State = State(
    windowStart: Option<int>,
    actionCount: nat,
    targets: set<string>,
    rolledBack: bool,
    passed: bool)        // a check let a response through that is not yet recorded

  const IDLE: State := State(None, 0, {}, false, false)

  datatype Op =
    | Check(now: int)                   // before a response
    | Fail                              // the response failed: nothing is recorded
    | Record(target: string, now: int)  // after a response
    | Tick(now: int)                    // periodic reset

  datatype Limits = Limits(window: int, threshold: int)

  predicate WindowOpen(s: State, now: int, limits: Limits) {
    s.windowStart.Some? && now - s.windowStart.value <= limits.window
  }

  predicate Blocked(s: State, now: int, limits: Limits) {
    WindowOpen(s, now, limits) && s.targets == {} && s.actionCount == 0 && s.rolledBack
  }

  /** A recording opens a new window if none is open. */
  function Opened(s: State, now: int, limits: Limits): State {
    if WindowOpen(s, now, limits) then s else s.(windowStart := Some(now), actionCount := 0, targets := {})
  }

  function Recorded(s: State, target: string, now: int, limits: Limits): State {
    var o := Opened(s, now, limits);
    var t := o.(actionCount := o.actionCount + 1, targets := o.targets + {target}, passed := false);
    if |t.targets| >= limits.threshold then t.(actionCount := 0, targets := {}, rolledBack := true) else t
  }

  function Ticked(s: State, now: int, limits: Limits): State {
    if s.windowStart.None? || now - s.windowStart.value > limits.window * 2 then
      s.(actionCount := 0, targets := {}, rolledBack := false)
    else s
  }

  function Apply(s: State, op: Op, limits: Limits): State {
    match op
    case Check(now) => s.(passed := !Blocked(s, now, limits))
    case Fail => s.(passed := false)
    case Record(target, now) => Recorded(s, target, now, limits)
    case Tick(now) => Ticked(s, now, limits)
  }

  /** A recording counts towards its window, or towards a new one, and empties it at the threshold. */
  lemma RecordedExactly(s: State, target: string, now: int, limits: Limits)
    ensures var t := Recorded(s, target, now, limits);
            var open := s.windowStart.Some? && now - s.windowStart.value <= limits.window;
            var targets := (if open then s.targets else {}) + {target};
            && t.windowStart == (if open then s.windowStart else Some(now)) && !t.passed
            && t.targets == (if |targets| >= limits.threshold then {} else targets)
            && t.actionCount == (if |targets| >= limits.threshold then 0 else if open then s.actionCount + 1 else 1)
            && t.rolledBack == (s.rolledBack || |targets| >= limits.threshold)
  {
  }

  /** Nothing is recorded, and no response fails, that a check has not let through. */
  predicate Legal(s: State, op: Op) {
    (op.Record? || op.Fail? ==> s.passed) && (op.Check? ==> !s.passed)
  }

  // Runs

  datatype Trace = Trace(ops: seq<Op>, states: seq<State>)

  ghost predicate StepAt(tr: Trace, limits: Limits, n: nat)
    requires n < |tr.ops| && |tr.states| == |tr.ops| + 1
  {
    Legal(tr.states[n], tr.ops[n]) && tr.states[n+1] == Apply(tr.states[n], tr.ops[n], limits)
  }

  ghost predicate Executes(tr: Trace, limits: Limits) {
    && |tr.states| == |tr.ops| + 1 && tr.states[0] == IDLE
    && forall n | 0 <= n < |tr.ops| :: StepAt(tr, limits, n)
  }

  ghost predicate Monotonic(tr: Trace) {
    forall i, j | 0 <= i <= j < |tr.ops| && !tr.ops[i].Fail? && !tr.ops[j].Fail? :: tr.ops[i].now <= tr.ops[j].now
  }

  ghost predicate Records(tr: Trace, n: nat) {
    n < |tr.ops| && tr.ops[n].Record?
  }

  /** The start of the window that the recording at n falls in. */
  ghost function WindowAt(tr: Trace, n: nat): int
    requires Records(tr, n) && |tr.states| == |tr.ops| + 1
  {
    if tr.states[n+1].windowStart.Some? then tr.states[n+1].windowStart.value else 0
  }

  /** The targets recorded among the first n operations in the window that started at w. */
  ghost function TargetsIn(tr: Trace, n: nat, w: int): set<string>
    requires n <= |tr.ops| && |tr.states| == |tr.ops| + 1
  {
    if n == 0 then {}
    else if Records(tr, n - 1) && WindowAt(tr, n - 1) == w then TargetsIn(tr, n - 1, w) + {tr.ops[n-1].target}
    else TargetsIn(tr, n - 1, w)
  }

  ghost predicate Run(tr: Trace, limits: Limits) {
    Executes(tr, limits) && Monotonic(tr) && limits.window >= 0
  }

  function Cap(limits: Limits): int {
    Max(1, limits.threshold)
  }

  // The invariant of a run

  /** From operation n on, every clock reading is past the end of the window that started at w. */
  ghost predicate PastWindow(tr: Trace, n: nat, w: int, limits: Limits) {
    forall m | n <= m < |tr.ops| && !tr.ops[m].Fail? :: tr.ops[m].now - w > limits.window
  }

  ghost predicate NotBefore(tr: Trace, n: nat, w: int) {
    forall m | n <= m < |tr.ops| && !tr.ops[m].Fail? :: tr.ops[m].now >= w
  }

  /** A window in use, or tripped and blocking until it expires, or cleared after it expired. */
  ghost predicate WindowHolds(tr: Trace, n: nat, s: State, w: int, limits: Limits)
    requires n <= |tr.ops| && |tr.states| == |tr.ops| + 1
  {
    if s.targets != {} then
      s.targets == TargetsIn(tr, n, w) && |s.targets| < limits.threshold
    else
      s.actionCount == 0 && if s.rolledBack then s.passed ==> PastWindow(tr, n, w, limits) else PastWindow(tr, n, w, limits)
  }

  ghost predicate EveryWindowWithin(tr: Trace, n: nat, cap: int)
    requires n <= |tr.ops| && |tr.states| == |tr.ops| + 1
  {
    forall w :: |TargetsIn(tr, n, w)| <= cap
  }

  ghost predicate NoTargets(tr: Trace, n: nat)
    requires n <= |tr.ops| && |tr.states| == |tr.ops| + 1
  {
    forall w :: TargetsIn(tr, n, w) == {}
  }

  ghost predicate NoneAfter(tr: Trace, n: nat, start: int)
    requires n <= |tr.ops| && |tr.states| == |tr.ops| + 1
  {
    forall w | w > start :: TargetsIn(tr, n, w) == {}
  }

  ghost predicate Inv(tr: Trace, n: nat, limits: Limits)
    requires n <= |tr.ops| && |tr.states| == |tr.ops| + 1
  {
    var s := tr.states[n];
    && EveryWindowWithin(tr, n, Cap(limits))
    && (s.windowStart.None? ==> s.targets == {} && s.actionCount == 0 && NoTargets(tr, n))
    && (s.windowStart.Some? ==>
          && NotBefore(tr, n, s.windowStart.value)
          && NoneAfter(tr, n, s.windowStart.value)
          && WindowHolds(tr, n, s, s.windowStart.value, limits))
  }

  /** What one operation adds to the targets of the windows. */
  lemma TargetsStep(tr: Trace, n: nat, start: int, cap: int)
    requires n < |tr.ops| && |tr.states| == |tr.ops| + 1
    requires EveryWindowWithin(tr, n, cap) && NoneAfter(tr, n, start)
    requires Records(tr, n) ==> |TargetsIn(tr, n, WindowAt(tr, n)) + {tr.ops[n].target}| <= cap && WindowAt(tr, n) <= start
    ensures EveryWindowWithin(tr, n + 1, cap) && NoneAfter(tr, n + 1, start)
  {
    var next := n + 1;
    forall w
      ensures |TargetsIn(tr, next, w)| <= cap && (w > start ==> TargetsIn(tr, next, w) == {})
    {
      assert |TargetsIn(tr, n, w)| <= cap;
    }
  }

  lemma RecordKeepsInv(tr: Trace, n: nat, limits: Limits)
    requires Run(tr, limits) && Records(tr, n) && Inv(tr, n, limits)
    ensures Inv(tr, n + 1, limits)
  {
    assert StepAt(tr, limits, n);
    var s, now, target := tr.states[n], tr.ops[n].now, tr.ops[n].target;
    var w := WindowAt(tr, n);
    if WindowOpen(s, now, limits) {
      assert s.targets == TargetsIn(tr, n, w);
    } else {
      assert TargetsIn(tr, n, w) == {};
    }
    TargetsStep(tr, n, w, Cap(limits));
    assert NotBefore(tr, n + 1, w) && WindowHolds(tr, n + 1, tr.states[n+1], w, limits);
  }

  lemma OtherKeepsInv(tr: Trace, n: nat, limits: Limits)
    requires Run(tr, limits) && n < |tr.ops| && !Records(tr, n) && Inv(tr, n, limits)
    ensures Inv(tr, n + 1, limits)
  {
    assert StepAt(tr, limits, n);
    var s := tr.states[n];
    var w := if s.windowStart.Some? then s.windowStart.value else 0;
    if s.windowStart.Some? && !tr.ops[n].Fail? && tr.ops[n].now - w > limits.window {
      assert PastWindow(tr, n + 1, w, limits);
    }
    TargetsStep(tr, n, w, Cap(limits));
    if s.windowStart.Some? {
      assert NotBefore(tr, n + 1, w) && WindowHolds(tr, n + 1, tr.states[n+1], w, limits);
    } else {
      NoTargetsYet(tr, n);
    }
  }

  lemma NoTargetsYet(tr: Trace, n: nat)
    requires n < |tr.ops| && |tr.states| == |tr.ops| + 1 && !Records(tr, n)
    requires NoTargets(tr, n)
    ensures NoTargets(tr, n + 1)
  {
    var next := n + 1;
    forall w
      ensures TargetsIn(tr, next, w) == {}
    {
      assert TargetsIn(tr, n, w) == {};
    }
  }

  lemma {:induction false} InvAlways(tr: Trace, n: nat, limits: Limits)
    requires Run(tr, limits) && n <= |tr.ops|
    ensures Inv(tr, n, limits)
  {
    if n > 0 {
      InvAlways(tr, n - 1, limits);
      if Records(tr, n - 1) {
        RecordKeepsInv(tr, n - 1, limits);
      } else {
        OtherKeepsInv(tr, n - 1, limits);
      }
    }
  }

  /** Each window records at most max(1, threshold) distinct targets. */
  lemma WindowBound(tr: Trace, limits: Limits, w: int)
    requires Run(tr, limits)
    ensures |TargetsIn(tr, |tr.ops|, w)| <= Cap(limits)
  {
    InvAlways(tr, |tr.ops|, limits);
  }

  // Blocking

  /** The recording at n reaches the threshold of its window. */
  ghost predicate Trips(tr: Trace, n: nat, limits: Limits)
    requires |tr.states| == |tr.ops| + 1
  {
    Records(tr, n) && |TargetsIn(tr, n + 1, WindowAt(tr, n))| >= Cap(limits)
  }

  /** The window that started at w blocks responses until it is over. */
  ghost predicate Blocking(tr: Trace, n: nat, w: int, limits: Limits)
    requires n <= |tr.ops| && |tr.states| == |tr.ops| + 1
  {
    var s := tr.states[n];
    PastWindow(tr, n, w, limits)
    || (s.windowStart == Some(w) && s.targets == {} && s.actionCount == 0 && s.rolledBack && !s.passed)
  }

  lemma TripBlocks(tr: Trace, n: nat, limits: Limits)
    requires Run(tr, limits) && Trips(tr, n, limits)
    ensures Blocking(tr, n + 1, WindowAt(tr, n), limits)
  {
    InvAlways(tr, n, limits);
    assert StepAt(tr, limits, n);
    var s, w := tr.states[n], WindowAt(tr, n);
    if WindowOpen(s, tr.ops[n].now, limits) {
      assert s.targets == TargetsIn(tr, n, w);
    } else {
      assert TargetsIn(tr, n, w) == {};
    }
    assert TargetsIn(tr, n + 1, w) == TargetsIn(tr, n, w) + {tr.ops[n].target};
  }

  lemma {:induction false} BlockingStays(tr: Trace, m: nat, n: nat, w: int, limits: Limits)
    requires Run(tr, limits) && m <= n <= |tr.ops| && Blocking(tr, m, w, limits)
    ensures Blocking(tr, n, w, limits)
  {
    if m < n {
      BlockingStays(tr, m, n - 1, w, limits);
      assert StepAt(tr, limits, n - 1);
      assert !tr.ops[n-1].Fail? && tr.ops[n-1].now - w > limits.window ==> PastWindow(tr, n, w, limits);
    }
  }

  /**
   * Once a window has recorded its last target, every check before it expires is
   * refused, and nothing is recorded until then.
   */
  lemma NothingUntilExpiry(tr: Trace, i: nat, j: nat, limits: Limits)
    requires Run(tr, limits) && Trips(tr, i, limits) && i < j < |tr.ops|
    ensures tr.ops[j].Check? && tr.ops[j].now - WindowAt(tr, i) <= limits.window ==> Blocked(tr.states[j], tr.ops[j].now, limits)
    ensures Records(tr, j) ==> tr.ops[j].now - WindowAt(tr, i) > limits.window && WindowAt(tr, j) != WindowAt(tr, i)
  {
    TripBlocks(tr, i, limits);
    BlockingStays(tr, i + 1, j, WindowAt(tr, i), limits);
    InvAlways(tr, j, limits);
    assert StepAt(tr, limits, j);
  }

  // When responses are let through

  /** The latest recording among the first n operations, if there is any. */
  function LastRecord(tr: Trace, n: nat): Option<nat>
    requires n <= |tr.ops|
  {
    if n == 0 then None else if tr.ops[n-1].Record? then Some(n - 1) else LastRecord(tr, n - 1)
  }

  lemma {:induction false} WindowFromLastRecord(tr: Trace, n: nat, limits: Limits)
    requires Executes(tr, limits) && n <= |tr.ops|
    ensures LastRecord(tr, n).None? <==> tr.states[n].windowStart.None?
    ensures LastRecord(tr, n).Some? ==>
              && LastRecord(tr, n).value < n && Records(tr, LastRecord(tr, n).value)
              && tr.states[n].windowStart == Some(WindowAt(tr, LastRecord(tr, n).value))
  {
    if n > 0 {
      assert StepAt(tr, limits, n - 1);
      WindowFromLastRecord(tr, n - 1, limits);
    }
  }

  /** A recording falls in the window of the recording before it, unless that is over by then: then it opens its own. */
  lemma WindowAtMeans(tr: Trace, n: nat, limits: Limits)
    requires Executes(tr, limits) && Records(tr, n)
    ensures var last := LastRecord(tr, n);
            && (last.None? ==> WindowAt(tr, n) == tr.ops[n].now)
            && (last.Some? ==>
                  && Records(tr, last.value)
                  && WindowAt(tr, n) == if tr.ops[n].now - WindowAt(tr, last.value) > limits.window then tr.ops[n].now
                                        else WindowAt(tr, last.value))
  {
    assert StepAt(tr, limits, n);
    WindowFromLastRecord(tr, n, limits);
  }

  /** Some recording among the first n operations reached the threshold of the window that started at w. */
  ghost predicate Tripped(tr: Trace, n: nat, w: int, limits: Limits)
    requires |tr.states| == |tr.ops| + 1
  {
    exists i: nat :: i < n && Trips(tr, i, limits) && WindowAt(tr, i) == w
  }

  /** The controller counts as rolled back, with nothing recorded since, only in a window that reached its threshold. */
  ghost predicate TripBehind(tr: Trace, n: nat, limits: Limits)
    requires n <= |tr.ops| && |tr.states| == |tr.ops| + 1
  {
    var s := tr.states[n];
    s.rolledBack && s.targets == {} && s.windowStart.Some? ==> Tripped(tr, n, s.windowStart.value, limits)
  }

  lemma TripFound(tr: Trace, n: nat, limits: Limits)
    requires Run(tr, limits) && Records(tr, n) && tr.states[n+1].targets == {}
    ensures Trips(tr, n, limits)
  {
    InvAlways(tr, n, limits);
    assert StepAt(tr, limits, n);
    var s, w := tr.states[n], WindowAt(tr, n);
    if WindowOpen(s, tr.ops[n].now, limits) {
      assert s.targets == TargetsIn(tr, n, w);
    } else {
      assert TargetsIn(tr, n, w) == {};
    }
    assert TargetsIn(tr, n + 1, w) == TargetsIn(tr, n, w) + {tr.ops[n].target};
  }

  lemma {:induction false} TripAlwaysBehind(tr: Trace, n: nat, limits: Limits)
    requires Run(tr, limits) && n <= |tr.ops|
    ensures TripBehind(tr, n, limits)
  {
    if n > 0 {
      TripAlwaysBehind(tr, n - 1, limits);
      assert StepAt(tr, limits, n - 1);
      if Records(tr, n - 1) && tr.states[n].targets == {} {
        TripFound(tr, n - 1, limits);
      }
    }
  }

  /** The answer to a check: a response is let through unless the check says that it is blocked. */
  ghost predicate Refused(tr: Trace, n: nat)
    requires n < |tr.ops| && |tr.states| == |tr.ops| + 1
  {
    tr.ops[n].Check? && !tr.states[n+1].passed
  }

  /** Some recording before operation n reached the threshold of a window that is not over at time now. */
  ghost predicate TrippedLately(tr: Trace, n: nat, now: int, limits: Limits)
    requires |tr.states| == |tr.ops| + 1
  {
    exists i: nat :: i < n && Trips(tr, i, limits) && now - WindowAt(tr, i) <= limits.window
  }

  /** A check is refused if and only if a window that is not over yet has recorded its last target. */
  lemma RefusedExactly(tr: Trace, n: nat, limits: Limits)
    requires Run(tr, limits) && n < |tr.ops| && tr.ops[n].Check?
    ensures Refused(tr, n) <==> TrippedLately(tr, n, tr.ops[n].now, limits)
  {
    assert StepAt(tr, limits, n);
    if Refused(tr, n) {
      TripAlwaysBehind(tr, n, limits);
      assert Tripped(tr, n, tr.states[n].windowStart.value, limits);
    } else if TrippedLately(tr, n, tr.ops[n].now, limits) {
      var i: nat :| i < n && Trips(tr, i, limits) && tr.ops[n].now - WindowAt(tr, i) <= limits.window;
      NothingUntilExpiry(tr, i, n, limits);
    }
  }

  // Sliding intervals

  /** After the recording at i and up to state n, the window is still that of i, or a later one far enough away. */
  ghost predicate MovedOn(tr: Trace, i: nat, n: nat, limits: Limits)
    requires Records(tr, i) && n <= |tr.ops| && |tr.states| == |tr.ops| + 1
  {
    var ws := tr.states[n].windowStart;
    ws.Some? && (ws.value == WindowAt(tr, i) || (ws.value >= tr.ops[i].now && ws.value > WindowAt(tr, i) + limits.window))
  }

  lemma {:induction false} WindowsMoveOn(tr: Trace, i: nat, n: nat, limits: Limits)
    requires Run(tr, limits) && Records(tr, i) && i < n <= |tr.ops|
    ensures MovedOn(tr, i, n, limits)
  {
    assert StepAt(tr, limits, n - 1);
    if i < n - 1 {
      WindowsMoveOn(tr, i, n - 1, limits);
    }
  }

  /** No three windows have recordings within one rollback window of time. */
  lemma AtMostTwoWindows(tr: Trace, i: nat, j: nat, k: nat, limits: Limits)
    requires Run(tr, limits) && Records(tr, i) && Records(tr, j) && Records(tr, k) && i < j < k
    requires tr.ops[k].now - tr.ops[i].now <= limits.window
    ensures WindowAt(tr, i) == WindowAt(tr, j) || WindowAt(tr, j) == WindowAt(tr, k)
  {
    WindowsMoveOn(tr, i, j + 1, limits);
    WindowsMoveOn(tr, j, k + 1, limits);
    InvAlways(tr, k, limits);
    assert StepAt(tr, limits, k);
  }

  ghost predicate RecordsWithin(tr: Trace, n: nat, a: int, b: int) {
    Records(tr, n) && a <= tr.ops[n].now <= b
  }

  /** The targets recorded among the first n operations at times from a to b. */
  ghost function TargetsBetween(tr: Trace, n: nat, a: int, b: int): set<string>
    requires n <= |tr.ops|
  {
    if n == 0 then {}
    else if RecordsWithin(tr, n - 1, a, b) then TargetsBetween(tr, n - 1, a, b) + {tr.ops[n-1].target}
    else TargetsBetween(tr, n - 1, a, b)
  }

  /** Every recording within the interval falls in the window of the first or of the last one. */
  lemma {:induction false} CoveredByTwo(tr: Trace, n: nat, a: int, b: int, limits: Limits) returns (first: nat, last: nat)
    requires Run(tr, limits) && n <= |tr.ops| && b - a <= limits.window
    ensures TargetsBetween(tr, n, a, b) != {} ==>
              && first <= last < n && RecordsWithin(tr, first, a, b) && RecordsWithin(tr, last, a, b)
              && TargetsBetween(tr, n, a, b) <= TargetsIn(tr, n, WindowAt(tr, first)) + TargetsIn(tr, n, WindowAt(tr, last))
  {
    first, last := 0, 0;
    if n > 0 {
      first, last := CoveredByTwo(tr, n - 1, a, b, limits);
      if RecordsWithin(tr, n - 1, a, b) {
        if TargetsBetween(tr, n - 1, a, b) == {} {
          first, last := n - 1, n - 1;
        } else {
          if first < last {
            AtMostTwoWindows(tr, first, last, n - 1, limits);
          }
          last := n - 1;
        }
      }
    }
  }

  lemma UnionSize(a: set<string>, b: set<string>, c: set<string>, cap: int)
    requires a <= b + c && |b| <= cap && |c| <= cap
    ensures |a| <= 2 * cap
  {
    var d := b + c;
    assert d == b + (c - b);
    assert d == a + (d - a);
    assert c == (c - b) + (c * b);
  }

  /** No interval as long as the rollback window sees more than 2 * max(1, threshold) distinct targets. */
  lemma SlidingBound(tr: Trace, a: int, b: int, limits: Limits)
    requires Run(tr, limits) && b - a <= limits.window
    ensures |TargetsBetween(tr, |tr.ops|, a, b)| <= 2 * Cap(limits)
  {
    var all := TargetsBetween(tr, |tr.ops|, a, b);
    var first, last := CoveredByTwo(tr, |tr.ops|, a, b, limits);
    if all != {} {
      WindowBound(tr, limits, WindowAt(tr, first));
      WindowBound(tr, limits, WindowAt(tr, last));
      UnionSize(all, TargetsIn(tr, |tr.ops|, WindowAt(tr, first)), TargetsIn(tr, |tr.ops|, WindowAt(tr, last)), Cap(limits));
    }
  }
}

/** The controller: its gates in order, and the limiter behind the last of them. */
module Controller {
  import opened Common
  import opened CascadeSpec
  import Rules

  datatype Detection = Detection(severity: string, response: string, groupKey: string)

  datatype Action = BlockedByPolicy | BlockedByRollback | BlockedByKillSwitch | Failed | Executed

  function Target(det: Detection): string {
    det.response + ":" + det.groupKey
  }

  /** With response names free of ':', detections count as one target exactly when response and group agree. */
  lemma TargetsApart(a: Detection, b: Detection)
    requires ':' !in a.response && ':' !in b.response
    ensures Target(a) == Target(b) <==> a.response == b.response && a.groupKey == b.groupKey
  {
    var s, t := Target(a), Target(b);
    if s == t {
      assert s[|a.response|] == ':' && t[|b.response|] == ':';
      assert forall n | 0 <= n < |a.response| :: s[n] == a.response[n];
      assert forall n | 0 <= n < |b.response| :: t[n] == b.response[n];
      assert |a.response| == |b.response|;
      assert a.response == s[..|a.response|] && b.response == t[..|b.response|];
      assert a.groupKey == s[|a.response| + 1..] && b.groupKey == t[|b.response| + 1..];
    }
  }

  function Current(tr: Trace): State
    requires |tr.states| > 0
  {
    tr.states[|tr.states|-1]
  }

  function Extend(tr: Trace, op: Op, limits: Limits): Trace
    requires |tr.states| > 0
  {
    Trace(tr.ops + [op], tr.states + [Apply(Current(tr), op, limits)])
  }

  lemma ExtendExecutes(tr: Trace, op: Op, limits: Limits)
    requires Executes(tr, limits) && Legal(Current(tr), op)
    ensures Executes(Extend(tr, op, limits), limits)
  {
    var tr' := Extend(tr, op, limits);
    forall n | 0 <= n < |tr'.ops|
      ensures StepAt(tr', limits, n)
    {
      assert n < |tr.ops| ==> StepAt(tr, limits, n);
    }
  }

  /** The readings taken for one detection. */
  datatype Readings = Readings(checkTime: int, disabled: bool, succeeds: bool, trackTime: int)

  /** What the gates do with one detection: policy, then cascade protection, then kill switch. */
  ghost predicate Gate(det: Detection, policy: string, r: Readings, limits: Limits, before: Trace, after: Trace, action: Action)
    requires |before.states| > 0
  {
    var checked := Extend(before, Check(r.checkTime), limits);
    if !Rules.IsActionAllowed(policy, det.severity) then action == BlockedByPolicy && after == before
    else if Blocked(Current(before), r.checkTime, limits) then action == BlockedByRollback && after == checked
    else if r.disabled then action == BlockedByKillSwitch && after == Extend(checked, Fail, limits)
    else if !r.succeeds then action == Failed && after == Extend(checked, Fail, limits)
    else action == Executed && after == Extend(checked, Record(Target(det), r.trackTime), limits)
  }

  /**
   * What the gates come to, for a controller that has run on a nondecreasing clock: a response
   * is executed exactly when the policy lets its severity act, no window still open has
   * recorded its last target, the kill switch is off and the response succeeds. The first of
   * these to fail names the action, and only an executed response is recorded.
   */
  lemma GateMeans(det: Detection, policy: string, r: Readings, limits: Limits, before: Trace, after: Trace, action: Action)
    requires Executes(before, limits) && Run(Extend(before, Check(r.checkTime), limits), limits)
    requires Gate(det, policy, r, limits, before, after, action)
    ensures var allowed := Rules.IsActionAllowed(policy, det.severity);
            var refused := TrippedLately(Extend(before, Check(r.checkTime), limits), |before.ops|, r.checkTime, limits);
            && (action == BlockedByPolicy <==> !allowed)
            && (action == BlockedByRollback <==> allowed && refused)
            && (action == BlockedByKillSwitch <==> allowed && !refused && r.disabled)
            && (action == Failed <==> allowed && !refused && !r.disabled && !r.succeeds)
            && (action == Executed <==> allowed && !refused && !r.disabled && r.succeeds)
    ensures before.ops <= after.ops
    ensures action == Executed ==> after.ops == before.ops + [Check(r.checkTime), Record(Target(det), r.trackTime)]
    ensures action != Executed ==> forall n | |before.ops| <= n < |after.ops| :: !after.ops[n].Record?
  {
    RefusedExactly(Extend(before, Check(r.checkTime), limits), |before.ops|, limits);
  }

  class Controller {
    const limits: Limits
    var windowStart: Option<int>
    var actionCount: nat
    var actionTargets: set<string>
    var rolledBack: bool
    ghost var trace: Trace

    /** passed tells whether a response is under way. */
    ghost predicate Valid(passed: bool)
      reads this
    {
      && Executes(trace, limits)
      && Current(trace) == State(windowStart, actionCount, actionTargets, rolledBack, passed)
    }

    constructor (rollbackWindow: int, rollbackThreshold: int)
      ensures Valid(false) && limits == Limits(rollbackWindow, rollbackThreshold)
      ensures trace == Trace([], [IDLE])
    {
      limits := Limits(rollbackWindow, rollbackThreshold);
      windowStart, actionCount, actionTargets, rolledBack := None, 0, {}, false;
      trace := Trace([], [IDLE]);
    }

    ghost method Log(op: Op)
      requires Executes(trace, limits) && Legal(Current(trace), op)
      requires var s := Apply(Current(trace), op, limits);
               s == State(windowStart, actionCount, actionTargets, rolledBack, s.passed)
      modifies this`trace
      ensures trace == Extend(old(trace), op, limits)
      ensures Valid(Current(trace).passed)
    {
      ExtendExecutes(trace, op, limits);
      trace := Extend(trace, op, limits);
    }

    method CheckCascade(now: int) returns (blocked: bool)
      requires Valid(false)
      modifies this`trace
      ensures blocked == Blocked(Current(old(trace)), now, limits)
      ensures trace == Extend(old(trace), Check(now), limits) && Valid(!blocked)
      ensures Run(trace, limits) ==> (blocked <==> TrippedLately(trace, |old(trace).ops|, now, limits))
    {
      ghost var n := |trace.ops|;
      Log(Check(now));
      if Run(trace, limits) {
        RefusedExactly(trace, n, limits);
      }
      if windowStart.None? {
        return false;
      }
      if now - windowStart.value > limits.window {
        return false;
      }
      blocked := |actionTargets| == 0 && actionCount == 0 && windowStart.Some? && rolledBack;
    }

    /** Adds a target to the window, and tells whether the threshold is reached. */
    method AddTarget(target: string, now: int, ghost s: State) returns (rollback: bool)
      requires s == State(windowStart, actionCount, actionTargets, rolledBack, true)
      modifies this`windowStart, this`actionCount, this`actionTargets, this`rolledBack
      ensures State(windowStart, actionCount, actionTargets, rolledBack, false) == Recorded(s, target, now, limits)
      ensures rollback <==> actionTargets == {}
    {
      if windowStart.None? || now - windowStart.value > limits.window {
        windowStart := Some(now);
        actionCount := 0;
        actionTargets := {};
      }
      actionTargets := actionTargets + {target};
      actionCount := actionCount + 1;
      rollback := |actionTargets| >= limits.threshold;
      if rollback {
        actionCount := 0;
        actionTargets := {};
        rolledBack := true;
      }
    }

    /** Records an executed response, and tells whether it sets off a rollback of the rule set. */
    method TrackAction(det: Detection, now: int) returns (rollback: bool)
      requires Valid(true)
      modifies this
      ensures trace == Extend(old(trace), Record(Target(det), now), limits) && Valid(false)
      ensures rollback <==> actionTargets == {}
    {
      rollback := AddTarget(Target(det), now, Current(trace));
      Log(Record(Target(det), now));
    }

    /** The cleanup loop; it may run while a response is under way. */
    method ResetRollbackWindow(now: int, ghost passed: bool)
      requires Valid(passed)
      modifies this
      ensures trace == Extend(old(trace), Tick(now), limits) && Valid(passed)
      ensures windowStart == old(windowStart)
      ensures if windowStart.Some? && now - windowStart.value <= 2 * limits.window then
                actionTargets == old(actionTargets) && actionCount == old(actionCount) && rolledBack == old(rolledBack)
              else
                actionTargets == {} && actionCount == 0 && !rolledBack
    {
      if windowStart.None? || now - windowStart.value > limits.window * 2 {
        actionCount := 0;
        actionTargets := {};
        rolledBack := false;
      }
      Log(Tick(now));
    }

    /** One detection through the gates. */
    method Handle(det: Detection, policy: string, r: Readings) returns (action: Action)
      requires Valid(false)
      modifies this
      ensures Valid(false)
      ensures Gate(det, policy, r, limits, old(trace), trace, action)
    {
      if !Rules.IsActionAllowed(policy, det.severity) {
        return BlockedByPolicy;
      }
      var blocked := CheckCascade(r.checkTime);
      if blocked {
        return BlockedByRollback;
      }
      if r.disabled {
        Log(Fail);
        return BlockedByKillSwitch;
      }
      if !r.succeeds {
        Log(Fail);
        return Failed;
      }
      var _ := TrackAction(det, r.trackTime);
      return Executed;
    }

    /** The detections of one event, in order; a kill switch ends the event. */
    method ProcessDetections(detections: seq<Detection>, policy: string, readings: nat -> Readings)
      returns (actions: seq<Action>, ghost traces: seq<Trace>)
      requires Valid(false)
      modifies this
      ensures Valid(false)
      ensures |actions| <= |detections| && |traces| == |actions| + 1
      ensures traces[0] == old(trace) && traces[|actions|] == trace
      ensures forall k | 0 <= k < |actions| ::
                |traces[k].states| > 0 && Gate(detections[k], policy, readings(k), limits, traces[k], traces[k+1], actions[k])
      ensures |actions| < |detections| ==> |actions| > 0 && actions[|actions|-1] == BlockedByKillSwitch
      ensures forall k | 0 <= k < |actions| - 1 :: actions[k] != BlockedByKillSwitch
    {
      actions, traces := [], [trace];
      for k := 0 to |detections|
        invariant Valid(false)
        invariant |actions| == k && |traces| == k + 1 && traces[0] == old(trace) && traces[k] == trace
        invariant forall i | 0 <= i < k ::
                    |traces[i].states| > 0 && Gate(detections[i], policy, readings(i), limits, traces[i], traces[i+1], actions[i])
        invariant forall i | 0 <= i < k :: actions[i] != BlockedByKillSwitch
      {
        var action := Handle(detections[k], policy, readings(k));
        actions, traces := actions + [action], traces + [trace];
        if action == BlockedByKillSwitch {
          return;
        }
      }
    }
  }
}
