/** The event batcher: a loop over received events, its reusable timer, and shutdown. */
module Batcher {
  import opened Common

  const MAX_BATCH: int := 10000

  datatype Arrival<E> = Arrival(event: E, time: int)

  /** What the loop reacts to. Expiry is the timer's own doing: it leaves a tick in the timer's channel. */
  datatype Signal<E> =
    | Receive(event: E, now: int)
    | Expiry(now: int)
    | Tick
    | Cancel
    | Close

  datatype Reason = Full | Timeout(at: int) | Shutdown

  datatype Batch<E> = Batch(events: seq<Arrival<E>>, reason: Reason)

  /**
   * `armed` says that the loop listens to the timer; `running` that the timer
   * counts towards `deadline`; `expiredAt` holds an unread tick.
   */
  datatype State<E> = State(
    batch: seq<Arrival<E>>, armed: bool, running: bool, deadline: int, expiredAt: Option<int>,
    handed: seq<Batch<E>>, stopped: bool)

  datatype Config = Config(maxSize: int, timeout: int)

  function NewConfig(maxSize: int, timeout: int): (c: Config)
    ensures 1 <= c.maxSize <= MAX_BATCH
    ensures 1 <= maxSize <= MAX_BATCH ==> c.maxSize == maxSize
    ensures maxSize < 1 ==> c.maxSize == 1
    ensures maxSize > MAX_BATCH ==> c.maxSize == MAX_BATCH
    ensures c.timeout == timeout
  {
    Config(if maxSize <= 0 then 1 else if maxSize > MAX_BATCH then MAX_BATCH else maxSize, timeout)
  }

  function Initial<E>(): State<E> {
    State([], false, false, 0, None, [], false)
  }

  /** Which signals can reach the loop: an unread tick only while it listens, an expiry only of a running timer. */
  predicate Enabled<E>(s: State<E>, signal: Signal<E>) {
    !s.stopped &&
    match signal
    case Receive(_, _) => true
    case Expiry(now) => s.running && s.deadline <= now
    case Tick => s.armed && s.expiredAt.Some?
    case Cancel => true
    case Close => true
  }

  function Flushed<E>(s: State<E>, reason: Reason): State<E> {
    if s.batch == [] then s
    else s.(handed := s.handed + [Batch(s.batch, reason)], batch := [])
  }

  /** Stopping a timer that has already expired takes its tick out of the channel. */
  function TimerStopped<E>(s: State<E>): State<E> {
    if !s.armed then s
    else s.(running := false, expiredAt := if s.running then s.expiredAt else None, armed := false)
  }

  function Step<E>(s: State<E>, signal: Signal<E>, c: Config): State<E> {
    match signal
    case Receive(event, now) =>
      var started := if s.batch == [] then s.(armed := true, running := true, deadline := now + c.timeout) else s;
      var grown := started.(batch := started.batch + [Arrival(event, now)]);
      if |grown.batch| >= c.maxSize then Flushed(TimerStopped(grown), Full) else grown
    case Expiry(now) => s.(running := false, expiredAt := Some(now))
    case Tick => Flushed(s.(armed := false, expiredAt := None), Timeout(if s.expiredAt.Some? then s.expiredAt.value else 0))
    case Cancel => Flushed(TimerStopped(s), Shutdown).(stopped := true)
    case Close => Flushed(TimerStopped(s), Shutdown).(stopped := true)
  }

  function After<E>(signals: seq<Signal<E>>, n: nat, c: Config): State<E>
    requires n <= |signals|
  {
    if n == 0 then Initial() else Step(After(signals, n - 1, c), signals[n-1], c)
  }

  ghost predicate EnabledAt<E>(signals: seq<Signal<E>>, n: nat, c: Config)
    requires n < |signals|
  {
    Enabled(After(signals, n, c), signals[n])
  }

  /** Every signal can reach the loop when it does. */
  ghost predicate Possible<E>(signals: seq<Signal<E>>, c: Config) {
    forall n | 0 <= n < |signals| :: EnabledAt(signals, n, c)
  }

  /** The events received among the first n signals, in order. */
  function Received<E>(signals: seq<Signal<E>>, n: nat): seq<Arrival<E>>
    requires n <= |signals|
  {
    if n == 0 then []
    else Received(signals, n - 1) + if signals[n-1].Receive? then [Arrival(signals[n-1].event, signals[n-1].now)] else []
  }

  /** The events of the first n batches, one batch after the other. */
  function Joined<E>(handed: seq<Batch<E>>, n: nat): seq<Arrival<E>>
    requires n <= |handed|
  {
    if n == 0 then [] else Joined(handed, n - 1) + handed[n-1].events
  }

  function Concat<E>(handed: seq<Batch<E>>): seq<Arrival<E>> {
    Joined(handed, |handed|)
  }

  lemma {:induction false} JoinedPrefix<E>(handed: seq<Batch<E>>, b: Batch<E>, n: nat)
    requires n <= |handed|
    ensures Joined(handed + [b], n) == Joined(handed, n)
  {
    if n > 0 {
      JoinedPrefix(handed, b, n - 1);
    }
  }

  /** What every handed batch promises. */
  ghost predicate GoodBatch<E>(b: Batch<E>, c: Config) {
    && 1 <= |b.events| <= c.maxSize
    && (b.reason == Full ==> |b.events| == c.maxSize)
    && (b.reason.Timeout? ==> b.events[0].time + c.timeout <= b.reason.at)
  }

  lemma ConcatSnoc<E>(handed: seq<Batch<E>>, b: Batch<E>)
    ensures Concat(handed + [b]) == Concat(handed) + b.events
  {
    JoinedPrefix(handed, b, |handed|);
  }

  /** The batch and timer parts of the invariant. */
  ghost predicate TimerInv<E>(s: State<E>, c: Config) {
    && (s.armed <==> s.batch != [])
    && (s.armed ==> s.running == s.expiredAt.None? && s.deadline == s.batch[0].time + c.timeout)
    && (!s.armed ==> !s.running && s.expiredAt.None?)
    && (s.expiredAt.Some? ==> s.deadline <= s.expiredAt.value)
  }

  ghost predicate AllGood<E>(handed: seq<Batch<E>>, c: Config) {
    forall i | 0 <= i < |handed| :: GoodBatch(handed[i], c)
  }

  ghost predicate Inv<E>(s: State<E>, received: seq<Arrival<E>>, c: Config) {
    && Concat(s.handed) + s.batch == received
    && |s.batch| < c.maxSize && AllGood(s.handed, c) && TimerInv(s, c)
    && (s.stopped ==> s.batch == [])
  }

  lemma ReceiveKeepsInv<E>(s: State<E>, event: E, now: int, received: seq<Arrival<E>>, c: Config)
    requires Inv(s, received, c) && !s.stopped && c.maxSize >= 1
    ensures Inv(Step(s, Receive(event, now), c), received + [Arrival(event, now)], c)
  {
    var grown := s.batch + [Arrival(event, now)];
    assert Concat(s.handed) + grown == received + [Arrival(event, now)];
    ConcatSnoc(s.handed, Batch(grown, Full));
    assert |grown| >= c.maxSize ==> AllGood(s.handed + [Batch(grown, Full)], c);
    assert Concat(s.handed + [Batch(grown, Full)]) + [] == Concat(s.handed + [Batch(grown, Full)]);
  }

  lemma FlushKeepsInv<E>(s: State<E>, reason: Reason, received: seq<Arrival<E>>, c: Config)
    requires Concat(s.handed) + s.batch == received && AllGood(s.handed, c)
    requires s.batch != [] ==> GoodBatch(Batch(s.batch, reason), c)
    requires !s.armed && !s.running && s.expiredAt.None? && c.maxSize >= 1
    ensures Inv(Flushed(s, reason), received, c) && Flushed(s, reason).batch == []
  {
    ConcatSnoc(s.handed, Batch(s.batch, reason));
    assert Concat(Flushed(s, reason).handed) + [] == Concat(Flushed(s, reason).handed);
  }

  lemma StepKeepsInv<E>(s: State<E>, signal: Signal<E>, received: seq<Arrival<E>>, c: Config)
    requires Inv(s, received, c) && Enabled(s, signal) && c.maxSize >= 1
    ensures Inv(Step(s, signal, c), received + if signal.Receive? then [Arrival(signal.event, signal.now)] else [], c)
  {
    assert received + [] == received;
    match signal
    case Receive(event, now) => ReceiveKeepsInv(s, event, now, received, c);
    case Expiry(now) =>
    case Tick => FlushKeepsInv(s.(armed := false, expiredAt := None), Timeout(s.expiredAt.value), received, c);
    case Cancel => FlushKeepsInv(TimerStopped(s), Shutdown, received, c);
    case Close => FlushKeepsInv(TimerStopped(s), Shutdown, received, c);
  }

  /**
   * In every run the batches handed over, followed by the pending batch, are the
   * events received so far, in order and each once; every batch holds 1..maxSize
   * events; a batch handed over for its timeout is that old; the loop listens to
   * the timer exactly while a batch is pending, and no tick outlives its batch.
   */
  lemma {:induction false} NothingLostOrReordered<E>(signals: seq<Signal<E>>, n: nat, c: Config)
    requires Possible(signals, c) && n <= |signals| && c.maxSize >= 1
    ensures Inv(After(signals, n, c), Received(signals, n), c)
  {
    if n > 0 {
      NothingLostOrReordered(signals, n - 1, c);
      assert EnabledAt(signals, n - 1, c);
      StepKeepsInv(After(signals, n - 1, c), signals[n-1], Received(signals, n - 1), c);
    }
  }

  /** Cancelling or closing hands over everything received. */
  lemma ShutdownHandsOverAll<E>(signals: seq<Signal<E>>, c: Config)
    requires Possible(signals, c) && c.maxSize >= 1
    requires signals != [] && (signals[|signals|-1].Cancel? || signals[|signals|-1].Close?)
    ensures Concat(After(signals, |signals|, c).handed) == Received(signals, |signals|)
  {
    NothingLostOrReordered(signals, |signals|, c);
    var s := After(signals, |signals|, c);
    assert s.batch == [];
    assert Concat(s.handed) + [] == Concat(s.handed);
  }

  lemma {:induction false} StoppedStays<E>(signals: seq<Signal<E>>, m: nat, n: nat, c: Config)
    requires m <= n <= |signals| && After(signals, m, c).stopped
    ensures After(signals, n, c).stopped
  {
    if m < n {
      StoppedStays(signals, m, n - 1, c);
    }
  }

  /** Nothing follows a cancellation or a close. */
  lemma ShutdownEndsRun<E>(signals: seq<Signal<E>>, k: nat, c: Config)
    requires Possible(signals, c) && k < |signals| && (signals[k].Cancel? || signals[k].Close?)
    ensures k == |signals| - 1
  {
    var last := |signals| - 1;
    if k < last {
      assert EnabledAt(signals, last, c);
      StoppedStays(signals, k + 1, last, c);
    }
  }

  /** Any number of events, then perhaps a cancellation or a close, can reach the loop. */
  ghost predicate ReceivesThenEnds<E>(signals: seq<Signal<E>>) {
    forall i | 0 <= i < |signals| :: signals[i].Receive? || (i == |signals| - 1 && (signals[i].Cancel? || signals[i].Close?))
  }

  lemma {:induction false} NotStoppedYet<E>(signals: seq<Signal<E>>, n: nat, c: Config)
    requires n <= |signals| && forall i | 0 <= i < n :: signals[i].Receive?
    ensures !After(signals, n, c).stopped
  {
    if n > 0 {
      NotStoppedYet(signals, n - 1, c);
    }
  }

  /** Whatever events arrive before the loop is closed or cancelled, all of them are handed over. */
  lemma AllReceivedAreHandedOver<E>(signals: seq<Signal<E>>, c: Config)
    requires ReceivesThenEnds(signals) && c.maxSize >= 1
    ensures Possible(signals, c)
    ensures signals != [] && !signals[|signals|-1].Receive? ==>
              Concat(After(signals, |signals|, c).handed) == Received(signals, |signals|)
              && |Received(signals, |signals|)| == |signals| - 1
  {
    forall n | 0 <= n < |signals|
      ensures EnabledAt(signals, n, c)
    {
      NotStoppedYet(signals, n, c);
    }
    if signals != [] && !signals[|signals|-1].Receive? {
      ShutdownHandsOverAll(signals, c);
      ReceivedCount(signals, |signals| - 1);
    }
  }

  lemma {:induction false} ReceivedCount<E>(signals: seq<Signal<E>>, n: nat)
    requires n <= |signals| && forall i | 0 <= i < n :: signals[i].Receive?
    ensures |Received(signals, n)| == n
    ensures forall i | 0 <= i < n :: Received(signals, n)[i] == Arrival(signals[i].event, signals[i].now)
  {
    if n > 0 {
      ReceivedCount(signals, n - 1);
    }
  }

  /** The loop itself, over the signals its select takes; `cancelled` is its error result. */
  method Run<E>(signals: seq<Signal<E>>, c: Config) returns (handed: seq<Batch<E>>, cancelled: bool)
    requires Possible(signals, c) && c.maxSize >= 1
    ensures handed == After(signals, |signals|, c).handed
    ensures cancelled <==> signals != [] && signals[|signals|-1].Cancel?
  {
    var batch: seq<Arrival<E>> := [];
    var armed, running, deadline, expiredAt := false, false, 0, None;
    handed, cancelled := [], false;
    var k := 0;
    while k < |signals|
      invariant 0 <= k <= |signals|
      invariant After(signals, k, c) == State(batch, armed, running, deadline, expiredAt, handed, false)
    {
      assert EnabledAt(signals, k, c);
      match signals[k] {
      case Receive(event, now) =>
        if |batch| == 0 {
          running, deadline, armed := true, now + c.timeout, true;
        }
        batch := batch + [Arrival(event, now)];
        if |batch| >= c.maxSize {
          if armed {
            expiredAt := if running then expiredAt else None;
            running, armed := false, false;
          }
          handed, batch := handed + [Batch(batch, Full)], [];
        }
      case Expiry(now) =>
        running, expiredAt := false, Some(now);
      case Tick =>
        var at := if expiredAt.Some? then expiredAt.value else 0;
        armed, expiredAt := false, None;
        if |batch| > 0 {
          handed, batch := handed + [Batch(batch, Timeout(at))], [];
        }
      case _ =>
        ShutdownEndsRun(signals, k, c);
        if armed {
          expiredAt := if running then expiredAt else None;
          running, armed := false, false;
        }
        if |batch| > 0 {
          handed, batch := handed + [Batch(batch, Shutdown)], [];
        }
        return handed, signals[k].Cancel?;
      }
      k := k + 1;
    }
    assert signals != [] ==> After(signals, |signals|, c).stopped || !signals[|signals|-1].Cancel?;
  }
}
