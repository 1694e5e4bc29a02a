/** How the agent moves buffered events to the server: one batch at a time, and on shutdown. */
module Delivery {
  import opened Common
  import opened BufferSpec
  import opened BufferImpl

  const PAGE: nat := 500

  // sendBatch

  /** The serialised form of the events of a batch that can be serialised. */
  function Encoded<E>(batch: seq<E>, encode: E -> Option<Payload>): seq<Payload> {
    if batch == [] then []
    else
      var n := |batch| - 1;
      Encoded(batch[..n], encode) + if encode(batch[n]).Some? then [encode(batch[n]).value] else []
  }

  /** Events are serialised one by one, in order, and one that cannot be is left out alone. */
  lemma {:induction false} EncodedInOrder<E>(a: seq<E>, b: seq<E>, encode: E -> Option<Payload>)
    ensures Encoded(a + b, encode) == Encoded(a, encode) + Encoded(b, encode)
    ensures |a| == 1 ==> Encoded(a, encode) == if encode(a[0]).Some? then [encode(a[0]).value] else []
  {
    if |a| == 1 {
      assert a[..0] == [];
    }
    if b == [] {
      assert a + b == a;
    } else {
      var n := |b| - 1;
      EncodedInOrder(a, b[..n], encode);
      assert (a + b)[..|a| + n] == a + b[..n];
    }
  }

  /** Which of the steps of sendBatch succeed. */
  datatype Steps = Steps(pushOk: bool, evictOk: bool, connected: bool, sendOk: bool, popOk: bool)

  function AfterPush(rows: seq<Row>, nextId: int, events: seq<Payload>, io: Steps): seq<Row> {
    if events == [] || !io.pushOk then rows
    else
      var all := rows + NewRows(events, nextId);
      if io.evictOk then Capped(all) else all
  }

  function AfterSend(rows: seq<Row>, nextId: int, events: seq<Payload>, io: Steps): seq<Row> {
    var pushed := AfterPush(rows, nextId, events, io);
    if io.connected && io.sendOk && io.popOk then pushed[Min(|events|, |pushed|)..] else pushed
  }

  /** Buffers a batch, sends it, and dequeues as many rows as it sent. */
  method SendBatch<E>(buf: Buffer, batch: seq<E>, encode: E -> Option<Payload>, io: Steps) returns (sent: seq<Payload>)
    requires buf.Valid()
    modifies buf
    ensures buf.Valid()
    ensures buf.rows == AfterSend(old(buf.rows), old(buf.nextId), Encoded(batch, encode), io)
    ensures sent == if io.connected && io.sendOk then Encoded(batch, encode) else []
  {
    var payloads: seq<Payload> := [];
    sent := [];
    for i := 0 to |batch|
      invariant payloads == Encoded(batch[..i], encode)
    {
      assert batch[..i + 1][..i] == batch[..i];
      var p := encode(batch[i]);
      if p.None? {
        continue;
      }
      payloads := payloads + [p.value];
    }
    assert batch[..|batch|] == batch;
    if |payloads| == 0 {
      return;
    }
    var _ := buf.Push(payloads, io.pushOk, io.evictOk);
    if !io.connected || !io.sendOk {
      return;
    }
    sent := payloads;
    var _ := buf.Pop(|payloads|, io.popOk);
  }

  /**
   * A successful sendBatch leaves the backlog as it was exactly when there was
   * none: the dequeue removes the oldest rows, not the ones just sent.
   */
  lemma BacklogSurvivesIffEmpty(rows: seq<Row>, nextId: int, events: seq<Payload>, io: Steps)
    requires Ordered(rows, nextId) && 0 < |events| < MAX_ROWS
    requires io.connected && io.sendOk && io.popOk
    ensures AfterSend(rows, nextId, events, io) == rows <==> rows == []
  {
    var pushed, left := AfterPush(rows, nextId, events, io), AfterSend(rows, nextId, events, io);
    if rows != [] {
      assert rows[0] !in left by {
        forall i | 0 <= i < |left|
          ensures left[i] != rows[0]
        {
          assert left[i] == pushed[i + Min(|events|, |pushed|)];
          assert |left| > 0;
        }
      }
      assert rows[0] in rows;
    }
  }

  /** With a backlog, unsent rows go in place of the batch, which will be sent again. */
  lemma BacklogLostToBatch(rows: seq<Row>, nextId: int, events: seq<Payload>, io: Steps)
    requires Ordered(rows, nextId) && rows != [] && events != [] && |rows| + |events| < MAX_ROWS
    requires io == Steps(true, true, true, true, true)
    ensures var left := AfterSend(rows, nextId, events, io);
            && Payloads(left) == (Payloads(rows) + events)[|events|..]
            && rows[0] !in left
            && Row(nextId + |events| - 1, events[|events|-1]) in left
  {
    var left := AfterSend(rows, nextId, events, io);
    assert left[|left|-1] == Row(nextId + |events| - 1, events[|events|-1]);
  }

  /** Over an empty backlog: nothing stays behind a successful send, and the whole batch behind a failed one. */
  lemma EmptyBacklogExact(nextId: int, events: seq<Payload>, io: Steps)
    requires |events| < MAX_ROWS && io.pushOk
    ensures io.connected && io.sendOk && io.popOk ==> AfterSend([], nextId, events, io) == []
    ensures !io.connected || !io.sendOk ==> Payloads(AfterSend([], nextId, events, io)) == events
  {
  }

  /**
   * A batch that is not sent is kept behind the backlog, the oldest rows giving way to the
   * cap; if it cannot be buffered either, the table stays as it was.
   */
  lemma UnsentIsKept(rows: seq<Row>, nextId: int, events: seq<Payload>, io: Steps)
    requires !io.connected || !io.sendOk
    ensures io.pushOk ==> SuffixOf(AfterSend(rows, nextId, events, io), rows + NewRows(events, nextId))
    ensures io.pushOk && (!io.evictOk || |rows| + |events| < MAX_ROWS) ==>
              AfterSend(rows, nextId, events, io) == rows + NewRows(events, nextId)
    ensures io.pushOk && io.evictOk && events != [] ==> |AfterSend(rows, nextId, events, io)| < MAX_ROWS
    ensures !io.pushOk ==> AfterSend(rows, nextId, events, io) == rows
  {
    if events == [] {
      assert rows + NewRows(events, nextId) == rows;
    }
  }

  // drainBuffer

  /** The decoded events of rows a..b-1 that decode, in row order. */
  function Decoded<E>(rows: seq<Row>, a: nat, b: nat, decode: Payload -> Option<E>): seq<E>
    requires b <= |rows|
  {
    if b <= a then []
    else Decoded(rows, a, b - 1, decode) + if decode(rows[b-1].payload).Some? then [decode(rows[b-1].payload).value] else []
  }

  lemma {:induction false} DecodedConcat<E>(rows: seq<Row>, a: nat, b: nat, c: nat, decode: Payload -> Option<E>)
    requires a <= b <= c <= |rows|
    ensures Decoded(rows, a, c, decode) == Decoded(rows, a, b, decode) + Decoded(rows, b, c, decode)
  {
    if b < c {
      DecodedConcat(rows, a, b, c - 1, decode);
    }
  }

  /** A page decodes as the stretch of rows it was read from. */
  lemma {:induction false} DecodedPage<E>(rows: seq<Row>, start: nat, page: seq<Row>, n: nat, decode: Payload -> Option<E>)
    requires start + |page| <= |rows| && n <= |page|
    requires forall i | 0 <= i < |page| :: page[i] == rows[start + i]
    ensures Decoded(page, 0, n, decode) == Decoded(rows, start, start + n, decode)
  {
    if n > 0 {
      DecodedPage(rows, start, page, n - 1, decode);
    }
  }

  /** What the environment does in each round of a drain. */
  datatype Round = Round(timedOut: bool, replayOk: bool, sendOk: bool, ackOk: bool)

  datatype Outcome = TimedOut | Unreadable | SendFailed | Drained

  /** The id up to which n rows have been dealt with. */
  ghost function MarkAt(rows: seq<Row>, n: nat): int
    requires n <= |rows|
  {
    if n == 0 then 0 else rows[n-1].id
  }

  /** The next page starts right after the rows dealt with, whether or not they were deleted. */
  lemma PageAt(rows: seq<Row>, nextId: int, gone: nat, done: nat)
    requires Ordered(rows, nextId) && gone <= done <= |rows|
    ensures SelectAfter(rows[gone..], MarkAt(rows, done), PAGE) == rows[done..Min(done + PAGE, |rows|)]
  {
    var mark, left := MarkAt(rows, done), rows[gone..];
    FilterSuffix(left, (r: Row) => r.id > mark, done - gone);
    assert left[done - gone..] == rows[done..];
  }

  /** Decoding one page adds its stretch of rows to the events sent. */
  lemma PageAdds<E>(rows: seq<Row>, done: nat, entries: seq<Row>, decode: Payload -> Option<E>)
    requires done <= |rows| && entries == rows[done..Min(done + PAGE, |rows|)]
    ensures Decoded(entries, 0, |entries|, decode) == Decoded(rows, done, done + |entries|, decode)
    ensures Decoded(rows, 0, done + |entries|, decode) == Decoded(rows, 0, done, decode) + Decoded(entries, 0, |entries|, decode)
  {
    DecodedPage(rows, done, entries, |entries|, decode);
    DecodedConcat(rows, 0, done, done + |entries|, decode);
  }

  lemma AckAt(rows: seq<Row>, nextId: int, gone: nat, done: nat)
    requires Ordered(rows, nextId) && gone <= done <= |rows|
    ensures DeleteUpTo(rows[gone..], MarkAt(rows, done)) == rows[done..]
  {
    var mark, left := MarkAt(rows, done), rows[gone..];
    FilterSuffix(left, (r: Row) => r.id > mark, done - gone);
    assert left[done - gone..] == rows[done..];
  }

  method DecodePage<E>(entries: seq<Row>, decode: Payload -> Option<E>) returns (events: seq<E>)
    ensures events == Decoded(entries, 0, |entries|, decode)
  {
    events := [];
    for i := 0 to |entries|
      invariant events == Decoded(entries, 0, i, decode)
    {
      var e := decode(entries[i].payload);
      if e.None? {
        continue;
      }
      events := events + [e.value];
    }
  }

  /**
   * Where a drain of `rows` stands: the first `done` rows have been dealt with,
   * the first `gone` of them deleted, and their decodable events sent.
   */
  ghost predicate Progress<E>(rows: seq<Row>, left: seq<Row>, lastAckID: int, sent: seq<E>, done: nat, gone: nat,
                              decode: Payload -> Option<E>)
  {
    && gone <= done <= |rows| && left == rows[gone..]
    && lastAckID == MarkAt(rows, done)
    && sent == Decoded(rows, 0, done, decode)
  }

  /** What one page, once sent, adds to the progress of a drain. */
  lemma PageProgress<E>(rows: seq<Row>, nextId: int, left: seq<Row>, mark: int, sent: seq<E>, done: nat, gone: nat,
                        entries: seq<Row>, acked: bool, left': seq<Row>, decode: Payload -> Option<E>)
    requires Ordered(rows, nextId) && Progress(rows, left, mark, sent, done, gone, decode)
    requires entries == rows[done..Min(done + PAGE, |rows|)] && entries != []
    requires left' == if acked then DeleteUpTo(left, entries[|entries|-1].id) else left
    ensures Progress(rows, left', entries[|entries|-1].id, sent + Decoded(entries, 0, |entries|, decode), done + |entries|,
                     if acked then done + |entries| else gone, decode)
  {
    var upTo := done + |entries|;
    assert entries[|entries|-1] == rows[upTo-1];
    if acked {
      AckAt(rows, nextId, gone, upTo);
    }
    PageAdds(rows, done, entries, decode);
  }

  /** Sends one page and acknowledges it; a page that does not decode is acknowledged unsent. */
  method DrainPage<E>(buf: Buffer, entries: seq<Row>, round: Round, decode: Payload -> Option<E>)
    returns (ok: bool, sent: seq<E>)
    requires buf.Valid() && entries != []
    modifies buf`rows
    ensures buf.Valid()
    ensures ok <==> round.sendOk || Decoded(entries, 0, |entries|, decode) == []
    ensures ok ==> sent == Decoded(entries, 0, |entries|, decode)
    ensures ok ==> buf.rows == if round.ackOk then DeleteUpTo(old(buf.rows), entries[|entries|-1].id) else old(buf.rows)
    ensures !ok ==> sent == [] && buf.rows == old(buf.rows)
  {
    sent := [];
    var events := DecodePage(entries, decode);
    var maxID := entries[|entries|-1].id;
    if |events| == 0 {
      buf.AckUntil(maxID, round.ackOk);
      return true, [];
    }
    if !round.sendOk {
      return false, [];
    }
    buf.AckUntil(maxID, round.ackOk);
    return true, events;
  }

  method ReadPage(buf: Buffer, lastAckID: int, ghost rows: seq<Row>, ghost done: nat, ghost gone: nat) returns (entries: seq<Row>)
    requires Ordered(rows, buf.nextId) && gone <= done <= |rows| && buf.rows == rows[gone..] && lastAckID == MarkAt(rows, done)
    ensures entries == rows[done..Min(done + PAGE, |rows|)]
  {
    PageAt(rows, buf.nextId, gone, done);
    entries := buf.Replay(lastAckID, PAGE);
  }

  /** Delivers the page after lastAckID and moves the mark past it, unless the send fails. */
  method DeliverPage<E>(buf: Buffer, entries: seq<Row>, round: Round, decode: Payload -> Option<E>, lastAckID: int, sent: seq<E>,
                        ghost rows: seq<Row>, ghost done: nat, ghost gone: nat)
    returns (ok: bool, lastAckID': int, sent': seq<E>, ghost gone': nat)
    requires buf.Valid() && Ordered(rows, buf.nextId) && Progress(rows, buf.rows, lastAckID, sent, done, gone, decode)
    requires entries == rows[done..Min(done + PAGE, |rows|)] && entries != []
    modifies buf`rows
    ensures buf.Valid()
    ensures Progress(rows, buf.rows, lastAckID', sent', if ok then done + |entries| else done, gone', decode)
    ensures gone' == if ok && round.ackOk then done + |entries| else gone
    ensures !ok ==> StopsFor(SendFailed, rows, done, round, decode)
  {
    ghost var left := buf.rows;
    var events;
    ok, events := DrainPage(buf, entries, round, decode);
    if !ok {
      PageAdds(rows, done, entries, decode);
      return false, lastAckID, sent, gone;
    }
    PageProgress(rows, buf.nextId, left, lastAckID, sent, done, gone, entries, round.ackOk, buf.rows, decode);
    lastAckID', sent' := entries[|entries|-1].id, sent + events;
    gone' := if round.ackOk then done + |entries| else gone;
  }

  /** One round of a drain: it reads a page after lastAckID and delivers it, or stops. */
  method DrainRound<E>(buf: Buffer, round: Round, decode: Payload -> Option<E>, lastAckID: int, sent: seq<E>,
                       ghost rows: seq<Row>, ghost done: nat, ghost gone: nat)
    returns (stop: Option<Outcome>, lastAckID': int, sent': seq<E>, ghost done': nat, ghost gone': nat)
    requires buf.Valid() && Ordered(rows, buf.nextId) && Progress(rows, buf.rows, lastAckID, sent, done, gone, decode)
    modifies buf`rows
    ensures buf.Valid() && Progress(rows, buf.rows, lastAckID', sent', done', gone', decode)
    ensures stop.None? ==> done < done' == Min(done + PAGE, |rows|) && gone' == if round.ackOk then done' else gone
    ensures stop.Some? ==> done' == done && gone' == gone
    ensures stop.Some? ==> StopsFor(stop.value, rows, done, round, decode)
  {
    stop, lastAckID', sent', done', gone' := None, lastAckID, sent, done, gone;
    if round.timedOut {
      stop := Some(TimedOut);
      return;
    }
    if !round.replayOk {
      stop := Some(Unreadable);
      return;
    }
    var entries := ReadPage(buf, lastAckID, rows, done, gone);
    if |entries| == 0 {
      stop := Some(Drained);
      return;
    }
    var ok;
    ok, lastAckID', sent', gone' := DeliverPage(buf, entries, round, decode, lastAckID, sent, rows, done, gone);
    if ok {
      done' := done + |entries|;
    } else {
      stop := Some(SendFailed);
    }
  }

  /** Every round before `pages` had its page acknowledged. */
  ghost predicate AllAcked(rounds: nat -> Round, pages: nat) {
    forall k: nat | k < pages :: rounds(k).ackOk
  }

  /** The reason a drain stopped after `pages` pages, `done` rows into `rows`. */
  ghost predicate StopsFor<E>(outcome: Outcome, rows: seq<Row>, done: nat, round: Round, decode: Payload -> Option<E>)
    requires done <= |rows|
  {
    match outcome
    case TimedOut => round.timedOut
    case Unreadable => !round.replayOk
    case SendFailed => !round.sendOk && Decoded(rows, done, Min(done + PAGE, |rows|), decode) != []
    case Drained => done == |rows|
  }

  /**
   * Ships buffered events page by page. The rows dealt with are always a prefix:
   * the events sent are exactly its decodable rows in id order, and what is
   * deleted is part of it. A failed send leaves its page and all later rows.
   */
  method DrainBuffer<E>(buf: Buffer, decode: Payload -> Option<E>, rounds: nat -> Round)
    returns (outcome: Outcome, sent: seq<E>, ghost pages: nat, ghost done: nat, ghost gone: nat)
    requires buf.Valid()
    modifies buf`rows
    ensures buf.Valid()
    ensures gone <= done == Min(pages * PAGE, |old(buf.rows)|)
    ensures sent == Decoded(old(buf.rows), 0, done, decode)
    ensures buf.rows == old(buf.rows)[gone..]
    ensures AllAcked(rounds, pages) ==> gone == done
    ensures StopsFor(outcome, old(buf.rows), done, rounds(pages), decode)
  {
    ghost var rows := buf.rows;
    var lastAckID, k: nat := 0, 0;
    sent, pages, done, gone := [], 0, 0, 0;
    while true
      invariant buf.Valid() && Ordered(rows, buf.nextId)
      invariant Progress(rows, buf.rows, lastAckID, sent, done, gone, decode)
      invariant AllAcked(rounds, pages) ==> gone == done
      invariant k == pages && done == Min(pages * PAGE, |rows|)
      decreases |rows| - done
    {
      var stop;
      stop, lastAckID, sent, done, gone := DrainRound(buf, rounds(k), decode, lastAckID, sent, rows, done, gone);
      if stop.Some? {
        outcome := stop.value;
        return;
      }
      assert AllAcked(rounds, k + 1) ==> AllAcked(rounds, k) && rounds(k).ackOk;
      k, pages := k + 1, pages + 1;
    }
  }

  ghost function Decodable<E>(rows: seq<Row>, n: nat, decode: Payload -> Option<E>): set<nat>
    requires n <= |rows|
  {
    set i: nat | i < n && decode(rows[i].payload).Some?
  }

  lemma {:induction false} SentIfDecodable<E>(rows: seq<Row>, done: nat, i: nat, decode: Payload -> Option<E>)
    requires i < done <= |rows| && decode(rows[i].payload).Some?
    ensures decode(rows[i].payload).value in Decoded(rows, 0, done, decode)
  {
    if i < done - 1 {
      SentIfDecodable(rows, done - 1, i, decode);
    }
  }

  lemma {:induction false} SentCount<E>(rows: seq<Row>, done: nat, decode: Payload -> Option<E>)
    requires done <= |rows|
    ensures |Decoded(rows, 0, done, decode)| == |Decodable(rows, done, decode)|
  {
    if done > 0 {
      SentCount(rows, done - 1, decode);
      var before := Decodable(rows, done - 1, decode);
      assert Decodable(rows, done, decode) == if decode(rows[done-1].payload).Some? then before + {done - 1} else before;
    }
  }

  /**
   * The events a drain sends stand in one-to-one correspondence with the decodable
   * rows it dealt with: no row is sent twice, and a row not sent does not decode.
   */
  lemma SentOnce<E>(rows: seq<Row>, done: nat, decode: Payload -> Option<E>)
    requires done <= |rows|
    ensures |Decoded(rows, 0, done, decode)| == |Decodable(rows, done, decode)|
    ensures forall i | i in Decodable(rows, done, decode) :: decode(rows[i].payload).value in Decoded(rows, 0, done, decode)
    ensures forall i | 0 <= i < done && i !in Decodable(rows, done, decode) :: decode(rows[i].payload).None?
  {
    SentCount(rows, done, decode);
    forall i | i in Decodable(rows, done, decode)
      ensures decode(rows[i].payload).value in Decoded(rows, 0, done, decode)
    {
      SentIfDecodable(rows, done, i, decode);
    }
  }
}
