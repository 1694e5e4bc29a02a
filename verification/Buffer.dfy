/**
 * The offline event buffer: a table of rows with ever-growing ids, its two
 * implementations of Pop, and the two ways the agent empties it.
 */
module BufferSpec {
  import opened Common

  type Payload = string

  datatype Row = Row(id: int, payload: Payload)

  const MAX_ROWS: nat := 100_000

  /** Rows in id order, all ids positive and below the next one to be given out. */
  ghost predicate Ordered(rows: seq<Row>, nextId: int) {
    && (forall i | 0 <= i < |rows| :: 1 <= rows[i].id < nextId)
    && (forall i, j | 0 <= i < j < |rows| :: rows[i].id < rows[j].id)
  }

  function Payloads(rows: seq<Row>): (p: seq<Payload>)
    ensures |p| == |rows|
    ensures forall i | 0 <= i < |rows| :: p[i] == rows[i].payload
  {
    seq(|rows|, i requires 0 <= i < |rows| => rows[i].payload)
  }

  // The statements the buffer sends to the database

  /** DELETE ... WHERE id <= maxId */
  function DeleteUpTo(rows: seq<Row>, maxId: int): seq<Row> {
    Filter(rows, (r: Row) => r.id > maxId)
  }

  /** DELETE ... WHERE id IN ids */
  function DeleteIn(rows: seq<Row>, ids: set<int>): seq<Row> {
    Filter(rows, (r: Row) => r.id !in ids)
  }

  /** SELECT ... WHERE id > afterId ORDER BY id LIMIT n */
  function SelectAfter(rows: seq<Row>, afterId: int, n: nat): seq<Row> {
    var later := DeleteUpTo(rows, afterId);
    later[..Min(n, |later|)]
  }

  /** Rows whose id passes the test are exactly a suffix, so filtering keeps that suffix. */
  lemma {:induction false} FilterSuffix(rows: seq<Row>, keep: Row -> bool, n: nat)
    requires n <= |rows|
    requires forall i | 0 <= i < |rows| :: keep(rows[i]) <==> i >= n
    ensures Filter(rows, keep) == rows[n..]
  {
    if rows != [] {
      if n == 0 {
        FilterSuffix(rows[1..], keep, 0);
      } else {
        FilterSuffix(rows[1..], keep, n - 1);
        assert rows[1..][n - 1..] == rows[n..];
      }
    }
  }

  lemma DeleteUpToRow(rows: seq<Row>, nextId: int, n: nat)
    requires Ordered(rows, nextId) && 0 < n <= |rows|
    ensures DeleteUpTo(rows, rows[n-1].id) == rows[n..]
  {
    FilterSuffix(rows, (r: Row) => r.id > rows[n-1].id, n);
  }

  /** How many rows have an id up to the given one. */
  function CountUpTo(rows: seq<Row>, id: int): (n: nat)
    ensures n <= |rows|
    ensures forall i | 0 <= i < n :: rows[i].id <= id
    ensures n < |rows| ==> rows[n].id > id
  {
    if rows == [] || rows[0].id > id then 0 else 1 + CountUpTo(rows[1..], id)
  }

  lemma DeleteKeepsOrder(rows: seq<Row>, nextId: int, id: int)
    requires Ordered(rows, nextId)
    ensures Ordered(DeleteUpTo(rows, id), nextId)
  {
    var n := CountUpTo(rows, id);
    FilterSuffix(rows, (r: Row) => r.id > id, n);
  }

  lemma DeleteInRows(rows: seq<Row>, nextId: int, ids: set<int>, n: nat)
    requires Ordered(rows, nextId) && n <= |rows|
    requires forall x :: x in ids <==> exists i | 0 <= i < n :: rows[i].id == x
    ensures DeleteIn(rows, ids) == rows[n..]
  {
    forall i | 0 <= i < |rows|
      ensures rows[i].id !in ids <==> i >= n
    {
    }
    FilterSuffix(rows, (r: Row) => r.id !in ids, n);
  }

  function FirstIds(rows: seq<Row>, n: nat): (ids: set<int>)
    requires n <= |rows|
  {
    set i | 0 <= i < n :: rows[i].id
  }

  /** Deleting the range up to the n-th id and deleting the n first ids leave the same table. */
  lemma DeletesAgree(rows: seq<Row>, nextId: int, n: nat)
    requires Ordered(rows, nextId) && 0 < n <= |rows|
    ensures DeleteUpTo(rows, rows[n-1].id) == DeleteIn(rows, FirstIds(rows, n)) == rows[n..]
  {
    DeleteUpToRow(rows, nextId, n);
    DeleteInRows(rows, nextId, FirstIds(rows, n), n);
  }

  /** The rows that survive the cap: at the cap, one fewer than the cap allows. */
  function Capped(rows: seq<Row>): seq<Row> {
    if |rows| < MAX_ROWS then rows else rows[|rows| - (MAX_ROWS - 1)..]
  }

  function NewRows(events: seq<Payload>, nextId: int): (rows: seq<Row>)
    ensures |rows| == |events|
    ensures forall i | 0 <= i < |events| :: rows[i] == Row(nextId + i, events[i])
  {
    seq(|events|, i requires 0 <= i < |events| => Row(nextId + i, events[i]))
  }

  /** The cap never holds more than MAX_ROWS - 1 rows, and only ever drops the oldest. */
  lemma CappedIsSuffix(rows: seq<Row>)
    ensures |Capped(rows)| == (if |rows| < MAX_ROWS then |rows| else MAX_ROWS - 1)
    ensures Capped(rows) == rows[|rows| - |Capped(rows)|..]
  {
  }

  // Runs

  datatype Table = Table(rows: seq<Row>, nextId: int)

  /** The calls that change the table, with the statements or transactions that succeed. */
  datatype Op =
    | Push(events: seq<Payload>, ok: bool, evictOk: bool)
    | PushUncapped(events: seq<Payload>, ok: bool)
    | Pop(n: int, ok: bool)
    | AckUntil(maxId: int, ok: bool)

  /** The rows a call inserts: a failed transaction inserts none and uses up no id. */
  function Inserted(t: Table, op: Op): seq<Row> {
    if (op.Push? || op.PushUncapped?) && op.ok then NewRows(op.events, t.nextId) else []
  }

  function Apply(t: Table, op: Op): Table {
    var all := t.rows + Inserted(t, op);
    match op
    case Push(events, ok, evictOk) => Table(if ok && events != [] && evictOk then Capped(all) else all, t.nextId + |Inserted(t, op)|)
    case PushUncapped(_, _) => Table(all, t.nextId + |Inserted(t, op)|)
    case Pop(n, ok) => if ok then t.(rows := t.rows[Min(Max(n, 0), |t.rows|)..]) else t
    case AckUntil(maxId, ok) => if ok then t.(rows := DeleteUpTo(t.rows, maxId)) else t
  }

  function Run(ops: seq<Op>, n: nat): Table
    requires n <= |ops|
  {
    if n == 0 then Table([], 1) else Apply(Run(ops, n - 1), ops[n-1])
  }

  /** Every row the first n calls inserted, in order. */
  function AllInserted(ops: seq<Op>, n: nat): seq<Row>
    requires n <= |ops|
  {
    if n == 0 then [] else AllInserted(ops, n - 1) + Inserted(Run(ops, n - 1), ops[n-1])
  }

  ghost predicate SuffixOf(rows: seq<Row>, all: seq<Row>) {
    |rows| <= |all| && rows == all[|all| - |rows|..]
  }

  lemma DeleteIsSuffix(rows: seq<Row>, nextId: int, id: int)
    requires Ordered(rows, nextId)
    ensures SuffixOf(DeleteUpTo(rows, id), rows)
  {
    var n := CountUpTo(rows, id);
    FilterSuffix(rows, (r: Row) => r.id > id, n);
  }

  lemma ApplyIsSuffix(t: Table, op: Op)
    requires Ordered(t.rows, t.nextId)
    ensures SuffixOf(Apply(t, op).rows, t.rows + Inserted(t, op))
  {
    match op
    case Push(_, _, _) =>
    case PushUncapped(_, _) =>
    case Pop(_, _) => assert t.rows + Inserted(t, op) == t.rows;
    case AckUntil(maxId, _) =>
      DeleteIsSuffix(t.rows, t.nextId, maxId);
      assert t.rows + Inserted(t, op) == t.rows;
  }

  lemma InsertedOrdered(all: seq<Row>, t: Table, op: Op)
    requires Ordered(all, t.nextId) && t.nextId >= 1
    ensures Apply(t, op).nextId == t.nextId + |Inserted(t, op)|
    ensures Ordered(all + Inserted(t, op), Apply(t, op).nextId)
  {
  }

  lemma SuffixOfBoth(rows: seq<Row>, left: seq<Row>, all: seq<Row>, more: seq<Row>)
    requires SuffixOf(left, all) && SuffixOf(rows, left + more)
    ensures SuffixOf(rows, all + more)
  {
    assert left + more == (all + more)[|all| - |left|..];
  }

  lemma SuffixOrdered(rows: seq<Row>, all: seq<Row>, nextId: int)
    requires SuffixOf(rows, all) && Ordered(all, nextId)
    ensures Ordered(rows, nextId)
  {
  }

  /** `all` are the rows inserted so far: their ids strictly increase, and the table holds the latest of them. */
  ghost predicate Holds(t: Table, all: seq<Row>) {
    Ordered(all, t.nextId) && SuffixOf(t.rows, all) && Ordered(t.rows, t.nextId) && t.nextId == 1 + |all|
  }

  lemma ApplyHolds(t: Table, all: seq<Row>, op: Op)
    requires Holds(t, all)
    ensures Holds(Apply(t, op), all + Inserted(t, op))
  {
    var t', more := Apply(t, op), Inserted(t, op);
    InsertedOrdered(all, t, op);
    ApplyIsSuffix(t, op);
    SuffixOfBoth(t'.rows, t.rows, all, more);
    SuffixOrdered(t'.rows, all + more, t'.nextId);
  }

  /**
   * In every run the table holds the latest of all rows ever inserted, in order, and the
   * ids of those strictly increase: no id is handed out twice, whatever was deleted or failed.
   */
  lemma {:induction false} IdsNeverReused(ops: seq<Op>, n: nat)
    requires n <= |ops|
    ensures Holds(Run(ops, n), AllInserted(ops, n))
  {
    if n > 0 {
      IdsNeverReused(ops, n - 1);
      ApplyHolds(Run(ops, n - 1), AllInserted(ops, n - 1), ops[n-1]);
    }
  }

  /** The cap is enforced on every push. */
  predicate Enforced(op: Op) {
    !op.PushUncapped? && (op.Push? ==> op.evictOk)
  }

  predicate BelowCap(t: Table) {
    |t.rows| < MAX_ROWS
  }

  lemma StaysCapped(t: Table, all: seq<Row>, op: Op)
    requires Holds(t, all) && BelowCap(t) && Enforced(op)
    ensures BelowCap(Apply(t, op))
  {
    ApplyIsSuffix(t, op);
  }

  ghost predicate EnforcedAt(ops: seq<Op>, n: nat) {
    n < |ops| ==> Enforced(ops[n])
  }

  /** With a working cap on every push the table stays below it. */
  lemma {:induction false} CappedAlways(ops: seq<Op>, n: nat)
    requires n <= |ops| && forall i: nat :: EnforcedAt(ops, i)
    ensures BelowCap(Run(ops, n))
  {
    if n > 0 {
      CappedAlways(ops, n - 1);
      assert EnforcedAt(ops, n - 1);
      IdsNeverReused(ops, n - 1);
      StaysCapped(Run(ops, n - 1), AllInserted(ops, n - 1), ops[n-1]);
    }
  }
}

module BufferImpl {
  import opened Common
  import opened BufferSpec

  class Buffer {
    var rows: seq<Row>
    var nextId: int

    ghost predicate Valid()
      reads this
    {
      nextId >= 1 && Ordered(rows, nextId)
    }

    ghost function Contents(): Table
      reads this
    {
      Table(rows, nextId)
    }

    constructor ()
      ensures Valid() && Contents() == Table([], 1)
    {
      rows, nextId := [], 1;
    }

    /** The inserts of one transaction; a failing transaction leaves the table as it was. */
    method Insert(events: seq<Payload>)
      requires Valid()
      modifies this
      ensures Valid()
      ensures rows == old(rows) + NewRows(events, old(nextId))
      ensures nextId == old(nextId) + |events|
    {
      for i := 0 to |events|
        invariant Valid()
        invariant rows == old(rows) + NewRows(events[..i], old(nextId))
        invariant nextId == old(nextId) + i
      {
        rows := rows + [Row(nextId, events[i])];
        nextId := nextId + 1;
        assert NewRows(events[..i + 1], old(nextId)) == NewRows(events[..i], old(nextId)) + [Row(old(nextId) + i, events[i])];
      }
      assert events[..|events|] == events;
    }

    /**
     * Appends a batch, then evicts the oldest rows. An empty batch is a no-op;
     * `ok` tells whether the transaction commits, `evictOk` whether the eviction
     * statement, whose error is ignored, takes effect.
     */
    method Push(events: seq<Payload>, ok: bool, evictOk: bool) returns (success: bool)
      requires Valid()
      modifies this
      ensures Valid()
      ensures success <==> ok || events == []
      ensures Contents() == Apply(old(Contents()), BufferSpec.Push(events, ok, evictOk))
      ensures ok && events != [] ==>
                var all := old(rows) + NewRows(events, old(nextId));
                rows == if evictOk then Capped(all) else all
      ensures !ok || events == [] ==> rows == old(rows)
      ensures nextId == if ok then old(nextId) + |events| else old(nextId)
    {
      if |events| == 0 {
        return true;
      }
      if !ok {
        return false;
      }
      Insert(events);
      if evictOk && |rows| > MAX_ROWS - 1 {
        // the id MAX_ROWS - 1 places from the newest
        var n := |rows| - (MAX_ROWS - 1);
        DeleteUpToRow(rows, nextId, n);
        rows := DeleteUpTo(rows, rows[n-1].id);
      }
      return true;
    }

    /** Push of the build on the other SQLite driver, which has no cap. */
    method PushUncapped(events: seq<Payload>, ok: bool) returns (success: bool)
      requires Valid()
      modifies this
      ensures Valid()
      ensures success <==> ok || events == []
      ensures Contents() == Apply(old(Contents()), BufferSpec.PushUncapped(events, ok))
      ensures rows == if ok then old(rows) + NewRows(events, old(nextId)) else old(rows)
      ensures nextId == if ok then old(nextId) + |events| else old(nextId)
    {
      if |events| == 0 {
        return true;
      }
      if !ok {
        return false;
      }
      Insert(events);
      return true;
    }

    /** Removes and returns the oldest rows, deleting the range up to the last id read. */
    method Pop(n: int, ok: bool) returns (payloads: seq<Payload>)
      requires Valid()
      modifies this`rows
      ensures Valid()
      ensures ok ==> var k := Min(Max(n, 0), |old(rows)|);
                     payloads == Payloads(old(rows))[..k] && rows == old(rows)[k..]
      ensures !ok ==> payloads == [] && rows == old(rows)
      ensures Contents() == Apply(old(Contents()), BufferSpec.Pop(n, ok))
    {
      payloads := [];
      if n <= 0 || !ok {
        return;
      }
      var ids: seq<int> := [];
      for i := 0 to Min(n, |rows|)
        invariant |ids| == i && forall k | 0 <= k < i :: ids[k] == old(rows)[k].id
        invariant payloads == Payloads(old(rows))[..i]
      {
        ids, payloads := ids + [rows[i].id], payloads + [rows[i].payload];
      }
      if |ids| > 0 {
        DeleteUpToRow(rows, nextId, |ids|);
        rows := DeleteUpTo(rows, ids[|ids|-1]);
      }
    }

    /** The same with one delete that lists the ids read. */
    method PopById(n: int, ok: bool) returns (payloads: seq<Payload>)
      requires Valid()
      modifies this`rows
      ensures Valid()
      ensures ok ==> var k := Min(Max(n, 0), |old(rows)|);
                     payloads == Payloads(old(rows))[..k] && rows == old(rows)[k..]
      ensures !ok ==> payloads == [] && rows == old(rows)
      ensures Contents() == Apply(old(Contents()), BufferSpec.Pop(n, ok))
    {
      payloads := [];
      if n <= 0 || !ok {
        return;
      }
      var ids: set<int> := {};
      var k := Min(n, |rows|);
      for i := 0 to k
        invariant forall x :: x in ids <==> exists j | 0 <= j < i :: old(rows)[j].id == x
        invariant payloads == Payloads(old(rows))[..i]
      {
        ids, payloads := ids + {rows[i].id}, payloads + [rows[i].payload];
      }
      if k > 0 {
        DeleteInRows(rows, nextId, ids, k);
        rows := DeleteIn(rows, ids);
      }
    }

    /** Up to n rows after afterId, without removing them. */
    method Replay(afterId: int, n: nat) returns (entries: seq<Row>)
      ensures entries == SelectAfter(rows, afterId, n)
    {
      entries := SelectAfter(rows, afterId, n);
    }

    /** Deletes everything up to maxId; a failing statement changes nothing. */
    method AckUntil(maxId: int, ok: bool)
      requires Valid()
      modifies this`rows
      ensures Valid()
      ensures rows == if ok then DeleteUpTo(old(rows), maxId) else old(rows)
      ensures Contents() == Apply(old(Contents()), BufferSpec.AckUntil(maxId, ok))
    {
      if ok {
        DeleteKeepsOrder(rows, nextId, maxId);
        rows := DeleteUpTo(rows, maxId);
      }
    }
  }
}
