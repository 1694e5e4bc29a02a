/** Deduplication of actions: one action per target and TTL, in bounded memory. */
module DedupSpec {
  import opened Common

  const MAX_ENTRIES: nat := 1000
  const HALF_ENTRIES: nat := 500

  /** Key of an admitted action, to the time its admission expires. */
  type Seen = map<string, int>

  /** One call of Allow; `kept` are the entries that survive if the map is cut to half. */
  datatype Call = Call(key: string, now: int, kept: set<string>)

  predicate Admits(m: Seen, c: Call) {
    !(c.key in m && c.now < m[c.key])
  }

  function Unexpired(m: Seen, now: int): Seen {
    map k | k in m && !(now > m[k]) :: m[k]
  }

  function Kept(m: Seen, keys: set<string>): Seen {
    map k | k in m && k in keys :: m[k]
  }

  /** The map just before an insertion: a full one is purged, then cut to half if need be. */
  function Trimmed(m: Seen, c: Call): Seen {
    if |m| < MAX_ENTRIES then m
    else if |Unexpired(m, c.now)| < HALF_ENTRIES then Unexpired(m, c.now)
    else Kept(Unexpired(m, c.now), c.kept)
  }

  function Step(m: Seen, c: Call, ttl: int): Seen {
    if Admits(m, c) then Trimmed(m, c)[c.key := c.now + ttl] else m
  }

  /** keys are half a map's worth of the entries that expire last. */
  ghost predicate LatestHalf(m: Seen, keys: set<string>) {
    && keys <= m.Keys && |keys| == HALF_ENTRIES
    && forall a, b | a in keys && b in m && b !in keys :: m[b] <= m[a]
  }

  ghost predicate Legal(m: Seen, c: Call) {
    Admits(m, c) && |m| >= MAX_ENTRIES && |Unexpired(m, c.now)| >= HALF_ENTRIES ==> LatestHalf(Unexpired(m, c.now), c.kept)
  }

  // Runs

  /** states[n] is the map before calls[n]. */
  datatype Trace = Trace(calls: seq<Call>, states: seq<Seen>)

  ghost predicate StepAt(tr: Trace, ttl: int, n: nat)
    requires n < |tr.calls| && |tr.states| == |tr.calls| + 1
  {
    Legal(tr.states[n], tr.calls[n]) && tr.states[n+1] == Step(tr.states[n], tr.calls[n], ttl)
  }

  ghost predicate Executes(tr: Trace, ttl: int) {
    && |tr.states| == |tr.calls| + 1 && tr.states[0] == map[]
    && forall n | 0 <= n < |tr.calls| :: StepAt(tr, ttl, n)
  }

  ghost predicate Monotonic(tr: Trace) {
    forall i, j | 0 <= i <= j < |tr.calls| :: tr.calls[i].now <= tr.calls[j].now
  }

  /** Call n was admitted. */
  ghost predicate Admitted(tr: Trace, n: nat) {
    n < |tr.calls| && n < |tr.states| && Admits(tr.states[n], tr.calls[n])
  }

  lemma TrimmedBound(m: Seen, c: Call)
    requires |m| <= MAX_ENTRIES && Legal(m, c) && Admits(m, c)
    ensures |Trimmed(m, c)| < MAX_ENTRIES
  {
    var u := Unexpired(m, c.now);
    if |m| >= MAX_ENTRIES && |u| >= HALF_ENTRIES {
      assert Kept(u, c.kept).Keys == c.kept;
      assert |Kept(u, c.kept)| == |Kept(u, c.kept).Keys|;
    }
  }

  /** The map never holds more than MAX_ENTRIES entries. */
  lemma {:induction false} BoundedMemory(tr: Trace, ttl: int, n: nat)
    requires Executes(tr, ttl) && n <= |tr.calls|
    ensures |tr.states[n]| <= 1000
  {
    if n > 0 {
      BoundedMemory(tr, ttl, n - 1);
      assert StepAt(tr, ttl, n - 1);
      var m, c := tr.states[n-1], tr.calls[n-1];
      if Admits(m, c) {
        TrimmedBound(m, c);
        var t := Trimmed(m, c);
        assert t[c.key := c.now + ttl].Keys == t.Keys + {c.key};
      }
    }
  }

  /** A call fills the map exactly when it adds a key to one that lacks a single entry. */
  lemma FillsExactly(m: Seen, c: Call, ttl: int)
    requires |m| <= MAX_ENTRIES && Legal(m, c) && Admits(m, c)
    ensures |Step(m, c, ttl)| == MAX_ENTRIES <==> |m| == MAX_ENTRIES - 1 && c.key !in m
  {
    TrimmedBound(m, c);
    var t := Trimmed(m, c);
    assert t[c.key := c.now + ttl].Keys == t.Keys + {c.key};
    assert |t[c.key := c.now + ttl]| == |t[c.key := c.now + ttl].Keys| && |t| == |t.Keys|;
    if |m| >= MAX_ENTRIES {
      TrimmedShort(m, c);
    }
  }

  lemma TrimmedShort(m: Seen, c: Call)
    requires |m| >= MAX_ENTRIES && Legal(m, c) && Admits(m, c)
    ensures |Trimmed(m, c)| <= HALF_ENTRIES
  {
    var u := Unexpired(m, c.now);
    if |u| >= HALF_ENTRIES {
      assert Kept(u, c.kept).Keys == c.kept;
      assert |Kept(u, c.kept)| == |Kept(u, c.kept).Keys|;
    }
  }

  /** n admissions of different actions at one time. */
  function FillingRun(n: nat, ttl: int): (tr: Trace)
    ensures |tr.calls| == n && |tr.states| == n + 1
  {
    if n == 0 then Trace([], [map[]])
    else
      var before, c := FillingRun(n - 1, ttl), Call(Name(n), 0, {});
      Trace(before.calls + [c], before.states + [Step(before.states[n-1], c, ttl)])
  }

  lemma {:induction false} FillingRunFills(n: nat, ttl: int)
    requires n <= MAX_ENTRIES
    ensures Executes(FillingRun(n, ttl), ttl) && |FillingRun(n, ttl).states[n]| == n
    ensures forall k | k in FillingRun(n, ttl).states[n] :: |k| <= n
  {
    if n > 0 {
      FillingRunFills(n - 1, ttl);
      var before, tr := FillingRun(n - 1, ttl), FillingRun(n, ttl);
      FillStep(before.states[n-1], n, ttl);
      forall i | 0 <= i < n
        ensures StepAt(tr, ttl, i)
      {
        assert i < n - 1 ==> StepAt(before, ttl, i);
      }
    }
  }

  lemma FillStep(m: Seen, n: nat, ttl: int)
    requires 0 < n <= MAX_ENTRIES && |m| == n - 1 && forall k | k in m :: |k| <= n - 1
    ensures var c := Call(Name(n), 0, {});
            var m' := Step(m, c, ttl);
            Legal(m, c) && |m'| == n && forall k | k in m' :: |k| <= n
  {
    var c := Call(Name(n), 0, {});
    assert c.key !in m;
    var m' := Step(m, c, ttl);
    assert m'.Keys == m.Keys + {c.key};
    assert |m'| == |m'.Keys| && |m| == |m.Keys|;
  }

  /** The map does get full. */
  lemma FullMapReached(ttl: int)
    ensures exists tr :: Executes(tr, ttl) && |tr.states[|tr.calls|]| == MAX_ENTRIES
  {
    FillingRunFills(MAX_ENTRIES, ttl);
    var tr := FillingRun(MAX_ENTRIES, ttl);
    assert Executes(tr, ttl) && |tr.states[|tr.calls|]| == MAX_ENTRIES;
  }

  /** The entry of key in the map after n calls comes from the admission of call i. */
  ghost predicate EnteredAt(tr: Trace, ttl: int, n: nat, key: string, i: nat)
    requires n < |tr.states|
  {
    i < n && Admitted(tr, i) && tr.calls[i].key == key && key in tr.states[n] && tr.states[n][key] == tr.calls[i].now + ttl
  }

  lemma {:induction false} EntryOrigin(tr: Trace, ttl: int, n: nat, key: string) returns (i: nat)
    requires Executes(tr, ttl) && n <= |tr.calls| && key in tr.states[n]
    ensures EnteredAt(tr, ttl, n, key, i)
  {
    assert StepAt(tr, ttl, n - 1);
    if Admitted(tr, n - 1) && tr.calls[n-1].key == key {
      i := n - 1;
    } else {
      i := EntryOrigin(tr, ttl, n - 1, key);
    }
  }

  /** No admission of the key of call n is less than a TTL old when call n is made. */
  ghost predicate NoneRecent(tr: Trace, ttl: int, n: nat)
    requires n < |tr.calls|
  {
    forall i: nat | i < n && Admitted(tr, i) && tr.calls[i].key == tr.calls[n].key :: tr.calls[i].now + ttl <= tr.calls[n].now
  }

  /** A call is allowed whenever every earlier allowed call of its key is at least a TTL old; first calls always are. */
  lemma AllowedAfterTtl(tr: Trace, ttl: int, n: nat)
    requires Executes(tr, ttl) && n < |tr.calls| && NoneRecent(tr, ttl, n)
    ensures Admitted(tr, n)
  {
    var key := tr.calls[n].key;
    if key in tr.states[n] {
      var i := EntryOrigin(tr, ttl, n, key);
    }
  }

  /** Some call before n admitted `key` no earlier than time t. */
  ghost predicate AdmittedSince(tr: Trace, n: nat, key: string, t: int) {
    exists i: nat :: i < n && Admitted(tr, i) && tr.calls[i].key == key && tr.calls[i].now >= t
  }

  /** The keys in `others` are half a map's worth of keys other than `key`, admitted since time t. */
  ghost predicate CrowdOf(tr: Trace, n: nat, key: string, t: int, others: set<string>) {
    |others| == HALF_ENTRIES && key !in others && forall k | k in others :: AdmittedSince(tr, n, k, t)
  }

  ghost predicate Crowded(tr: Trace, n: nat, key: string, t: int) {
    exists others :: CrowdOf(tr, n, key, t, others)
  }

  lemma CrowdedLater(tr: Trace, m: nat, n: nat, key: string, t: int)
    requires m <= n && Crowded(tr, m, key, t)
    ensures Crowded(tr, n, key, t)
  {
    var others :| CrowdOf(tr, m, key, t, others);
    forall k | k in others
      ensures AdmittedSince(tr, n, k, t)
    {
      var i: nat :| i < m && Admitted(tr, i) && tr.calls[i].key == k && tr.calls[i].now >= t;
    }
    assert CrowdOf(tr, n, key, t, others);
  }

  /** An unexpired entry only goes when half a map's worth of later admissions pushes it out. */
  lemma EntryLost(tr: Trace, ttl: int, n: nat, key: string, t: int)
    requires Executes(tr, ttl) && n < |tr.calls|
    requires key in tr.states[n] && tr.states[n][key] >= t + ttl && tr.calls[n].now < t + ttl
    ensures (key in tr.states[n+1] && tr.states[n+1][key] >= t + ttl) || Crowded(tr, n, key, t)
  {
    var m, c := tr.states[n], tr.calls[n];
    assert StepAt(tr, ttl, n);
    if Admits(m, c) && key !in Trimmed(m, c) {
      var u := Unexpired(m, c.now);
      forall k | k in c.kept
        ensures AdmittedSince(tr, n, k, t)
      {
        var i := EntryOrigin(tr, ttl, n, k);
        assert u[key] <= u[k];
      }
      assert CrowdOf(tr, n, key, t, c.kept);
    }
  }

  lemma {:induction false} EntryStays(tr: Trace, ttl: int, i: nat, n: nat)
    requires Executes(tr, ttl) && Monotonic(tr)
    requires i < n <= |tr.calls| && Admitted(tr, i)
    requires n < |tr.calls| ==> tr.calls[n].now < tr.calls[i].now + ttl
    requires n == |tr.calls| ==> tr.calls[n-1].now < tr.calls[i].now + ttl
    ensures var key, t := tr.calls[i].key, tr.calls[i].now;
            (key in tr.states[n] && tr.states[n][key] >= t + ttl) || Crowded(tr, n, key, t)
  {
    var key, t := tr.calls[i].key, tr.calls[i].now;
    assert StepAt(tr, ttl, n - 1);
    if n - 1 > i {
      assert n < |tr.calls| ==> tr.calls[n-1].now <= tr.calls[n].now;
      EntryStays(tr, ttl, i, n - 1);
      if key in tr.states[n-1] && tr.states[n-1][key] >= t + ttl {
        EntryLost(tr, ttl, n - 1, key, t);
      }
      if Crowded(tr, n - 1, key, t) {
        CrowdedLater(tr, n - 1, n, key, t);
      }
    }
  }

  /**
   * If a key is admitted twice less than a TTL apart, at least HALF_ENTRIES other
   * keys were admitted before the second call at times no earlier than the first.
   */
  lemma RepeatOnlyWhenCrowded(tr: Trace, ttl: int, i: nat, j: nat)
    requires Executes(tr, ttl) && Monotonic(tr)
    requires i < j < |tr.calls| && Admitted(tr, i) && Admitted(tr, j)
    requires tr.calls[i].key == tr.calls[j].key && tr.calls[j].now < tr.calls[i].now + ttl
    ensures Crowded(tr, j, tr.calls[i].key, tr.calls[i].now)
  {
    EntryStays(tr, ttl, i, j);
  }

  /**
   * The answer to a call: refused only for an allowed call of its key less than a TTL
   * earlier, and allowed in spite of one only when half a map's worth of others followed it.
   */
  lemma AllowedExactly(tr: Trace, ttl: int, n: nat)
    requires Executes(tr, ttl) && Monotonic(tr) && n < |tr.calls|
    ensures NoneRecent(tr, ttl, n) ==> Admitted(tr, n)
    ensures Admitted(tr, n) ==>
              forall i: nat | i < n && Admitted(tr, i) && tr.calls[i].key == tr.calls[n].key ::
                tr.calls[i].now + ttl <= tr.calls[n].now || Crowded(tr, n, tr.calls[i].key, tr.calls[i].now)
  {
    if NoneRecent(tr, ttl, n) {
      AllowedAfterTtl(tr, ttl, n);
    }
    if Admitted(tr, n) {
      forall i: nat | i < n && Admitted(tr, i) && tr.calls[i].key == tr.calls[n].key
        ensures tr.calls[i].now + ttl <= tr.calls[n].now || Crowded(tr, n, tr.calls[i].key, tr.calls[i].now)
      {
        if tr.calls[n].now < tr.calls[i].now + ttl {
          RepeatOnlyWhenCrowded(tr, ttl, i, n);
        }
      }
    }
  }

  /** Some call strictly between i and j admitted `key`. */
  ghost predicate AdmittedBetween(tr: Trace, i: nat, j: nat, key: string) {
    exists n: nat :: i < n < j && Admitted(tr, n) && tr.calls[n].key == key
  }

  ghost predicate StrictClock(tr: Trace) {
    forall a, b | 0 <= a < b < |tr.calls| :: tr.calls[a].now < tr.calls[b].now
  }

  /**
   * On a strictly increasing clock, a key admitted twice less than a TTL apart means
   * that HALF_ENTRIES other keys were admitted strictly between the two calls.
   */
  lemma CrowdIsBetween(tr: Trace, ttl: int, i: nat, j: nat) returns (others: set<string>)
    requires Executes(tr, ttl) && StrictClock(tr)
    requires i < j < |tr.calls| && Admitted(tr, i) && Admitted(tr, j)
    requires tr.calls[i].key == tr.calls[j].key && tr.calls[j].now < tr.calls[i].now + ttl
    ensures |others| == HALF_ENTRIES && tr.calls[i].key !in others
    ensures forall k | k in others :: AdmittedBetween(tr, i, j, k)
  {
    RepeatOnlyWhenCrowded(tr, ttl, i, j);
    others :| CrowdOf(tr, j, tr.calls[i].key, tr.calls[i].now, others);
    forall k | k in others
      ensures AdmittedBetween(tr, i, j, k)
    {
      var n: nat :| n < j && Admitted(tr, n) && tr.calls[n].key == k && tr.calls[n].now >= tr.calls[i].now;
      assert n != i;
    }
  }

  /** With command types free of '|', different actions have different keys. */
  lemma {:induction false} KeysDistinct(type1: string, target1: string, type2: string, target2: string)
    requires '|' !in type1 && '|' !in type2
    requires type1 + "|" + target1 == type2 + "|" + target2
    ensures type1 == type2 && target1 == target2
  {
    var a, b := type1 + "|" + target1, type2 + "|" + target2;
    assert a[|type1|] == '|' && b[|type2|] == '|';
    assert forall n | 0 <= n < |type1| :: a[n] == type1[n];
    assert forall n | 0 <= n < |type2| :: b[n] == type2[n];
    assert |type1| == |type2|;
    assert type1 == a[..|type1|] && type2 == b[..|type2|];
    assert target1 == a[|type1| + 1..] && target2 == b[|type2| + 1..];
  }
}

module DedupImpl {
  import opened DedupSpec

  ghost predicate Distinct(keys: seq<string>) {
    forall i, j | 0 <= i < j < |keys| :: keys[i] != keys[j]
  }

  ghost predicate AllIn(m: Seen, keys: seq<string>) {
    forall i | 0 <= i < |keys| :: keys[i] in m
  }

  ghost predicate Ascending(m: Seen, keys: seq<string>)
    requires AllIn(m, keys)
  {
    forall i, j | 0 <= i < j < |keys| :: m[keys[i]] <= m[keys[j]]
  }

  ghost predicate ByExpiry(m: Seen, keys: seq<string>) {
    AllIn(m, keys) && Distinct(keys) && Ascending(m, keys)
  }

  function Inserted(keys: seq<string>, k: string, n: nat): (r: seq<string>)
    requires n <= |keys|
    ensures |r| == |keys| + 1
    ensures forall i | 0 <= i < |r| :: r[i] == if i < n then keys[i] else if i == n then k else keys[i-1]
  {
    keys[..n] + [k] + keys[n..]
  }

  lemma InsertedElements(keys: seq<string>, k: string, n: nat)
    requires n <= |keys| && k !in keys && Distinct(keys)
    ensures Distinct(Inserted(keys, k, n))
    ensures forall x :: x in Inserted(keys, k, n) <==> x in keys || x == k
  {
  }

  lemma InsertedAscending(m: Seen, keys: seq<string>, k: string, n: nat)
    requires AllIn(m, keys) && Ascending(m, keys) && k in m && n <= |keys|
    requires n > 0 ==> m[keys[n-1]] <= m[k]
    requires forall i | n <= i < |keys| :: m[k] < m[keys[i]]
    ensures AllIn(m, Inserted(keys, k, n)) && Ascending(m, Inserted(keys, k, n))
  {
  }

  /** Inserts a key after the keys that expire no later. */
  method InsertByExpiry(m: Seen, keys: seq<string>, k: string) returns (result: seq<string>)
    requires ByExpiry(m, keys) && k in m && k !in keys
    ensures ByExpiry(m, result)
    ensures forall x :: x in result <==> x in keys || x == k
  {
    var n := |keys|;
    while n > 0 && m[k] < m[keys[n-1]]
      invariant 0 <= n <= |keys|
      invariant forall i | n <= i < |keys| :: m[k] < m[keys[i]]
    {
      n := n - 1;
    }
    InsertedElements(keys, k, n);
    InsertedAscending(m, keys, k, n);
    result := Inserted(keys, k, n);
  }

  method SortByExpiry(m: Seen) returns (keys: seq<string>)
    ensures ByExpiry(m, keys)
    ensures forall k :: k in keys <==> k in m
  {
    keys := [];
    var rest := m.Keys;
    while rest != {}
      invariant rest <= m.Keys
      invariant ByExpiry(m, keys)
      invariant forall k :: k in keys <==> k in m && k !in rest
    {
      var k :| k in rest;
      keys := InsertByExpiry(m, keys, k);
      rest := rest - {k};
    }
  }

  ghost function Elements(keys: seq<string>): set<string> {
    set k | k in keys
  }

  lemma {:induction false} ElementsSize(keys: seq<string>)
    requires Distinct(keys)
    ensures |Elements(keys)| == |keys|
  {
    if keys == [] {
      assert Elements(keys) == {};
    } else {
      var n := |keys| - 1;
      ElementsSize(keys[..n]);
      assert Elements(keys) == Elements(keys[..n]) + {keys[n]};
    }
  }

  class Deduplicator {
    const ttl: int
    var seen: Seen
    ghost var trace: Trace

    ghost predicate Valid()
      reads this
    {
      Executes(trace, ttl) && trace.states[|trace.calls|] == seen && |seen| <= MAX_ENTRIES
    }

    constructor (ttl: int)
      ensures Valid() && this.ttl == ttl && trace == Trace([], [map[]])
    {
      this.ttl := ttl;
      seen := map[];
      trace := Trace([], [map[]]);
    }

    /** True, and recorded, unless the same action was admitted within the TTL. */
    method Allow(commandType: string, target: string, now: int) returns (allowed: bool)
      requires Valid()
      modifies this
      ensures Valid()
      ensures exists kept ::
                var c := Call(commandType + "|" + target, now, kept);
                && trace == Trace(old(trace).calls + [c], old(trace).states + [Step(old(seen), c, ttl)])
                && (allowed <==> Admits(old(seen), c))
      ensures NoneRecent(trace, ttl, |old(trace).calls|) ==> allowed
    {
      var key := commandType + "|" + target;
      ghost var kept: set<string> := {};
      allowed := !(key in seen && now < seen[key]);
      if allowed {
        if |seen| >= MAX_ENTRIES {
          Purge(now);
          if |seen| >= HALF_ENTRIES {
            kept := EvictOldest(HALF_ENTRIES);
          }
        }
        seen := seen[key := now + ttl];
      }
      ghost var c, n := Call(key, now, kept), |trace.calls|;
      Record(c, old(seen));
      if NoneRecent(trace, ttl, n) {
        AllowedAfterTtl(trace, ttl, n);
      }
    }

    ghost method Record(c: Call, before: Seen)
      requires Executes(trace, ttl) && trace.states[|trace.calls|] == before && |before| <= MAX_ENTRIES
      requires Legal(before, c) && seen == Step(before, c, ttl)
      modifies this`trace
      ensures Valid()
      ensures trace == Trace(old(trace).calls + [c], old(trace).states + [seen])
    {
      var tr := trace;
      trace := Trace(trace.calls + [c], trace.states + [seen]);
      forall n | 0 <= n < |trace.calls|
        ensures StepAt(trace, ttl, n)
      {
        assert n < |tr.calls| ==> StepAt(tr, ttl, n);
      }
      BoundedMemory(trace, ttl, |trace.calls|);
    }

    method Purge(now: int)
      modifies this`seen
      ensures seen == Unexpired(old(seen), now)
    {
      var rest := seen.Keys;
      while rest != {}
        invariant rest <= old(seen).Keys
        invariant seen == map k | k in old(seen) && (k in rest || !(now > old(seen)[k])) :: old(seen)[k]
      {
        var k :| k in rest;
        if now > seen[k] {
          seen := seen - {k};
        }
        rest := rest - {k};
      }
    }

    /** Deletes the entries that expire first until `target` are left. */
    method EvictOldest(target: nat) returns (ghost kept: set<string>)
      requires target == HALF_ENTRIES <= |seen|
      modifies this`seen
      ensures LatestHalf(old(seen), kept)
      ensures seen == Kept(old(seen), kept)
    {
      var keys := SortByExpiry(seen);
      AllKeysSorted(seen, keys);
      var toDelete := |keys| - target;
      for i := 0 to toDelete
        invariant forall k :: k in seen <==> k in old(seen) && k !in keys[..i]
        invariant forall k | k in seen :: seen[k] == old(seen)[k]
      {
        assert keys[..i + 1] == keys[..i] + [keys[i]];
        seen := seen - {keys[i]};
      }
      kept := Elements(keys[toDelete..]);
      KeptAreLatest(old(seen), keys, toDelete);
    }
  }

  lemma AllKeysSorted(m: Seen, keys: seq<string>)
    requires Distinct(keys) && forall k :: k in keys <==> k in m
    ensures |keys| == |m|
  {
    ElementsSize(keys);
    assert Elements(keys) == m.Keys;
    assert |m| == |m.Keys|;
  }

  lemma DropsDistinct(m: Seen, keys: seq<string>, n: nat)
    requires ByExpiry(m, keys) && n <= |keys|
    ensures Distinct(keys[n..])
  {
  }

  lemma FirstOrRest(m: Seen, keys: seq<string>, n: nat, k: string)
    requires ByExpiry(m, keys) && n <= |keys| && k in keys
    ensures k in keys[n..] <==> k !in keys[..n]
  {
  }

  lemma DroppedExpireFirst(m: Seen, keys: seq<string>, n: nat, a: string, b: string)
    requires ByExpiry(m, keys) && n <= |keys| && (forall k :: k in keys <==> k in m)
    requires a in keys[n..] && b in m && b !in keys[n..]
    ensures m[b] <= m[a]
  {
  }

  /** What is left after the first entries in expiry order are gone. */
  lemma KeptAreLatest(m: Seen, keys: seq<string>, n: nat)
    requires ByExpiry(m, keys) && (forall k :: k in keys <==> k in m) && n + HALF_ENTRIES == |keys|
    ensures LatestHalf(m, Elements(keys[n..]))
    ensures forall k | k in m :: k in Elements(keys[n..]) <==> k !in keys[..n]
  {
    var kept := keys[n..];
    DropsDistinct(m, keys, n);
    ElementsSize(kept);
    forall a, b | a in kept && b in m && b !in kept
      ensures m[b] <= m[a]
    {
      DroppedExpireFirst(m, keys, n, a, b);
    }
    forall k | k in m
      ensures k in kept <==> k !in keys[..n]
    {
      FirstOrRest(m, keys, n, k);
    }
  }
}
