/** An LRU list of keys, and what being least recently used means for a history of touches. */
module LruSpec {
  /** `s` with every occurrence of `k` taken out. */
  function Without(s: seq<string>, k: string): (r: seq<string>)
    ensures |r| <= |s|
  {
    if s == [] then []
    else
      var rest := Without(s[..|s| - 1], k);
      if s[|s| - 1] == k then rest else rest + [s[|s| - 1]]
  }

  predicate Distinct(s: seq<string>) {
    forall i, j :: 0 <= i < j < |s| ==> s[i] != s[j]
  }

  /** The list without `k`, or, if `k` is new and the list holds `n` keys, without its oldest key. */
  function MakeRoom(kept: seq<string>, k: string, n: int): seq<string> {
    if k in kept then Without(kept, k)
    else if kept != [] && |kept| >= n then kept[1..]
    else kept
  }

  /** What one touch of `k` does to the list of a store of capacity `max`. */
  function Touch(order: seq<string>, k: string, max: int): seq<string> {
    MakeRoom(order, k, max) + [k]
  }

  /** The last `n` distinct keys of the touches `ts`, the latest touched last. */
  function Newest(ts: seq<string>, n: nat): (r: seq<string>)
    ensures |r| <= n
    decreases |ts|
  {
    if ts == [] || n == 0 then []
    else
      var k := ts[|ts| - 1];
      Newest(Without(ts[..|ts| - 1], k), n - 1) + [k]
  }

  /** The other keys touched after the last touch of `k`. */
  function Since(ts: seq<string>, k: string): set<string> {
    if ts == [] || ts[|ts| - 1] == k then {}
    else Since(ts[..|ts| - 1], k) + {ts[|ts| - 1]}
  }

  lemma {:induction false} WithoutMembers(s: seq<string>, k: string, x: string)
    ensures x in Without(s, k) <==> x in s && x != k
  {
    if s != [] {
      WithoutMembers(s[..|s| - 1], k, x);
    }
  }

  lemma {:induction false} WithoutAbsent(s: seq<string>, k: string)
    requires k !in s
    ensures Without(s, k) == s
  {
    if s != [] {
      WithoutAbsent(s[..|s| - 1], k);
    }
  }

  lemma WithoutAppend(s: seq<string>, l: string, k: string)
    ensures Without(s + [l], k) == if l == k then Without(s, k) else Without(s, k) + [l]
  {
  }

  lemma {:induction false} WithoutCommutes(s: seq<string>, k: string, l: string)
    ensures Without(Without(s, k), l) == Without(Without(s, l), k)
  {
    if s != [] {
      var rest, x := s[..|s| - 1], s[|s| - 1];
      WithoutCommutes(rest, k, l);
      WithoutAppend(Without(rest, k), x, l);
      WithoutAppend(Without(rest, l), x, k);
    }
  }

  lemma DistinctAppend(s: seq<string>, x: string)
    ensures Distinct(s + [x]) <==> Distinct(s) && x !in s
  {
    var t := s + [x];
    if Distinct(t) {
      assert forall i, j :: 0 <= i < j < |s| ==> t[i] == s[i] && t[j] == s[j];
      assert forall i :: 0 <= i < |s| ==> t[i] == s[i] && t[i] != t[|s|];
    }
  }

  lemma FirstOnlyOnce(s: seq<string>, k: string)
    requires Distinct(s) && s != []
    ensures k in s[1..] <==> k in s && k != s[0]
  {
  }

  lemma {:induction false} WithoutDistinct(s: seq<string>, k: string)
    requires Distinct(s)
    ensures Distinct(Without(s, k))
    ensures k in s ==> |Without(s, k)| == |s| - 1
  {
    if s != [] {
      var rest, x := s[..|s| - 1], s[|s| - 1];
      assert s == rest + [x];
      DistinctAppend(rest, x);
      WithoutDistinct(rest, k);
      WithoutMembers(rest, k, x);
      if x == k {
        WithoutAbsent(rest, k);
      }
      DistinctAppend(Without(rest, k), x);
    }
  }

  lemma {:induction false} TouchDropsOldest(ts: seq<string>, k: string, n: nat)
    ensures Newest(Without(ts, k), n) == MakeRoom(Newest(ts, n + 1), k, n + 1)
    decreases |ts|
  {
    if ts != [] {
      var rest, l := ts[..|ts| - 1], ts[|ts| - 1];
      assert ts == rest + [l];
      if l == k {
        LatestMakesRoom(rest, k, n);
      } else if n == 0 {
        OnlyOneKept(rest, l, k);
      } else {
        TouchDropsOldest(Without(rest, l), k, n - 1);
        WithoutCommutes(rest, k, l);
        TouchDropsOldestStep(rest, l, k, n);
      }
    }
  }

  lemma LatestMakesRoom(rest: seq<string>, k: string, n: nat)
    ensures Newest(Without(rest + [k], k), n) == MakeRoom(Newest(rest + [k], n + 1), k, n + 1)
  {
    var kept := Newest(Without(rest, k), n);
    NewestAppend(rest, k, n + 1);
    WithoutAppend(rest, k, k);
    WithoutAppend(kept, k, k);
    NewestFrom(Without(rest, k), n, k);
    WithoutMembers(rest, k, k);
    WithoutAbsent(kept, k);
  }

  lemma OnlyOneKept(rest: seq<string>, l: string, k: string)
    requires l != k
    ensures Newest(Without(rest + [l], k), 0) == MakeRoom(Newest(rest + [l], 1), k, 1)
  {
  }

  lemma TouchDropsOldestStep(rest: seq<string>, l: string, k: string, n: nat)
    requires l != k && n > 0
    requires Newest(Without(Without(rest, k), l), n - 1) == MakeRoom(Newest(Without(rest, l), n), k, n)
    ensures Newest(Without(rest + [l], k), n) == MakeRoom(Newest(rest + [l], n + 1), k, n + 1)
  {
  }

  lemma NewestAppend(ts: seq<string>, l: string, n: nat)
    ensures Newest(ts + [l], n) == if n == 0 then [] else Newest(Without(ts, l), n - 1) + [l]
  {
  }

  /** Touching a list of the `max` newest keys gives the list of the `max` newest keys. */
  lemma TouchKeepsNewest(ts: seq<string>, k: string, max: int)
    requires max >= 1
    ensures Touch(Newest(ts, max), k, max) == Newest(ts + [k], max)
  {
    TouchDropsOldest(ts, k, max - 1);
    NewestAppend(ts, k, max);
  }

  lemma {:induction false} SinceWithout(ts: seq<string>, k: string, l: string)
    requires k != l
    ensures Since(Without(ts, l), k) == Since(ts, k) - {l}
  {
    if ts != [] {
      var rest, x := ts[..|ts| - 1], ts[|ts| - 1];
      SinceWithout(rest, k, l);
      assert (Without(rest, l) + [x])[..|Without(rest, l)|] == Without(rest, l);
    }
  }

  lemma {:induction false} NewestFrom(ts: seq<string>, n: nat, x: string)
    ensures x in Newest(ts, n) ==> x in ts
    decreases |ts|
  {
    if ts != [] && n > 0 && x != ts[|ts| - 1] {
      var others := Without(ts[..|ts| - 1], ts[|ts| - 1]);
      NewestFrom(others, n - 1, x);
      WithoutMembers(ts[..|ts| - 1], ts[|ts| - 1], x);
    }
  }

  /** A key is among the `n` newest exactly when fewer than `n` other keys followed its last touch. */
  lemma {:induction false} NewestMeans(ts: seq<string>, k: string, n: nat)
    ensures k in Newest(ts, n) <==> k in ts && |Since(ts, k)| < n
    decreases |ts|
  {
    if ts != [] && n > 0 && ts[|ts| - 1] != k {
      var rest, l := ts[..|ts| - 1], ts[|ts| - 1];
      NewestMeans(Without(rest, l), k, n - 1);
      SinceWithout(rest, k, l);
      WithoutMembers(rest, l, k);
      assert Since(ts, k) == (Since(rest, k) - {l}) + {l};
    }
  }

  lemma TouchKeepsDistinct(order: seq<string>, k: string, max: int)
    requires Distinct(order) && |order| <= max && max >= 1
    ensures Distinct(Touch(order, k, max)) && |Touch(order, k, max)| <= max
  {
    var room := MakeRoom(order, k, max);
    if k in order {
      WithoutDistinct(order, k);
      WithoutMembers(order, k, k);
    } else if order != [] {
      assert order == [order[0]] + order[1..];
    }
    DistinctAppend(room, k);
  }
}

/** Per-entity models with decaying-maximum normalisation, as a state machine over its two calls. */
module AnomalySpec {
  import opened LruSpec

  /** One step of decay, by a factor of 1 - 0.001. */
  function Decayed(x: real): real {
    x * 0.999
  }

  /** The anomaly model behind the detector, which this development does not look into. */
  datatype Lib<!M, !F> = Lib(create: (string, string) -> M, score: (M, F) -> real, learn: (M, F) -> M)

  /** The state kept per key; `peak` is the decaying maximum of the raw scores. */
  datatype Model<M> = Model(trees: M, count: nat, peak: real)

  datatype State<M> = State(order: seq<string>, cache: map<string, Model<M>>)

  datatype Op<F> =
    | Learn(host: string, category: string, x: F)
    | Score(key: string, x: F)

  function KeyOf(host: string, category: string): string {
    host + "::" + category
  }

  /** With category names free of ':', every host and category has a key of its own. */
  lemma KeysApart(host: string, category: string, host': string, category': string)
    requires ':' !in category && ':' !in category'
    ensures KeyOf(host, category) == KeyOf(host', category') <==> host == host' && category == category'
  {
    var s, t := KeyOf(host, category), KeyOf(host', category');
    if s == t {
      var m, n := |s| - |category|, |t| - |category'|;
      assert s[m-1] == ':' && t[n-1] == ':';
      assert forall i | m <= i < |s| :: s[i] == category[i - m];
      assert forall i | n <= i < |t| :: t[i] == category'[i - n];
      assert m == n;
      assert category == s[m..] && category' == t[n..];
      assert host == s[..m-2] && host' == t[..n-2];
    }
  }

  // One model

  function Created<M, F>(lib: Lib<M, F>, key: string, category: string): Model<M> {
    Model(lib.create(key, category), 0, 0.0)
  }

  function RealMax(a: real, b: real): real {
    if a < b then b else a
  }

  /** The model after one more sample; the maximum moves only once the cold start is over. */
  function Taught<M, F>(lib: Lib<M, F>, m: Model<M>, x: F, minSamples: int): Model<M> {
    Model(lib.learn(m.trees, x), m.count + 1,
          if m.count + 1 < minSamples then m.peak
          else RealMax(Decayed(m.peak), lib.score(m.trees, x)))
  }

  function Normalised(raw: real, peak: real): real {
    if peak == 0.0 then 0.0
    else if raw / peak < 1.0 then raw / peak * 100.0
    else 100.0
  }

  // The detector

  function Stored<M, F>(lib: Lib<M, F>, s: State<M>, key: string, category: string): Model<M> {
    if key in s.cache then s.cache[key] else Created(lib, key, category)
  }

  /** The store after a touch of `key` that leaves it mapped to `m`. */
  function Kept<M>(s: State<M>, key: string, m: Model<M>, max: int): State<M> {
    var order := Touch(s.order, key, max);
    State(order, map k | k in order && k in s.cache[key := m] :: s.cache[key := m][k])
  }

  function Apply<M, F>(lib: Lib<M, F>, s: State<M>, op: Op<F>, minSamples: int, max: int): State<M> {
    match op
    case Learn(host, category, x) =>
      var key := KeyOf(host, category);
      Kept(s, key, Taught(lib, Stored(lib, s, key, category), x, minSamples), max)
    case Score(key, _) =>
      if key in s.cache then Kept(s, key, s.cache[key], max) else s
  }

  function Output<M, F>(lib: Lib<M, F>, s: State<M>, op: Op<F>, minSamples: int): real {
    match op
    case Learn(host, category, x) =>
      var before := Stored(lib, s, KeyOf(host, category), category);
      if before.count + 1 < minSamples then 0.0
      else Normalised(lib.score(before.trees, x), Taught(lib, before, x, minSamples).peak)
    case Score(key, x) =>
      if key !in s.cache || s.cache[key].count < minSamples then 0.0
      else Normalised(lib.score(s.cache[key].trees, x), s.cache[key].peak)
  }

  function Run<M, F>(lib: Lib<M, F>, ops: seq<Op<F>>, minSamples: int, max: int): State<M> {
    if ops == [] then State([], map[])
    else Apply(lib, Run(lib, ops[..|ops| - 1], minSamples, max), ops[|ops| - 1], minSamples, max)
  }

  // The store is a true LRU

  ghost predicate Consistent<M>(s: State<M>, max: int) {
    && Distinct(s.order) && |s.order| <= max
    && forall k :: k in s.order <==> k in s.cache
  }

  /** The keys touched by `ops`, oldest first: looking up a key that is not among the newest touches nothing. */
  function Touches<F>(ops: seq<Op<F>>, max: nat): seq<string> {
    if ops == [] then []
    else
      var before := Touches(ops[..|ops| - 1], max);
      match ops[|ops| - 1]
      case Learn(host, category, _) => before + [KeyOf(host, category)]
      case Score(key, _) => if key in Newest(before, max) then before + [key] else before
  }

  lemma TouchMembers(order: seq<string>, key: string, max: int, k: string)
    ensures key in Touch(order, key, max)
    ensures k in Touch(order, key, max) ==> k == key || k in order
  {
    var room := MakeRoom(order, key, max);
    assert Touch(order, key, max)[|room|] == key;
    WithoutMembers(order, key, k);
  }

  lemma KeptConsistent<M>(s: State<M>, key: string, m: Model<M>, max: int)
    requires Consistent(s, max) && max >= 1
    ensures Consistent(Kept(s, key, m, max), max)
    ensures key in Kept(s, key, m, max).cache && Kept(s, key, m, max).cache[key] == m
  {
    var after := Kept(s, key, m, max);
    TouchKeepsDistinct(s.order, key, max);
    forall k ensures k in after.order <==> k in after.cache {
      TouchMembers(s.order, key, max, k);
    }
    TouchMembers(s.order, key, max, key);
  }

  // What one touch does to the store, by its three branches

  lemma KeptHit<M>(s: State<M>, key: string, m: Model<M>, max: int)
    requires Consistent(s, max) && key in s.cache
    ensures Kept(s, key, m, max) == State(Without(s.order, key) + [key], s.cache[key := m])
  {
    var after := Kept(s, key, m, max);
    forall k ensures k in after.cache <==> k in s.cache {
      WithoutMembers(s.order, key, k);
    }
  }

  lemma KeptNew<M>(s: State<M>, key: string, m: Model<M>, max: int)
    requires Consistent(s, max) && key !in s.cache && |s.order| < max
    ensures Kept(s, key, m, max) == State(s.order + [key], s.cache[key := m])
  {
  }

  lemma KeptEvicts<M>(s: State<M>, key: string, m: Model<M>, max: int)
    requires Consistent(s, max) && key !in s.cache && |s.order| == max >= 1
    ensures Kept(s, key, m, max) == State(s.order[1..] + [key], (s.cache - {s.order[0]})[key := m])
  {
    var order := s.order[1..] + [key];
    assert Touch(s.order, key, max) == order;
    forall k ensures k in order <==> k == key || (k in s.cache && k != s.order[0]) {
      FirstOnlyOnce(s.order, k);
    }
    EvictedCache(s.cache, order, s.order[0], key, m);
  }

  lemma EvictedCache<M>(cache: map<string, Model<M>>, order: seq<string>, oldest: string, key: string, m: Model<M>)
    requires forall k :: k in order <==> k == key || (k in cache && k != oldest)
    ensures (map k | k in order && k in cache[key := m] :: cache[key := m][k]) == (cache - {oldest})[key := m]
  {
  }

  lemma KeptAgain<M>(s: State<M>, key: string, m: Model<M>, m': Model<M>, max: int)
    requires Consistent(s, max) && max >= 1
    ensures var kept := Kept(s, key, m, max);
            key in kept.cache && Kept(s, key, m', max) == State(kept.order, kept.cache[key := m'])
  {
  }

  /** After any run the stored keys are, in order, the last `max` distinct keys touched. */
  lemma {:induction false} TrueLru<M, F>(lib: Lib<M, F>, ops: seq<Op<F>>, minSamples: int, max: nat)
    requires max >= 1
    ensures Run(lib, ops, minSamples, max).order == Newest(Touches(ops, max), max)
    ensures Consistent(Run(lib, ops, minSamples, max), max)
  {
    if ops != [] {
      var before, op := ops[..|ops| - 1], ops[|ops| - 1];
      var s := Run(lib, before, minSamples, max);
      TrueLru(lib, before, minSamples, max);
      match op {
        case Learn(host, category, x) => {
          var key := KeyOf(host, category);
          KeptConsistent(s, key, Taught(lib, Stored(lib, s, key, category), x, minSamples), max);
          TouchKeepsNewest(Touches(before, max), key, max);
        }
        case Score(key, x) => {
          if key in s.cache {
            KeptConsistent(s, key, s.cache[key], max);
            TouchKeepsNewest(Touches(before, max), key, max);
          }
        }
      }
    }
  }

  // Every stored model is the fresh one taught its own samples

  function TaughtAll<M, F>(lib: Lib<M, F>, m: Model<M>, xs: seq<F>, minSamples: int): Model<M> {
    if xs == [] then m
    else Taught(lib, TaughtAll(lib, m, xs[..|xs| - 1], minSamples), xs[|xs| - 1], minSamples)
  }

  /** What a key has lived through since it last entered the store. */
  datatype Life<F> = Life(category: string, xs: seq<F>)

  function LifeOf<F>(ops: seq<Op<F>>, key: string, max: nat): Life<F> {
    if ops == [] then Life("", [])
    else
      var before, op := ops[..|ops| - 1], ops[|ops| - 1];
      var life := LifeOf(before, key, max);
      if op.Learn? && KeyOf(op.host, op.category) == key then
        if key in Newest(Touches(before, max), max) then Life(life.category, life.xs + [op.x])
        else Life(op.category, [op.x])
      else life
  }

  function Grown<M, F>(lib: Lib<M, F>, key: string, life: Life<F>, minSamples: int): Model<M> {
    TaughtAll(lib, Created(lib, key, life.category), life.xs, minSamples)
  }

  lemma KeptOthers<M>(s: State<M>, key: string, m: Model<M>, max: int, k: string)
    requires k != key && k in Kept(s, key, m, max).cache
    ensures k in s.cache && Kept(s, key, m, max).cache[k] == s.cache[k]
  {
  }

  lemma TaughtAllAppend<M, F>(lib: Lib<M, F>, m: Model<M>, xs: seq<F>, x: F, minSamples: int)
    ensures TaughtAll(lib, m, xs + [x], minSamples) == Taught(lib, TaughtAll(lib, m, xs, minSamples), x, minSamples)
  {
  }

  /** A stored model depends on nothing but the samples its key learned since it last entered the store. */
  lemma {:induction false} ModelIsItsLife<M, F>(lib: Lib<M, F>, ops: seq<Op<F>>, key: string, minSamples: int, max: nat)
    requires max >= 1 && key in Run(lib, ops, minSamples, max).cache
    ensures Run(lib, ops, minSamples, max).cache[key] == Grown(lib, key, LifeOf(ops, key, max), minSamples)
    ensures LifeOf(ops, key, max).xs != []
  {
    var before, op := ops[..|ops| - 1], ops[|ops| - 1];
    var s, life := Run(lib, before, minSamples, max), LifeOf(before, key, max);
    TrueLru(lib, before, minSamples, max);
    if key in s.cache {
      ModelIsItsLife(lib, before, key, minSamples, max);
    }
    match op {
      case Learn(host, category, x) => {
        var touched := KeyOf(host, category);
        var m := Taught(lib, Stored(lib, s, touched, category), x, minSamples);
        KeptConsistent(s, touched, m, max);
        if touched == key {
          TaughtAllAppend(lib, Created(lib, key, life.category), life.xs, x, minSamples);
          TaughtAllAppend(lib, Created(lib, key, category), [], x, minSamples);
          assert [] + [x] == [x];
        } else {
          KeptOthers(s, touched, m, max, key);
        }
      }
      case Score(touched, x) => {
        if touched in s.cache {
          KeptConsistent(s, touched, s.cache[touched], max);
        }
      }
    }
  }

  // The decaying maximum in closed form

  ghost predicate NonNegative<M(!new), F(!new)>(lib: Lib<M, F>) {
    forall m: M, x: F :: lib.score(m, x) >= 0.0
  }

  /** `x` after `n` steps of decay. */
  function Faded(x: real, n: nat): real {
    if n == 0 then x else Decayed(Faded(x, n - 1))
  }

  function Power(b: real, n: nat): real {
    if n == 0 then 1.0 else Power(b, n - 1) * b
  }

  /** Decay multiplies by 1 - 0.001 at each step. */
  lemma {:induction false} FadedIsPower(x: real, n: nat)
    ensures Faded(x, n) == x * Power(1.0 - 0.001, n)
  {
    if n > 0 {
      FadedIsPower(x, n - 1);
      var p := Power(1.0 - 0.001, n - 1);
      assert Power(1.0 - 0.001, n) == p * 0.999;
      assert (x * p) * 0.999 == x * (p * 0.999);
    }
  }

  /** The raw score of sample `j`, given by the model as it was before that sample. */
  function RawAt<M, F>(lib: Lib<M, F>, m: Model<M>, xs: seq<F>, minSamples: int, j: nat): real
    requires j < |xs|
  {
    lib.score(TaughtAll(lib, m, xs[..j], minSamples).trees, xs[j])
  }

  /** What is left, after all of `xs`, of the raw score of sample `j`. */
  function LeftOf<M, F>(lib: Lib<M, F>, m: Model<M>, xs: seq<F>, minSamples: int, j: nat): real
    requires j < |xs|
  {
    Faded(RawAt(lib, m, xs, minSamples, j), |xs| - 1 - j)
  }

  /** `peak` is the largest decayed raw score of the samples past the cold start, 0 if there is none. */
  ghost predicate DecayedMaximum<M, F>(lib: Lib<M, F>, m: Model<M>, xs: seq<F>, minSamples: int, peak: real) {
    && (forall j | 0 <= j < |xs| && j + 1 >= minSamples :: LeftOf(lib, m, xs, minSamples, j) <= peak)
    && ((peak == 0.0 && (|xs| < minSamples || xs == []))
        || exists j | 0 <= j < |xs| && j + 1 >= minSamples :: LeftOf(lib, m, xs, minSamples, j) == peak)
  }

  lemma LeftOfPrefix<M, F>(lib: Lib<M, F>, m: Model<M>, xs: seq<F>, minSamples: int, j: nat)
    requires j + 1 < |xs|
    ensures LeftOf(lib, m, xs, minSamples, j) == Decayed(LeftOf(lib, m, xs[..|xs| - 1], minSamples, j))
  {
    assert xs[..|xs| - 1][..j] == xs[..j];
  }

  lemma {:induction false} CountIsLength<M, F>(lib: Lib<M, F>, m: Model<M>, xs: seq<F>, minSamples: int)
    ensures TaughtAll(lib, m, xs, minSamples).count == m.count + |xs|
  {
    if xs != [] {
      CountIsLength(lib, m, xs[..|xs| - 1], minSamples);
    }
  }

  /** One more sample past the cold start: what was largest decays once, or gives way to the new raw score. */
  lemma DecayedMaximumStep<M, F>(lib: Lib<M, F>, m: Model<M>, xs: seq<F>, minSamples: int, last: real, raw: real)
    requires xs != [] && |xs| >= minSamples && raw == RawAt(lib, m, xs, minSamples, |xs| - 1)
    requires DecayedMaximum(lib, m, xs[..|xs| - 1], minSamples, last) && last >= 0.0 && raw >= 0.0
    ensures DecayedMaximum(lib, m, xs, minSamples, RealMax(Decayed(last), raw))
  {
    var n := |xs| - 1;
    var earlier, peak := xs[..n], RealMax(Decayed(last), raw);
    assert LeftOf(lib, m, xs, minSamples, n) == raw;
    forall j | 0 <= j < |xs| && j + 1 >= minSamples
      ensures LeftOf(lib, m, xs, minSamples, j) <= peak
    {
      if j < n {
        LeftOfPrefix(lib, m, xs, minSamples, j);
        assert LeftOf(lib, m, earlier, minSamples, j) <= last;
      }
    }
    if peak != raw {
      var j :| 0 <= j < n && j + 1 >= minSamples && LeftOf(lib, m, earlier, minSamples, j) == last;
      LeftOfPrefix(lib, m, xs, minSamples, j);
      assert LeftOf(lib, m, xs, minSamples, j) == peak;
    }
  }

  lemma {:induction false} PeakIsDecayedMaximum<M(!new), F(!new)>(lib: Lib<M, F>, m: Model<M>, xs: seq<F>, minSamples: int)
    requires NonNegative(lib) && m.count == 0 && m.peak == 0.0
    ensures DecayedMaximum(lib, m, xs, minSamples, TaughtAll(lib, m, xs, minSamples).peak)
    ensures TaughtAll(lib, m, xs, minSamples).peak >= 0.0
  {
    if xs != [] {
      var n := |xs| - 1;
      PeakIsDecayedMaximum(lib, m, xs[..n], minSamples);
      CountIsLength(lib, m, xs[..n], minSamples);
      if |xs| >= minSamples {
        DecayedMaximumStep(lib, m, xs, minSamples, TaughtAll(lib, m, xs[..n], minSamples).peak, RawAt(lib, m, xs, minSamples, n));
      }
    }
  }

  // Scores

  /** No raw score learned before the last sample is still larger than the last one's. */
  ghost predicate LastIsLargest<M, F>(lib: Lib<M, F>, m: Model<M>, xs: seq<F>, minSamples: int)
    requires xs != []
  {
    forall j | 0 <= j < |xs| && j + 1 >= minSamples ::
      LeftOf(lib, m, xs, minSamples, j) <= RawAt(lib, m, xs, minSamples, |xs| - 1)
  }

  lemma NormalisedInRange(raw: real, peak: real)
    requires raw >= 0.0 && peak >= 0.0
    ensures 0.0 <= Normalised(raw, peak) <= 100.0
    ensures raw <= peak ==> Normalised(raw, peak) * peak == raw * 100.0
    ensures raw <= peak ==> (Normalised(raw, peak) == 100.0 <==> raw == peak && raw > 0.0)
  {
    if peak > 0.0 {
      var q := raw / peak;
      assert q * peak == raw;
      assert q < 0.0 ==> q * peak < 0.0;
      assert q > 1.0 ==> q * peak > peak;
      assert q < 1.0 ==> q * peak < peak;
    }
  }

  /** Every score lies in [0, 100], whatever calls came before. */
  lemma ScoresInRange<M(!new), F(!new)>(lib: Lib<M, F>, ops: seq<Op<F>>, op: Op<F>, minSamples: int, max: nat)
    requires NonNegative(lib) && max >= 1
    ensures 0.0 <= Output(lib, Run(lib, ops, minSamples, max), op, minSamples) <= 100.0
  {
    var s := Run(lib, ops, minSamples, max);
    var key := if op.Learn? then KeyOf(op.host, op.category) else op.key;
    if key in s.cache {
      var life := LifeOf(ops, key, max);
      ModelIsItsLife(lib, ops, key, minSamples, max);
      PeakIsDecayedMaximum(lib, Created(lib, key, life.category), life.xs, minSamples);
      NormalisedInRange(lib.score(s.cache[key].trees, op.x), s.cache[key].peak);
    }
    if op.Learn? {
      var before := Stored(lib, s, key, op.category);
      var raw := lib.score(before.trees, op.x);
      assert before.peak >= 0.0;
      NormalisedInRange(raw, RealMax(Decayed(before.peak), raw));
    }
  }

  /** `score` is the last raw score relative to the largest decayed one, and full when none is larger. */
  ghost predicate ScoreMeans<M, F>(lib: Lib<M, F>, m: Model<M>, xs: seq<F>, minSamples: int, peak: real, score: real)
    requires xs != []
  {
    var raw := RawAt(lib, m, xs, minSamples, |xs| - 1);
    && DecayedMaximum(lib, m, xs, minSamples, peak)
    && (|xs| < minSamples || peak == 0.0 ==> score == 0.0)
    && (|xs| >= minSamples ==> score * peak == raw * 100.0)
    && (|xs| >= minSamples ==> (score == 100.0 <==> raw > 0.0 && LastIsLargest(lib, m, xs, minSamples)))
  }

  lemma LargestMeans<M, F>(lib: Lib<M, F>, m: Model<M>, xs: seq<F>, minSamples: int, peak: real)
    requires xs != [] && |xs| >= minSamples && DecayedMaximum(lib, m, xs, minSamples, peak)
    ensures var raw := RawAt(lib, m, xs, minSamples, |xs| - 1);
            raw <= peak && (LastIsLargest(lib, m, xs, minSamples) <==> raw == peak)
  {
    assert LeftOf(lib, m, xs, minSamples, |xs| - 1) == RawAt(lib, m, xs, minSamples, |xs| - 1);
  }

  lemma NormalisedMeans<M(!new), F(!new)>(lib: Lib<M, F>, m: Model<M>, xs: seq<F>, minSamples: int, peak: real)
    requires NonNegative(lib) && xs != []
    requires DecayedMaximum(lib, m, xs, minSamples, peak) && peak >= 0.0
    ensures ScoreMeans(lib, m, xs, minSamples, peak,
                       if |xs| < minSamples then 0.0
                       else Normalised(RawAt(lib, m, xs, minSamples, |xs| - 1), peak))
  {
    if |xs| >= minSamples {
      LargestMeans(lib, m, xs, minSamples, peak);
      NormalisedInRange(RawAt(lib, m, xs, minSamples, |xs| - 1), peak);
    }
  }

  lemma ScoreOfLast<M(!new), F(!new)>(lib: Lib<M, F>, m: Model<M>, earlier: seq<F>, x: F, minSamples: int)
    requires NonNegative(lib) && m.count == 0 && m.peak == 0.0
    ensures var before := TaughtAll(lib, m, earlier, minSamples);
            ScoreMeans(lib, m, earlier + [x], minSamples, TaughtAll(lib, m, earlier + [x], minSamples).peak,
                       if before.count + 1 < minSamples then 0.0
                       else Normalised(lib.score(before.trees, x), Taught(lib, before, x, minSamples).peak))
  {
    var xs := earlier + [x];
    assert xs[..|xs| - 1] == earlier;
    CountIsLength(lib, m, earlier, minSamples);
    PeakIsDecayedMaximum(lib, m, xs, minSamples);
    NormalisedMeans(lib, m, xs, minSamples, TaughtAll(lib, m, xs, minSamples).peak);
  }

  lemma LifeGoesOn<M, F>(lib: Lib<M, F>, ops: seq<Op<F>>, host: string, category: string, x: F,
                         minSamples: int, max: nat) returns (earlier: Life<F>)
    requires max >= 1
    ensures var key := KeyOf(host, category);
            && LifeOf(ops + [Learn(host, category, x)], key, max) == Life(earlier.category, earlier.xs + [x])
            && Stored(lib, Run(lib, ops, minSamples, max), key, category) == Grown(lib, key, earlier, minSamples)
  {
    var key, op := KeyOf(host, category), Learn(host, category, x);
    assert (ops + [op])[..|ops|] == ops;
    TrueLru(lib, ops, minSamples, max);
    if key in Run(lib, ops, minSamples, max).cache {
      earlier := LifeOf(ops, key, max);
      ModelIsItsLife(lib, ops, key, minSamples, max);
    } else {
      earlier := Life(category, []);
      assert [] + [x] == [x];
    }
  }

  /** The score of a learned sample is relative to all that its key has learned, and to nothing else. */
  lemma LearnedScore<M(!new), F(!new)>(lib: Lib<M, F>, ops: seq<Op<F>>, host: string, category: string, x: F,
                                       minSamples: int, max: nat)
    requires NonNegative(lib) && max >= 1
    ensures var key, op := KeyOf(host, category), Learn(host, category, x);
            var life := LifeOf(ops + [op], key, max);
            && life.xs != []
            && ScoreMeans(lib, Created(lib, key, life.category), life.xs, minSamples,
                          Grown(lib, key, life, minSamples).peak,
                          Output(lib, Run(lib, ops, minSamples, max), op, minSamples))
  {
    var earlier := LifeGoesOn(lib, ops, host, category, x, minSamples, max);
    ScoreOfLast(lib, Created(lib, KeyOf(host, category), earlier.category), earlier.xs, x, minSamples);
  }

  lemma NormalisedClips(raw: real, peak: real)
    requires raw >= 0.0 && peak > 0.0
    ensures raw <= peak ==> Normalised(raw, peak) * peak == raw * 100.0
    ensures Normalised(raw, peak) == 100.0 <==> raw >= peak
  {
    var q := raw / peak;
    assert q * peak == raw;
    assert q < 1.0 ==> q * peak < peak;
    assert q > 1.0 ==> q * peak > peak;
  }

  /**
   * What a read-only score means after n samples: nothing in the cold start or without any
   * positive peak; else the raw score relative to the peak, full exactly when not below it.
   */
  ghost predicate ReadScoreMeans(n: nat, minSamples: int, raw: real, peak: real, score: real) {
    if n < minSamples || peak == 0.0 then score == 0.0
    else (raw <= peak ==> score * peak == raw * 100.0) && (score == 100.0 <==> raw >= peak)
  }

  lemma NormalisedReads(n: nat, minSamples: int, raw: real, peak: real)
    requires raw >= 0.0 && peak >= 0.0
    ensures ReadScoreMeans(n, minSamples, raw, peak, if n < minSamples then 0.0 else Normalised(raw, peak))
  {
    if peak > 0.0 {
      NormalisedClips(raw, peak);
    }
  }

  /**
   * The score of a lookup: 0 for a key that is not kept; else that of the sample by the
   * model as it stands, relative to the largest decayed raw score the key has learned.
   */
  lemma ReadScore<M(!new), F(!new)>(lib: Lib<M, F>, ops: seq<Op<F>>, key: string, x: F, minSamples: int, max: nat)
    requires NonNegative(lib) && max >= 1
    ensures var score := Output(lib, Run(lib, ops, minSamples, max), Score(key, x), minSamples);
            if key !in Newest(Touches(ops, max), max) then score == 0.0
            else
              var life := LifeOf(ops, key, max);
              var grown := Grown(lib, key, life, minSamples);
              && DecayedMaximum(lib, Created(lib, key, life.category), life.xs, minSamples, grown.peak)
              && ReadScoreMeans(|life.xs|, minSamples, lib.score(grown.trees, x), grown.peak, score)
  {
    TrueLru(lib, ops, minSamples, max);
    if key in Newest(Touches(ops, max), max) {
      var life := LifeOf(ops, key, max);
      var m, grown := Created(lib, key, life.category), Grown(lib, key, life, minSamples);
      ModelIsItsLife(lib, ops, key, minSamples, max);
      PeakIsDecayedMaximum(lib, m, life.xs, minSamples);
      CountIsLength(lib, m, life.xs, minSamples);
      NormalisedReads(|life.xs|, minSamples, lib.score(grown.trees, x), grown.peak);
    }
  }

  /** A peak outlasts later raw scores of at most `r` exactly as long as its own decayed value exceeds `r`. */
  lemma {:induction false} OutlierFades<M(!new), F(!new)>(lib: Lib<M, F>, m: Model<M>, xs: seq<F>, minSamples: int, r: real)
    requires NonNegative(lib) && m.peak >= 0.0 && m.count + 1 >= minSamples && r >= 0.0
    requires forall j | 0 <= j < |xs| :: RawAt(lib, m, xs, minSamples, j) <= r
    ensures var peak := TaughtAll(lib, m, xs, minSamples).peak;
            && Faded(m.peak, |xs|) <= peak <= RealMax(Faded(m.peak, |xs|), r)
            && (peak > r <==> Faded(m.peak, |xs|) > r)
  {
    if xs != [] {
      var n := |xs| - 1;
      var earlier := xs[..n];
      forall j | 0 <= j < n ensures RawAt(lib, m, earlier, minSamples, j) <= r {
        assert earlier[..j] == xs[..j];
        assert RawAt(lib, m, xs, minSamples, j) <= r;
      }
      OutlierFades(lib, m, earlier, minSamples, r);
      CountIsLength(lib, m, earlier, minSamples);
      assert RawAt(lib, m, xs, minSamples, n) <= r;
    }
  }

  // Checkpoints

  /** What a checkpoint holds of the detector: its two limits and its states, oldest first. */
  datatype Payload<M> = Payload(minSamples: int, maxModels: int, states: seq<(string, Model<M>)>)

  ghost function Items<M>(s: State<M>): seq<(string, Model<M>)>
    requires forall k | k in s.order :: k in s.cache
  {
    seq(|s.order|, i requires 0 <= i < |s.order| => (s.order[i], s.cache[s.order[i]]))
  }

  /** A fresh store into which `states` were put one by one. */
  function Refilled<M>(states: seq<(string, Model<M>)>, max: int): State<M> {
    if states == [] then State([], map[])
    else Kept(Refilled(states[..|states| - 1], max), states[|states| - 1].0, states[|states| - 1].1, max)
  }

  lemma RefilledAppend<M>(states: seq<(string, Model<M>)>, i: nat, max: int)
    requires i < |states|
    ensures Refilled(states[..i+1], max) == Kept(Refilled(states[..i], max), states[i].0, states[i].1, max)
  {
    assert states[..i+1][..i] == states[..i];
  }

  /** The part of a store that its `n` oldest keys make up. */
  function FirstOf<M>(s: State<M>, n: nat): State<M>
    requires n <= |s.order|
  {
    State(s.order[..n], map k | k in s.order[..n] && k in s.cache :: s.cache[k])
  }

  lemma {:induction false} RefilledPrefix<M>(s: State<M>, n: nat, max: int)
    requires Consistent(s, max) && n <= |s.order|
    ensures Refilled(Items(s)[..n], max) == FirstOf(s, n)
  {
    if n > 0 {
      RefilledPrefix(s, n - 1, max);
      assert Items(s)[..n][..n-1] == Items(s)[..n-1];
      RefilledStep(s, n - 1, max);
    }
  }

  lemma RefilledStep<M>(s: State<M>, n: nat, max: int)
    requires Consistent(s, max) && n < |s.order|
    ensures Kept(FirstOf(s, n), s.order[n], s.cache[s.order[n]], max) == FirstOf(s, n + 1)
  {
    var key, earlier := s.order[n], s.order[..n];
    assert s.order[..n+1] == earlier + [key];
    assert key !in earlier;
    FirstConsistent(s, n, max);
    KeptNew(FirstOf(s, n), key, s.cache[key], max);
  }

  lemma FirstConsistent<M>(s: State<M>, n: nat, max: int)
    requires Consistent(s, max) && n <= |s.order|
    ensures Consistent(FirstOf(s, n), max)
  {
  }

  /** Loading what was saved restores the same keys, in the same order, with the same states. */
  lemma LoadRestores<M>(s: State<M>, max: int)
    requires Consistent(s, max)
    ensures Refilled(Items(s), max) == s
  {
    RefilledPrefix(s, |s.order|, max);
    assert Items(s)[..|s.order|] == Items(s);
    assert s.order[..|s.order|] == s.order;
  }
}

/** The LRU store and the detector as objects. */
module AnomalyImpl {
  import opened Common
  import opened LruSpec
  import opened AnomalySpec

  /** An insertion-ordered dictionary of at most `maxsize` entries. */
  class LruStore<!M> {
    const maxsize: int
    var order: seq<string>
    var cache: map<string, Model<M>>

    ghost predicate Valid()
      reads this
    {
      maxsize >= 1 && Consistent(Contents(), maxsize)
    }

    ghost function Contents(): State<M>
      reads this
    {
      State(order, cache)
    }

    constructor (maxsize: int)
      requires maxsize >= 1
      ensures Valid() && Contents() == State([], map[]) && this.maxsize == maxsize
    {
      this.maxsize := maxsize;
      order := [];
      cache := map[];
    }

    method Get(key: string) returns (r: Option<Model<M>>)
      requires Valid()
      modifies this
      ensures Valid()
      ensures key !in old(cache) ==> r == None && Contents() == old(Contents())
      ensures key in old(cache) ==>
                r == Some(old(cache)[key]) && Contents() == Kept(old(Contents()), key, old(cache)[key], maxsize)
    {
      if key !in cache {
        return None;
      }
      KeptHit(Contents(), key, cache[key], maxsize);
      KeptConsistent(Contents(), key, cache[key], maxsize);
      order := Without(order, key) + [key];
      assert cache == cache[key := cache[key]];
      return Some(cache[key]);
    }

    method Put(key: string, m: Model<M>)
      requires Valid()
      modifies this
      ensures Valid() && Contents() == Kept(old(Contents()), key, m, maxsize)
    {
      ghost var before := Contents();
      KeptConsistent(before, key, m, maxsize);
      if key in cache {
        KeptHit(before, key, m, maxsize);
        order := Without(order, key) + [key];
      } else if |order| >= maxsize {
        KeptEvicts(before, key, m, maxsize);
        cache := cache - {order[0]};
        order := order[1..] + [key];
      } else {
        KeptNew(before, key, m, maxsize);
        order := order + [key];
      }
      cache := cache[key := m];
    }
  }

  class EntityAnomalyDetector<!M, !F> {
    const lib: Lib<M, F>
    const minSamples: int
    const store: LruStore<M>

    ghost predicate Valid()
      reads this, store
    {
      store.Valid()
    }

    constructor (lib: Lib<M, F>, minSamples: int, maxModels: int)
      requires maxModels >= 1
      ensures Valid() && fresh(store) && store.Contents() == State([], map[])
      ensures this.lib == lib && this.minSamples == minSamples && store.maxsize == maxModels
    {
      this.lib := lib;
      this.minSamples := minSamples;
      store := new LruStore(maxModels);
    }

    method GetOrCreate(key: string, category: string) returns (m: Model<M>)
      requires Valid()
      modifies store
      ensures Valid() && m == Stored(lib, old(store.Contents()), key, category)
      ensures store.Contents() == Kept(old(store.Contents()), key, m, store.maxsize)
    {
      var found := store.Get(key);
      if found.Some? {
        return found.value;
      }
      m := Created(lib, key, category);
      store.Put(key, m);
    }

    method LearnAndScore(host: string, category: string, x: F) returns (score: real)
      requires Valid()
      modifies store
      ensures Valid()
      ensures store.Contents()
           == Apply(lib, old(store.Contents()), Learn(host, category, x), minSamples, store.maxsize)
      ensures score == Output(lib, old(store.Contents()), Learn(host, category, x), minSamples)
    {
      ghost var before := store.Contents();
      var key := KeyOf(host, category);
      var m := GetOrCreate(key, category);
      KeptAgain(before, key, m, Taught(lib, m, x, minSamples), store.maxsize);
      KeptConsistent(before, key, Taught(lib, m, x, minSamples), store.maxsize);
      var raw := lib.score(m.trees, x);
      m := m.(trees := lib.learn(m.trees, x), count := m.count + 1);
      if m.count < minSamples {
        score := 0.0;
      } else {
        m := m.(peak := RealMax(Decayed(m.peak), raw));
        score := Normalised(raw, m.peak);
      }
      store.cache := store.cache[key := m];
    }

    method ScoreOnly(key: string, x: F) returns (score: real)
      requires Valid()
      modifies store
      ensures Valid()
      ensures store.Contents() == Apply(lib, old(store.Contents()), Score(key, x), minSamples, store.maxsize)
      ensures score == Output(lib, old(store.Contents()), Score(key, x), minSamples)
    {
      var found := store.Get(key);
      if found == None || found.value.count < minSamples {
        return 0.0;
      }
      score := Normalised(lib.score(found.value.trees, x), found.value.peak);
    }

    method Save() returns (p: Payload<M>)
      requires Valid()
      ensures p == Payload(minSamples, store.maxsize, Items(store.Contents()))
    {
      var states: seq<(string, Model<M>)> := [];
      var i := 0;
      while i < |store.order|
        invariant 0 <= i <= |store.order|
        invariant states == Items(store.Contents())[..i]
      {
        states := states + [(store.order[i], store.cache[store.order[i]])];
        i := i + 1;
      }
      p := Payload(minSamples, store.maxsize, states);
    }

    static method Load(lib: Lib<M, F>, p: Payload<M>) returns (d: EntityAnomalyDetector<M, F>)
      requires p.maxModels >= 1
      ensures fresh(d) && fresh(d.store) && d.Valid()
      ensures d.lib == lib && d.minSamples == p.minSamples && d.store.maxsize == p.maxModels
      ensures d.store.Contents() == Refilled(p.states, p.maxModels)
    {
      d := new EntityAnomalyDetector(lib, p.minSamples, p.maxModels);
      var i := 0;
      while i < |p.states|
        invariant 0 <= i <= |p.states| && d.Valid() && fresh(d) && fresh(d.store)
        invariant d.lib == lib && d.minSamples == p.minSamples && d.store.maxsize == p.maxModels
        invariant d.store.Contents() == Refilled(p.states[..i], p.maxModels)
      {
        d.store.Put(p.states[i].0, p.states[i].1);
        RefilledAppend(p.states, i, p.maxModels);
        i := i + 1;
      }
      assert p.states[..i] == p.states;
    }
  }
}
