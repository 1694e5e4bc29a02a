/**
 * The decision journal: a hash chain over decisions, its commit and rollback,
 * and its verifier. Hash and encoding are functions of the model; the theorems
 * that need the hash to be free of collisions say on which inputs.
 */
module JournalSpec {
  import opened Common

  type Hash = string

  const GENESIS: Hash := "0000000000000000000000000000000000000000000000000000000000000000"
  const HISTORY: nat := 200

  /** The fields of a decision that its hash covers. */
  datatype Fields = Fields(
    decisionId: string, createdAt: string, decisionType: string,
    ruleScore: real, mlScore: real, tiScore: real, correlationDepth: int, finalScore: real,
    entityId: string, triggerAlertId: Option<string>, incidentChainId: Option<string>,
    policyVersion: string, explanation: string)

  /** The fields that no hash covers. */
  datatype Uncovered = Uncovered(
    decisionTypes: seq<string>, relatedEventIds: seq<string>, requiresHuman: bool, timeoutAt: Option<string>)

  datatype Decision = Decision(fields: Fields, extra: Uncovered, prevHash: Hash, hash: Hash)

  /** blake3 over text, and the sorted JSON encoding of the covered fields. */
  datatype Lib = Lib(blake3: string -> Hash, encode: Fields -> string)

  predicate IsHex(c: char) {
    '0' <= c <= '9' || 'a' <= c <= 'f'
  }

  predicate IsHash(h: Hash) {
    |h| == 64 && forall i | 0 <= i < |h| :: IsHex(h[i])
  }

  /** A hash is what the format says: 64 of the sixteen lower-case hexadecimal digits. */
  lemma HashesAre(h: Hash)
    ensures IsHash(h) <==> |h| == 64 && forall c | c in h :: c in "0123456789abcdef"
  {
    var digits := "0123456789abcdef";
    assert digits[0] == '0' && digits[1] == '1' && digits[2] == '2' && digits[3] == '3' && digits[4] == '4' && digits[5] == '5'
           && digits[6] == '6' && digits[7] == '7' && digits[8] == '8' && digits[9] == '9' && digits[10] == 'a'
           && digits[11] == 'b' && digits[12] == 'c' && digits[13] == 'd' && digits[14] == 'e' && digits[15] == 'f';
    forall c: char
      ensures IsHex(c) <==> c in digits
    {
    }
  }

  /** A digest is 64 lower-case hexadecimal digits. */
  ghost predicate WellBehaved(lib: Lib) {
    forall s: string :: IsHash(lib.blake3(s))
  }

  function Input(prev: Hash, f: Fields, lib: Lib): string {
    prev + lib.encode(f)
  }

  function HashOf(prev: Hash, f: Fields, lib: Lib): Hash {
    lib.blake3(Input(prev, f, lib))
  }

  /** No two of these decisions have one encoding. */
  ghost predicate EncodesApart(fields: set<Fields>, lib: Lib) {
    forall f, g | f in fields && g in fields && lib.encode(f) == lib.encode(g) :: f == g
  }

  /** No two of these inputs have one digest. */
  ghost predicate CollisionFree(inputs: set<string>, lib: Lib) {
    forall s, t | s in inputs && t in inputs && lib.blake3(s) == lib.blake3(t) :: s == t
  }

  /** With previous hashes of one length, an input fixes both the previous hash and the fields. */
  lemma InputFixes(p: Hash, f: Fields, q: Hash, g: Fields, lib: Lib)
    requires EncodesApart({f, g}, lib) && |p| == |q| && Input(p, f, lib) == Input(q, g, lib)
    ensures p == q && f == g
  {
    var a, b := Input(p, f, lib), Input(q, g, lib);
    assert a[..|p|] == p && b[..|q|] == q;
    assert a[|p|..] == lib.encode(f) && b[|q|..] == lib.encode(g);
  }

  // The journal

  datatype State = State(lastHash: Hash, history: seq<Hash>)

  /** A bounded deque keeps its newest entries. */
  function Pushed(history: seq<Hash>, h: Hash): seq<Hash> {
    var all := history + [h];
    if |all| > HISTORY then all[|all| - HISTORY..] else all
  }

  function Committed(s: State, f: Fields, lib: Lib): State {
    State(HashOf(s.lastHash, f, lib), Pushed(s.history, s.lastHash))
  }

  predicate RollbackAllowed(s: State, prev: Hash) {
    IsHash(prev) && (prev in s.history || prev == GENESIS)
  }

  function RolledBack(s: State, prev: Hash): State {
    s.(lastHash := prev)
  }

  /** The rollback that matches a commit is refused only for a previous hash that is not one. */
  lemma MatchingRollback(s: State, f: Fields, lib: Lib)
    ensures RollbackAllowed(Committed(s, f, lib), s.lastHash) <==> IsHash(s.lastHash)
    ensures RolledBack(Committed(s, f, lib), s.lastHash).lastHash == s.lastHash
  {
    var h := Pushed(s.history, s.lastHash);
    assert h[|h|-1] == s.lastHash;
  }

  // What a rollback can go back to

  datatype Call = Commit(fields: Fields) | Rollback(prev: Hash)

  function Called(s: State, call: Call, lib: Lib): State {
    match call
    case Commit(fields) => Committed(s, fields, lib)
    case Rollback(prev) => if RollbackAllowed(s, prev) then RolledBack(s, prev) else s
  }

  function AfterCalls(calls: seq<Call>, n: nat, seed: Hash, lib: Lib): State
    requires n <= |calls|
  {
    if n == 0 then State(seed, []) else Called(AfterCalls(calls, n - 1, seed, lib), calls[n-1], lib)
  }

  /** The hashes that the commits among the first n calls were based on, in order. */
  function Bases(calls: seq<Call>, n: nat, seed: Hash, lib: Lib): seq<Hash>
    requires n <= |calls|
  {
    if n == 0 then []
    else
      Bases(calls, n - 1, seed, lib)
      + if calls[n-1].Commit? then [AfterCalls(calls, n - 1, seed, lib).lastHash] else []
  }

  /** The history is the last 200 bases. */
  lemma {:induction false} HistoryIsBases(calls: seq<Call>, n: nat, seed: Hash, lib: Lib)
    requires n <= |calls|
    ensures var bases := Bases(calls, n, seed, lib);
            AfterCalls(calls, n, seed, lib).history == if |bases| <= 200 then bases else bases[|bases| - 200..]
  {
    if n > 0 {
      HistoryIsBases(calls, n - 1, seed, lib);
    }
  }

  /** A rollback is accepted if and only if it is to the genesis hash or to one of the last 200 bases, well-formed. */
  lemma RollbackExactly(calls: seq<Call>, n: nat, prev: Hash, seed: Hash, lib: Lib)
    requires n <= |calls|
    ensures var s, bases := AfterCalls(calls, n, seed, lib), Bases(calls, n, seed, lib);
            var accepted := IsHash(prev) && (prev == GENESIS || exists i :: |bases| - 200 <= i < |bases| && i >= 0 && bases[i] == prev);
            && (RollbackAllowed(s, prev) <==> accepted)
            && Called(s, Rollback(prev), lib) == if accepted then State(prev, s.history) else s
  {
    HistoryIsBases(calls, n, seed, lib);
  }

  // Verification

  /** What verify_chain reports of entry i: i once for a wrong link and once for a wrong hash. */
  function Marks(chain: seq<Decision>, i: nat, start: Hash, lib: Lib): seq<nat>
    requires i < |chain|
  {
    var d, prev := chain[i], PrevOf(chain, i, start);
    (if d.prevHash != prev then [i] else []) + (if d.hash != HashOf(prev, d.fields, lib) then [i] else [])
  }

  /** What it reports of the first n entries. */
  function Broken(chain: seq<Decision>, n: nat, start: Hash, lib: Lib): seq<nat>
    requires n <= |chain|
  {
    if n == 0 then [] else Broken(chain, n - 1, start, lib) + Marks(chain, n - 1, start, lib)
  }

  function PrevOf(chain: seq<Decision>, n: nat, start: Hash): Hash
    requires n <= |chain|
  {
    if n == 0 then start else chain[n-1].hash
  }

  function VerifyChain(chain: seq<Decision>, start: Hash, lib: Lib): seq<nat> {
    Broken(chain, |chain|, start, lib)
  }

  /** Entry i links to its predecessor and carries the right hash. */
  ghost predicate EntryIntact(chain: seq<Decision>, i: nat, start: Hash, lib: Lib)
    requires i < |chain|
  {
    chain[i].prevHash == PrevOf(chain, i, start) && chain[i].hash == HashOf(PrevOf(chain, i, start), chain[i].fields, lib)
  }

  ghost predicate Intact(chain: seq<Decision>, start: Hash, lib: Lib) {
    forall i | 0 <= i < |chain| :: EntryIntact(chain, i, start, lib)
  }

  ghost predicate Ascending(s: seq<nat>) {
    forall i, j | 0 <= i < j < |s| :: s[i] <= s[j]
  }

  /** The verifier reports exactly the entries that are not intact, in ascending order. */
  lemma {:induction false} BrokenExactly(chain: seq<Decision>, n: nat, start: Hash, lib: Lib)
    requires n <= |chain|
    ensures forall i: nat :: i in Broken(chain, n, start, lib) <==> i < n && !EntryIntact(chain, i, start, lib)
    ensures Ascending(Broken(chain, n, start, lib))
  {
    if n > 0 {
      BrokenExactly(chain, n - 1, start, lib);
      var b := Broken(chain, n - 1, start, lib);
      forall i | 0 <= i < |b|
        ensures b[i] < n - 1
      {
        assert b[i] in b;
      }
      forall i, j | 0 <= i < j < |Broken(chain, n, start, lib)|
        ensures Broken(chain, n, start, lib)[i] <= Broken(chain, n, start, lib)[j]
      {
        assert i < |b| ==> Broken(chain, n, start, lib)[i] == b[i];
      }
    }
  }

  lemma VerifiedIffIntact(chain: seq<Decision>, start: Hash, lib: Lib)
    ensures VerifyChain(chain, start, lib) == [] <==> Intact(chain, start, lib)
  {
    BrokenExactly(chain, |chain|, start, lib);
    var b := VerifyChain(chain, start, lib);
    if b != [] {
      assert b[0] in b;
    }
  }

  // Runs of serialised cycles

  /** One cycle of the decision worker: the decision persists, or its journal entry is rolled back. */
  datatype Cycle = Cycle(fields: Fields, extra: Uncovered, constructed: bool, persisted: bool)

  datatype World = World(journal: State, stored: seq<Decision>, refused: bool)

  function Decided(s: State, c: Cycle, lib: Lib): Decision {
    Decision(c.fields, c.extra, s.lastHash, HashOf(s.lastHash, c.fields, lib))
  }

  /** A refused rollback raises, and leaves the journal ahead of the database. */
  function AfterCycle(w: World, c: Cycle, lib: Lib): World {
    var s := Committed(w.journal, c.fields, lib);
    if c.constructed && c.persisted then World(s, w.stored + [Decided(w.journal, c, lib)], w.refused)
    else if RollbackAllowed(s, w.journal.lastHash) then World(RolledBack(s, w.journal.lastHash), w.stored, w.refused)
    else World(s, w.stored, true)
  }

  function AfterCycles(cycles: seq<Cycle>, seed: Hash, lib: Lib): World {
    if cycles == [] then World(State(seed, []), [], false)
    else AfterCycle(AfterCycles(cycles[..|cycles|-1], seed, lib), cycles[|cycles|-1], lib)
  }

  ghost predicate Verifiable(w: World, seed: Hash, lib: Lib) {
    && w.journal.lastHash == PrevOf(w.stored, |w.stored|, seed)
    && IsHash(w.journal.lastHash) && !w.refused
    && Intact(w.stored, seed, lib)
  }

  lemma CycleKeepsVerifiable(w: World, c: Cycle, seed: Hash, lib: Lib)
    requires WellBehaved(lib) && Verifiable(w, seed, lib)
    ensures Verifiable(AfterCycle(w, c, lib), seed, lib)
  {
    MatchingRollback(w.journal, c.fields, lib);
    var w' := AfterCycle(w, c, lib);
    forall i | 0 <= i < |w'.stored|
      ensures EntryIntact(w'.stored, i, seed, lib)
    {
      assert i < |w.stored| ==> EntryIntact(w.stored, i, seed, lib);
    }
  }

  /**
   * However many decisions persist or fail, the last hash is that of the last
   * persisted decision (or the seed), no matching rollback is refused, and the
   * stored chain verifies.
   */
  lemma {:induction false} SerialisedRunsVerify(cycles: seq<Cycle>, seed: Hash, lib: Lib)
    requires WellBehaved(lib) && IsHash(seed)
    ensures Verifiable(AfterCycles(cycles, seed, lib), seed, lib)
    ensures VerifyChain(AfterCycles(cycles, seed, lib).stored, seed, lib) == []
  {
    if cycles != [] {
      var n := |cycles| - 1;
      SerialisedRunsVerify(cycles[..n], seed, lib);
      CycleKeepsVerifiable(AfterCycles(cycles[..n], seed, lib), cycles[n], seed, lib);
    }
    VerifiedIffIntact(AfterCycles(cycles, seed, lib).stored, seed, lib);
  }

  /** A seed that is no hash makes the first failed cycle's rollback fail. */
  lemma BadSeedRefused(c: Cycle, seed: Hash, lib: Lib)
    requires !IsHash(seed) && !(c.constructed && c.persisted)
    ensures AfterCycles([c], seed, lib).refused
  {
  }

  // Decisions in flight together

  /** A committed decision, and whether it is stored yet. */
  datatype Entry = Entry(decision: Decision, stored: bool)

  /** `live` are the decisions committed and not rolled back, in the order of their commits. */
  datatype Flight = Flight(journal: State, live: seq<Entry>, refused: bool)

  datatype Move =
    | Begin(fields: Fields, extra: Uncovered)  // commit a decision
    | Persist(i: nat)                          // live decision i is stored
    | Undo(i: nat)                             // live decision i is not stored, and its commit rolled back

  function Moved(f: Flight, move: Move, lib: Lib): Flight {
    match move
    case Begin(fields, extra) =>
      var d := Decision(fields, extra, f.journal.lastHash, HashOf(f.journal.lastHash, fields, lib));
      Flight(Committed(f.journal, fields, lib), f.live + [Entry(d, false)], f.refused)
    case Persist(i) =>
      if i < |f.live| then f.(live := f.live[i := f.live[i].(stored := true)]) else f
    case Undo(i) =>
      if i >= |f.live| then f
      else
        var prev, rest := f.live[i].decision.prevHash, f.live[..i] + f.live[i+1..];
        if RollbackAllowed(f.journal, prev) then Flight(RolledBack(f.journal, prev), rest, f.refused)
        else Flight(f.journal, rest, true)
  }

  function DecisionsOf(live: seq<Entry>): (ds: seq<Decision>)
    ensures |ds| == |live|
    ensures forall i | 0 <= i < |live| :: ds[i] == live[i].decision
  {
    seq(|live|, i requires 0 <= i < |live| => live[i].decision)
  }

  /** The live decisions form an intact chain that ends at the last hash. */
  ghost predicate InChain(f: Flight, seed: Hash, lib: Lib) {
    Verifiable(World(f.journal, DecisionsOf(f.live), f.refused), seed, lib)
  }

  /** Only decisions still in flight are settled, and no hash is the hash it was computed from. */
  ghost predicate Possible(f: Flight, move: Move) {
    match move
    case Begin(_, _) => true
    case Persist(i) => i < |f.live| && !f.live[i].stored
    case Undo(i) => i < |f.live| && !f.live[i].stored && f.live[i].decision.hash != f.live[i].decision.prevHash
  }

  /** A rollback is of the latest live commit, whose base the journal still remembers. */
  predicate Latest(f: Flight, move: Move) {
    move.Undo? && move.i < |f.live| ==> move.i == |f.live| - 1 && RollbackAllowed(f.journal, f.live[move.i].decision.prevHash)
  }

  /** A decision is in flight from its commit, on top of the last hash, until it is stored or undone. */
  lemma MoveMeans(f: Flight, move: Move, lib: Lib)
    requires Possible(f, move)
    ensures var g := Moved(f, move, lib);
            match move
            case Begin(fields, _) =>
              && |g.live| == |f.live| + 1 && g.live[..|f.live|] == f.live && !g.live[|f.live|].stored
              && var d := g.live[|f.live|].decision;
                 d.fields == fields && d.prevHash == f.journal.lastHash && d.hash == g.journal.lastHash
            case Persist(i) =>
              && |g.live| == |f.live| && g.live[i].stored && DecisionsOf(g.live) == DecisionsOf(f.live)
              && (forall k | 0 <= k < |f.live| && k != i :: g.live[k] == f.live[k]) && g.journal == f.journal
            case Undo(i) =>
              && |g.live| == |f.live| - 1
              && (forall k | 0 <= k < |g.live| :: g.live[k] == f.live[if k < i then k else k + 1])
              && (g.refused == f.refused ==> g.journal.lastHash == f.live[i].decision.prevHash || g.journal == f.journal)
  {
  }

  /** The decisions that a reader of the database finds. */
  function StoredOf(live: seq<Entry>): seq<Decision> {
    if live == [] then []
    else
      var n := |live| - 1;
      StoredOf(live[..n]) + if live[n].stored then [live[n].decision] else []
  }

  lemma {:induction false} AllStored(live: seq<Entry>)
    requires forall i | 0 <= i < |live| :: live[i].stored
    ensures StoredOf(live) == DecisionsOf(live)
  {
    if live != [] {
      AllStored(live[..|live|-1]);
    }
  }

  lemma BeginKeepsChain(f: Flight, fields: Fields, extra: Uncovered, seed: Hash, lib: Lib)
    requires WellBehaved(lib) && InChain(f, seed, lib)
    ensures InChain(Moved(f, Begin(fields, extra), lib), seed, lib)
  {
    var ds := DecisionsOf(Moved(f, Begin(fields, extra), lib).live);
    forall i | 0 <= i < |ds|
      ensures EntryIntact(ds, i, seed, lib)
    {
      assert i < |f.live| ==> EntryIntact(DecisionsOf(f.live), i, seed, lib);
    }
  }

  lemma UndoLatest(f: Flight, seed: Hash, lib: Lib)
    requires InChain(f, seed, lib) && f.live != [] && RollbackAllowed(f.journal, f.live[|f.live|-1].decision.prevHash)
    ensures InChain(Moved(f, Undo(|f.live| - 1), lib), seed, lib)
  {
    var n := |f.live| - 1;
    var before, ds := DecisionsOf(f.live), DecisionsOf(Moved(f, Undo(n), lib).live);
    assert EntryIntact(before, n, seed, lib);
    forall i | 0 <= i < n
      ensures EntryIntact(ds, i, seed, lib)
    {
      assert EntryIntact(before, i, seed, lib);
    }
  }

  lemma UndoOther(f: Flight, i: nat, seed: Hash, lib: Lib)
    requires InChain(f, seed, lib) && Possible(f, Undo(i)) && !Latest(f, Undo(i))
    ensures !InChain(Moved(f, Undo(i), lib), seed, lib)
  {
    var before, ds := DecisionsOf(f.live), DecisionsOf(Moved(f, Undo(i), lib).live);
    if RollbackAllowed(f.journal, f.live[i].decision.prevHash) {
      assert EntryIntact(before, i, seed, lib) && EntryIntact(before, i + 1, seed, lib);
      assert ds[i].prevHash == before[i].hash && PrevOf(ds, i, seed) == PrevOf(before, i, seed);
      assert !EntryIntact(ds, i, seed, lib);
    }
  }

  /** One move keeps the live decisions in a chain exactly when it does not undo any but the latest of them. */
  lemma InChainExactly(f: Flight, move: Move, seed: Hash, lib: Lib)
    requires WellBehaved(lib) && InChain(f, seed, lib) && Possible(f, move)
    ensures InChain(Moved(f, move, lib), seed, lib) <==> Latest(f, move)
  {
    match move
    case Begin(fields, extra) => BeginKeepsChain(f, fields, extra, seed, lib);
    case Persist(i) => assert DecisionsOf(Moved(f, move, lib).live) == DecisionsOf(f.live);
    case Undo(i) =>
      if Latest(f, move) {
        UndoLatest(f, seed, lib);
      } else {
        UndoOther(f, i, seed, lib);
      }
  }

  function After(moves: seq<Move>, n: nat, seed: Hash, lib: Lib): Flight
    requires n <= |moves|
  {
    if n == 0 then Flight(State(seed, []), [], false) else Moved(After(moves, n - 1, seed, lib), moves[n-1], lib)
  }

  ghost predicate PossibleAt(moves: seq<Move>, n: nat, seed: Hash, lib: Lib) {
    n < |moves| ==> Possible(After(moves, n, seed, lib), moves[n])
  }

  ghost predicate InChainAt(moves: seq<Move>, n: nat, seed: Hash, lib: Lib) {
    n <= |moves| ==> InChain(After(moves, n, seed, lib), seed, lib)
  }

  ghost predicate LatestAt(moves: seq<Move>, n: nat, seed: Hash, lib: Lib) {
    n < |moves| ==> Latest(After(moves, n, seed, lib), moves[n])
  }

  lemma ChainStep(moves: seq<Move>, n: nat, seed: Hash, lib: Lib)
    requires WellBehaved(lib) && n < |moves| && PossibleAt(moves, n, seed, lib) && InChainAt(moves, n, seed, lib)
    ensures InChainAt(moves, n + 1, seed, lib) <==> LatestAt(moves, n, seed, lib)
  {
    InChainExactly(After(moves, n, seed, lib), moves[n], seed, lib);
  }

  ghost predicate AllPossible(moves: seq<Move>, seed: Hash, lib: Lib) {
    forall n: nat :: PossibleAt(moves, n, seed, lib)
  }

  ghost predicate AllLatest(moves: seq<Move>, seed: Hash, lib: Lib) {
    forall n: nat :: LatestAt(moves, n, seed, lib)
  }

  ghost predicate AlwaysInChain(moves: seq<Move>, seed: Hash, lib: Lib) {
    forall n: nat :: InChainAt(moves, n, seed, lib)
  }

  lemma {:induction false} LatestKeepsChain(moves: seq<Move>, n: nat, seed: Hash, lib: Lib)
    requires WellBehaved(lib) && IsHash(seed) && n <= |moves| && AllPossible(moves, seed, lib) && AllLatest(moves, seed, lib)
    ensures InChainAt(moves, n, seed, lib)
  {
    if n > 0 {
      var k := n - 1;
      LatestKeepsChain(moves, k, seed, lib);
      assert PossibleAt(moves, k, seed, lib) && LatestAt(moves, k, seed, lib);
      ChainStep(moves, k, seed, lib);
    }
  }

  /**
   * However commits, stores and rollbacks interleave, the live decisions form a chain
   * at every moment exactly when every rollback is of the latest live commit; and once
   * all of them are stored, that chain is what the verifier reads.
   */
  lemma InterleavingsVerifyExactly(moves: seq<Move>, seed: Hash, lib: Lib)
    requires WellBehaved(lib) && IsHash(seed) && AllPossible(moves, seed, lib)
    ensures AlwaysInChain(moves, seed, lib) <==> AllLatest(moves, seed, lib)
    ensures var live := After(moves, |moves|, seed, lib).live;
            AllLatest(moves, seed, lib) && (forall i | 0 <= i < |live| :: live[i].stored) ==>
              VerifyChain(StoredOf(live), seed, lib) == []
  {
    if AllLatest(moves, seed, lib) {
      forall n: nat | n <= |moves|
        ensures InChainAt(moves, n, seed, lib)
      {
        LatestKeepsChain(moves, n, seed, lib);
      }
      assert InChainAt(moves, |moves|, seed, lib);
      var live := After(moves, |moves|, seed, lib).live;
      VerifiedIffIntact(DecisionsOf(live), seed, lib);
      if forall i | 0 <= i < |live| :: live[i].stored {
        AllStored(live);
      }
    } else {
      var n: nat :| !LatestAt(moves, n, seed, lib);
      var next := n + 1;
      assert PossibleAt(moves, n, seed, lib);
      if InChainAt(moves, n, seed, lib) {
        ChainStep(moves, n, seed, lib);
        assert !InChainAt(moves, next, seed, lib);
      }
    }
  }

  // Two decisions that overlap

  /** The outcome of one of them: stored, or rolled back to its base. */
  function SettledOne(s: State, ok: bool, prev: Hash): State {
    if !ok && RollbackAllowed(s, prev) then RolledBack(s, prev) else s
  }

  predicate Refuses(s: State, ok: bool, prev: Hash) {
    !ok && !RollbackAllowed(s, prev)
  }

  /** Both a and b are committed before either is settled; `aFirst` tells which is settled first. */
  function Overlapped(w: World, a: Cycle, b: Cycle, aOk: bool, bOk: bool, aFirst: bool, lib: Lib): World {
    var base := w.journal.lastHash;
    var afterA := Committed(w.journal, a.fields, lib);
    var afterB := Committed(afterA, b.fields, lib);
    var one := if aFirst then SettledOne(afterB, aOk, base) else SettledOne(afterB, bOk, afterA.lastHash);
    var two := if aFirst then SettledOne(one, bOk, afterA.lastHash) else SettledOne(one, aOk, base);
    World(two,
          w.stored + (if aOk then [Decided(w.journal, a, lib)] else []) + (if bOk then [Decided(afterA, b, lib)] else []),
          w.refused || Refuses(afterB, aOk, base) || Refuses(afterB, bOk, afterA.lastHash))
  }

  lemma BasesRemembered(s: State, a: Fields, b: Fields, lib: Lib)
    requires WellBehaved(lib) && IsHash(s.lastHash)
    ensures var afterA := Committed(s, a, lib);
            var afterB := Committed(afterA, b, lib);
            RollbackAllowed(afterB, s.lastHash) && RollbackAllowed(afterB, afterA.lastHash)
  {
    var afterA := Committed(s, a, lib);
    var h, h' := afterA.history, Pushed(afterA.history, afterA.lastHash);
    assert h[|h|-1] == s.lastHash;
    assert h'[|h'|-1] == afterA.lastHash && h'[|h'|-2] == s.lastHash;
  }

  /**
   * Two overlapping decisions leave a verifiable journal exactly when the first to
   * commit is stored, or both fail and the second to commit is rolled back first.
   */
  lemma OverlapVerifiesExactly(w: World, a: Cycle, b: Cycle, aOk: bool, bOk: bool, aFirst: bool, seed: Hash, lib: Lib)
    requires WellBehaved(lib) && Verifiable(w, seed, lib)
    requires HashOf(w.journal.lastHash, a.fields, lib) != w.journal.lastHash
    ensures Verifiable(Overlapped(w, a, b, aOk, bOk, aFirst, lib), seed, lib) <==> aOk || (!bOk && !aFirst)
  {
    var after := Overlapped(w, a, b, aOk, bOk, aFirst, lib);
    var n := |w.stored|;
    BasesRemembered(w.journal, a.fields, b.fields, lib);
    if aOk || !bOk {
      forall i | 0 <= i < |after.stored|
        ensures EntryIntact(after.stored, i, seed, lib)
      {
        assert i < n ==> EntryIntact(w.stored, i, seed, lib);
      }
    } else {
      assert after.stored[n].prevHash == HashOf(w.journal.lastHash, a.fields, lib);
      assert PrevOf(after.stored, n, seed) == PrevOf(w.stored, n, seed);
      assert !EntryIntact(after.stored, n, seed, lib);
    }
  }

  // Tampering

  /** Entry i with other contents but the hashes it had. */
  function Edited(chain: seq<Decision>, i: nat, f: Fields, extra: Uncovered): seq<Decision>
    requires i < |chain|
  {
    chain[i := chain[i].(fields := f, extra := extra)]
  }

  /**
   * A content-only edit of one entry of an intact chain is reported, at that entry
   * alone, exactly when it touches a covered field; the other fields can change
   * unnoticed. (The two versions of the entry must not collide.)
   */
  lemma EditReported(chain: seq<Decision>, i: nat, f: Fields, extra: Uncovered, start: Hash, lib: Lib)
    requires Intact(chain, start, lib) && i < |chain| && EncodesApart({f, chain[i].fields}, lib)
    requires CollisionFree({Input(PrevOf(chain, i, start), f, lib), Input(PrevOf(chain, i, start), chain[i].fields, lib)}, lib)
    ensures VerifyChain(Edited(chain, i, f, extra), start, lib) == if f != chain[i].fields then [i] else []
  {
    var prev, g := PrevOf(chain, i, start), chain[i].fields;
    assert EntryIntact(chain, i, start, lib);
    if Input(prev, f, lib) == Input(prev, g, lib) {
      InputFixes(prev, f, prev, g, lib);
    }
    EditedBroken(chain, i, f, extra, |chain|, start, lib);
  }

  lemma {:induction false} EditedBroken(chain: seq<Decision>, i: nat, f: Fields, extra: Uncovered, n: nat, start: Hash, lib: Lib)
    requires Intact(chain, start, lib) && i < |chain| && n <= |chain|
    requires f != chain[i].fields ==> HashOf(PrevOf(chain, i, start), f, lib) != chain[i].hash
    ensures Broken(Edited(chain, i, f, extra), n, start, lib) == if i < n && f != chain[i].fields then [i] else []
  {
    if n > 0 {
      EditedBroken(chain, i, f, extra, n - 1, start, lib);
      EditedMarks(chain, i, f, extra, n - 1, start, lib);
    }
  }

  lemma EditedMarks(chain: seq<Decision>, i: nat, f: Fields, extra: Uncovered, n: nat, start: Hash, lib: Lib)
    requires Intact(chain, start, lib) && i < |chain| && n < |chain|
    requires f != chain[i].fields ==> HashOf(PrevOf(chain, i, start), f, lib) != chain[i].hash
    ensures Marks(Edited(chain, i, f, extra), n, start, lib) == if i == n && f != chain[i].fields then [i] else []
  {
    assert EntryIntact(chain, n, start, lib);
    assert PrevOf(Edited(chain, i, f, extra), n, start) == PrevOf(chain, n, start);
  }

  ghost predicate HashesLong(chain: seq<Decision>) {
    forall i | 0 <= i < |chain| :: |chain[i].hash| == 64
  }

  /** What the hash of entry i is taken of. */
  function InputAt(chain: seq<Decision>, i: nat, start: Hash, lib: Lib): string
    requires i < |chain|
  {
    Input(PrevOf(chain, i, start), chain[i].fields, lib)
  }

  /** Entry i of one chain and entry j of the other collide neither in hash nor in encoding. */
  ghost predicate Apart(a: seq<Decision>, b: seq<Decision>, i: nat, j: nat, start: Hash, lib: Lib)
    requires i < |a| && j < |b|
  {
    && EncodesApart({a[i].fields, b[j].fields}, lib)
    && CollisionFree({InputAt(a, i, start, lib), InputAt(b, j, start, lib)}, lib)
  }

  /** Two intact chains under one seed, with no collision between their entries. */
  ghost predicate Comparable(a: seq<Decision>, b: seq<Decision>, start: Hash, lib: Lib) {
    && |start| == 64 && HashesLong(a) && HashesLong(b)
    && Intact(a, start, lib) && Intact(b, start, lib)
    && forall i, j | 0 <= i < |a| && 0 <= j < |b| :: Apart(a, b, i, j, start, lib)
  }

  /** The seed is not the hash of any entry of the chain. */
  ghost predicate SeedIsFresh(chain: seq<Decision>, start: Hash) {
    forall i | 0 <= i < |chain| :: chain[i].hash != start
  }

  /** The covered contents and the hashes of two entries agree. */
  ghost predicate SameEntry(x: Decision, y: Decision) {
    x.fields == y.fields && x.prevHash == y.prevHash && x.hash == y.hash
  }

  /** Entries with one hash agree, and so do the hashes before them. */
  ghost predicate Agree(a: seq<Decision>, b: seq<Decision>, i: nat, j: nat, start: Hash)
    requires i < |a| && j < |b|
  {
    a[i].hash == b[j].hash ==> SameEntry(a[i], b[j]) && PrevOf(a, i, start) == PrevOf(b, j, start)
  }

  lemma EntriesAgree(a: seq<Decision>, b: seq<Decision>, i: nat, j: nat, start: Hash, lib: Lib)
    requires Comparable(a, b, start, lib) && i < |a| && j < |b|
    ensures Agree(a, b, i, j, start)
  {
    assert EntryIntact(a, i, start, lib) && EntryIntact(b, j, start, lib);
    assert Apart(a, b, i, j, start, lib);
    var p, q := PrevOf(a, i, start), PrevOf(b, j, start);
    if a[i].hash == b[j].hash {
      InputFixes(p, a[i].fields, q, b[j].fields, lib);
    }
  }

  /** Two chains whose entries agree do so from the end backwards, once their last hashes are equal. */
  lemma {:induction false} SameFromEnd(a: seq<Decision>, b: seq<Decision>, m: nat, n: nat, start: Hash)
    requires forall i, j | 0 <= i < |a| && 0 <= j < |b| :: Agree(a, b, i, j, start)
    requires m <= |a| && n <= |b| && PrevOf(a, m, start) == PrevOf(b, n, start)
    requires m == n || (SeedIsFresh(a, start) && SeedIsFresh(b, start))
    ensures m == n
    ensures forall i | 0 <= i < m :: SameEntry(a[i], b[i])
  {
    assert m == 0 <==> n == 0;
    if m > 0 {
      assert Agree(a, b, m - 1, n - 1, start);
      SameFromEnd(a, b, m - 1, n - 1, start);
    }
  }

  /**
   * The last hash commits to the whole history: two intact chains with the same
   * seed and last hash have the same covered contents and hashes, if they have
   * equal length or the seed is not itself the hash of an entry.
   */
  lemma LastHashCommits(a: seq<Decision>, b: seq<Decision>, start: Hash, lib: Lib)
    requires Comparable(a, b, start, lib) && PrevOf(a, |a|, start) == PrevOf(b, |b|, start)
    requires |a| == |b| || (SeedIsFresh(a, start) && SeedIsFresh(b, start))
    ensures |a| == |b|
    ensures forall i | 0 <= i < |a| :: SameEntry(a[i], b[i])
  {
    forall i, j | 0 <= i < |a| && 0 <= j < |b|
      ensures Agree(a, b, i, j, start)
    {
      EntriesAgree(a, b, i, j, start, lib);
    }
    SameFromEnd(a, b, |a|, |b|, start);
  }
}

module JournalImpl {
  import opened Common
  import opened JournalSpec

  class DecisionJournal {
    const lib: Lib
    var lastHash: Hash
    var commitHistory: seq<Hash>

    ghost function Model(): State
      reads this
    {
      State(lastHash, commitHistory)
    }

    constructor (lib: Lib, seed: Hash := GENESIS)
      ensures this.lib == lib && Model() == State(seed, [])
    {
      this.lib := lib;
      lastHash, commitHistory := seed, [];
    }

    method Commit(fields: Fields) returns (prev: Hash, newHash: Hash)
      modifies this
      ensures Model() == Committed(old(Model()), fields, lib)
      ensures prev == old(lastHash) && newHash == lastHash
    {
      prev := lastHash;
      var payload := lib.encode(fields);
      newHash := lib.blake3(prev + payload);
      lastHash := newHash;
      commitHistory := commitHistory + [prev];
      if |commitHistory| > HISTORY {
        commitHistory := commitHistory[|commitHistory| - HISTORY..];
      }
    }

    /** Reverts to prev, unless prev is malformed or was never the base of a recent commit. */
    method Rollback(prev: Hash) returns (ok: bool)
      modifies this
      ensures ok <==> RollbackAllowed(old(Model()), prev)
      ensures Model() == if ok then JournalSpec.RolledBack(old(Model()), prev) else old(Model())
    {
      if !IsHash(prev) {
        return false;
      }
      if prev !in commitHistory && prev != GENESIS {
        return false;
      }
      lastHash := prev;
      return true;
    }

    /** The leader's part of a decision, and what its caller does when it cannot be stored. */
    method DecideAndPersist(c: Cycle) returns (stored: Option<Decision>, refused: bool)
      modifies this
      ensures var w := AfterCycle(World(old(Model()), [], false), c, lib);
              && Model() == w.journal && refused == w.refused
              && w.stored == if stored.Some? then [stored.value] else []
    {
      refused := false;
      var prev, hash := Commit(c.fields);
      if !c.constructed {
        var ok := Rollback(prev);
        return None, !ok;
      }
      var decision := Decision(c.fields, c.extra, prev, hash);
      if !c.persisted {
        var ok := Rollback(decision.prevHash);
        return None, !ok;
      }
      return Some(decision), false;
    }
  }

  method Verify(decisions: seq<Decision>, start: Hash, lib: Lib) returns (broken: seq<nat>)
    ensures broken == VerifyChain(decisions, start, lib)
  {
    broken := [];
    var prev := start;
    for i := 0 to |decisions|
      invariant prev == PrevOf(decisions, i, start)
      invariant broken == Broken(decisions, i, start, lib)
    {
      var d := decisions[i];
      if d.prevHash != prev {
        broken := broken + [i];
      }
      var expected := lib.blake3(prev + lib.encode(d.fields));
      if d.hash != expected {
        broken := broken + [i];
      }
      prev := d.hash;
    }
  }
}
