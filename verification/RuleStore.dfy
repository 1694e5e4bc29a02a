/**
 * The rule store: the current and previous rule set in memory and in two files,
 * with updates, rollbacks and crashes between (or during) the file writes.
 */
module RuleStoreSpec {
  import opened Common
  import opened Rules

  /** The two files: a rule set that parses, or nothing that does. */
  datatype Disk = Disk(current: Option<RuleSet>, previous: Option<RuleSet>)

  datatype State = State(current: Option<RuleSet>, previous: Option<RuleSet>, version: int, disk: Disk)

  const EMPTY: State := State(None, None, 0, Disk(None, None))

  /** Opening the store reads both files back. */
  function Opened(disk: Disk): State {
    State(disk.current, disk.previous, if disk.current.Some? then disk.current.value.version else 0, disk)
  }

  predicate Accepts(s: State, rs: RuleSet) {
    s.current.None? || rs.version > s.current.value.version
  }

  /** What becomes of one file write: nothing, a torn file that no longer parses, or the whole set. */
  datatype Write = Untouched | Torn | Complete

  function Written(before: Option<RuleSet>, after: Option<RuleSet>, w: Write): Option<RuleSet> {
    match w
    case Untouched => before
    case Torn => None
    case Complete => after
  }

  /**
   * An accepted update: the current set becomes the previous one, on disk (`first`)
   * before the new one is written (`second`). A write that fails is only logged.
   */
  function UpdatedWith(s: State, rs: RuleSet, first: Write, second: Write): State {
    State(Some(rs), if s.current.Some? then s.current else s.previous, rs.version,
          Disk(Written(s.disk.current, Some(rs), second),
               if s.current.Some? then Written(s.disk.previous, s.current, first) else s.disk.previous))
  }

  function AfterUpdate(s: State, rs: RuleSet): State {
    if Accepts(s, rs) then UpdatedWith(s, rs, Complete, Complete) else s
  }

  /** Rollback writes the current file only; the previous file stays. */
  function RolledBackWith(s: State, w: Write): State {
    if s.previous.None? then s
    else State(s.previous, None, s.previous.value.version, s.disk.(current := Written(s.disk.current, s.previous, w)))
  }

  function RolledBack(s: State): State {
    RolledBackWith(s, Complete)
  }

  // Runs

  /** The calls, with what becomes of their writes; `crashed` tells that the agent then restarts from the files. */
  datatype Op =
    | Update(rs: RuleSet, first: Write, second: Write, crashed: bool)
    | Rollback(write: Write, crashed: bool)
    | Restart

  function Reopened(s: State, crashed: bool): State {
    if crashed then Opened(s.disk) else s
  }

  function Apply(s: State, op: Op): State {
    match op
    case Update(rs, first, second, crashed) => Reopened(if Accepts(s, rs) then UpdatedWith(s, rs, first, second) else s, crashed)
    case Rollback(w, crashed) => Reopened(RolledBackWith(s, w), crashed)
    case Restart => Opened(s.disk)
  }

  function Run(ops: seq<Op>, n: nat): State
    requires n <= |ops|
  {
    if n == 0 then EMPTY else Apply(Run(ops, n - 1), ops[n-1])
  }

  /** No file is torn, every call that returns has written its files, and a crash falls between two writes. */
  predicate Atomic(op: Op) {
    match op
    case Update(_, first, second, crashed) =>
      if crashed then !first.Torn? && !second.Torn? && (first.Complete? || second.Untouched?)
      else first.Complete? && second.Complete?
    case Rollback(w, crashed) => if crashed then !w.Torn? else w.Complete?
    case Restart => true
  }

  function VersionOf(rs: Option<RuleSet>, default: int): int {
    if rs.Some? then rs.value.version else default
  }

  /** `previous` is no newer than `current`. */
  predicate NoNewer(previous: Option<RuleSet>, current: Option<RuleSet>) {
    previous.Some? ==> current.Some? && previous.value.version <= current.value.version
  }

  /** A previous set is never newer than the current one, in memory or on disk. */
  predicate VersionsOrdered(s: State) {
    NoNewer(s.previous, s.current) && NoNewer(s.disk.previous, s.disk.current)
  }

  /** Versions are ordered, and memory agrees with the files. */
  predicate Consistent(s: State) {
    && VersionsOrdered(s)
    && s.current == s.disk.current
    && (s.previous.Some? ==> s.previous == s.disk.previous)
    && s.version == VersionOf(s.current, 0)
  }

  /** Updates, rollbacks, restarts and clean crashes keep the store consistent, from an empty directory on. */
  lemma {:induction false} AlwaysConsistent(ops: seq<Op>, n: nat)
    requires n <= |ops| && forall i | 0 <= i < n :: Atomic(ops[i])
    ensures Consistent(Run(ops, n))
  {
    if n > 0 {
      AlwaysConsistent(ops, n - 1);
      assert Atomic(ops[n-1]);
    }
  }

  // Writes that fail

  /**
   * The outcomes of an accepted update that keep the files in order: the new set gets
   * written, or there was nothing to shift to the previous file, or the shift did not
   * leave a set there that is newer than the one in the current file.
   */
  predicate SafeUpdate(s: State, first: Write, second: Write) {
    || s.current.None? || second.Complete?
    || (match first
        case Untouched => second.Untouched? || s.disk.previous.None?
        case Torn => true
        case Complete =>
          second.Untouched? && s.disk.current.Some? && s.current.value.version <= s.disk.current.value.version)
  }

  predicate Safe(s: State, op: Op) {
    match op
    case Update(rs, first, second, _) => Accepts(s, rs) ==> SafeUpdate(s, first, second)
    case Rollback(w, _) => s.previous.Some? && w.Torn? ==> s.disk.previous.None?
    case Restart => true
  }

  /** What holds besides: the previous file is behind everything that memory holds. */
  predicate FilesBehind(s: State) {
    && NoNewer(s.disk.previous, s.current)
    && (s.previous.Some? ==> NoNewer(s.disk.previous, s.previous))
    && (s.current.None? ==> s.disk.current.None?)
  }

  /** One call keeps the versions ordered, whatever its writes do, exactly when it is safe. */
  lemma SafeExactly(s: State, op: Op)
    requires VersionsOrdered(s) && FilesBehind(s)
    ensures VersionsOrdered(Apply(s, op)) <==> Safe(s, op)
    ensures VersionsOrdered(Apply(s, op)) ==> FilesBehind(Apply(s, op))
  {
  }

  ghost predicate OrderedAt(ops: seq<Op>, n: nat) {
    n <= |ops| ==> VersionsOrdered(Run(ops, n))
  }

  ghost predicate SafeAt(ops: seq<Op>, n: nat) {
    n < |ops| ==> Safe(Run(ops, n), ops[n])
  }

  lemma {:induction false} OrderedUpTo(ops: seq<Op>, n: nat)
    requires n <= |ops|
    ensures (forall k: nat | k <= n :: OrderedAt(ops, k)) <==> (forall k: nat | k < n :: SafeAt(ops, k))
    ensures (forall k: nat | k <= n :: OrderedAt(ops, k)) ==> FilesBehind(Run(ops, n))
  {
    if n == 0 {
      assert OrderedAt(ops, 0);
    } else {
      OrderedUpTo(ops, n - 1);
      assert OrderedAt(ops, n) <==> VersionsOrdered(Run(ops, n));
      assert SafeAt(ops, n - 1) <==> Safe(Run(ops, n - 1), ops[n-1]);
      if forall k: nat | k <= n - 1 :: OrderedAt(ops, k) {
        assert OrderedAt(ops, n - 1);
        SafeExactly(Run(ops, n - 1), ops[n-1]);
      }
    }
  }

  /** From an empty directory on, versions stay ordered in memory and on disk exactly as long as every call is safe. */
  lemma OrderedExactly(ops: seq<Op>)
    ensures (forall n: nat :: OrderedAt(ops, n)) <==> (forall n: nat :: SafeAt(ops, n))
  {
    OrderedUpTo(ops, |ops|);
  }

  /** Two updates whose writes to the current file fail leave a newer set in the previous file. */
  lemma FailedWritesBreakOrder(v1: RuleSet, v2: RuleSet, v3: RuleSet)
    requires v1.version < v2.version < v3.version
    ensures var s := UpdatedWith(UpdatedWith(AfterUpdate(EMPTY, v1), v2, Complete, Untouched), v3, Complete, Untouched);
            && s.current == Some(v3)
            && Opened(s.disk).current == Some(v1) && Opened(s.disk).previous == Some(v2)
            && !VersionsOrdered(Opened(s.disk))
  {
  }

  // Accepted versions

  /** The call does not leave the store with an older current set than it found, or with none. */
  predicate VersionKept(s: State, t: State) {
    NoNewer(s.current, t.current)
  }

  /**
   * A call that goes back to the files relies on what is in the current file: the set
   * it has just written, or one no older than the set in memory.
   */
  predicate FileKeepsUp(s: State, op: Op) {
    var reopens := op.Restart? || op.crashed;
    var second := if op.Update? && Accepts(s, op.rs) then op.second else Untouched;
    reopens && s.current.Some? ==> second.Complete? || (second.Untouched? && NoNewer(s.current, s.disk.current))
  }

  /** Between rollbacks the current version falls, or is lost, exactly in a call whose current file does not keep up. */
  lemma VersionKeptExactly(s: State, op: Op)
    requires !op.Rollback?
    ensures VersionKept(s, Apply(s, op)) <==> FileKeepsUp(s, op)
    ensures op.Update? && !op.crashed && Accepts(s, op.rs) && s.current.Some? ==>
              Apply(s, op).current.value.version > s.current.value.version
  {
  }

  ghost predicate KeptAt(ops: seq<Op>, i: nat, n: nat) {
    i <= n < |ops| ==> VersionKept(Run(ops, n), Run(ops, n + 1))
  }

  ghost predicate KeepsUpAt(ops: seq<Op>, i: nat, n: nat) {
    i <= n < |ops| ==> FileKeepsUp(Run(ops, n), ops[n])
  }

  /** Over a stretch of a run without rollbacks. */
  lemma VersionsKeptExactly(ops: seq<Op>, i: nat)
    requires i <= |ops| && forall k | i <= k < |ops| :: !ops[k].Rollback?
    ensures (forall n: nat :: KeptAt(ops, i, n)) <==> (forall n: nat :: KeepsUpAt(ops, i, n))
  {
    forall n: nat | i <= n < |ops|
      ensures KeptAt(ops, i, n) <==> KeepsUpAt(ops, i, n)
    {
      VersionKeptExactly(Run(ops, n), ops[n]);
    }
  }

  /** With atomic writes the current sets between rollbacks have strictly increasing versions. */
  lemma {:induction false} StrictlyNewerBetweenRollbacks(ops: seq<Op>, i: nat, j: nat)
    requires i <= j <= |ops| && Run(ops, i).current.Some?
    requires (forall k | 0 <= k < j :: Atomic(ops[k])) && forall k | i <= k < j :: !ops[k].Rollback?
    ensures VersionKept(Run(ops, i), Run(ops, j))
    ensures Run(ops, i).current.value.version == Run(ops, j).current.value.version ==> Run(ops, i).current == Run(ops, j).current
  {
    if i < j {
      StrictlyNewerBetweenRollbacks(ops, i, j - 1);
      AlwaysConsistent(ops, j - 1);
      VersionKeptExactly(Run(ops, j - 1), ops[j-1]);
    }
  }

  /** A torn current file takes the downgrade guard with it: after it an older set than any before is accepted. */
  lemma TornWriteDowngrades(v0: RuleSet, v1: RuleSet, v2: RuleSet, v3: RuleSet)
    requires v0.version < v1.version < v2.version < v3.version
    ensures var ops := [Update(v1, Complete, Complete, false), Update(v2, Complete, Complete, false),
                        Update(v3, Complete, Torn, true), Update(v0, Complete, Complete, false)];
            && Run(ops, 4).current == Some(v0) && Run(ops, 4).previous == Some(v2)
            && !KeepsUpAt(ops, 0, 2) && !SafeAt(ops, 2)
  {
    var ops := [Update(v1, Complete, Complete, false), Update(v2, Complete, Complete, false),
                Update(v3, Complete, Torn, true), Update(v0, Complete, Complete, false)];
    assert Run(ops, 1) == State(Some(v1), None, v1.version, Disk(Some(v1), None));
    assert Run(ops, 2) == State(Some(v2), Some(v1), v2.version, Disk(Some(v2), Some(v1)));
    assert Run(ops, 3) == Opened(Disk(None, Some(v2)));
  }

  /** An accepted update followed by a rollback restores exactly the earlier set, on disk too. */
  lemma UpdateThenRollback(s: State, rs: RuleSet)
    requires Consistent(s) && Accepts(s, rs) && s.current.Some?
    ensures var t := RolledBack(AfterUpdate(s, rs));
            t.current == s.current && t.version == s.version && t.disk.current == s.disk.current && t.previous.None?
  {
  }

  /**
   * A crash during an accepted update reloads the old or the new set, unless it
   * tears the file of the current set while there was one to lose.
   */
  lemma CrashedUpdateIsOldOrNew(s: State, rs: RuleSet, first: Write, second: Write)
    requires Consistent(s) && Accepts(s, rs)
    ensures var t := Apply(s, Update(rs, first, second, true));
            (t.current == s.current || t.current == Some(rs)) <==> !(s.current.Some? && second.Torn?)
  {
  }

  /** Likewise for a rollback. */
  lemma CrashedRollbackIsOldOrNew(s: State, w: Write)
    requires Consistent(s) && s.previous.Some?
    ensures var t := Apply(s, Rollback(w, true));
            (t.current == s.current || t.current == s.previous) <==> !w.Torn?
  {
  }
}

module RuleStoreImpl {
  import opened Common
  import opened Rules
  import opened RuleStoreSpec

  class Store {
    var current: Option<RuleSet>
    var previous: Option<RuleSet>
    var version: int
    var disk: Disk

    ghost function Model(): State
      reads this
    {
      State(current, previous, version, disk)
    }

    constructor (files: Disk)
      ensures Model() == Opened(files)
    {
      disk, current, previous, version := files, None, None, 0;
      if files.current.Some? {
        current, version := files.current, files.current.value.version;
      }
      if files.previous.Some? {
        previous := files.previous;
      }
    }

    /** Replaces the current set by a verified one with a higher version; `first` and `second` tell what becomes of the two writes. */
    method UpdateRules(data: Option<RuleSet>, verified: bool, first: Write, second: Write) returns (ok: bool)
      modifies this
      ensures ok <==> data.Some? && verified && Accepts(old(Model()), data.value)
      ensures Model() == if ok then UpdatedWith(old(Model()), data.value, first, second) else old(Model())
    {
      if data.None? || !verified {
        return false;
      }
      var rs := data.value;
      if current.Some? && rs.version <= current.value.version {
        return false;
      }
      if current.Some? {
        previous := current;
        disk := disk.(previous := Written(disk.previous, previous, first));
      }
      current, version := Some(rs), rs.version;
      disk := disk.(current := Written(disk.current, current, second));
      return true;
    }

    /** Reverts to the previous set. */
    method RollbackRules(write: Write) returns (ok: bool)
      modifies this
      ensures ok <==> old(previous).Some?
      ensures Model() == RolledBackWith(old(Model()), write)
    {
      if previous.None? {
        return false;
      }
      current, previous := previous, None;
      version := current.value.version;
      disk := disk.(current := Written(disk.current, current, write));
      return true;
    }
  }
}
