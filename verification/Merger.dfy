/** Conservation of events through the merger, and the merger object itself. */
module MergerImpl {
  import opened Common
  import opened MergerSpec

  /** What became of an ingested event. */
  datatype Fate =
    | Pending(key: string)     // primary of a waiting group
    | Emitted(at: nat)         // position in the output
    | Absorbed(key: string)    // secondary event merged into a group
    | Superseded(key: string)  // primary replaced by a more important one
    | Dropped                  // flushed while the output channel was full

  /**
   * The books of a run: every event ever ingested and its fate, with the inverse
   * tables from waiting groups and output positions back to events.
   */
  datatype Books = Books(history: seq<RawEvent>, fates: seq<Fate>, pending: map<string, nat>, emitted: seq<nat>)

  const NO_BOOKS: Books := Books([], [], map[], [])

  ghost predicate SameOrigin(a: RawEvent, b: RawEvent) {
    a.source == b.source && a.timestamp == b.timestamp && a.os == b.os
  }

  ghost predicate MergeableEbpf(ev: RawEvent, lib: Lib) {
    ev.source == "ebpf" && KeyOf(ev, lib).Some?
  }

  ghost predicate FateHolds(b: Books, i: nat, lib: Lib)
    requires |b.fates| == |b.history| && i < |b.history|
  {
    match b.fates[i]
    case Pending(k) => k in b.pending && b.pending[k] == i
    case Emitted(p) => p < |b.emitted| && b.emitted[p] == i
    case Absorbed(_) => !MergeableEbpf(b.history[i], lib)
    case Superseded(_) => !MergeableEbpf(b.history[i], lib)
    case Dropped => true
  }

  ghost predicate GroupHolds(s: State, b: Books, k: string)
    requires |b.fates| == |b.history| && k in s.groups && k in b.pending
  {
    var i := b.pending[k];
    i < |b.history| && b.fates[i] == Pending(k) && SameOrigin(s.groups[k].primary, b.history[i])
  }

  ghost predicate OutputHolds(s: State, b: Books, p: nat)
    requires |b.fates| == |b.history| && p < |s.out| == |b.emitted|
  {
    var i := b.emitted[p];
    i < |b.history| && b.fates[i] == Emitted(p) && SameOrigin(s.out[p], b.history[i])
  }

  /**
   * Every ingested event has one fate, and the waiting primaries and the output
   * are in one-to-one correspondence with the pending and the emitted events.
   */
  ghost predicate Conserved(s: State, b: Books, lib: Lib) {
    && |b.fates| == |b.history|
    && b.pending.Keys == s.groups.Keys
    && |b.emitted| == |s.out|
    && (forall i | 0 <= i < |b.history| :: FateHolds(b, i, lib))
    && (forall k | k in s.groups :: GroupHolds(s, b, k))
    && (forall p | 0 <= p < |s.out| :: OutputHolds(s, b, p))
  }

  /** Files a new event under its fate. */
  function Filed(b: Books, ev: RawEvent, fate: Fate): Books {
    var i := |b.history|;
    Books(b.history + [ev], b.fates + [fate],
          if fate.Pending? then b.pending[fate.key := i] else b.pending,
          if fate.Emitted? then b.emitted + [i] else b.emitted)
  }

  /** Closes the account of the group of k: its primary leaves with a final fate. */
  function Closed(b: Books, k: string, fate: Fate): Books
    requires k in b.pending && b.pending[k] < |b.fates|
  {
    Books(b.history, b.fates[b.pending[k] := fate], b.pending - {k},
          if fate.Emitted? then b.emitted + [b.pending[k]] else b.emitted)
  }

  lemma FlushConserves(s: State, b: Books, k: string, room: bool, lib: Lib)
    requires Conserved(s, b, lib) && k in s.groups
    ensures GroupHolds(s, b, k)
    ensures Conserved(Flush(s, k, room), Closed(b, k, if room then Emitted(|s.out|) else Dropped), lib)
  {
    assert GroupHolds(s, b, k);
    var s', b' := Flush(s, k, room), Closed(b, k, if room then Emitted(|s.out|) else Dropped);
    forall i | 0 <= i < |b'.history|
      ensures FateHolds(b', i, lib)
    {
      assert FateHolds(b, i, lib);
    }
    forall x | x in s'.groups
      ensures GroupHolds(s', b', x)
    {
      assert GroupHolds(s, b, x);
    }
    forall p | 0 <= p < |s'.out|
      ensures OutputHolds(s', b', p)
    {
      assert p < |s.out| ==> OutputHolds(s, b, p);
    }
  }

  /** A promoted primary leaves its group to a more important event. */
  lemma SupersedeConserves(s: State, b: Books, k: string, lib: Lib)
    requires Conserved(s, b, lib) && k in s.groups
    requires s.groups[k].primary.source != "ebpf"
    ensures GroupHolds(s, b, k)
    ensures Conserved(s.(groups := s.groups - {k}), Closed(b, k, Superseded(k)), lib)
  {
    assert GroupHolds(s, b, k);
    var s', b' := s.(groups := s.groups - {k}), Closed(b, k, Superseded(k));
    forall i | 0 <= i < |b'.history|
      ensures FateHolds(b', i, lib)
    {
      assert FateHolds(b, i, lib);
    }
    forall x | x in s'.groups
      ensures GroupHolds(s', b', x)
    {
      assert GroupHolds(s, b, x);
    }
    forall p | 0 <= p < |s'.out|
      ensures OutputHolds(s', b', p)
    {
      assert OutputHolds(s, b, p);
    }
  }

  /** Fates other than waiting are final. */
  ghost predicate FinalStays(b: Books, c: Books) {
    && b.history <= c.history && |b.fates| == |b.history| && |c.fates| == |c.history|
    && forall i | 0 <= i < |b.fates| && !b.fates[i].Pending? :: c.fates[i] == b.fates[i]
  }

  lemma FinalStaysTransitive(a: Books, b: Books, c: Books)
    requires FinalStays(a, b) && FinalStays(b, c)
    ensures FinalStays(a, c)
  {
  }

  /** The new state bears out the fate of a new event. */
  ghost predicate Fits(s: State, s': State, ev: RawEvent, fate: Fate, lib: Lib) {
    match fate
    case Pending(k) =>
      && k !in s.groups && s'.out == s.out && s'.groups.Keys == s.groups.Keys + {k}
      && SameOrigin(s'.groups[k].primary, ev)
      && forall x | x in s.groups :: s'.groups[x] == s.groups[x]
    case Emitted(p) => p == |s.out| && s'.out == s.out + [ev] && s'.groups == s.groups
    case Absorbed(k) =>
      && !MergeableEbpf(ev, lib) && s'.out == s.out && s'.groups.Keys == s.groups.Keys
      && forall x | x in s.groups :: SameOrigin(s'.groups[x].primary, s.groups[x].primary)
    case Superseded(_) => false
    case Dropped => false
  }

  lemma FileConserves(s: State, b: Books, s': State, ev: RawEvent, fate: Fate, lib: Lib)
    requires Conserved(s, b, lib) && Fits(s, s', ev, fate, lib)
    ensures Conserved(s', Filed(b, ev, fate), lib) && FinalStays(b, Filed(b, ev, fate))
  {
    var b' := Filed(b, ev, fate);
    forall i | 0 <= i < |b'.history|
      ensures FateHolds(b', i, lib)
    {
      assert i < |b.history| ==> FateHolds(b, i, lib);
    }
    FileKeepsGroups(s, b, s', ev, fate, lib);
    forall p | 0 <= p < |s'.out|
      ensures OutputHolds(s', b', p)
    {
      assert p < |s.out| ==> OutputHolds(s, b, p);
    }
  }

  lemma FileKeepsGroups(s: State, b: Books, s': State, ev: RawEvent, fate: Fate, lib: Lib)
    requires Conserved(s, b, lib) && Fits(s, s', ev, fate, lib)
    ensures Filed(b, ev, fate).pending.Keys == s'.groups.Keys
    ensures forall x | x in s'.groups :: GroupHolds(s', Filed(b, ev, fate), x)
  {
  }

  /** The books after one ingested event. */
  ghost function Booked(s: State, b: Books, ev: RawEvent, room: bool, lib: Lib): Books
    requires Conserved(s, b, lib)
  {
    var key := KeyOf(ev, lib);
    if key.None? then Filed(b, ev, Emitted(|s.out|))
    else if key.value.0 !in s.groups then Filed(b, ev, Pending(key.value.0))
    else
      var (k, role) := key.value;
      assert GroupHolds(s, b, k);
      if Replaces(s.groups[k], ev, role) then
        Filed(Closed(b, k, if room then Emitted(|s.out|) else Dropped), ev, Pending(k))
      else if role.Primary? then Filed(Closed(b, k, Superseded(k)), ev, Pending(k))
      else Filed(b, ev, Absorbed(k))
  }

  lemma ReplaceConserves(s: State, b: Books, ev: RawEvent, k: string, deadline: int, room: bool, lib: Lib)
    requires Conserved(s, b, lib) && KeyOf(ev, lib) == Some((k, Primary)) && k in s.groups
    requires Replaces(s.groups[k], ev, Primary)
    ensures Conserved(Ingest(s, ev, deadline, room, lib), Booked(s, b, ev, room, lib), lib)
    ensures FinalStays(b, Booked(s, b, ev, room, lib))
  {
    FlushConserves(s, b, k, room, lib);
    FileConserves(Flush(s, k, room), Closed(b, k, if room then Emitted(|s.out|) else Dropped),
                  Ingest(s, ev, deadline, room, lib), ev, Pending(k), lib);
  }

  lemma PromoteConserves(s: State, b: Books, ev: RawEvent, k: string, deadline: int, room: bool, lib: Lib)
    requires Conserved(s, b, lib) && KeyOf(ev, lib) == Some((k, Primary)) && k in s.groups
    requires !Replaces(s.groups[k], ev, Primary)
    ensures Conserved(Ingest(s, ev, deadline, room, lib), Booked(s, b, ev, room, lib), lib)
    ensures FinalStays(b, Booked(s, b, ev, room, lib))
  {
    PrimaryIsEbpf(ev, lib);
    SupersedeConserves(s, b, k, lib);
    FileConserves(s.(groups := s.groups - {k}), Closed(b, k, Superseded(k)), Ingest(s, ev, deadline, room, lib), ev, Pending(k), lib);
  }

  lemma AbsorbConserves(s: State, b: Books, ev: RawEvent, k: string, deadline: int, room: bool, lib: Lib)
    requires Conserved(s, b, lib) && KeyOf(ev, lib).Some? && KeyOf(ev, lib).value.0 == k && k in s.groups
    requires !KeyOf(ev, lib).value.1.Primary? && !Replaces(s.groups[k], ev, KeyOf(ev, lib).value.1)
    ensures Conserved(Ingest(s, ev, deadline, room, lib), Booked(s, b, ev, room, lib), lib)
    ensures FinalStays(b, Booked(s, b, ev, room, lib))
  {
    PrimaryIsEbpf(ev, lib);
    FileConserves(s, b, Ingest(s, ev, deadline, room, lib), ev, Absorbed(k), lib);
  }

  lemma NewGroupConserves(s: State, b: Books, ev: RawEvent, k: string, deadline: int, room: bool, lib: Lib)
    requires Conserved(s, b, lib) && KeyOf(ev, lib).Some? && KeyOf(ev, lib).value.0 == k && k !in s.groups
    ensures Conserved(Ingest(s, ev, deadline, room, lib), Booked(s, b, ev, room, lib), lib)
    ensures FinalStays(b, Booked(s, b, ev, room, lib))
  {
    FileConserves(s, b, Ingest(s, ev, deadline, room, lib), ev, Pending(k), lib);
  }

  /**
   * One ingested event keeps the books balanced: every event ingested so far has
   * exactly one fate, and no mergeable eBPF event is absorbed or superseded.
   */
  lemma IngestConserves(s: State, b: Books, ev: RawEvent, deadline: int, room: bool, lib: Lib)
    requires Conserved(s, b, lib)
    ensures Conserved(Ingest(s, ev, deadline, room, lib), Booked(s, b, ev, room, lib), lib)
    ensures Booked(s, b, ev, room, lib).history == b.history + [ev]
    ensures FinalStays(b, Booked(s, b, ev, room, lib))
  {
    var s', key := Ingest(s, ev, deadline, room, lib), KeyOf(ev, lib);
    if key.None? {
      FileConserves(s, b, s', ev, Emitted(|s.out|), lib);
    } else if key.value.0 !in s.groups {
      NewGroupConserves(s, b, ev, key.value.0, deadline, room, lib);
    } else {
      var (k, role) := key.value;
      if Replaces(s.groups[k], ev, role) {
        ReplaceConserves(s, b, ev, k, deadline, room, lib);
      } else if role.Primary? {
        PromoteConserves(s, b, ev, k, deadline, room, lib);
      } else {
        AbsorbConserves(s, b, ev, k, deadline, room, lib);
      }
    }
  }

  class EventMerger {
    const window: int
    const lib: Lib
    var groups: map<string, Group>
    var out: seq<RawEvent>
    ghost var books: Books

    function Current(): State
      reads this
    {
      State(groups, out)
    }

    ghost predicate Valid()
      reads this
    {
      Conserved(Current(), books, lib)
    }

    constructor (window: int, lib: Lib)
      ensures Valid() && this.lib == lib && this.window == (if window <= 0 then 300_000_000 else window)
      ensures Current() == State(map[], []) && books == NO_BOOKS
    {
      this.window := if window <= 0 then 300_000_000 else window;
      this.lib := lib;
      groups := map[];
      out := [];
      books := NO_BOOKS;
    }

    /** Processes one incoming event; `room` is the state of the channel at an inline flush. */
    method IngestEvent(ev: RawEvent, now: int, room: bool)
      requires Valid()
      modifies this
      ensures Valid()
      ensures Current() == Ingest(old(Current()), ev, now + window, room, lib)
      ensures books.history == old(books).history + [ev] && FinalStays(old(books), books)
    {
      ghost var s, b := Current(), books;
      IngestConserves(s, b, ev, now + window, room, lib);
      MergeEvent(ev, now, room);
      books := Booked(s, b, ev, room, lib);
    }

    /** The fields of a promoted event. */
    static method Promote(fields: Fields, prior: Fields, lib: Lib) returns (parsed: Fields)
      ensures parsed == Promoted(fields, prior, lib)
    {
      parsed := fields;
      if "src_ip" in prior && prior["src_ip"].Str? && prior["src_ip"].s != "" {
        parsed := parsed["src_ip" := prior["src_ip"]];
        if "src_port" in prior {
          parsed := parsed["src_port" := prior["src_port"]];
        }
      } else {
        var (host, port) := LocalAddr(prior, lib);
        if host != "" {
          parsed := parsed["src_ip" := Str(host)]["src_port" := Num(port as real)];
        }
      }
    }

    method MergeEvent(ev: RawEvent, now: int, room: bool)
      modifies this`groups, this`out
      ensures Current() == Ingest(old(Current()), ev, now + window, room, lib)
    {
      if !ev.raw.Parsed? {
        out := out + [ev];
        return;
      }
      var parsed := ev.raw.fields;
      var key := MergeKey(ev.source, parsed, lib);
      if key.None? {
        out := out + [ev];
        return;
      }
      var (k, role) := key.value;
      if k !in groups {
        groups := groups[k := Group(ev, parsed, now + window, 0)];
        return;
      }
      var g := groups[k];
      match role
      case NetlinkSecondary =>
        var (host, port) := LocalAddr(parsed, lib);
        if host != "" {
          var enriched := g.parsed["src_ip" := Str(host)]["src_port" := Num(port as real)];
          g := g.(parsed := enriched, primary := g.primary.(raw := Parsed(enriched)));
        }
        groups := groups[k := g.(absorbed := g.absorbed + 1)];
      case AuditdSecondary =>
        groups := groups[k := g.(absorbed := g.absorbed + 1)];
      case Primary =>
        if Priority(g.primary.source) < Priority(ev.source) {
          parsed := Promote(parsed, g.parsed, lib);
          groups := groups[k := Group(ev.(raw := Parsed(parsed)), parsed, now + window, g.absorbed)];
        } else {
          if room {
            out := out + [g.primary];
          }
          groups := groups[k := Group(ev, parsed, now + window, 0)];
        }
    }

    /** Flushes one group; the send is lost when there is no room. */
    method FlushGroup(k: string, room: bool)
      requires Valid() && k in groups
      modifies this
      ensures Valid()
      ensures Current() == Flush(old(Current()), k, room)
      ensures k in old(books).pending && old(books).pending[k] < |old(books).fates|
      ensures books == Closed(old(books), k, if room then Emitted(|old(out)|) else Dropped)
      ensures FinalStays(old(books), books)
    {
      ghost var fate := if room then Emitted(|out|) else Dropped;
      FlushConserves(Current(), books, k, room, lib);
      books := Closed(books, k, fate);
      if room {
        out := out + [groups[k].primary];
      }
      groups := groups - {k};
    }

    /**
     * Flushes the groups in `keys`, in arbitrary order: each of their primaries
     * leaves the merger, emitted or (without room) dropped.
     */
    method FlushThese(keys: set<string>, hasRoom: string -> bool)
      requires Valid() && keys <= groups.Keys
      modifies this
      ensures Valid() && books.history == old(books).history && FinalStays(old(books), books)
      ensures groups == old(groups) - keys
      ensures old(out) <= out
      ensures Left(old(books), books, keys, hasRoom)
    {
      var rest := keys;
      ghost var done: set<string> := {};
      while rest != {}
        invariant rest !! done && rest + done == keys
        invariant Valid() && Flushed(old(Current()), old(books), done, hasRoom)
      {
        var k :| k in rest;
        FlushNext(k, hasRoom, old(Current()), old(books), done);
        rest, done := rest - {k}, done + {k};
      }
      assert done == keys;
    }

    /** The groups in `done`, and only they, have left since state s with books b. */
    ghost predicate Flushed(s: State, b: Books, done: set<string>, hasRoom: string -> bool)
      reads this
    {
      && groups == s.groups - done && s.out <= out
      && books.history == b.history && FinalStays(b, books)
      && books.pending == b.pending - done
      && Left(b, books, done, hasRoom)
    }

    method FlushNext(k: string, hasRoom: string -> bool, ghost s: State, ghost b: Books, ghost done: set<string>)
      requires Valid() && Flushed(s, b, done, hasRoom) && k in groups
      modifies this
      ensures Valid() && Flushed(s, b, done + {k}, hasRoom)
    {
      ghost var before := books;
      FlushGroup(k, hasRoom(k));
      FinalStaysTransitive(b, before, books);
      LeftGrows(b, before, books, done, k, hasRoom);
    }

    /** Emits every group whose deadline has passed; these sends wait for room. */
    method FlushExpired(now: int)
      requires Valid()
      modifies this
      ensures Valid() && books.history == old(books).history && FinalStays(old(books), books)
      ensures forall k :: k in groups <==> k in old(groups) && now <= old(groups)[k].deadline
      ensures forall k | k in groups :: groups[k] == old(groups)[k]
      ensures old(out) <= out
      ensures Left(old(books), books, (set k | k in old(groups) && now > old(groups)[k].deadline), _ => true)
    {
      FlushThese((set k | k in groups && now > groups[k].deadline), _ => true);
    }

    /** Empties the merger at shutdown; hasRoom tells, per group, whether its send finds room. */
    method FlushAll(hasRoom: string -> bool)
      requires Valid()
      modifies this
      ensures Valid() && books.history == old(books).history && FinalStays(old(books), books)
      ensures groups == map[] && old(out) <= out
      ensures Left(old(books), books, old(groups).Keys, hasRoom)
      ensures forall i | 0 <= i < |books.fates| :: !books.fates[i].Pending?
    {
      FlushThese(groups.Keys, hasRoom);
      NothingPending(Current(), books, lib);
    }
  }

  /** The events pending under `keys` in b are emitted in c, or dropped where there was no room. */
  ghost predicate Left(b: Books, c: Books, keys: set<string>, hasRoom: string -> bool) {
    forall k | k in keys && k in b.pending && b.pending[k] < |c.fates| ::
      if hasRoom(k) then c.fates[b.pending[k]].Emitted? else c.fates[b.pending[k]].Dropped?
  }

  lemma LeftGrows(a: Books, b: Books, c: Books, keys: set<string>, k: string, hasRoom: string -> bool)
    requires Left(a, b, keys, hasRoom) && FinalStays(b, c) && |c.fates| == |b.fates|
    requires k in b.pending && k in a.pending && a.pending[k] == b.pending[k] < |b.fates|
    requires if hasRoom(k) then c.fates[b.pending[k]].Emitted? else c.fates[b.pending[k]].Dropped?
    ensures Left(a, c, keys + {k}, hasRoom)
  {
  }

  lemma NothingPending(s: State, b: Books, lib: Lib)
    requires Conserved(s, b, lib) && s.groups == map[]
    ensures forall i | 0 <= i < |b.fates| :: !b.fates[i].Pending?
  {
    forall i | 0 <= i < |b.fates|
      ensures !b.fates[i].Pending?
    {
      assert FateHolds(b, i, lib);
    }
  }
}
