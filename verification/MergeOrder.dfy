/**
 * The order in which overlapping events arrive: wherever the eBPF event of a key
 * falls among the netlink events of that key, its group ends with the eBPF event
 * as primary, enriched with the last usable local address. The one exception is a
 * netlink event that opens the group with a source address of its own.
 */
module MergeOrder {
  import opened Common
  import opened MergerSpec

  /** One arrival: the event, the deadline its group would get, and whether the channel has room. */
  datatype Arrival = Arrival(ev: RawEvent, deadline: int, room: bool)

  function IngestAll(s: State, run: seq<Arrival>, lib: Lib): State {
    if run == [] then s
    else
      var n := |run| - 1;
      Ingest(IngestAll(s, run[..n], lib), run[n].ev, run[n].deadline, run[n].room, lib)
  }

  predicate HasKey(ev: RawEvent, k: string, lib: Lib) {
    KeyOf(ev, lib).Some? && KeyOf(ev, lib).value.0 == k
  }

  predicate IsPrimaryFor(ev: RawEvent, k: string, lib: Lib) {
    KeyOf(ev, lib) == Some((k, Primary))
  }

  predicate IsNetlinkFor(ev: RawEvent, k: string, lib: Lib) {
    KeyOf(ev, lib) == Some((k, NetlinkSecondary))
  }

  /** The netlink events of a key, in arrival order. */
  function Netlinks(run: seq<Arrival>, k: string, lib: Lib): seq<RawEvent> {
    if run == [] then []
    else
      var n := |run| - 1;
      Netlinks(run[..n], k, lib) + if IsNetlinkFor(run[n].ev, k, lib) then [run[n].ev] else []
  }

  /** The last local address that parses to a non-empty host. */
  function LastAddr(netlinks: seq<RawEvent>, lib: Lib): Option<(string, int)> {
    if netlinks == [] then None
    else
      var n := |netlinks| - 1;
      var ev := netlinks[n];
      if ev.raw.Parsed? && LocalAddr(ev.raw.fields, lib).0 != "" then Some(LocalAddr(ev.raw.fields, lib))
      else LastAddr(netlinks[..n], lib)
  }

  function WithAddr(f: Fields, addr: Option<(string, int)>): Fields {
    if addr.None? then f else WithSource(f, addr.value.0, Num(addr.value.1 as real))
  }

  /** All events of key k in the run are netlink events, but for the primary one at position e. */
  ghost predicate OnePrimary(run: seq<Arrival>, e: nat, k: string, lib: Lib) {
    && e < |run| && IsPrimaryFor(run[e].ev, k, lib)
    && forall i | 0 <= i < |run| && i != e && HasKey(run[i].ev, k, lib) :: IsNetlinkFor(run[i].ev, k, lib)
  }

  /** The source address that a netlink event carries itself, as promotion copies it. */
  function WithOwn(f: Fields, own: Fields): Fields
    requires "src_ip" in own
  {
    var g := f["src_ip" := own["src_ip"]];
    if "src_port" in own then g["src_port" := own["src_port"]] else g
  }

  /**
   * The first netlink event carries a source address of its own, and no later one
   * has a local address that would replace it.
   */
  predicate OwnAddressLasts(netlinks: seq<RawEvent>, lib: Lib) {
    && netlinks != [] && netlinks[0].raw.Parsed? && StrField(netlinks[0].raw.fields, "src_ip") != ""
    && LastAddr(netlinks[1..], lib).None?
  }

  /** The fields of the primary event: `waited` tells whether it found a group of netlink events waiting. */
  function MergedFields(f: Fields, netlinks: seq<RawEvent>, waited: bool, lib: Lib): Fields {
    if waited && OwnAddressLasts(netlinks, lib) then WithOwn(f, netlinks[0].raw.fields)
    else WithAddr(f, LastAddr(netlinks, lib))
  }

  /** The group that netlink events alone make: the first of them with the last address of the others. */
  ghost predicate Collects(g: Group, netlinks: seq<RawEvent>, lib: Lib) {
    && netlinks != [] && netlinks[0].raw.Parsed? && g.primary.source != "ebpf"
    && g.parsed == WithAddr(netlinks[0].raw.fields, LastAddr(netlinks[1..], lib))
  }

  lemma LastAddrSnoc(netlinks: seq<RawEvent>, ev: RawEvent, lib: Lib)
    requires ev.raw.Parsed?
    ensures LastAddr(netlinks + [ev], lib) ==
              if LocalAddr(ev.raw.fields, lib).0 != "" then Some(LocalAddr(ev.raw.fields, lib)) else LastAddr(netlinks, lib)
  {
    assert (netlinks + [ev])[..|netlinks|] == netlinks;
  }

  /** The last address is that of the later events, or else that of the first. */
  lemma {:induction false} LastAddrCons(netlinks: seq<RawEvent>, lib: Lib)
    requires netlinks != []
    ensures LastAddr(netlinks, lib) ==
              if LastAddr(netlinks[1..], lib).Some? then LastAddr(netlinks[1..], lib) else LastAddr(netlinks[..1], lib)
  {
    var n := |netlinks| - 1;
    if n > 0 {
      LastAddrCons(netlinks[..n], lib);
      assert netlinks[..n][1..] == netlinks[1..][..n-1] && netlinks[..n][..1] == netlinks[..1];
      assert netlinks[1..][n-1] == netlinks[n];
    } else {
      assert netlinks[..1] == netlinks;
    }
  }

  lemma {:induction false} LastAddrUsable(netlinks: seq<RawEvent>, lib: Lib)
    ensures LastAddr(netlinks, lib).Some? ==> LastAddr(netlinks, lib).value.0 != ""
  {
    if netlinks != [] {
      LastAddrUsable(netlinks[..|netlinks|-1], lib);
    }
  }

  /** Promotion hands over what the waiting group collected. */
  lemma PromotedTakesAddr(f: Fields, g: Group, netlinks: seq<RawEvent>, lib: Lib)
    requires Collects(g, netlinks, lib)
    ensures Promoted(f, g.parsed, lib) == MergedFields(f, netlinks, true, lib)
  {
    var later := LastAddr(netlinks[1..], lib);
    LastAddrCons(netlinks, lib);
    LastAddrUsable(netlinks[1..], lib);
    LastAddrSnoc([], netlinks[0], lib);
    assert netlinks[..1] == [] + [netlinks[0]];
    if later.None? {
      assert g.parsed == netlinks[0].raw.fields;
    } else {
      assert StrField(g.parsed, "src_ip") == later.value.0;
    }
  }

  lemma CollectsMore(g: Group, netlinks: seq<RawEvent>, ev: RawEvent, deadline: int, lib: Lib)
    requires Collects(g, netlinks, lib) && ev.raw.Parsed?
    ensures Collects(Joined(g, ev, NetlinkSecondary, deadline, lib), netlinks + [ev], lib)
  {
    LastAddrSnoc(netlinks[1..], ev, lib);
    assert (netlinks + [ev])[1..] == netlinks[1..] + [ev];
  }

  lemma OtherKeyUntouched(s: State, a: Arrival, k: string, lib: Lib)
    requires !HasKey(a.ev, k, lib)
    ensures var t := Ingest(s, a.ev, a.deadline, a.room, lib);
            (k in t.groups <==> k in s.groups) && (k in s.groups ==> t.groups[k] == s.groups[k])
  {
  }

  lemma GroupAfter(s: State, a: Arrival, k: string, role: Role, lib: Lib)
    requires KeyOf(a.ev, lib) == Some((k, role))
    ensures var t := Ingest(s, a.ev, a.deadline, a.room, lib);
            && k in t.groups
            && t.groups[k] == if k !in s.groups || Replaces(s.groups[k], a.ev, role) then Fresh(a.ev, a.deadline)
                              else Joined(s.groups[k], a.ev, role, a.deadline, lib)
  {
  }

  lemma NetlinksStep(run: seq<Arrival>, k: string, lib: Lib)
    requires run != []
    ensures var n := |run| - 1;
            Netlinks(run, k, lib) == if IsNetlinkFor(run[n].ev, k, lib) then Netlinks(run[..n], k, lib) + [run[n].ev] else Netlinks(run[..n], k, lib)
  {
  }

  /** The group of key k while only netlink events of the key have arrived. */
  ghost predicate Waiting(t: State, k: string, netlinks: seq<RawEvent>, lib: Lib) {
    if netlinks == [] then k !in t.groups
    else k in t.groups && Collects(t.groups[k], netlinks, lib)
  }

  lemma WaitingStep(t: State, a: Arrival, k: string, netlinks: seq<RawEvent>, lib: Lib)
    requires Waiting(t, k, netlinks, lib) && IsNetlinkFor(a.ev, k, lib)
    ensures Waiting(Ingest(t, a.ev, a.deadline, a.room, lib), k, netlinks + [a.ev], lib)
  {
    GroupAfter(t, a, k, NetlinkSecondary, lib);
    if netlinks == [] {
      PrimaryIsEbpf(a.ev, lib);
      assert [a.ev][1..] == [];
    } else {
      CollectsMore(t.groups[k], netlinks, a.ev, a.deadline, lib);
    }
  }

  /** Before the primary event of the key arrives. */
  lemma {:induction false} BeforePrimary(s: State, run: seq<Arrival>, k: string, lib: Lib)
    requires k !in s.groups
    requires forall i | 0 <= i < |run| && HasKey(run[i].ev, k, lib) :: IsNetlinkFor(run[i].ev, k, lib)
    ensures Waiting(IngestAll(s, run, lib), k, Netlinks(run, k, lib), lib)
  {
    if run != [] {
      var n := |run| - 1;
      var t := IngestAll(s, run[..n], lib);
      BeforePrimary(s, run[..n], k, lib);
      NetlinksStep(run, k, lib);
      if IsNetlinkFor(run[n].ev, k, lib) {
        WaitingStep(t, run[n], k, Netlinks(run[..n], k, lib), lib);
      } else {
        OtherKeyUntouched(t, run[n], k, lib);
      }
    }
  }

  /** The group of key k once its primary event ev has arrived. */
  ghost predicate Merged(t: State, k: string, ev: RawEvent, parsed: Fields) {
    k in t.groups && t.groups[k].parsed == parsed && t.groups[k].primary == ev.(raw := Parsed(parsed))
  }

  lemma MergedFirst(t: State, a: Arrival, k: string, netlinks: seq<RawEvent>, lib: Lib)
    requires Waiting(t, k, netlinks, lib) && IsPrimaryFor(a.ev, k, lib)
    ensures Merged(Ingest(t, a.ev, a.deadline, a.room, lib), k, a.ev, MergedFields(a.ev.raw.fields, netlinks, netlinks != [], lib))
  {
    GroupAfter(t, a, k, Primary, lib);
    PrimaryIsEbpf(a.ev, lib);
    if netlinks != [] {
      PromotedTakesAddr(a.ev.raw.fields, t.groups[k], netlinks, lib);
    }
  }

  /** One more netlink event after the primary one. */
  lemma MergedFieldsStep(f: Fields, netlinks: seq<RawEvent>, ev: RawEvent, waited: bool, lib: Lib)
    requires ev.raw.Parsed? && (waited ==> netlinks != [])
    ensures MergedFields(f, netlinks + [ev], waited, lib) == Enriched(MergedFields(f, netlinks, waited, lib), ev.raw.fields, lib)
  {
    LastAddrSnoc(netlinks, ev, lib);
    if waited {
      LastAddrSnoc(netlinks[1..], ev, lib);
      assert (netlinks + [ev])[1..] == netlinks[1..] + [ev];
    }
  }

  lemma MergedStep(t: State, a: Arrival, k: string, ev: RawEvent, netlinks: seq<RawEvent>, waited: bool, lib: Lib)
    requires ev.raw.Parsed? && (waited ==> netlinks != []) && IsNetlinkFor(a.ev, k, lib)
    requires Merged(t, k, ev, MergedFields(ev.raw.fields, netlinks, waited, lib))
    ensures Merged(Ingest(t, a.ev, a.deadline, a.room, lib), k, ev, MergedFields(ev.raw.fields, netlinks + [a.ev], waited, lib))
  {
    GroupAfter(t, a, k, NetlinkSecondary, lib);
    MergedFieldsStep(ev.raw.fields, netlinks, a.ev, waited, lib);
  }

  lemma {:induction false} NetlinksGrow(run: seq<Arrival>, e: nat, k: string, lib: Lib)
    requires e <= |run|
    ensures Netlinks(run[..e], k, lib) != [] ==> Netlinks(run, k, lib) != []
  {
    if e < |run| {
      NetlinksGrow(run[..|run|-1], e, k, lib);
      assert run[..|run|-1][..e] == run[..e];
    } else {
      assert run[..e] == run;
    }
  }

  /** The outcome of a run with one primary event of the key. */
  ghost predicate MergedAfter(s: State, run: seq<Arrival>, e: nat, k: string, lib: Lib)
    requires OnePrimary(run, e, k, lib)
  {
    var netlinks, waited := Netlinks(run, k, lib), Netlinks(run[..e], k, lib) != [];
    Merged(IngestAll(s, run, lib), k, run[e].ev, MergedFields(run[e].ev.raw.fields, netlinks, waited, lib))
  }

  lemma MergedNext(s: State, run: seq<Arrival>, e: nat, k: string, lib: Lib)
    requires OnePrimary(run, e, k, lib) && e < |run| - 1
    requires OnePrimary(run[..|run|-1], e, k, lib) && MergedAfter(s, run[..|run|-1], e, k, lib)
    ensures MergedAfter(s, run, e, k, lib)
  {
    var n := |run| - 1;
    var t := IngestAll(s, run[..n], lib);
    NetlinksStep(run, k, lib);
    assert run[..n][..e] == run[..e];
    if IsNetlinkFor(run[n].ev, k, lib) {
      NetlinksGrow(run[..n], e, k, lib);
      MergedStep(t, run[n], k, run[e].ev, Netlinks(run[..n], k, lib), Netlinks(run[..e], k, lib) != [], lib);
    } else {
      OtherKeyUntouched(t, run[n], k, lib);
    }
  }

  /**
   * With one primary event of a key and any number of netlink events of the key,
   * interleaved with anything else, the group ends as the primary event with the last
   * local address that parses; or, if it found netlink events waiting whose first one
   * had its own source address and no later one replaces it, with that address.
   */
  lemma {:induction false} MergedResult(s: State, run: seq<Arrival>, e: nat, k: string, lib: Lib)
    requires k !in s.groups && OnePrimary(run, e, k, lib)
    ensures MergedAfter(s, run, e, k, lib)
  {
    var n := |run| - 1;
    if n == e {
      NetlinksStep(run, k, lib);
      BeforePrimary(s, run[..n], k, lib);
      MergedFirst(IngestAll(s, run[..n], lib), run[n], k, Netlinks(run[..n], k, lib), lib);
    } else {
      MergedResult(s, run[..n], e, k, lib);
      MergedNext(s, run, e, k, lib);
    }
  }

  /** Both states hold a group of key k, with the same primary event. */
  ghost predicate SameMerged(s: State, t: State, k: string) {
    k in s.groups && k in t.groups && s.groups[k].primary == t.groups[k].primary
  }

  /** Whether it matters to these netlink events that the primary event comes after the first of them. */
  predicate OrderMatters(f: Fields, netlinks: seq<RawEvent>, lib: Lib) {
    OwnAddressLasts(netlinks, lib) && WithOwn(f, netlinks[0].raw.fields) != WithAddr(f, LastAddr(netlinks, lib))
  }

  /**
   * Two runs that bring the same primary event and the same netlink events of its key,
   * in any interleaving with each other and with other events, end with the same merged
   * event, except exactly if the primary event opens the group in one of them only and
   * the first netlink event carries a lasting source address of its own.
   */
  lemma ArrivalOrderIrrelevant(s: State, a: seq<Arrival>, i: nat, t: State, b: seq<Arrival>, j: nat, k: string, lib: Lib)
    requires k !in s.groups && k !in t.groups
    requires OnePrimary(a, i, k, lib) && OnePrimary(b, j, k, lib)
    requires a[i].ev == b[j].ev && Netlinks(a, k, lib) == Netlinks(b, k, lib)
    ensures SameMerged(IngestAll(s, a, lib), IngestAll(t, b, lib), k) <==>
              (Netlinks(a[..i], k, lib) == [] <==> Netlinks(b[..j], k, lib) == [])
              || !OrderMatters(a[i].ev.raw.fields, Netlinks(a, k, lib), lib)
  {
    MergedResult(s, a, i, k, lib);
    MergedResult(t, b, j, k, lib);
  }
}
