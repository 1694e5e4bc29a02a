/**
 * Which events belong together, read off their payloads: what activity an event is
 * about, when two events get one key, and what becomes of a connection that both the
 * eBPF and the netlink collector report.
 */
module MergeKeys {
  import opened Common
  import opened MergerSpec
  import opened MergeOrder

  // What a payload says

  predicate Text(f: Fields, name: string, s: string) {
    name in f && f[name] == Str(s)
  }

  predicate NoText(f: Fields, name: string) {
    name in f ==> !f[name].Str? || f[name].s == ""
  }

  /** r without its fraction is n. */
  predicate WholePart(r: real, n: int) {
    if r >= 0.0 then n as real <= r < n as real + 1.0 else n as real - 1.0 < r <= n as real
  }

  /** The field gives the number n, as a number or as text. */
  predicate Number(f: Fields, name: string, n: int, lib: Lib) {
    name in f && ((f[name].Num? && WholePart(f[name].r, n)) || (f[name].Str? && lib.atoi(f[name].s) == n))
  }

  /** The field holds the address of (host, port). */
  predicate Address(f: Fields, name: string, host: string, port: int, lib: Lib) {
    name in f && f[name].Str? && f[name].s != "" && lib.splitHostPort(f[name].s) == (host, port)
  }

  /** A kernel activity that several collectors may report. */
  datatype Subject = Connection(host: string, port: int) | Process(pid: int, path: string) | File(pid: int, path: string)

  /** An eBPF connect event to (host, port). */
  predicate ConnectsTo(ev: RawEvent, host: string, port: int, lib: Lib) {
    && ev.source == "ebpf" && ev.raw.Parsed? && host != "" && port != 0
    && var f := ev.raw.fields;
       Text(f, "event_type", "connect") && Text(f, "dst_ip", host) && Number(f, "dst_port", port, lib)
  }

  /** A netlink event of a new connection whose remote end is (host, port). */
  predicate ReportsConnection(ev: RawEvent, host: string, port: int, lib: Lib) {
    && ev.source == "netlink" && ev.raw.Parsed? && host != "" && port != 0
    && Text(ev.raw.fields, "event", "new") && Address(ev.raw.fields, "remote_addr", host, port, lib)
  }

  /** An eBPF event of the given type about a process and a file. */
  predicate Touches(ev: RawEvent, evType: string, pid: int, path: string, lib: Lib) {
    && ev.source == "ebpf" && ev.raw.Parsed? && pid != 0 && path != ""
    && var f := ev.raw.fields;
       Text(f, "event_type", evType) && Number(f, "pid", pid, lib) && Text(f, "filename", path)
  }

  /** An auditd execve event; the command name stands in for a missing path. */
  predicate AuditsRun(ev: RawEvent, pid: int, path: string, lib: Lib) {
    && ev.source == "auditd" && ev.raw.Parsed? && pid != 0
    && var f := ev.raw.fields;
    && (Text(f, "syscall", "execve") || Text(f, "syscall", "59")) && Number(f, "pid", pid, lib)
    && if NoText(f, "exe") then (if path == "" then NoText(f, "comm") else Text(f, "comm", path)) else Text(f, "exe", path)
  }

  /** The event is about this activity, and takes this role in its group. */
  predicate About(ev: RawEvent, subject: Subject, role: Role, lib: Lib) {
    match subject
    case Connection(host, port) =>
      if role.Primary? then ConnectsTo(ev, host, port, lib) else role.NetlinkSecondary? && ReportsConnection(ev, host, port, lib)
    case Process(pid, path) =>
      if role.Primary? then Touches(ev, "execve", pid, path, lib) else role.AuditdSecondary? && AuditsRun(ev, pid, path, lib)
    case File(pid, path) => role.Primary? && Touches(ev, "openat", pid, path, lib)
  }

  function Parts(subject: Subject, lib: Lib): seq<string> {
    match subject
    case Connection(host, port) => ["net", host, lib.itoa(port)]
    case Process(pid, path) => ["proc", lib.itoa(pid), path]
    case File(pid, path) => ["file", lib.itoa(pid), path]
  }

  function SubjectKey(subject: Subject, lib: Lib): string {
    lib.fingerprint(Parts(subject, lib))
  }

  // Keys

  lemma WholePartUnique(r: real, m: int, n: int)
    requires WholePart(r, m) && WholePart(r, n)
    ensures m == n
  {
  }

  lemma NumberMeans(f: Fields, name: string, n: int, lib: Lib)
    requires n != 0
    ensures Number(f, name, n, lib) <==> NumField(f, name, lib) == n
  {
    if name in f && f[name].Num? {
      var r := f[name].r;
      assert WholePart(r, Truncate(r));
      if WholePart(r, n) {
        WholePartUnique(r, n, Truncate(r));
      }
    }
  }

  /** An event about an activity gets the key of that activity, whichever collector reports it. */
  lemma KeyOfSubject(ev: RawEvent, subject: Subject, role: Role, lib: Lib)
    requires About(ev, subject, role, lib)
    ensures KeyOf(ev, lib) == Some((SubjectKey(subject, lib), role))
  {
    var f := ev.raw.fields;
    match subject
    case Connection(host, port) => NumberMeans(f, "dst_port", port, lib);
    case Process(pid, path) => NumberMeans(f, "pid", pid, lib);
    case File(pid, path) => NumberMeans(f, "pid", pid, lib);
  }

  /** An event with a key is about some activity. */
  lemma SubjectOfKey(ev: RawEvent, lib: Lib) returns (subject: Subject)
    requires KeyOf(ev, lib).Some?
    ensures About(ev, subject, KeyOf(ev, lib).value.1, lib)
  {
    var f := ev.raw.fields;
    if ev.source == "netlink" {
      var (host, port) := SplitHostPort(StrField(f, "remote_addr"), lib);
      subject := Connection(host, port);
    } else if ev.source == "auditd" {
      var pid := NumField(f, "pid", lib);
      NumberMeans(f, "pid", pid, lib);
      subject := Process(pid, if StrField(f, "exe") == "" then StrField(f, "comm") else StrField(f, "exe"));
    } else if StrField(f, "event_type") == "connect" {
      var port := NumField(f, "dst_port", lib);
      NumberMeans(f, "dst_port", port, lib);
      subject := Connection(StrField(f, "dst_ip"), port);
    } else {
      var pid, path := NumField(f, "pid", lib), StrField(f, "filename");
      NumberMeans(f, "pid", pid, lib);
      subject := if StrField(f, "event_type") == "execve" then Process(pid, path) else File(pid, path);
    }
  }

  ghost predicate AboutNothing(ev: RawEvent, lib: Lib) {
    forall subject, role :: !About(ev, subject, role, lib)
  }

  /** Exactly the events about none of these activities pass through at once. */
  lemma PassesThroughExactly(s: State, ev: RawEvent, deadline: int, room: bool, lib: Lib)
    ensures KeyOf(ev, lib).None? <==> AboutNothing(ev, lib)
    ensures AboutNothing(ev, lib) ==> Ingest(s, ev, deadline, room, lib) == State(s.groups, s.out + [ev])
  {
    if KeyOf(ev, lib).Some? {
      var subject := SubjectOfKey(ev, lib);
      assert About(ev, subject, KeyOf(ev, lib).value.1, lib);
    }
    forall subject, role | About(ev, subject, role, lib)
      ensures KeyOf(ev, lib).Some?
    {
      KeyOfSubject(ev, subject, role, lib);
    }
  }

  /** The hash and the number format tell these two activities apart. */
  predicate ToldApart(a: Subject, b: Subject, lib: Lib) {
    && (SubjectKey(a, lib) == SubjectKey(b, lib) ==> Parts(a, lib) == Parts(b, lib))
    && (a.Connection? && b.Connection? && lib.itoa(a.port) == lib.itoa(b.port) ==> a.port == b.port)
    && (!a.Connection? && !b.Connection? && lib.itoa(a.pid) == lib.itoa(b.pid) ==> a.pid == b.pid)
  }

  lemma KeysApart(a: Subject, b: Subject, lib: Lib)
    requires ToldApart(a, b, lib)
    ensures SubjectKey(a, lib) == SubjectKey(b, lib) <==> a == b
  {
    if SubjectKey(a, lib) == SubjectKey(b, lib) {
      var p, q := Parts(a, lib), Parts(b, lib);
      assert p[0] == q[0] && p[1] == q[1] && p[2] == q[2];
    }
  }

  /** Two events get one key exactly when they are about one activity. */
  lemma SameKeyExactly(a: RawEvent, b: RawEvent, sa: Subject, sb: Subject, ra: Role, rb: Role, lib: Lib)
    requires About(a, sa, ra, lib) && About(b, sb, rb, lib) && ToldApart(sa, sb, lib)
    ensures KeyOf(a, lib).Some? && KeyOf(b, lib).Some?
    ensures KeyOf(a, lib).value.0 == KeyOf(b, lib).value.0 <==> sa == sb
  {
    KeyOfSubject(a, sa, ra, lib);
    KeyOfSubject(b, sb, rb, lib);
    KeysApart(sa, sb, lib);
  }

  // A connection that two collectors report

  /** Event e of the run is the one eBPF event of a connection, and no key collides with that of the connection. */
  ghost predicate OneConnect(run: seq<Arrival>, e: nat, host: string, port: int, lib: Lib) {
    && e < |run| && ConnectsTo(run[e].ev, host, port, lib)
    && (forall i | 0 <= i < |run| && i != e :: !ConnectsTo(run[i].ev, host, port, lib))
    && (forall i | 0 <= i < |run| :: Separate(run[i].ev, Connection(host, port), lib))
  }

  ghost predicate Separate(ev: RawEvent, subject: Subject, lib: Lib) {
    forall other, role | About(ev, other, role, lib) :: ToldApart(other, subject, lib)
  }

  /** Under such keys, a netlink event belongs to the connection exactly when it reports it. */
  lemma NetlinkExactly(ev: RawEvent, host: string, port: int, lib: Lib)
    requires host != "" && port != 0 && Separate(ev, Connection(host, port), lib)
    ensures IsNetlinkFor(ev, SubjectKey(Connection(host, port), lib), lib) <==> ReportsConnection(ev, host, port, lib)
    ensures HasKey(ev, SubjectKey(Connection(host, port), lib), lib) <==>
              ReportsConnection(ev, host, port, lib) || ConnectsTo(ev, host, port, lib)
  {
    var connection := Connection(host, port);
    if KeyOf(ev, lib).Some? {
      var subject := SubjectOfKey(ev, lib);
      KeyOfSubject(ev, subject, KeyOf(ev, lib).value.1, lib);
      KeysApart(subject, connection, lib);
    }
    if ReportsConnection(ev, host, port, lib) {
      KeyOfSubject(ev, connection, NetlinkSecondary, lib);
    }
    if ConnectsTo(ev, host, port, lib) {
      KeyOfSubject(ev, connection, Primary, lib);
    }
  }

  lemma OneConnectIsPrimary(run: seq<Arrival>, e: nat, host: string, port: int, lib: Lib)
    requires OneConnect(run, e, host, port, lib)
    ensures OnePrimary(run, e, SubjectKey(Connection(host, port), lib), lib)
  {
    KeyOfSubject(run[e].ev, Connection(host, port), Primary, lib);
    forall i | 0 <= i < |run| && i != e && HasKey(run[i].ev, SubjectKey(Connection(host, port), lib), lib)
      ensures IsNetlinkFor(run[i].ev, SubjectKey(Connection(host, port), lib), lib)
    {
      NetlinkExactly(run[i].ev, host, port, lib);
    }
  }

  /** The event names a local end with a host. */
  predicate NamesLocalEnd(ev: RawEvent, host: string, port: int, lib: Lib) {
    ev.raw.Parsed? && host != "" && Address(ev.raw.fields, "local_addr", host, port, lib)
  }

  ghost predicate NamesNone(ev: RawEvent, lib: Lib) {
    forall host, port :: !NamesLocalEnd(ev, host, port, lib)
  }

  /** No report of the connection in the run carries a source address of its own. */
  ghost predicate NoOwnSource(run: seq<Arrival>, host: string, port: int, lib: Lib) {
    forall i | 0 <= i < |run| && ReportsConnection(run[i].ev, host, port, lib) :: NoText(run[i].ev.raw.fields, "src_ip")
  }

  lemma LocalEndMeans(ev: RawEvent, lib: Lib)
    requires ev.raw.Parsed?
    ensures NamesNone(ev, lib) <==> LocalAddr(ev.raw.fields, lib).0 == ""
    ensures forall host, port :: NamesLocalEnd(ev, host, port, lib) ==> LocalAddr(ev.raw.fields, lib) == (host, port)
  {
    var (host, port) := LocalAddr(ev.raw.fields, lib);
    assert host != "" ==> NamesLocalEnd(ev, host, port, lib);
  }

  /** From call l on, no report of the connection names a local end. */
  ghost predicate NoneNamedFrom(run: seq<Arrival>, l: nat, host: string, port: int, lib: Lib) {
    forall i | l <= i < |run| && ReportsConnection(run[i].ev, host, port, lib) :: NamesNone(run[i].ev, lib)
  }

  ghost predicate AllSeparate(run: seq<Arrival>, host: string, port: int, lib: Lib) {
    host != "" && port != 0 && forall i | 0 <= i < |run| :: Separate(run[i].ev, Connection(host, port), lib)
  }

  /** The reports of the connection, in order. */
  lemma ReportsStep(run: seq<Arrival>, host: string, port: int, lib: Lib)
    requires run != [] && AllSeparate(run, host, port, lib)
    ensures var k, n := SubjectKey(Connection(host, port), lib), |run| - 1;
            Netlinks(run, k, lib) == Netlinks(run[..n], k, lib) + if ReportsConnection(run[n].ev, host, port, lib) then [run[n].ev] else []
  {
    NetlinkExactly(run[|run|-1].ev, host, port, lib);
  }

  /** The last local end named in the reports of the connection. */
  function LastNamed(run: seq<Arrival>, host: string, port: int, lib: Lib): Option<(string, int)> {
    LastAddr(Netlinks(run, SubjectKey(Connection(host, port), lib), lib), lib)
  }

  lemma LastNamedStep(run: seq<Arrival>, host: string, port: int, lib: Lib)
    requires run != [] && AllSeparate(run, host, port, lib)
    ensures var n := |run| - 1;
            var ev := run[n].ev;
            && (!ReportsConnection(ev, host, port, lib) || NamesNone(ev, lib) ==>
                  LastNamed(run, host, port, lib) == LastNamed(run[..n], host, port, lib))
            && (ReportsConnection(ev, host, port, lib) ==>
                  forall local, localPort | NamesLocalEnd(ev, local, localPort, lib) ::
                    LastNamed(run, host, port, lib) == Some((local, localPort)))
  {
    var k, n := SubjectKey(Connection(host, port), lib), |run| - 1;
    var before := Netlinks(run[..n], k, lib);
    ReportsStep(run, host, port, lib);
    if ReportsConnection(run[n].ev, host, port, lib) {
      LocalEndMeans(run[n].ev, lib);
      LastAddrSnoc(before, run[n].ev, lib);
    } else {
      assert Netlinks(run, k, lib) == before;
    }
  }

  lemma {:induction false} NoAddress(run: seq<Arrival>, host: string, port: int, lib: Lib)
    requires AllSeparate(run, host, port, lib) && NoneNamedFrom(run, 0, host, port, lib)
    ensures LastNamed(run, host, port, lib).None?
  {
    if run != [] {
      NoAddress(run[..|run|-1], host, port, lib);
      LastNamedStep(run, host, port, lib);
    }
  }

  lemma {:induction false} LastAddress(run: seq<Arrival>, l: nat, host: string, port: int, local: string, localPort: int, lib: Lib)
    requires AllSeparate(run, host, port, lib) && l < |run|
    requires ReportsConnection(run[l].ev, host, port, lib) && NamesLocalEnd(run[l].ev, local, localPort, lib)
    requires NoneNamedFrom(run, l + 1, host, port, lib)
    ensures LastNamed(run, host, port, lib) == Some((local, localPort))
  {
    LastNamedStep(run, host, port, lib);
    if l < |run| - 1 {
      LastAddress(run[..|run|-1], l, host, port, local, localPort, lib);
    }
  }

  /** No report in the run has an own source address, so none that opens the group does. */
  lemma {:induction false} NoOwnFirst(run: seq<Arrival>, host: string, port: int, lib: Lib)
    requires AllSeparate(run, host, port, lib) && NoOwnSource(run, host, port, lib)
    ensures !OwnAddressLasts(Netlinks(run, SubjectKey(Connection(host, port), lib), lib), lib)
    ensures var netlinks := Netlinks(run, SubjectKey(Connection(host, port), lib), lib);
            netlinks != [] ==> netlinks[0].raw.Parsed? && StrField(netlinks[0].raw.fields, "src_ip") == ""
  {
    if run != [] {
      NoOwnFirst(run[..|run|-1], host, port, lib);
      ReportsStep(run, host, port, lib);
    }
  }

  /** The connect event as it is when its group is flushed. */
  ghost predicate EndsAs(t: State, host: string, port: int, ev: RawEvent, fields: Fields, lib: Lib) {
    var k := SubjectKey(Connection(host, port), lib);
    k in t.groups && t.groups[k].primary == RawEvent("ebpf", ev.os, ev.timestamp, Parsed(fields))
  }

  /**
   * A connection reported by one eBPF event and any netlink events, in any order and among
   * anything else, ends as the eBPF event with the local end that the last report names.
   */
  lemma ConnectionMerges(s: State, run: seq<Arrival>, e: nat, l: nat, host: string, port: int, local: string, localPort: int, lib: Lib)
    requires SubjectKey(Connection(host, port), lib) !in s.groups
    requires OneConnect(run, e, host, port, lib) && NoOwnSource(run, host, port, lib) && l < |run|
    requires ReportsConnection(run[l].ev, host, port, lib) && NamesLocalEnd(run[l].ev, local, localPort, lib)
    requires NoneNamedFrom(run, l + 1, host, port, lib)
    ensures EndsAs(IngestAll(s, run, lib), host, port, run[e].ev,
                   run[e].ev.raw.fields["src_ip" := Str(local)]["src_port" := Num(localPort as real)], lib)
  {
    OneConnectIsPrimary(run, e, host, port, lib);
    MergedResult(s, run, e, SubjectKey(Connection(host, port), lib), lib);
    LastAddress(run, l, host, port, local, localPort, lib);
    NoOwnFirst(run, host, port, lib);
  }

  /** If no report names a local end, the eBPF event stays as it came. */
  lemma ConnectionUnchanged(s: State, run: seq<Arrival>, e: nat, host: string, port: int, lib: Lib)
    requires SubjectKey(Connection(host, port), lib) !in s.groups
    requires OneConnect(run, e, host, port, lib) && NoOwnSource(run, host, port, lib) && NoneNamedFrom(run, 0, host, port, lib)
    ensures EndsAs(IngestAll(s, run, lib), host, port, run[e].ev, run[e].ev.raw.fields, lib)
  {
    OneConnectIsPrimary(run, e, host, port, lib);
    MergedResult(s, run, e, SubjectKey(Connection(host, port), lib), lib);
    NoAddress(run, host, port, lib);
    NoOwnFirst(run, host, port, lib);
  }

  // A program start that two collectors report

  /** One group more than in s, that of key k, with the eBPF event; nothing emitted. */
  ghost predicate OneGroupMore(s: State, t: State, k: string, ev: RawEvent) {
    && t.out == s.out && t.groups.Keys == s.groups.Keys + {k}
    && t.groups[k].primary.source == "ebpf" && t.groups[k].primary.timestamp == ev.timestamp && t.groups[k].primary.os == ev.os
  }

  lemma TwoIngested(s: State, a: Arrival, b: Arrival, lib: Lib)
    ensures IngestAll(s, [a, b], lib) == Ingest(Ingest(s, a.ev, a.deadline, a.room, lib), b.ev, b.deadline, b.room, lib)
  {
    assert [a, b][..1] == [a] && [a][..0] == [];
    assert IngestAll(s, [a], lib) == Ingest(s, a.ev, a.deadline, a.room, lib);
  }

  /**
   * An eBPF and an auditd event about one program start make one group, in either order,
   * that holds the eBPF event; neither is emitted by itself.
   */
  lemma RunReportedTwice(s: State, ebpf: Arrival, audit: Arrival, pid: int, path: string, lib: Lib)
    requires Touches(ebpf.ev, "execve", pid, path, lib) && AuditsRun(audit.ev, pid, path, lib)
    requires SubjectKey(Process(pid, path), lib) !in s.groups
    ensures OneGroupMore(s, IngestAll(s, [ebpf, audit], lib), SubjectKey(Process(pid, path), lib), ebpf.ev)
    ensures OneGroupMore(s, IngestAll(s, [audit, ebpf], lib), SubjectKey(Process(pid, path), lib), ebpf.ev)
  {
    KeyOfSubject(ebpf.ev, Process(pid, path), Primary, lib);
    KeyOfSubject(audit.ev, Process(pid, path), AuditdSecondary, lib);
    TwoIngested(s, ebpf, audit, lib);
    TwoIngested(s, audit, ebpf, lib);
  }

  // Waiting

  /**
   * A group waits from the arrival of its primary event: a secondary event leaves its
   * deadline alone and adds one absorbed event.
   */
  lemma SecondaryJoins(s: State, a: Arrival, k: string, role: Role, lib: Lib)
    requires KeyOf(a.ev, lib) == Some((k, role)) && !role.Primary? && k in s.groups
    ensures var t := Ingest(s, a.ev, a.deadline, a.room, lib);
            && t.out == s.out && t.groups.Keys == s.groups.Keys
            && t.groups[k].deadline == s.groups[k].deadline && t.groups[k].absorbed == s.groups[k].absorbed + 1
            && t.groups[k].primary.source == s.groups[k].primary.source
            && t.groups[k].primary.timestamp == s.groups[k].primary.timestamp
  {
  }

  /** A primary event starts its group's wait anew, and an equally important one sends the old group off. */
  lemma PrimaryJoins(s: State, a: Arrival, k: string, lib: Lib)
    requires KeyOf(a.ev, lib) == Some((k, Primary))
    ensures var t := Ingest(s, a.ev, a.deadline, a.room, lib);
            && k in t.groups && t.groups[k].deadline == a.deadline && t.groups[k].primary.timestamp == a.ev.timestamp
            && t.out == if k in s.groups && s.groups[k].primary.source == "ebpf" && a.room then s.out + [s.groups[k].primary] else s.out
  {
    PrimaryIsEbpf(a.ev, lib);
  }
}
