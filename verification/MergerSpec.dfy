/**
 * Merging of events that overlapping collectors report for one kernel activity:
 * classification, and what one ingested event or one flush does to the groups.
 */
module MergerSpec {
  import opened Common

  /** A decoded JSON value. */
  datatype Json = Null | Bool(b: bool) | Num(r: real) | Str(s: string) | Arr(items: seq<Json>) | Obj(fields: map<string, Json>)

  type Fields = map<string, Json>

  /** A payload as the collector left it: none, one that does not decode, or a decoded object. */
  datatype Payload = Absent | Opaque(bytes: string) | Parsed(fields: Fields)

  datatype RawEvent = RawEvent(source: string, os: string, timestamp: int, raw: Payload)

  datatype Role = Primary | NetlinkSecondary | AuditdSecondary

  /** Library functions: the key hash, "host:port" splitting, and number formatting and parsing. */
  datatype Lib = Lib(
    fingerprint: seq<string> -> string,
    splitHostPort: string -> (string, int),
    itoa: int -> string,
    atoi: string -> int)

  const PRIORITY_HIGH := 10
  const PRIORITY_LOW := 5

  function Priority(source: string): int {
    if source == "ebpf" then PRIORITY_HIGH else PRIORITY_LOW
  }

  /** A string field, or "" when it is missing or not a string. */
  function StrField(f: Fields, name: string): string {
    if name in f && f[name].Str? then f[name].s else ""
  }

  /** Conversion of a float to an int drops the fraction. */
  function Truncate(r: real): int {
    if r >= 0.0 then r.Floor else -((-r).Floor)
  }

  /** A pid or port given as a number or as text; 0 otherwise. */
  function NumField(f: Fields, name: string, lib: Lib): int {
    if name !in f then 0
    else match f[name]
      case Num(r) => Truncate(r)
      case Str(s) => lib.atoi(s)
      case _ => 0
  }

  /** An empty address has no host; any other is split by the library. */
  function SplitHostPort(addr: string, lib: Lib): (string, int) {
    if addr == "" then ("", 0) else lib.splitHostPort(addr)
  }

  function NetKey(host: string, port: int, lib: Lib): string {
    lib.fingerprint(["net", host, lib.itoa(port)])
  }

  /** The group key and role of an event, if it can be merged. */
  function MergeKey(source: string, f: Fields, lib: Lib): Option<(string, Role)> {
    if source == "ebpf" then
      var evType := StrField(f, "event_type");
      if evType == "connect" then
        var ip, port := StrField(f, "dst_ip"), NumField(f, "dst_port", lib);
        if ip == "" || port == 0 then None else Some((NetKey(ip, port, lib), Primary))
      else if evType == "execve" || evType == "openat" then
        var pid, filename := NumField(f, "pid", lib), StrField(f, "filename");
        if pid == 0 || filename == "" then None
        else Some((lib.fingerprint([if evType == "execve" then "proc" else "file", lib.itoa(pid), filename]), Primary))
      else None
    else if source == "netlink" then
      if StrField(f, "event") != "new" then None
      else
        var (host, port) := SplitHostPort(StrField(f, "remote_addr"), lib);
        if host == "" || port == 0 then None else Some((NetKey(host, port, lib), NetlinkSecondary))
    else if source == "auditd" then
      var call, pid := StrField(f, "syscall"), NumField(f, "pid", lib);
      var exe := if StrField(f, "exe") == "" then StrField(f, "comm") else StrField(f, "exe");
      // openat records do not name the accessed file, so they pass through
      if (call != "execve" && call != "59") || pid == 0 then None
      else Some((lib.fingerprint(["proc", lib.itoa(pid), exe]), AuditdSecondary))
    else None
  }

  function KeyOf(ev: RawEvent, lib: Lib): Option<(string, Role)> {
    if ev.raw.Parsed? then MergeKey(ev.source, ev.raw.fields, lib) else None
  }

  lemma PrimaryIsEbpf(ev: RawEvent, lib: Lib)
    requires KeyOf(ev, lib).Some?
    ensures KeyOf(ev, lib).value.1.Primary? <==> ev.source == "ebpf"
  {
  }

  // Enrichment

  function LocalAddr(f: Fields, lib: Lib): (string, int) {
    SplitHostPort(StrField(f, "local_addr"), lib)
  }

  function WithSource(f: Fields, host: string, port: Json): Fields {
    f["src_ip" := Str(host)]["src_port" := port]
  }

  /** f with the local address of a netlink event, if it has one. */
  function Enriched(f: Fields, netlink: Fields, lib: Lib): Fields {
    var (host, port) := LocalAddr(netlink, lib);
    if host == "" then f else WithSource(f, host, Num(port as real))
  }

  /** The fields of a promoted event: the source address its group had collected moves over. */
  function Promoted(f: Fields, prior: Fields, lib: Lib): Fields {
    if StrField(prior, "src_ip") != "" then
      var g := f["src_ip" := prior["src_ip"]];
      if "src_port" in prior then g["src_port" := prior["src_port"]] else g
    else
      Enriched(f, prior, lib)
  }

  // Groups

  datatype Group = Group(primary: RawEvent, parsed: Fields, deadline: int, absorbed: nat)

  datatype State = State(groups: map<string, Group>, out: seq<RawEvent>)

  function Fresh(ev: RawEvent, deadline: int): Group
    requires ev.raw.Parsed?
  {
    Group(ev, ev.raw.fields, deadline, 0)
  }

  /** What an event of the same key does to its group when no new group starts. */
  function Joined(g: Group, ev: RawEvent, role: Role, deadline: int, lib: Lib): Group
    requires ev.raw.Parsed?
  {
    match role
    case NetlinkSecondary =>
      var host := LocalAddr(ev.raw.fields, lib).0;
      var parsed := Enriched(g.parsed, ev.raw.fields, lib);
      Group(if host == "" then g.primary else g.primary.(raw := Parsed(parsed)), parsed, g.deadline, g.absorbed + 1)
    case AuditdSecondary =>
      g.(absorbed := g.absorbed + 1)
    case Primary =>
      var parsed := Promoted(ev.raw.fields, g.parsed, lib);
      Group(ev.(raw := Parsed(parsed)), parsed, deadline, g.absorbed)
  }

  /** A primary no more important than the group's replaces the group; anything else joins it. */
  predicate Replaces(g: Group, ev: RawEvent, role: Role) {
    role.Primary? && Priority(g.primary.source) >= Priority(ev.source)
  }

  /**
   * One ingested event. `room` tells whether the output channel has room when a
   * group is flushed inline without blocking.
   */
  function Ingest(s: State, ev: RawEvent, deadline: int, room: bool, lib: Lib): State {
    var key := KeyOf(ev, lib);
    if key.None? then
      s.(out := s.out + [ev])
    else
      var (k, role) := key.value;
      if k !in s.groups then
        s.(groups := s.groups[k := Fresh(ev, deadline)])
      else if Replaces(s.groups[k], ev, role) then
        State(s.groups[k := Fresh(ev, deadline)], if room then s.out + [s.groups[k].primary] else s.out)
      else
        s.(groups := s.groups[k := Joined(s.groups[k], ev, role, deadline, lib)])
  }

  /** Flushes one group; `room` as above. */
  function Flush(s: State, k: string, room: bool): State
    requires k in s.groups
  {
    State(s.groups - {k}, if room then s.out + [s.groups[k].primary] else s.out)
  }
}
