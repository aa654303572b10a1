/**
 * The service centre as one dictionary: textual commands, the registry map, and addresses
 * that are printed by one side and parsed by the other.
 */
module Naming {
  import opened Text
  import opened Decimal

  const UNKNOWN_HOST := "unknown host"

  const NUL := '\0'

  /** A `std::string` built from a NUL-terminated buffer. */
  function CText(s: string): string { Before(s, NUL) }

  lemma CTextOfClean(s: string)
    requires NUL !in s
    ensures CText(s) == s
  {
    IndexOfNone(s, NUL);
  }

  /** What was received up to the first NUL. */
  lemma CTextStops(s: string, rest: string)
    requires NUL !in s
    ensures CText(s + [NUL] + rest) == s
  {
    SplitJoin(s, NUL, rest);
  }

  // ---- Addresses (net/tcp/net_addr.cc) ----

  datatype Addr = Addr(ip: string, port: nat)

  /** `ip:port`, as `toString` and the command builders write it. */
  function Join(ip: string, port: int): string { ip + ":" + Print(port) }

  predicate CheckValid(s: string) {
    var ip, port := Before(s, ':'), Behind(s, ':');
    ':' in s && ip != "" && port != "" && 0 < Atoi(port) <= 65536
  }

  /** The string constructor; the port is stored in 16 bits. */
  function ParseAddr(s: string): Addr { Addr(Before(s, ':'), Atoi(Behind(s, ':')) % 65536) }

  datatype Option<T> = None | Some(value: T)

  /** `FindAddr`: an address as such, otherwise a stub from the configuration. */
  function FindAddr(s: string, stubs: map<string, Addr>): Option<Addr> {
    if CheckValid(s) then Some(ParseAddr(s)) else if s in stubs then Some(stubs[s]) else None
  }

  /** An address as such: an ip without a colon, and something that reads as 1 to 65536. */
  ghost predicate IsAddress(s: string) {
    exists ip: string, port: string :: s == ip + [':'] + port && ':' !in ip && ip != "" && 1 <= Atoi(port) <= 65536
  }

  /** Strings of any origin: what `CheckValid` accepts, and what `FindAddr` makes of the rest. */
  lemma FindAddrIff(s: string, stubs: map<string, Addr>)
    ensures CheckValid(s) <==> IsAddress(s)
    ensures forall ip: string, port: string | s == ip + [':'] + port && ':' !in ip && ip != "" && 1 <= Atoi(port) <= 65536 ::
              FindAddr(s, stubs) == Some(Addr(ip, Atoi(port) % 65536))
    ensures !IsAddress(s) ==> FindAddr(s, stubs) == if s in stubs then Some(stubs[s]) else None
  {
    if CheckValid(s) {
      var i := IndexOf(s, ':');
      assert s[..|s|] == s;
      assert i < |s|;
      assert s == Before(s, ':') + [':'] + Behind(s, ':');
    }
    forall ip: string, port: string | s == ip + [':'] + port && ':' !in ip && ip != "" && 1 <= Atoi(port) <= 65536
      ensures CheckValid(s) && Before(s, ':') == ip && Behind(s, ':') == port
    {
      SplitJoin(ip, ':', port);
      assert s[|ip|] == ':';
    }
  }

  /**
   * A printed address passes `CheckValid` exactly for ports 1 to 65536, and comes back as the
   * same address exactly for ports 1 to 65535: the last accepted port wraps to zero.
   */
  lemma AddrRoundTrip(ip: string, port: int)
    requires ip != "" && ':' !in ip
    ensures CheckValid(Join(ip, port)) <==> 1 <= port <= 65536
    ensures ParseAddr(Join(ip, port)) == Addr(ip, port % 65536)
    ensures CheckValid(Join(ip, port)) && ParseAddr(Join(ip, port)).port == port <==> 1 <= port <= 65535
  {
    JoinSplits(ip, port, Join(ip, port));
    AtoiPrint(port);
    AddrFromParts(Join(ip, port), ip, Print(port), port);
  }

  lemma AddrFromParts(s: string, ip: string, digits: string, port: int)
    requires ':' in s && Before(s, ':') == ip != "" && Behind(s, ':') == digits != "" && Atoi(digits) == port
    ensures CheckValid(s) <==> 1 <= port <= 65536
    ensures ParseAddr(s) == Addr(ip, port % 65536)
    ensures CheckValid(s) && ParseAddr(s).port == port <==> 1 <= port <= 65535
  {
  }

  lemma JoinSplits(ip: string, port: int, s: string)
    requires ':' !in ip && s == Join(ip, port)
    ensures ':' in s && Before(s, ':') == ip && Behind(s, ':') == Print(port) && Print(port) != ""
  {
    assert s == ip + [':'] + Print(port) && s[|ip|] == ':';
    SplitJoin(ip, ':', Print(port));
  }

  // ---- Commands (run_time_service_discovery_interface.h) ----

  datatype Command =
    | AddService(name: string, ip: string, port: int)
    | ModifyService(name: string, ip: string, port: int)
    | DeleteService(name: string)
    | LookUp

  function Format(c: Command): string {
    match c
    case AddService(name, ip, port) => "add" + " " + (name + " " + Join(ip, port))
    case ModifyService(name, ip, port) => "modify" + " " + (name + " " + Join(ip, port))
    case DeleteService(name) => "delete" + " " + name
    case LookUp => "lookup"
  }

  // ---- The registry (run_server_discovery.cc) ----

  type Registry = map<string, string>

  function Updated(m: Registry, buffer: string): Registry {
    var command := CText(buffer);
    var operator, content := Before(command, ' '), Behind(command, ' ');
    if operator == "add" then m[Before(content, ' ') := Behind(content, ' ')]
    else if operator == "delete" then m - {content}
    else if operator == "modify" && Before(content, ' ') in m then m[Before(content, ' ') := Behind(content, ' ')]
    else m
  }

  /** `std::string`'s order, in which the map is traversed. */
  predicate Less(a: string, b: string) {
    b != "" && (a == "" || a[0] < b[0] || (a[0] == b[0] && Less(a[1..], b[1..])))
  }

  ghost predicate DiffersAt(a: string, b: string, k: nat) {
    k <= |a| && k < |b| && a[..k] == b[..k] && (k == |a| || a[k] < b[k])
  }

  /** A string comes first if it is a proper prefix or smaller where the two first differ. */
  lemma {:induction false} LessIff(a: string, b: string)
    ensures Less(a, b) <==> exists k: nat :: DiffersAt(a, b, k)
  {
    DiffersIff(a, b);
    if a != "" && b != "" && a[0] == b[0] {
      LessIff(a[1..], b[1..]);
    }
  }

  /** Differing at the first character, or behind a common one. */
  lemma DiffersIff(a: string, b: string)
    ensures (exists k: nat :: DiffersAt(a, b, k))
            <==> b != "" && (a == "" || a[0] < b[0] || (a[0] == b[0] && exists k: nat :: DiffersAt(a[1..], b[1..], k)))
  {
    assert DiffersAt(a, b, 0) <==> b != "" && (a == "" || a[0] < b[0]);
    forall k: nat | DiffersAt(a, b, k) && k > 0
      ensures a != "" && b != "" && a[0] == b[0] && DiffersAt(a[1..], b[1..], k - 1)
    {
      assert a[..k][0] == b[..k][0];
      assert a[1..][..k - 1] == a[..k][1..] && b[1..][..k - 1] == b[..k][1..];
    }
    if a != "" && b != "" && a[0] == b[0] {
      forall k: nat | DiffersAt(a[1..], b[1..], k) ensures DiffersAt(a, b, k + 1) {
        assert a[..k + 1] == [a[0]] + a[1..][..k] && b[..k + 1] == [b[0]] + b[1..][..k];
      }
    }
  }

  lemma {:induction false} LessTotal(a: string, b: string)
    ensures Less(a, b) || a == b || Less(b, a)
    ensures !(Less(a, b) && Less(b, a)) && !Less(a, a)
  {
    if a != "" && b != "" {
      LessTotal(a[1..], b[1..]);
      assert a == [a[0]] + a[1..] && b == [b[0]] + b[1..];
    }
    if a != "" {
      LessTotal(a[1..], a[1..]);
    }
  }

  lemma {:induction false} LessTransitive(a: string, b: string, c: string)
    requires Less(a, b) && Less(b, c)
    ensures Less(a, c)
  {
    if a != "" && a[0] == b[0] == c[0] {
      LessTransitive(a[1..], b[1..], c[1..]);
    }
  }

  ghost predicate Least(k: string, keys: set<string>) {
    k in keys && forall x | x in keys :: x == k || Less(k, x)
  }

  lemma {:induction false} LeastExists(keys: set<string>) returns (k: string)
    requires keys != {}
    ensures Least(k, keys)
    decreases |keys|
  {
    k :| k in keys;
    if keys != {k} {
      var least := LeastExists(keys - {k});
      LessTotal(k, least);
      if Less(least, k) {
        k := least;
      } else {
        forall x | x in keys && x != k ensures Less(k, x) {
          if x != least {
            LessTransitive(k, least, x);
          }
        }
      }
    }
  }

  /** `ks` are the keys in ascending order. */
  ghost predicate Ascending(ks: seq<string>, keys: set<string>)
    decreases |ks|
  {
    if ks == [] then keys == {} else Least(ks[0], keys) && Ascending(ks[1..], keys - {ks[0]})
  }

  lemma {:induction false} InOrder(keys: set<string>) returns (ks: seq<string>)
    ensures Ascending(ks, keys)
    decreases |keys|
  {
    ks := [];
    if keys != {} {
      var k := LeastExists(keys);
      var rest := InOrder(keys - {k});
      ks := [k] + rest;
      assert ks[1..] == rest;
    }
  }

  function Lines(m: Registry, ks: seq<string>): string {
    if ks == [] then "" else (if ks[0] in m then ks[0] + " " + m[ks[0]] + "\n" else "") + Lines(m, ks[1..])
  }

  lemma LinesNext(m: Registry, ks: seq<string>, back: string)
    requires ks != [] && ks[0] in m
    ensures back + Lines(m, ks) == back + (ks[0] + " " + m[ks[0]] + "\n") + Lines(m, ks[1..])
  {
  }

  /** The answer to `lookup`: one line per entry, in the order of the names. */
  ghost predicate Listing(m: Registry, text: string) {
    exists ks :: Ascending(ks, m.Keys) && text == Lines(m, ks)
  }

  /** Every entry has its line, and what stands before and behind it are the other entries' lines. */
  lemma {:induction false} LinesSplit(m: Registry, ks: seq<string>, i: nat)
    requires i < |ks| && forall k | k in ks :: k in m
    ensures Lines(m, ks) == Lines(m, ks[..i]) + (ks[i] + " " + m[ks[i]] + "\n") + Lines(m, ks[i + 1..])
    decreases i
  {
    var line := ks[i] + " " + m[ks[i]] + "\n";
    if i > 0 {
      LinesSplit(m, ks[1..], i - 1);
      assert ks[..i][1..] == ks[1..][..i - 1] && ks[1..][i..] == ks[i + 1..];
      Assoc4(ks[0] + " " + m[ks[0]] + "\n", Lines(m, ks[1..][..i - 1]), line, Lines(m, ks[i + 1..]));
    } else {
      assert "" + line == line;
    }
  }

  lemma Assoc4(a: string, b: string, c: string, d: string)
    ensures a + (b + c + d) == a + b + c + d
  {
  }

  lemma {:induction false} AscendingOnce(ks: seq<string>, ls: seq<string>, keys: set<string>)
    requires Ascending(ks, keys) && Ascending(ls, keys)
    ensures ks == ls
    decreases |ks|
  {
    if ks != [] && ls != [] {
      LessTotal(ks[0], ls[0]);
      AscendingOnce(ks[1..], ls[1..], keys - {ks[0]});
      assert ks == [ks[0]] + ks[1..] && ls == [ls[0]] + ls[1..];
    }
  }

  /** The registry determines the listing, to the last character. */
  lemma ListingOnce(m: Registry, s: string, t: string)
    requires Listing(m, s) && Listing(m, t)
    ensures s == t
  {
    var ks :| Ascending(ks, m.Keys) && s == Lines(m, ks);
    var ls :| Ascending(ls, m.Keys) && t == Lines(m, ls);
    AscendingOnce(ks, ls, m.Keys);
  }

  /** What is written back on the control connection. */
  ghost predicate Answers(m: Registry, buffer: string, back: string) {
    var command := CText(buffer);
    var operator, content := Before(command, ' '), Behind(command, ' ');
    if operator == "add" then back == "add service success"
    else if operator == "delete" then back == if content in m then "delete service success" else "service not exist"
    else if operator == "lookup" then (if m == map[] then back == "service map is empty" else Listing(m, back))
    else if operator == "modify" then
      back == if Before(content, ' ') in m then "modify service success" else "service not exist"
    else back == "unkown command"
  }

  function Query(m: Registry, buffer: string): string {
    var name := CText(buffer);
    if name in m then m[name] else UNKNOWN_HOST
  }

  class ServiceCenter {
    var service_map: Registry

    constructor ()
      ensures service_map == map[]
    {
      service_map := map[];
    }

    /** One control connection: `buffer` is what was received, NUL-terminated in 1024 bytes. */
    method Control(buffer: string) returns (back: string)
      requires |buffer| < 1024
      modifies this
      ensures service_map == Updated(old(service_map), buffer)
      ensures Answers(old(service_map), buffer, back)
    {
      var command := CText(buffer);
      var operator, content := Before(command, ' '), Behind(command, ' ');
      if operator == "add" {
        service_map := service_map[Before(content, ' ') := Behind(content, ' ')];
        back := "add service success";
      } else if operator == "delete" {
        if content !in service_map {
          assert service_map - {content} == service_map;
          back := "service not exist";
        } else {
          service_map := service_map - {content};
          back := "delete service success";
        }
      } else if operator == "lookup" {
        if service_map == map[] {
          back := "service map is empty";
        } else {
          back := ListServices();
        }
      } else if operator == "modify" {
        if Before(content, ' ') !in service_map {
          back := "service not exist";
        } else {
          service_map := service_map[Before(content, ' ') := Behind(content, ' ')];
          back := "modify service success";
        }
      } else {
        back := "unkown command";
      }
    }

    /** The `lookup` branch: the map is traversed in the order of its keys. */
    method ListServices() returns (back: string)
      ensures Listing(service_map, back)
    {
      back := "";
      var rest := service_map.Keys;
      ghost var all := InOrder(rest);
      ghost var ks := all;
      assert back + Lines(service_map, ks) == Lines(service_map, all);
      while rest != {}
        invariant Ascending(ks, rest) && rest <= service_map.Keys
        invariant back + Lines(service_map, ks) == Lines(service_map, all)
        decreases |rest|
      {
        assert Least(ks[0], rest);
        var k :| k in rest && forall x | x in rest :: x == k || Less(k, x);
        LessTotal(k, ks[0]);
        LinesNext(service_map, ks, back);
        back := back + (k + " " + service_map[k] + "\n");
        rest, ks := rest - {k}, ks[1..];
      }
    }

    method Lookup(buffer: string) returns (addr: string)
      requires |buffer| < 1024
      ensures addr == Query(service_map, buffer)
    {
      var name := CText(buffer);
      addr := if name !in service_map then UNKNOWN_HOST else service_map[name];
    }
  }

  // ---- Commands mean what they say ----

  /** The server reads back the name and address of a command exactly when the name has no space. */
  lemma FieldsIff(name: string, addr: string)
    ensures Before(name + " " + addr, ' ') == name && Behind(name + " " + addr, ' ') == addr <==> ' ' !in name
  {
    SplitJoin(name, ' ', addr);
  }

  lemma OperatorSplits(op: string, content: string)
    requires ' ' !in op
    ensures Before(op + " " + content, ' ') == op && Behind(op + " " + content, ' ') == content
  {
    SplitJoin(op, ' ', content);
  }

  predicate Registers(c: Command) { c.AddService? || c.ModifyService? }

  /** A delete command's name may hold spaces: the server takes all of the content for the name. */
  predicate Sendable(c: Command) {
    && |Format(c)| < 1024 && (!c.LookUp? ==> NUL !in c.name)
    && (Registers(c) ==> ' ' !in c.name && c.ip != "" && ':' !in c.ip && NUL !in c.ip && 1 <= c.port <= 65535)
  }

  lemma PrintIsClean(n: int)
    ensures NUL !in Print(n)
  {
    var d := PrintNat(if n < 0 then -n else n);
    assert forall i | 0 <= i < |d| :: IsDigit(d[i]);
  }

  lemma FormatIsClean(c: Command)
    requires Sendable(c)
    ensures CText(Format(c)) == Format(c)
  {
    if Registers(c) {
      PrintIsClean(c.port);
    }
    CTextOfClean(Format(c));
  }

  /** The dictionary step a command stands for. */
  function Meaning(m: Registry, c: Command): Registry {
    match c
    case AddService(name, ip, port) => m[name := Join(ip, port)]
    case ModifyService(name, ip, port) => if name in m then m[name := Join(ip, port)] else m
    case DeleteService(name) => m - {name}
    case LookUp => m
  }

  /** The server splits a formatted command at its first space; the rest at the next one. */
  ghost predicate ReadsAs(c: Command, op: string, content: string) {
    Before(CText(Format(c)), ' ') == op && Behind(CText(Format(c)), ' ') == content
  }

  lemma RegistrationReads(c: Command, op: string)
    requires Sendable(c) && Registers(c) && op == if c.AddService? then "add" else "modify"
    ensures ReadsAs(c, op, c.name + " " + Join(c.ip, c.port))
    ensures var content := c.name + " " + Join(c.ip, c.port);
            Before(content, ' ') == c.name && Behind(content, ' ') == Join(c.ip, c.port)
  {
    FormatIsClean(c);
    OperatorSplits(op, c.name + " " + Join(c.ip, c.port));
    FieldsIff(c.name, Join(c.ip, c.port));
  }

  lemma DeletionReads(c: Command)
    requires Sendable(c) && c.DeleteService?
    ensures ReadsAs(c, "delete", c.name)
  {
    FormatIsClean(c);
    OperatorSplits("delete", c.name);
  }

  lemma LookUpReads(c: Command)
    requires c.LookUp?
    ensures ReadsAs(c, "lookup", "lookup")
  {
    CTextOfClean("lookup");
    IndexOfNone("lookup", ' ');
  }

  lemma OperatorsDiffer()
    ensures "add" != "delete" && "add" != "modify" && "delete" != "modify"
    ensures "lookup" !in {"add", "delete", "modify"}
  {
    assert "add"[0] != "delete"[0] && "add"[0] != "modify"[0] && "delete"[0] != "modify"[0];
    assert "lookup"[0] !in {"add"[0], "delete"[0], "modify"[0]};
  }

  lemma RegistrationMeaning(m: Registry, c: Command)
    requires Sendable(c) && Registers(c)
    ensures Updated(m, Format(c)) == Meaning(m, c)
  {
    RegistrationReads(c, if c.AddService? then "add" else "modify");
    OperatorsDiffer();
  }

  lemma CommandMeaning(m: Registry, c: Command)
    requires Sendable(c)
    ensures Updated(m, Format(c)) == Meaning(m, c)
  {
    OperatorsDiffer();
    if Registers(c) {
      RegistrationMeaning(m, c);
    } else if c.DeleteService? {
      DeletionReads(c);
    } else {
      LookUpReads(c);
    }
  }

  /** What the client is told about each command. */
  lemma CommandAnswer(m: Registry, c: Command, back: string)
    requires Sendable(c)
    ensures Answers(m, Format(c), back)
            <==> match c
                 case AddService(_, _, _) => back == "add service success"
                 case ModifyService(name, _, _) =>
                   back == if name in m then "modify service success" else "service not exist"
                 case DeleteService(name) =>
                   back == if name in m then "delete service success" else "service not exist"
                 case LookUp => if m == map[] then back == "service map is empty" else Listing(m, back)
  {
    OperatorsDiffer();
    if Registers(c) {
      RegistrationAnswer(m, c, back);
    } else if c.DeleteService? {
      DeletionReads(c);
    } else {
      LookUpReads(c);
    }
  }

  lemma RegistrationAnswer(m: Registry, c: Command, back: string)
    requires Sendable(c) && Registers(c)
    ensures Answers(m, Format(c), back)
            <==> back == if c.AddService? then "add service success"
                         else if c.name in m then "modify service success" else "service not exist"
  {
    RegistrationReads(c, if c.AddService? then "add" else "modify");
    OperatorsDiffer();
  }

  /** Whatever else arrives leaves the registry as it was. */
  lemma OtherBuffersChangeNothing(m: Registry, buffer: string)
    requires Before(CText(buffer), ' ') !in {"add", "delete", "modify"}
    ensures Updated(m, buffer) == m
    ensures forall back :: Answers(m, buffer, back) && Before(CText(buffer), ' ') != "lookup" ==> back == "unkown command"
  {
  }

  // ---- Whole runs ----

  ghost predicate AllSendable(cs: seq<Command>) { forall i | 0 <= i < |cs| :: Sendable(cs[i]) }

  /** The registry after a run of commands, each formatted, received and carried out. */
  function After(cs: seq<Command>): Registry {
    if cs == [] then map[] else Updated(After(cs[..|cs| - 1]), Format(cs[|cs| - 1]))
  }

  /** The address of the latest effective add or modify of `name`, read off the commands alone. */
  function Latest(cs: seq<Command>, name: string): Option<Addr>
    requires forall i | 0 <= i < |cs| && Registers(cs[i]) :: cs[i].port >= 0
  {
    if cs == [] then None
    else
      var front, c := cs[..|cs| - 1], cs[|cs| - 1];
      assert Registers(c) ==> c.port >= 0;
      if c.LookUp? || c.name != name then Latest(front, name)
      else
        match c
        case AddService(_, ip, port) => Some(Addr(ip, port))
        case ModifyService(_, ip, port) =>
          if Latest(front, name).Some? then Some(Addr(ip, port)) else None
        case DeleteService(_) => None
  }

  lemma {:induction false} RegistryHoldsLatest(cs: seq<Command>, name: string)
    requires AllSendable(cs)
    ensures match Latest(cs, name)
            case None => name !in After(cs)
            case Some(a) => name in After(cs) && After(cs)[name] == Join(a.ip, a.port)
                            && a.ip != "" && ':' !in a.ip && 1 <= a.port <= 65535
    decreases |cs|
  {
    if cs != [] {
      var front, c := cs[..|cs| - 1], cs[|cs| - 1];
      RegistryHoldsLatest(front, name);
      CommandMeaning(After(front), c);
    }
  }

  lemma AnswerParses(a: Addr, stubs: map<string, Addr>)
    requires a.ip != "" && ':' !in a.ip && 1 <= a.port <= 65535
    ensures FindAddr(Join(a.ip, a.port), stubs) == Some(a) && Join(a.ip, a.port) != UNKNOWN_HOST
  {
    AddrRoundTrip(a.ip, a.port);
    JoinSplits(a.ip, a.port, Join(a.ip, a.port));
    UnknownHasNoColon();
  }

  lemma UnknownHasNoColon()
    ensures ':' !in UNKNOWN_HOST
  {
  }

  /**
   * Naming end to end: after any run of commands a query answers with the latest effective
   * address, which a client parses back to the registered ip and port, or with "unknown host".
   */
  lemma NamingEndToEnd(cs: seq<Command>, name: string, stubs: map<string, Addr>)
    requires AllSendable(cs) && NUL !in name
    ensures match Latest(cs, name)
            case None => Query(After(cs), name) == UNKNOWN_HOST
            case Some(a) => Query(After(cs), name) == Join(a.ip, a.port)
                            && FindAddr(Query(After(cs), name), stubs) == Some(a)
    ensures Latest(cs, name) == None <==> Query(After(cs), name) == UNKNOWN_HOST
  {
    CTextOfClean(name);
    RegistryHoldsLatest(cs, name);
    if Latest(cs, name).Some? {
      AnswerParses(Latest(cs, name).value, stubs);
    }
  }
}
