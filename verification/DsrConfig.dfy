/**
 The literals of a DSR configuration and their resolution against the interfaces
 (src/control/DsrConfigSync.cpp, XdpConfigSync.cpp). The kernel's view of the interfaces and
 inet_pton are inputs.
 */
module DsrConfig {
  import opened Common
  import opened RuntimeSchema
  import EndpointParser

  const IF_NAMESIZE: nat := 16
  const MIN_MTU: int := 1500

  datatype Device = Device(index: nat, up: bool, mtu: int, ethernet: bool, mac: Mac)
  datatype Environment = Environment(pton: map<string, Address>, devices: map<string, Device>)

  datatype Endpoint = Endpoint(address: Address, port: Port)
  datatype DsrConfiguration = DsrConfiguration(config: StaticConfig, backends: seq<Backend>)

  // ---- MAC literals ----

  function HexValue(c: char): Option<nat> {
    if '0' <= c <= '9' then Some((c - '0') as nat)
    else if 'a' <= c <= 'f' then Some(10 + (c - 'a') as nat)
    else if 'A' <= c <= 'F' then Some(10 + (c - 'A') as nat)
    else None
  }

  // Two hexadecimal digits, as from_chars reads them.
  function HexPair(high: char, low: char): (r: Option<nat>)
    ensures r.Some? ==> r.value < 256
  {
    match (HexValue(high), HexValue(low))
    case (Some(a), Some(b)) => Some(16 * a + b)
    case _ => None
  }

  // Six colon-separated pairs of digits.
  ghost predicate Spells(text: string, mac: Mac) {
    && |text| == 17
    && (forall i :: 0 <= i < 6 ==> HexPair(text[3 * i], text[3 * i + 1]) == Some(mac[i] as nat))
    && forall i :: 0 <= i < 5 ==> text[3 * i + 2] == ':'
  }

  function HexDigit(n: nat): char
    requires n < 16
  {
    if n < 10 then '0' + n as char else 'a' + (n - 10) as char
  }

  function PrintByte(b: Byte): (s: string)
    ensures |s| == 2
  {
    [HexDigit(b as nat / 16), HexDigit(b as nat % 16)]
  }

  function PrintMac(mac: Mac): (s: string)
    ensures |s| == 17
  {
    seq(17, k requires 0 <= k < 17 => if k % 3 == 2 then ':' else PrintByte(mac[k / 3])[k % 3])
  }

  function Lower(c: char): char {
    if 'A' <= c <= 'F' then 'a' + (c - 'A') else c
  }

  lemma DigitOfValue(c: char)
    ensures HexValue(c).Some? ==> HexValue(c).value < 16 && HexDigit(HexValue(c).value) == Lower(c)
  {
  }

  lemma ValueOfDigit(n: nat)
    requires n < 16
    ensures HexValue(HexDigit(n)) == Some(n)
  {
  }

  lemma PrintedByte(b: Byte)
    ensures HexPair(PrintByte(b)[0], PrintByte(b)[1]) == Some(b as nat)
  {
    hide HexValue;
    hide HexDigit;
    ValueOfDigit(b as nat / 16);
    ValueOfDigit(b as nat % 16);
  }

  lemma SpelledByte(high: char, low: char, b: Byte)
    requires HexPair(high, low) == Some(b as nat)
    ensures PrintByte(b) == [Lower(high), Lower(low)]
  {
    hide HexValue;
    hide HexDigit;
    hide Lower;
    DigitOfValue(high);
    DigitOfValue(low);
  }

  // Printing and reading are inverse: the printed form spells the address, and every spelling is
  // the printed form up to the case of its digits.
  lemma PrintingSpells(mac: Mac)
    ensures Spells(PrintMac(mac), mac)
  {
    hide PrintByte;
    hide HexPair;
    var text := PrintMac(mac);
    forall i | 0 <= i < 6
      ensures HexPair(text[3 * i], text[3 * i + 1]) == Some(mac[i] as nat)
    {
      Printed(mac, i);
      PrintedByte(mac[i]);
    }
    forall i | 0 <= i < 5
      ensures text[3 * i + 2] == ':'
    {
      Printed(mac, i);
    }
  }

  lemma Printed(mac: Mac, i: nat)
    requires i < 6
    ensures PrintMac(mac)[3 * i] == PrintByte(mac[i])[0] && PrintMac(mac)[3 * i + 1] == PrintByte(mac[i])[1]
    ensures i < 5 ==> PrintMac(mac)[3 * i + 2] == ':'
  {
    hide PrintByte;
    var k := 3 * i;
    assert k / 3 == i && k % 3 == 0 && (k + 1) / 3 == i && (k + 1) % 3 == 1 && (k + 2) % 3 == 2;
  }

  lemma SpellingIsPrinting(text: string, mac: Mac)
    requires Spells(text, mac)
    ensures |text| == 17 && forall k :: 0 <= k < 17 ==> Lower(text[k]) == PrintMac(mac)[k]
  {
    hide PrintByte;
    hide HexPair;
    forall k | 0 <= k < 17
      ensures Lower(text[k]) == PrintMac(mac)[k]
    {
      var i, j := k / 3, k % 3;
      assert k == 3 * i + j;
      if j == 2 {
        assert text[3 * i + 2] == ':';
      } else {
        SpelledByte(text[3 * i], text[3 * i + 1], mac[i]);
      }
    }
  }

  // Conversely the digits may be of either case.
  lemma PrintedFormSpells(text: string, mac: Mac)
    requires |text| == 17 && forall k :: 0 <= k < 17 ==> Lower(text[k]) == PrintMac(mac)[k]
    ensures Spells(text, mac)
  {
    hide PrintByte;
    hide HexPair;
    forall i | 0 <= i < 6
      ensures HexPair(text[3 * i], text[3 * i + 1]) == Some(mac[i] as nat)
      ensures i < 5 ==> text[3 * i + 2] == ':'
    {
      Printed(mac, i);
      EitherCase(text[3 * i], text[3 * i + 1], mac[i]);
    }
  }

  lemma EitherCase(high: char, low: char, b: Byte)
    requires PrintByte(b) == [Lower(high), Lower(low)]
    ensures HexPair(high, low) == Some(b as nat)
  {
    hide HexValue;
    hide HexDigit;
    hide Lower;
    ValueOfLetter(high, b as nat / 16);
    ValueOfLetter(low, b as nat % 16);
  }

  lemma ValueOfLetter(c: char, n: nat)
    requires n < 16 && Lower(c) == HexDigit(n)
    ensures HexValue(c) == Some(n)
  {
  }

  lemma SpellsOne(text: string, a: Mac, b: Mac)
    requires Spells(text, a) && Spells(text, b)
    ensures a == b
  {
    forall i | 0 <= i < 6
      ensures a[i] == b[i]
    {
      assert HexPair(text[3 * i], text[3 * i + 1]) == Some(a[i] as nat);
    }
  }

  // The address a text spells, if it is one a station can have.
  ghost function MacOf(text: string): (r: Option<Mac>)
    ensures r.Some? ==> Spells(text, r.value) && UnicastMac(r.value)
    ensures r == None ==> forall mac :: Spells(text, mac) ==> !UnicastMac(mac)
  {
    if exists mac :: Spells(text, mac) && UnicastMac(mac) then
      var mac :| Spells(text, mac) && UnicastMac(mac);
      Some(mac)
    else None
  }

  // parseMac.
  method ParseMac(text: string) returns (r: Option<Mac>)
    ensures r == MacOf(text)
  {
    hide ValidMac;
    hide UnicastMac;
    if |text| != 17 {
      return None;
    }
    var mac: Mac := NO_MAC;
    for i := 0 to 6
      invariant forall j :: 0 <= j < i ==> HexPair(text[3 * j], text[3 * j + 1]) == Some(mac[j] as nat)
      invariant forall j :: 0 <= j < i && j < 5 ==> text[3 * j + 2] == ':'
    {
      var byte := HexPair(text[3 * i], text[3 * i + 1]);
      if byte == None || (i < 5 && text[3 * i + 2] != ':') {
        return None;
      }
      mac := mac[i := byte.value as Byte];
    }
    assert Spells(text, mac);
    ValidMacMeaning(mac);
    if MacOf(text).Some? {
      SpellsOne(text, mac, MacOf(text).value);
    }
    r := if ValidMac(mac) then Some(mac) else None;
  }

  // The check of a configuration line, which never builds the address, accepts the same texts.
  method ValidMacLiteral(text: string) returns (ok: bool)
    ensures ok <==> MacOf(text).Some?
  {
    if |text| != 17 {
      return false;
    }
    var combined: bv8 := 0;
    ghost var mac: Mac := NO_MAC;
    for i := 0 to 6
      invariant forall j :: 0 <= j < i ==> HexPair(text[3 * j], text[3 * j + 1]) == Some(mac[j] as nat)
      invariant forall j :: 0 <= j < i && j < 5 ==> text[3 * j + 2] == ':'
      invariant 0 < i ==> mac[0] % 2 == 0
      invariant combined == 0 <==> forall j :: 0 <= j < i ==> mac[j] == 0
    {
      var byte := HexPair(text[3 * i], text[3 * i + 1]);
      if byte == None || (i < 5 && text[3 * i + 2] != ':') || (i == 0 && byte.value % 2 == 1) {
        RefusedAt(text, i);
        return false;
      }
      Combine(combined, byte.value as Byte);
      combined := combined | (byte.value as Byte as bv8);
      mac := mac[i := byte.value as Byte];
    }
    assert Spells(text, mac);
    assert combined == 0 <==> mac == NO_MAC;
    if MacOf(text).Some? {
      SpellsOne(text, mac, MacOf(text).value);
    }
    ok := combined != 0;
  }

  lemma RefusedAt(text: string, i: nat)
    requires |text| == 17 && i < 6
    requires var byte := HexPair(text[3 * i], text[3 * i + 1]);
             byte == None || (i < 5 && text[3 * i + 2] != ':') || (i == 0 && byte.value % 2 == 1)
    ensures MacOf(text) == None
  {
  }

  lemma Combine(a: bv8, b: Byte)
    ensures a | (b as bv8) == 0 <==> a == 0 && b == 0
  {
    var c := b as bv8;
    assert a | c == 0 <==> a == 0 && c == 0;
  }

  // ---- Endpoints of XDP mode ----

  function Decimal(text: string): Option<nat> {
    if text == [] then Some(0)
    else if !('0' <= text[|text| - 1] <= '9') then None
    else match Decimal(text[..|text| - 1])
      case None => None
      case Some(n) => Some(10 * n + (text[|text| - 1] - '0') as nat)
  }

  function ParsePort(text: string): Option<Port> {
    if text == [] then None
    else match Decimal(text)
      case None => None
      case Some(n) => if 0 < n < 0x1_0000 then Some([(n / 256) as Byte, (n % 256) as Byte]) else None
  }

  function Zeros(k: nat): string {
    seq(k, _ => '0')
  }

  // A port is read from exactly the printed forms of 1 to 65535, with any zeros before them.
  lemma PortText(text: string, port: Port)
    ensures ParsePort(text) == Some(port) <==>
            exists k: nat, n: nat :: 0 < n < 0x1_0000 && text == Zeros(k) + EndpointParser.Print(n)
                                     && port == [(n / 256) as Byte, (n % 256) as Byte]
  {
    DecimalReads(text);
    if ParsePort(text) == Some(port) {
      var n := EndpointParser.Continue(0, text);
      var k := Strip(text);
      EndpointParser.ReadPrints(text[k..]);
      assert text == Zeros(k) + EndpointParser.Print(n);
    }
    forall k: nat, n: nat | 0 < n < 0x1_0000 && text == Zeros(k) + EndpointParser.Print(n)
      ensures ParsePort(text) == Some([(n / 256) as Byte, (n % 256) as Byte])
    {
      EndpointParser.PrintReads(n);
      ZerosFirst(k, EndpointParser.Print(n));
    }
  }

  lemma {:induction false} DecimalReads(text: string)
    ensures Decimal(text) == if EndpointParser.AllDigits(text) then Some(EndpointParser.Continue(0, text)) else None
  {
    if text != [] {
      var front, last := text[..|text| - 1], text[|text| - 1];
      assert text == front + [last];
      DecimalReads(front);
      if EndpointParser.AllDigits(front) && EndpointParser.IsDigit(last) {
        EndpointParser.ContinueLast(0, front, last);
      }
    }
  }

  lemma {:induction false} ZerosFirst(k: nat, s: string)
    requires EndpointParser.AllDigits(s)
    ensures EndpointParser.AllDigits(Zeros(k) + s) && EndpointParser.Continue(0, Zeros(k) + s) == EndpointParser.Continue(0, s)
  {
    if k == 0 {
      assert Zeros(0) + s == s;
    } else {
      ZerosFirst(k - 1, s);
      assert (Zeros(k) + s)[1..] == Zeros(k - 1) + s;
    }
  }

  // The number of superfluous zeros.
  lemma {:induction false} Strip(text: string) returns (k: nat)
    requires EndpointParser.AllDigits(text) && EndpointParser.Continue(0, text) > 0
    ensures k <= |text| && text == Zeros(k) + text[k..] && EndpointParser.Canonical(text[k..])
    ensures EndpointParser.Continue(0, text[k..]) == EndpointParser.Continue(0, text)
  {
    if text[0] != '0' {
      k := 0;
      assert text[0..] == text;
    } else {
      var rest := Strip(text[1..]);
      k := rest + 1;
      assert text[1..][rest..] == text[k..];
      assert text == ['0'] + text[1..] == Zeros(k) + text[k..];
    }
  }

  // Not 0.0.0.0, not 255.255.255.255, not 224.0.0.0/4.
  predicate UnicastAddress(a: Address) {
    a != NO_ADDRESS && a != [255, 255, 255, 255] && a[0] / 16 != 14
  }

  // The same on the address as a number: neither 0 nor 2^32 - 1, and no multicast address.
  lemma UnicastMeans(a: Address)
    ensures var host := ((a[0] as nat * 256 + a[1] as nat) * 256 + a[2] as nat) * 256 + a[3] as nat;
            UnicastAddress(a) <==> host != 0 && host != 0xffff_ffff && host / 0x1000_0000 != 0xe
  {
  }

  function ParseEndpoint(text: string, pton: map<string, Address>): (r: Option<Endpoint>)
    ensures r.Some? ==> UnicastAddress(r.value.address) && r.value.port != NO_PORT
  {
    var k := Find(text, ':');
    if k == |text| || text[..k] !in pton then None
    else match ParsePort(text[k + 1..])
      case None => None
      case Some(port) => if UnicastAddress(pton[text[..k]]) then Some(Endpoint(pton[text[..k]], port)) else None
  }

  // ---- Interfaces ----

  predicate ForbiddenInName(c: char) {
    c == '/' || c == ' ' || c == '\t' || c == '\r' || c == '\n' || c == ':' || c == '@'
  }

  predicate UsableName(name: string) {
    name != "" && |name| < IF_NAMESIZE && forall i :: 0 <= i < |name| ==> !ForbiddenInName(name[i])
  }

  // inspectInterface.
  function InspectInterface(name: string, devices: map<string, Device>): (r: Option<Device>)
    ensures r.Some? ==> UsableName(name) && name in devices && r.value == devices[name] && ValidMac(r.value.mac)
  {
    if !UsableName(name) || name !in devices then None
    else
      var d := devices[name];
      if d.up && d.mtu >= MIN_MTU && d.ethernet && ValidMac(d.mac) then Some(d) else None
  }

  // The backend a target literal EGRESS@MAC stands for.
  ghost function LinkOf(target: string, env: Environment): (r: Option<Backend>)
    ensures r.Some? ==> ValidMac(r.value.destinationMac) && ValidMac(r.value.sourceMac)
  {
    var k := Find(target, '@');
    if k == |target| || MacOf(target[k + 1..]) == None || InspectInterface(target[..k], env.devices) == None then None
    else
      var mac, out := MacOf(target[k + 1..]).value, InspectInterface(target[..k], env.devices).value;
      ValidMacMeaning(mac);
      Some(Backend(out.index, mac, out.mac))
  }

  // A configuration stands for its literals: each target is usable, leaves by another interface
  // than the ingress, and no two share interface and destination.
  ghost predicate Resolves(c: DsrConfiguration, ingress: string, vip: string, targets: seq<string>, env: Environment) {
    && ParseEndpoint(vip, env.pton).Some? && InspectInterface(ingress, env.devices).Some?
    && |targets| <= MAX_BACKENDS && |c.backends| == |targets|
    && c.config == StaticConfig(STATIC_SCHEMA, |targets|, ParseEndpoint(vip, env.pton).value.address,
                                ParseEndpoint(vip, env.pton).value.port, 0)
    && (forall i :: 0 <= i < |targets| ==> BackendOk(c.backends[i], targets[i], ingress, env))
    && Distinct(c.backends)
  }

  ghost predicate BackendOk(b: Backend, target: string, ingress: string, env: Environment)
    requires InspectInterface(ingress, env.devices).Some?
  {
    LinkOf(target, env) == Some(b) && b.ifindex != InspectInterface(ingress, env.devices).value.index
  }

  ghost predicate Distinct(backends: seq<Backend>) {
    forall i, j :: 0 <= i < j < |backends| ==>
      backends[i].ifindex != backends[j].ifindex || backends[i].destinationMac != backends[j].destinationMac
  }

  lemma ResolvesOne(c: DsrConfiguration, d: DsrConfiguration, ingress: string, vip: string, targets: seq<string>, env: Environment)
    requires Resolves(c, ingress, vip, targets, env) && Resolves(d, ingress, vip, targets, env)
    ensures c == d
  {
    hide LinkOf;
    forall i | 0 <= i < |targets|
      ensures c.backends[i] == d.backends[i]
    {
      assert BackendOk(c.backends[i], targets[i], ingress, env);
      assert BackendOk(d.backends[i], targets[i], ingress, env);
    }
    assert c.backends == d.backends;
  }

  // The literal loop: every MAC is read before any interface is inspected.
  method ParseTargets(targets: seq<string>) returns (r: Option<seq<(string, Mac)>>)
    ensures r.Some? ==> |r.value| == |targets|
    ensures r.Some? ==> forall i :: 0 <= i < |targets| ==> ParsedTarget(targets[i], r.value[i])
    ensures r == None ==> exists i :: 0 <= i < |targets| && BadLiteral(targets[i])
  {
    var parsed: seq<(string, Mac)> := [];
    for i := 0 to |targets|
      invariant |parsed| == i && forall j :: 0 <= j < i ==> ParsedTarget(targets[j], parsed[j])
    {
      var k := Find(targets[i], '@');
      if k == |targets[i]| {
        assert BadLiteral(targets[i]);
        return None;
      }
      var mac := ParseMac(targets[i][k + 1..]);
      if mac == None {
        assert BadLiteral(targets[i]);
        return None;
      }
      parsed := parsed + [(targets[i][..k], mac.value)];
    }
    r := Some(parsed);
  }

  ghost predicate ParsedTarget(target: string, parsed: (string, Mac)) {
    var k := Find(target, '@');
    k < |target| && parsed.0 == target[..k] && MacOf(target[k + 1..]) == Some(parsed.1)
  }

  ghost predicate BadLiteral(target: string) {
    var k := Find(target, '@');
    k == |target| || MacOf(target[k + 1..]) == None
  }

  // parseDsrConfiguration: it succeeds if and only if some configuration stands for the literals,
  // and returns that one.
  method ParseDsrConfiguration(ingress: string, vip: string, targets: seq<string>, env: Environment)
    returns (r: Option<DsrConfiguration>)
    ensures r.Some? ==> Resolves(r.value, ingress, vip, targets, env)
    ensures r == None ==> forall c :: !Resolves(c, ingress, vip, targets, env)
  {
    hide MacOf;
    hide LinkOf;
    hide BadLiteral;
    hide ParsedTarget;
    hide Distinct;
    hide Pairs;
    hide ParseEndpoint;
    hide InspectInterface;
    hide UnicastAddress;
    hide ValidMac;
    hide UnicastMac;
    hide Spells;
    var endpoint := ParseEndpoint(vip, env.pton);
    if endpoint == None || |targets| > MAX_BACKENDS {
      return None;
    }
    var parsed := ParseTargets(targets);
    if parsed == None {
      NoLiteral(targets, env);
      return None;
    }
    var input := InspectInterface(ingress, env.devices);
    if input == None {
      return None;
    }
    var backends: seq<Backend>, seen: set<(nat, Mac)> := [], {};
    DistinctEmpty();
    for i := 0 to |targets|
      invariant |backends| == i && Distinct(backends) && seen == Pairs(backends)
      invariant forall j :: 0 <= j < i ==> BackendOk(backends[j], targets[j], ingress, env)
    {
      var output := InspectInterface(parsed.value[i].0, env.devices);
      LinkParts(targets[i], parsed.value[i], env);
      if output == None || output.value.index == input.value.index {
        return None;
      }
      var b := Backend(output.value.index, parsed.value[i].1, output.value.mac);
      PairsExtend(backends, b);
      if (b.ifindex, b.destinationMac) in seen {
        forall c: DsrConfiguration | |c.backends| == |targets| && forall j :: 0 <= j < |targets| ==> BackendOk(c.backends[j], targets[j], ingress, env)
          ensures !Distinct(c.backends)
        {
          DuplicateStays(backends, b, c.backends, targets, ingress, env);
        }
        return None;
      }
      DistinctExtend(backends, b);
      backends, seen := backends + [b], seen + {(b.ifindex, b.destinationMac)};
    }
    r := Some(DsrConfiguration(StaticConfig(STATIC_SCHEMA, |targets|, endpoint.value.address, endpoint.value.port, 0), backends));
  }

  lemma NoLiteral(targets: seq<string>, env: Environment)
    requires exists i :: 0 <= i < |targets| && BadLiteral(targets[i])
    ensures exists i :: 0 <= i < |targets| && LinkOf(targets[i], env) == None
  {
    var i :| 0 <= i < |targets| && BadLiteral(targets[i]);
    assert LinkOf(targets[i], env) == None;
  }

  lemma LinkParts(target: string, parsed: (string, Mac), env: Environment)
    requires ParsedTarget(target, parsed)
    ensures var output := InspectInterface(parsed.0, env.devices);
            LinkOf(target, env) == if output == None then None
                                   else Some(Backend(output.value.index, parsed.1, output.value.mac))
  {
  }

  lemma DistinctEmpty()
    ensures Distinct([]) && Pairs([]) == {}
  {
  }

  lemma DistinctExtend(backends: seq<Backend>, b: Backend)
    requires Distinct(backends)
    requires forall i :: 0 <= i < |backends| ==> backends[i].ifindex != b.ifindex || backends[i].destinationMac != b.destinationMac
    ensures Distinct(backends + [b])
  {
  }

  // The pairs a pool occupies.
  ghost function Pairs(backends: seq<Backend>): set<(nat, Mac)> {
    set i | 0 <= i < |backends| :: (backends[i].ifindex, backends[i].destinationMac)
  }

  lemma PairsExtend(backends: seq<Backend>, b: Backend)
    ensures Pairs(backends + [b]) == Pairs(backends) + {(b.ifindex, b.destinationMac)}
    ensures (b.ifindex, b.destinationMac) in Pairs(backends) <==>
              exists i :: 0 <= i < |backends| && backends[i].ifindex == b.ifindex && backends[i].destinationMac == b.destinationMac
  {
    var c := backends + [b];
    assert forall i :: 0 <= i < |backends| ==> c[i] == backends[i];
    assert c[|backends|] == b;
  }

  lemma DuplicateStays(backends: seq<Backend>, b: Backend, all: seq<Backend>, targets: seq<string>, ingress: string, env: Environment)
    requires |backends| < |targets| == |all| && InspectInterface(ingress, env.devices).Some?
    requires forall j :: 0 <= j < |backends| ==> BackendOk(backends[j], targets[j], ingress, env)
    requires forall j :: 0 <= j < |all| ==> BackendOk(all[j], targets[j], ingress, env)
    requires LinkOf(targets[|backends|], env) == Some(b)
    requires exists i :: 0 <= i < |backends| && backends[i].ifindex == b.ifindex && backends[i].destinationMac == b.destinationMac
    ensures !Distinct(all)
  {
    hide LinkOf;
    var i :| 0 <= i < |backends| && backends[i].ifindex == b.ifindex && backends[i].destinationMac == b.destinationMac;
    assert BackendOk(all[i], targets[i], ingress, env) && BackendOk(backends[i], targets[i], ingress, env);
    assert BackendOk(all[|backends|], targets[|backends|], ingress, env);
  }
}
