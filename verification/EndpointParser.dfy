/**
 The strict endpoint syntax (src/config/Config.cpp) and the printed form (formatEndpoint in
 src/control/TcpService.cpp). `unsigned` is 32 bits wide and wraps.
 */
module EndpointParser {
  import opened Common

  const U32: nat := 0x1_0000_0000

  function Sub32(a: nat, b: nat): (r: nat)
    requires a < U32 && b < U32
    ensures r < U32
  {
    if b <= a then a - b else a + U32 - b
  }

  predicate IsDigit(c: char) {
    '0' <= c <= '9'
  }

  function Digit(c: char): (d: nat)
    requires IsDigit(c)
    ensures d < 10
  {
    (c - '0') as nat
  }

  // ---- Decimal numbers ----

  // std::to_string.
  function Print(n: nat): (s: string)
    ensures s != []
  {
    (if n < 10 then [] else Print(n / 10)) + ['0' + (n % 10) as char]
  }

  predicate AllDigits(s: string) {
    forall i :: 0 <= i < |s| ==> IsDigit(s[i])
  }

  // The number read so far, continued with more digits.
  function Continue(n: nat, s: string): (r: nat)
    requires AllDigits(s)
    ensures n <= r
    decreases |s|
  {
    if s == [] then n else Continue(10 * n + Digit(s[0]), s[1..])
  }

  // Decimal notation without superfluous zeros.
  predicate Canonical(s: string) {
    s != "" && AllDigits(s) && (|s| > 1 ==> s[0] != '0')
  }

  lemma {:induction false} ContinueLast(n: nat, s: string, c: char)
    requires AllDigits(s) && IsDigit(c)
    ensures AllDigits(s + [c]) && Continue(n, s + [c]) == 10 * Continue(n, s) + Digit(c)
    decreases |s|
  {
    if s == [] {
      assert (s + [c])[1..] == [];
    } else {
      ContinueLast(10 * n + Digit(s[0]), s[1..], c);
      assert (s + [c])[1..] == s[1..] + [c];
    }
  }

  // Printing gives the canonical notation, and reading it gives the number back.
  lemma {:induction false} PrintReads(n: nat)
    ensures Canonical(Print(n)) && Continue(0, Print(n)) == n && (Print(n)[0] == '0' <==> n == 0)
  {
    var last := '0' + (n % 10) as char;
    if n < 10 {
      assert Print(n) == [last];
      ContinueLast(0, [], last);
    } else {
      PrintReads(n / 10);
      ContinueLast(0, Print(n / 10), last);
    }
  }

  // Every canonical notation is the printed form of its number.
  lemma {:induction false} ReadPrints(s: string)
    requires Canonical(s)
    ensures Print(Continue(0, s)) == s
  {
    var front, last := s[..|s| - 1], s[|s| - 1];
    assert s == front + [last];
    ContinueLast(0, front, last);
    if front != [] {
      ReadPrints(front);
      PrintReads(Continue(0, front));
    }
  }

  // ---- parseUnsignedDecimal ----

  // The rest of the loop, with the accumulator so far.
  function Accumulate(result: nat, s: string, maximum: nat): (r: Option<nat>)
    requires result < U32 && maximum < U32
    ensures r.Some? ==> r.value <= maximum
    decreases |s|
  {
    if s == [] then if result > maximum then None else Some(result)
    else if !IsDigit(s[0]) || result > Sub32(maximum, Digit(s[0])) / 10 then None
    else Accumulate((result * 10 + Digit(s[0])) % U32, s[1..], maximum)
  }

  function Parse(s: string, maximum: nat): (r: Option<nat>)
    requires maximum < U32
    ensures r.Some? ==> r.value <= maximum
  {
    if s == "" || (|s| > 1 && s[0] == '0') then None else Accumulate(0, s, maximum)
  }

  method ParseUnsignedDecimal(s: string, maximum: nat) returns (r: Option<nat>)
    requires maximum < U32
    ensures r == Parse(s, maximum)
  {
    if s == "" || (|s| > 1 && s[0] == '0') {
      return None;
    }
    var result: nat := 0;
    for i := 0 to |s|
      invariant result < U32 && Accumulate(result, s[i..], maximum) == Accumulate(0, s, maximum)
    {
      assert s[i..][1..] == s[i + 1..];
      if !IsDigit(s[i]) {
        return None;
      }
      var digit := Digit(s[i]);
      if result > Sub32(maximum, digit) / 10 {
        return None;
      }
      result := (result * 10 + digit) % U32;
    }
    r := if result > maximum then None else Some(result);
  }

  // What parseUnsignedDecimal is for.
  ghost function Intended(s: string, maximum: nat): Option<nat> {
    if Canonical(s) && Continue(0, s) <= maximum then Some(Continue(0, s)) else None
  }

  // Every digit of n but the first is larger than m.
  ghost predicate Sparse(n: nat, m: nat) {
    n < 10 || (m < n % 10 && Sparse(n / 10, m))
  }

  // One accepted digit. Below 9 the subtraction wraps for larger digits, and only a product that
  // wraps too could do harm; but such a number starts with 42949672, and the 2 was refused.
  lemma AcceptedDigit(result: nat, d: nat, maximum: nat)
    requires result < U32 && d < 10 && 2 <= maximum < U32
    requires if maximum < 9 then Sparse(result, maximum) else result <= maximum
    requires result <= Sub32(maximum, d) / 10
    ensures result * 10 + d < U32
    ensures if maximum < 9 then Sparse(result * 10 + d, maximum) else result * 10 + d <= maximum
  {
    NoSparsePrefix(maximum);
  }

  lemma NoSparsePrefix(maximum: nat)
    ensures Sparse(429496729, maximum) ==> maximum < 2
  {
    assert Sparse(429496729, maximum) ==> Sparse(42949672, maximum);
    assert Sparse(42949672, maximum) ==> maximum < 2;
  }

  // A refused digit makes every continuation too large.
  lemma RefusedDigit(result: nat, d: nat, maximum: nat)
    requires result < U32 && d < 10 && maximum < U32
    requires result > Sub32(maximum, d) / 10
    ensures result * 10 + d > maximum
  {
  }

  lemma {:induction false} AccumulateExact(result: nat, s: string, maximum: nat)
    requires result < U32 && 2 <= maximum < U32
    requires if maximum < 9 then Sparse(result, maximum) else result <= maximum
    ensures Accumulate(result, s, maximum) ==
            if AllDigits(s) && Continue(result, s) <= maximum then Some(Continue(result, s)) else None
    decreases |s|
  {
    hide Sub32;
    hide Sparse;
    if s != [] && IsDigit(s[0]) {
      var d := Digit(s[0]);
      assert AllDigits(s) <==> AllDigits(s[1..]);
      if result > Sub32(maximum, d) / 10 {
        RefusedDigit(result, d, maximum);
      } else {
        AcceptedDigit(result, d, maximum);
        NoWrap(result * 10 + d);
        AccumulateExact(result * 10 + d, s[1..], maximum);
      }
    }
  }

  lemma NoWrap(x: nat)
    ensures x < U32 ==> x % U32 == x
  {
  }

  // For a maximum of at least 2 the loop does what it is for, on every text, and nothing in it
  // overflows; the maxima in use are 255 and 65535.
  lemma ParseExact(s: string, maximum: nat)
    requires 2 <= maximum < U32
    ensures Parse(s, maximum) == Intended(s, maximum)
  {
    AccumulateExact(0, s, maximum);
  }

  const WRAPPING: string := ['4', '2', '9', '4', '9', '6', '7', '2', '9', '6']

  // For the maxima 0 and 1 it does not: 4294967296 is read as 0.
  lemma WrapAccepts(maximum: nat)
    requires maximum < 2
    ensures Parse(WRAPPING, maximum) == Some(0) && Intended(WRAPPING, maximum) == None
  {
    hide Accumulate;
    hide Continue;
    WrapRun(maximum);
    Ends(0, maximum);
  }

  lemma Ends(n: nat, maximum: nat)
    requires n < U32 && maximum < U32
    ensures Accumulate(n, [], maximum) == if n > maximum then None else Some(n)
  {
  }

  lemma WrapRun(maximum: nat)
    requires maximum < 2
    ensures AllDigits(WRAPPING) && Continue(0, WRAPPING) == 4294967296
    ensures Accumulate(0, WRAPPING, maximum) == Accumulate(0, [], maximum)
  {
    hide Accumulate;
    hide Continue;
    hide Sub32;
    var s := WRAPPING;
    Step(s, 0, 4, 0, 4, maximum);
    Step(s, 1, 2, 4, 42, maximum);
    Step(s, 2, 9, 42, 429, maximum);
    Step(s, 3, 4, 429, 4294, maximum);
    Step(s, 4, 9, 4294, 42949, maximum);
    Step(s, 5, 6, 42949, 429496, maximum);
    Step(s, 6, 7, 429496, 4294967, maximum);
    Step(s, 7, 2, 4294967, 42949672, maximum);
    Step(s, 8, 9, 42949672, 429496729, maximum);
    LastStep(s, 9, 6, 429496729, maximum);
    assert s[0..] == s && s[10..] == [];
  }

  // One digit of the loop, and of the number it should compute, while neither wraps.
  lemma Step(s: string, i: nat, d: nat, result: nat, next: nat, maximum: nat)
    requires i < |s| && AllDigits(s) && Digit(s[i]) == d && maximum < 2 && maximum < d
    requires result * 10 + d == next <= 429496729
    ensures Accumulate(result, s[i..], maximum) == Accumulate(next, s[i + 1..], maximum)
    ensures Continue(result, s[i..]) == Continue(next, s[i + 1..])
  {
    hide Sub32;
    var rest := s[i..];
    assert rest[1..] == s[i + 1..] && rest[0] == s[i];
    LargeDifference(maximum, d);
    NoWrap(next);
  }

  lemma LargeDifference(maximum: nat, d: nat)
    requires maximum < d < 10
    ensures 429496728 <= Sub32(maximum, d) / 10
  {
  }

  lemma LastStep(s: string, i: nat, d: nat, result: nat, maximum: nat)
    requires i + 1 == |s| && AllDigits(s) && Digit(s[i]) == d == 6 && maximum < 2 && result == 429496729
    ensures Accumulate(result, s[i..], maximum) == Accumulate(0, s[i + 1..], maximum)
    ensures Continue(result, s[i..]) == 4294967296
  {
    assert s[i..][1..] == s[i + 1..] == [] && s[i..][0] == s[i];
  }

  // So it is correct for every text if and only if the maximum is at least 2.
  lemma CorrectFromTwo(maximum: nat)
    requires maximum < U32
    ensures (forall s :: Parse(s, maximum) == Intended(s, maximum)) <==> 2 <= maximum
  {
    if 2 <= maximum {
      forall s ensures Parse(s, maximum) == Intended(s, maximum) {
        ParseExact(s, maximum);
      }
    } else {
      WrapAccepts(maximum);
    }
  }

  // Reading succeeds exactly on the printed forms of the numbers in range.
  lemma ParseInvertsPrint(s: string, maximum: nat, n: nat)
    requires 2 <= maximum < U32
    ensures Parse(s, maximum) == Some(n) <==> n <= maximum && s == Print(n)
  {
    ParseExact(s, maximum);
    PrintReads(n);
    if Canonical(s) {
      ReadPrints(s);
    }
  }

  // ---- parseIpv4Endpoint ----

  type Octets = a: seq<Byte> | |a| == 4 witness [0, 0, 0, 0]
  datatype Endpoint = Endpoint(address: Octets, port: nat)

  function PrintAddress(a: seq<Byte>): string
    requires a != []
  {
    if |a| == 1 then Print(a[0] as nat) else Print(a[0] as nat) + ['.'] + PrintAddress(a[1..])
  }

  // formatEndpoint.
  function PrintEndpoint(e: Endpoint): string {
    PrintAddress(e.address) + [':'] + Print(e.port)
  }

  // No multicast, no broadcast, and for a backend no wildcard address; a port of 16 bits, not 0.
  predicate Permitted(e: Endpoint, backend: bool) {
    && 0 < e.port <= 65535 && !(224 <= e.address[0] <= 239) && e.address != [255, 255, 255, 255]
    && (backend ==> e.address != [0, 0, 0, 0])
  }

  // The octets from number i on.
  function ParseOctets(s: string, i: nat): Option<seq<Byte>>
    requires i < 4
    decreases 4 - i
  {
    var dot := Find(s, '.');
    if (i < 3) != (dot < |s|) then None
    else
      match Parse(s[..dot], 255)
      case None => None
      case Some(n) =>
        if i == 3 then Some([n as Byte]) else Prefixed([n as Byte], ParseOctets(s[dot + 1..], i + 1))
  }

  function Prefixed(a: seq<Byte>, rest: Option<seq<Byte>>): Option<seq<Byte>> {
    match rest case None => None case Some(s) => Some(a + s)
  }

  lemma {:induction false} PrintHasNo(n: nat, c: char)
    requires !IsDigit(c)
    ensures c !in Print(n)
  {
    PrintReads(n);
  }

  lemma FindNothing(s: string, c: char)
    requires c !in s
    ensures Find(s, c) == |s|
  {
  }

  // Octets are read back from their printed form, and from nothing else.
  lemma {:induction false} OctetsInvert(s: string, i: nat, a: seq<Byte>)
    requires i < 4
    ensures ParseOctets(s, i) == Some(a) <==> |a| == 4 - i && s == PrintAddress(a)
    decreases 4 - i
  {
    hide Parse;
    hide Print;
    hide ParseOctets;
    hide PrintAddress;
    OctetsCount(s, i);
    if |a| == 4 - i {
      if i == 3 {
        LastOctet(s, a);
      } else {
        var dot := Find(s, '.');
        if dot < |s| {
          OctetsInvert(s[dot + 1..], i + 1, a[1..]);
        }
        FirstOctet(s, i, a);
      }
    }
  }

  lemma LastOctet(s: string, a: seq<Byte>)
    requires |a| == 1
    ensures ParseOctets(s, 3) == Some(a) <==> s == PrintAddress(a)
  {
    hide Parse;
    hide Print;
    var dot, n := Find(s, '.'), a[0] as nat;
    PrintHasNo(n, '.');
    FindNothing(Print(n), '.');
    assert dot == |s| ==> s[..dot] == s;
    ParseInvertsPrint(s, 255, n);
    if ParseOctets(s, 3) == Some(a) {
      assert Parse(s, 255) == Some(n);
    }
    if Parse(s, 255) == Some(n) && dot == |s| {
      assert ParseOctets(s, 3) == Some([n as Byte]);
      assert a == [n as Byte];
    }
  }

  lemma FirstOctet(s: string, i: nat, a: seq<Byte>)
    requires i < 3 && |a| == 4 - i
    requires var dot := Find(s, '.');
             dot < |s| ==> (ParseOctets(s[dot + 1..], i + 1) == Some(a[1..]) <==> s[dot + 1..] == PrintAddress(a[1..]))
    ensures ParseOctets(s, i) == Some(a) <==> s == PrintAddress(a)
  {
    hide Parse;
    hide Print;
    hide ParseOctets;
    hide Prefixed;
    var dot, n, tail := Find(s, '.'), a[0] as nat, a[1..];
    PrintHasNo(n, '.');
    SplitJoined(Print(n), '.', PrintAddress(tail));
    OctetsUnfold(s, i);
    if dot < |s| {
      assert s == s[..dot] + ['.'] + s[dot + 1..];
      ParseInvertsPrint(s[..dot], 255, n);
      PrefixIsSome(Parse(s[..dot], 255), ParseOctets(s[dot + 1..], i + 1), a);
    }
    if s == PrintAddress(a) {
      assert dot == |Print(n)| && s[..dot] == Print(n) && s[dot + 1..] == PrintAddress(tail);
    }
  }

  lemma PrefixIsSome(n: Option<nat>, rest: Option<seq<Byte>>, a: seq<Byte>)
    requires a != [] && (n.Some? ==> n.value <= 255)
    ensures n.Some? ==> (Prefixed([n.value as Byte], rest) == Some(a) <==> n == Some(a[0] as nat) && rest == Some(a[1..]))
  {
    if n.Some? && rest.Some? {
      var joined := [n.value as Byte] + rest.value;
      assert joined[1..] == rest.value && a == [a[0]] + a[1..];
    }
  }

  lemma {:induction false} OctetsCount(s: string, i: nat)
    requires i < 4
    ensures ParseOctets(s, i).Some? ==> |ParseOctets(s, i).value| == 4 - i
    decreases 4 - i
  {
    var dot := Find(s, '.');
    if i < 3 && dot < |s| {
      OctetsCount(s[dot + 1..], i + 1);
    }
  }

  // The octet loop: the view shrinks while the array is filled in place.
  method ParseAddress(text: string) returns (r: Option<Octets>)
    ensures r == ParseOctets(text, 0)
  {
    hide Parse;
    hide ParseOctets;
    hide Prefixed;
    var octets := new Byte[4];
    var address := text;
    PrefixMore([], 0, ParseOctets(text, 0));
    assert octets[..0] == [];
    for i := 0 to 4
      invariant i < 4 ==> ParseOctets(text, 0) == Prefixed(octets[..i], ParseOctets(address, i))
      invariant i == 4 ==> ParseOctets(text, 0) == Some(octets[..])
    {
      OctetStep(octets[..i], address, i);
      var dot := Find(address, '.');
      if (i < 3) != (dot < |address|) {
        return None;
      }
      var part := ParseUnsignedDecimal(address[..dot], 255);
      if part == None {
        return None;
      }
      ghost var before := octets[..i];
      octets[i] := part.value as Byte;
      assert octets[..i + 1] == before + [octets[i]];
      if i == 3 {
        assert Prefixed(before, ParseOctets(address, 3)) == Some(octets[..4]);
        assert octets[..4] == octets[..];
      } else {
        address := address[dot + 1..];
      }
    }
    r := Some(octets[..]);
  }

  // One round of the octet loop, after the octets a.
  lemma OctetStep(a: seq<Byte>, s: string, i: nat)
    requires i < 4
    ensures var dot := Find(s, '.');
            if (i < 3) != (dot < |s|) || Parse(s[..dot], 255) == None then Prefixed(a, ParseOctets(s, i)) == None
            else
              var n := Parse(s[..dot], 255).value as Byte;
              Prefixed(a, ParseOctets(s, i)) ==
                if i == 3 then Some(a + [n]) else Prefixed(a + [n], ParseOctets(s[dot + 1..], i + 1))
  {
    hide Parse;
    hide ParseOctets;
    hide Prefixed;
    var dot := Find(s, '.');
    OctetsUnfold(s, i);
    PrefixNone(a);
    if (i < 3) == (dot < |s|) && Parse(s[..dot], 255).Some? {
      var n := Parse(s[..dot], 255).value as Byte;
      if i == 3 {
        PrefixSome(a, [n]);
      } else {
        PrefixMore(a, n, ParseOctets(s[dot + 1..], i + 1));
      }
    }
  }

  lemma PrefixNone(a: seq<Byte>)
    ensures Prefixed(a, None) == None
  {
  }

  lemma PrefixSome(a: seq<Byte>, s: seq<Byte>)
    ensures Prefixed(a, Some(s)) == Some(a + s)
  {
  }

  lemma OctetsUnfold(s: string, i: nat)
    requires i < 4
    ensures var dot := Find(s, '.');
            if (i < 3) != (dot < |s|) || Parse(s[..dot], 255) == None then ParseOctets(s, i) == None
            else
              var n := Parse(s[..dot], 255).value as Byte;
              ParseOctets(s, i) == if i == 3 then Some([n]) else Prefixed([n], ParseOctets(s[dot + 1..], i + 1))
  {
    hide Parse;
    hide Prefixed;
  }

  lemma PrefixMore(a: seq<Byte>, b: Byte, rest: Option<seq<Byte>>)
    ensures Prefixed(a, Prefixed([b], rest)) == Prefixed(a + [b], rest)
    ensures Prefixed([], rest) == rest
  {
    if rest.Some? {
      assert a + ([b] + rest.value) == a + [b] + rest.value;
      assert [] + rest.value == rest.value;
    }
  }

  // parseIpv4Endpoint and formatEndpoint are inverse to each other: a text is accepted exactly if
  // it is the printed form of a permitted endpoint, and then that endpoint is the result.
  method ParseIpv4Endpoint(value: string, backend: bool) returns (r: Option<Endpoint>)
    ensures r.Some? ==> value == PrintEndpoint(r.value) && Permitted(r.value, backend)
    ensures r == None ==> forall e :: Permitted(e, backend) ==> value != PrintEndpoint(e)
  {
    hide Parse;
    hide Print;
    hide ParseOctets;
    hide PrintAddress;
    var colon := Find(value, ':');
    assert forall e :: value == PrintEndpoint(e) ==> Printed(value, e) by {
      forall e | value == PrintEndpoint(e) ensures Printed(value, e) {
        SplitsAtColon(value, e);
      }
    }
    if colon == |value| {
      return None;
    }
    assert value == value[..colon] + [':'] + value[colon + 1..];
    var port := ParseUnsignedDecimal(value[colon + 1..], 65535);
    if port == None || port.value == 0 {
      return None;
    }
    ParseInvertsPrint(value[colon + 1..], 65535, port.value);
    var address := ParseAddress(value[..colon]);
    if address == None {
      return None;
    }
    OctetsInvert(value[..colon], 0, address.value);
    var e := Endpoint(address.value, port.value);
    assert value == PrintEndpoint(e);
    if (224 <= e.address[0] <= 239) || e.address == [255, 255, 255, 255] || (backend && e.address == [0, 0, 0, 0]) {
      return None;
    }
    r := Some(e);
  }

  // The printed form of e, taken apart.
  ghost predicate Printed(value: string, e: Endpoint) {
    var colon := Find(value, ':');
    && colon < |value|
    && ParseOctets(value[..colon], 0) == Some(e.address)
    && (0 < e.port <= 65535 ==> Parse(value[colon + 1..], 65535) == Some(e.port))
  }

  lemma SplitsAtColon(value: string, e: Endpoint)
    requires value == PrintEndpoint(e)
    ensures Printed(value, e)
  {
    hide Parse;
    hide Print;
    hide ParseOctets;
    hide PrintAddress;
    var a, p := PrintAddress(e.address), Print(e.port);
    AddressHasNoColon(e.address);
    SplitJoined(a, ':', p);
    assert value[..|a|] == a && value[|a| + 1..] == p;
    OctetsInvert(a, 0, e.address);
    if e.port <= 65535 {
      ParseInvertsPrint(p, 65535, e.port);
    }
  }

  lemma {:induction false} AddressHasNoColon(a: seq<Byte>)
    requires a != []
    ensures ':' !in PrintAddress(a)
  {
    PrintHasNo(a[0] as nat, ':');
    if |a| > 1 {
      AddressHasNoColon(a[1..]);
    }
  }

  // Different permitted endpoints have different printed forms.
  lemma PrintEndpointInjective(e: Endpoint, f: Endpoint)
    requires Permitted(e, false) && Permitted(f, false) && PrintEndpoint(e) == PrintEndpoint(f)
    ensures e == f
  {
    SplitsAtColon(PrintEndpoint(e), e);
    SplitsAtColon(PrintEndpoint(f), f);
  }
}
