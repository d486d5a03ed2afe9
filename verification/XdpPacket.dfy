/**
 The XDP packet programs (xdp_udp_runtime.bpf.c and xdp_udp_dsr.bpf.c): which frames they
 accept, how they pick a backend, and what they do to the frame and the counters.
 */
module XdpPacket {
  import opened Common
  import opened RuntimeSchema

  const HEADERS: nat := 42          // Ethernet, IPv4 without options, UDP
  const ETHERNET: nat := 14
  const MAX_IP_LENGTH: nat := 1500
  const U32: nat := 0x1_0000_0000
  const U64: nat := 0x1_0000_0000_0000_0000
  const FNV_OFFSET: nat := 2166136261
  const FNV_PRIME: nat := 16777619

  // 64-bit arithmetic wraps.
  function Mod64(x: nat): (r: nat)
    ensures r < U64
  {
    x % U64
  }

  function Word(high: Byte, low: Byte): (w: nat)
    ensures w < 0x1_0000
  {
    256 * high as nat + low as nat
  }

  // ---- Header checksum, section 1 of RFC 1071 ----

  // One's-complement addition of 16-bit words: the carry is added back.
  function OnesAdd(a: nat, b: nat): (c: nat)
    requires a <= 0xFFFF && b <= 0xFFFF
    ensures c <= 0xFFFF
  {
    if a + b <= 0xFFFF then a + b else a + b - 0xFFFF
  }

  function OnesSum(words: seq<nat>): (c: nat)
    requires forall i :: 0 <= i < |words| ==> words[i] <= 0xFFFF
    ensures c <= 0xFFFF
  {
    if words == [] then 0 else OnesAdd(OnesSum(words[..|words| - 1]), words[|words| - 1])
  }

  function PlainSum(words: seq<nat>): nat {
    if words == [] then 0 else PlainSum(words[..|words| - 1]) + words[|words| - 1]
  }

  // (c & 0xffff) + (c >> 16)
  function Fold(c: nat): nat {
    c % 0x1_0000 + c / 0x1_0000
  }

  // Folding adds the carries back: the residue modulo 0xFFFF stays, and only 0 becomes 0.
  lemma FoldResidue(c: nat)
    ensures Fold(c) % 0xFFFF == c % 0xFFFF
    ensures Fold(c) == 0 <==> c == 0
    ensures c >= 0x1_0000 ==> Fold(c) < c
  {
    var high, low := c / 0x1_0000, c % 0x1_0000;
    assert c == high * 0xFFFF + (high + low);
    Multiples(high, high + low);
  }

  lemma {:induction false} Multiples(k: nat, r: nat)
    ensures (k * 0xFFFF + r) % 0xFFFF == r % 0xFFFF
  {
    if k != 0 {
      Multiples(k - 1, r);
      assert k * 0xFFFF + r == ((k - 1) * 0xFFFF + r) + 0xFFFF;
    }
  }

  lemma {:induction false} OnesSumResidue(words: seq<nat>)
    requires forall i :: 0 <= i < |words| ==> words[i] <= 0xFFFF
    ensures OnesSum(words) % 0xFFFF == PlainSum(words) % 0xFFFF
    ensures OnesSum(words) == 0 <==> PlainSum(words) == 0
    ensures PlainSum(words) <= |words| * 0xFFFF
  {
    if words != [] {
      var before, w := words[..|words| - 1], words[|words| - 1];
      OnesSumResidue(before);
      ResidueAdd(OnesSum(before), PlainSum(before), w);
    }
  }

  lemma ResidueAdd(a: nat, b: nat, w: nat)
    requires a % 0xFFFF == b % 0xFFFF && a <= 0xFFFF && w <= 0xFFFF
    ensures OnesAdd(a, w) % 0xFFFF == (b + w) % 0xFFFF
  {
    var k := b / 0xFFFF;
    assert b == k * 0xFFFF + b % 0xFFFF;
    Multiples(k, b % 0xFFFF + w);
    assert (b + w) % 0xFFFF == (a % 0xFFFF + w) % 0xFFFF;
  }

  // Two folds of the plain sum of at most 65536 words are exactly the one's-complement sum.
  lemma TwoFoldsAreOnesSum(words: seq<nat>)
    requires forall i :: 0 <= i < |words| ==> words[i] <= 0xFFFF
    requires |words| <= 0x1_0000
    ensures Fold(Fold(PlainSum(words))) == OnesSum(words)
  {
    var c := PlainSum(words);
    OnesSumResidue(words);
    FoldResidue(c);
    FoldResidue(Fold(c));
    assert c / 0x1_0000 <= 0xFFFF;
    SameResidue(Fold(Fold(c)), OnesSum(words));
  }

  lemma SameResidue(a: nat, b: nat)
    requires a <= 0xFFFF && b <= 0xFFFF && a % 0xFFFF == b % 0xFFFF && (a == 0 <==> b == 0)
    ensures a == b
  {
  }

  // ---- Frames ----

  // The ten 16-bit words of the option-free IPv4 header.
  ghost function HeaderWords(f: seq<Byte>): (words: seq<nat>)
    requires HEADERS <= |f|
    ensures |words| == 10 && forall i :: 0 <= i < 10 ==> words[i] <= 0xFFFF
  {
    seq(10, i requires 0 <= i < 10 => Word(f[14 + 2 * i], f[15 + 2 * i]))
  }

  // Section 3.1 of RFC 791, restricted: IPv4 in Ethernet, no options, UDP, not a fragment, total
  // length inside the frame and the MTU, matching UDP length, correct header checksum.
  ghost predicate Supported(f: seq<Byte>) {
    && HEADERS <= |f|
    && Word(f[12], f[13]) == 0x0800 && f[14] == 0x45 && f[23] == 17
    && (f[20] == 0 || f[20] == 0x40) && f[21] == 0
    && 28 <= Word(f[16], f[17]) <= MAX_IP_LENGTH && ETHERNET + Word(f[16], f[17]) <= |f|
    && Word(f[38], f[39]) == Word(f[16], f[17]) - 20
    && OnesSum(HeaderWords(f)) == 0xFFFF
  }

  // A 32-bit word xor a byte: only the low eight bits change.
  function XorByte(h: nat, b: Byte): (x: nat)
    requires h < U32
    ensures x < U32 && x / 256 == h / 256 && x % 256 == XorLow(h % 256, b)
  {
    h / 256 * 256 + XorLow(h % 256, b)
  }

  function XorLow(low: nat, b: Byte): (x: nat)
    requires low < 256
    ensures x < 256 && x as bv8 == low as bv8 ^ b as bv8
  {
    (low as bv8 ^ b as bv8) as nat
  }

  // One step of the 32-bit FNV-1a hash; the product wraps.
  function FnvStep(h: nat, b: Byte): (r: nat)
    requires h < U32
    ensures r < U32
  {
    XorByte(h, b) * FNV_PRIME % U32
  }

  function Fnv(bytes: seq<Byte>): (h: nat)
    ensures h < U32
  {
    if bytes == [] then FNV_OFFSET else FnvStep(Fnv(bytes[..|bytes| - 1]), bytes[|bytes| - 1])
  }

  // Hash of the flow: addresses, ports, protocol.
  ghost function FlowHash(f: seq<Byte>): (h: nat)
    requires HEADERS <= |f|
    ensures h < U32
  {
    Fnv(f[26..38] + [17])
  }

  // The recurrence, with its constants.
  lemma FnvRecurrence(bytes: seq<Byte>, b: Byte)
    ensures Fnv([]) == 2166136261
    ensures exists q: nat :: q * 0x1_0000_0000 + Fnv(bytes + [b]) == XorByte(Fnv(bytes), b) * 16777619
  {
    assert (bytes + [b])[..|bytes|] == bytes;
    var product := XorByte(Fnv(bytes), b) * 16777619;
    assert product / U32 * 0x1_0000_0000 + Fnv(bytes + [b]) == product;
  }

  // The prime is odd, so multiplying by it modulo 2^32 can be undone.
  lemma PrimeInverts(x: nat)
    requires x < U32
    ensures x * FNV_PRIME % U32 * 899433627 % U32 == x
  {
    var q := x * FNV_PRIME / U32;
    assert FNV_PRIME * 899433627 == 3513497 * U32 + 1;
    AddMultiples(x, 3513497 * x - q * 899433627);
  }

  lemma AddMultiples(x: nat, k: int)
    requires x < U32
    ensures (x + k * U32) % U32 == x
  {
  }

  // A step forgets nothing: the state before it can be told from the state after it, and so can
  // the byte.
  lemma StepInjective(g: nat, h: nat, b: Byte, c: Byte)
    requires g < U32 && h < U32 && FnvStep(g, b) == FnvStep(h, c)
    ensures b == c <==> g == h
  {
    hide XorByte;
    hide XorLow;
    PrimeInverts(XorByte(g, b));
    PrimeInverts(XorByte(h, c));
    LowInjective(g % 256, h % 256, b, c);
    assert g == g / 256 * 256 + g % 256 && h == h / 256 * 256 + h % 256;
  }

  lemma LowInjective(g: nat, h: nat, b: Byte, c: Byte)
    requires g < 256 && h < 256 && XorLow(g, b) == XorLow(h, c)
    ensures b == c <==> g == h
  {
    hide XorLow;
    XorCancels(g as bv8, h as bv8, b as bv8, c as bv8);
    Octet(g);
    Octet(h);
    Octet(b as nat);
    Octet(c as nat);
  }

  lemma XorCancels(g: bv8, h: bv8, b: bv8, c: bv8)
    requires g ^ b == h ^ c
    ensures b == c <==> g == h
  {
  }

  // Two byte strings of one length that differ in exactly one place have different hashes: a new
  // port byte, say, always gives a new hash.
  lemma {:induction false} OneByteMatters(a: seq<Byte>, b: seq<Byte>, k: nat)
    requires |a| == |b| && k < |a| && a[k] != b[k]
    requires forall i :: 0 <= i < |a| && i != k ==> a[i] == b[i]
    ensures Fnv(a) != Fnv(b)
  {
    hide FnvStep;
    var last := |a| - 1;
    if Fnv(a) == Fnv(b) {
      StepInjective(Fnv(a[..last]), Fnv(b[..last]), a[last], b[last]);
    }
    if k < last {
      OneByteMatters(a[..last], b[..last], k);
    } else {
      assert a[..last] == b[..last];
    }
  }

  // hash % count
  function HashIndex(hash: nat, count: nat): (key: nat)
    requires 0 < count
    ensures key < count && exists q: nat :: hash == q * count + key
  {
    assert hash == hash / count * count + hash % count;
    hash % count
  }

  // The mask that shows the index bound to older kernel verifiers.
  function MaskIndex(key: nat): nat
    requires key < U32
  {
    ((key as bv32) & 63) as nat
  }

  lemma MaskIsNoOp(key: nat)
    requires key < 64
    ensures MaskIndex(key) == key
  {
    hide XorLow;
    hide XorByte;
    hide Mod64;
    hide Word;
    hide FnvStep;
    LowBits(key as bv32);
    assert (key as bv32) < 64;
  }

  lemma LowBits(k: bv32)
    ensures k < 64 ==> k & 63 == k
  {
  }

  // The checksum loop.
  method SumHeader(frame: array<Byte>) returns (checksum: nat)
    requires HEADERS <= frame.Length
    ensures checksum == PlainSum(HeaderWords(frame[..]))
  {
    checksum := 0;
    ghost var words := HeaderWords(frame[..]);
    for i := 0 to 10
      invariant checksum == PlainSum(words[..i])
    {
      assert words[..i + 1][..i] == words[..i];
      checksum := checksum + Word(frame[14 + 2 * i], frame[15 + 2 * i]);
    }
    assert words[..10] == words;
  }

  // The hash loop.
  method HashFlow(frame: array<Byte>) returns (hash: nat)
    requires HEADERS <= frame.Length
    ensures hash == FlowHash(frame[..])
  {
    hide FnvStep;
    hash := FNV_OFFSET;
    ghost var bytes := frame[26..38];
    for i := 26 to 38
      invariant hash == Fnv(bytes[..i - 26])
    {
      assert bytes[..i - 25][..i - 26] == bytes[..i - 26];
      hash := FnvStep(hash, frame[i]);
    }
    assert bytes[..12] == bytes && (bytes + [17])[..12] == bytes;
    hash := FnvStep(hash, 17);
    assert frame[..][26..38] == bytes;
  }

  // Everything both programs check before they look at a configuration.
  method CheckFrame(frame: array<Byte>) returns (ok: bool)
    ensures ok <==> Supported(frame[..])
  {
    if frame.Length < HEADERS {
      return false;
    }
    if frame[12] != 8 || frame[13] != 0 || frame[14] != 0x45 || frame[23] != 17
       || (frame[20] as bv8) & 0xbf != 0 || frame[21] != 0 {
      FlagBits(frame[20]);
      return false;
    }
    FlagBits(frame[20]);
    var ipLength := Word(frame[16], frame[17]);
    var udpLength := Word(frame[38], frame[39]);
    if ipLength < 28 || ipLength > MAX_IP_LENGTH || ETHERNET + ipLength > frame.Length || udpLength != ipLength - 20 {
      return false;
    }
    var checksum := SumHeader(frame);
    TwoFoldsAreOnesSum(HeaderWords(frame[..]));
    ok := Fold(Fold(checksum)) == 0xFFFF;
  }

  // Only "don't fragment" may be set: no reserved bit, no more fragments, no offset bits.
  lemma FlagBits(b: Byte)
    ensures (b as bv8) & 0xbf == 0 <==> b == 0 || b == 0x40
  {
  }
}
