/**
 Probe packets: a fixed magic, the process epoch and a sequence number, both in big-endian
 order. One sequence is shared by every checker of the process, so no two packets are equal.
 */
module ProbeNonce {
  import opened Common

  const MAGIC: seq<Byte> := [76, 52, 76, 66, 72, 67, 48, 49]  // "L4LBHC01"
  const PACKET_BYTES: nat := 24

  function Pow256(n: nat): (p: nat)
    ensures 1 <= p
  {
    if n == 0 then 1 else 256 * Pow256(n - 1)
  }

  // The n low-order bytes of x, most significant first.
  function BigEndian(x: nat, n: nat): (bytes: seq<Byte>)
    ensures |bytes| == n
  {
    if n == 0 then [] else BigEndian(x / 256, n - 1) + [(x % 256) as Byte]
  }

  function FromBigEndian(bytes: seq<Byte>): nat {
    if bytes == [] then 0 else 256 * FromBigEndian(bytes[..|bytes| - 1]) + bytes[|bytes| - 1] as nat
  }

  // Decoding gives the number back whenever it fits.
  lemma {:induction false} BigEndianRoundTrip(x: nat, n: nat)
    requires x < Pow256(n)
    ensures FromBigEndian(BigEndian(x, n)) == x
  {
    if n != 0 {
      BigEndianRoundTrip(x / 256, n - 1);
      assert BigEndian(x, n)[..n - 1] == BigEndian(x / 256, n - 1);
    }
  }

  lemma Pow256Values()
    ensures Pow256(7) == 0x100_0000_0000_0000 && Pow256(8) == 0x1_0000_0000_0000_0000
  {
    assert Pow256(2) == 0x1_0000 && Pow256(4) == 0x1_0000_0000 && Pow256(6) == 0x1_0000_0000_0000;
  }

  // Division by 256 and then by p is division by their product.
  lemma DivideTwice(x: nat, p: nat)
    requires 1 <= p
    ensures 1 <= 256 * p && (x / 256) / p == x / (256 * p)
  {
    var q, r := x / 256, x % 256;
    var q2, r2 := q / p, q % p;
    assert x == 256 * (p * q2 + r2) + r;
    assert 256 * (p * q2) == 256 * p * q2;
    assert x == 256 * p * q2 + (256 * r2 + r) && 0 <= 256 * r2 + r < 256 * p;
    QuotientUnique(x, 256 * p, q2, 256 * r2 + r);
  }

  lemma QuotientUnique(x: nat, d: nat, q: nat, r: nat)
    requires 1 <= d && x == d * q + r && r < d
    ensures x / d == q
  {
    var k := x / d - q;
    assert x == d * (x / d) + x % d;
    assert d * (x / d) == d * q + d * k;
    assert k >= 1 ==> d * k >= d;
    assert k <= -1 ==> d * k <= -1 * d;
  }

  // Byte i is what shifting by 8 * (n - 1 - i) bits and truncating to a byte selects.
  lemma {:induction false} BigEndianByte(x: nat, n: nat, i: nat)
    requires i < n
    ensures BigEndian(x, n)[i] as nat == (x / Pow256(n - 1 - i)) % 256
  {
    if i < n - 1 {
      BigEndianByte(x / 256, n - 1, i);
      DivideTwice(x, Pow256(n - 2 - i));
    }
  }

  // The packet of sequence number n in epoch e.
  function Encode(e: nat, n: nat): (packet: seq<Byte>)
    ensures |packet| == PACKET_BYTES
  {
    MAGIC + BigEndian(e, 8) + BigEndian(n, 8)
  }

  // Distinct (epoch, sequence) pairs have distinct packets.
  lemma EncodeInjective(e: nat, n: nat, f: nat, m: nat)
    requires e <= U64_MAX && n <= U64_MAX && f <= U64_MAX && m <= U64_MAX
    requires Encode(e, n) == Encode(f, m)
    ensures e == f && n == m
  {
    Pow256Values();
    assert BigEndian(e, 8) == Encode(e, n)[8..16] == Encode(f, m)[8..16] == BigEndian(f, 8);
    assert BigEndian(n, 8) == Encode(e, n)[16..] == Encode(f, m)[16..] == BigEndian(m, 8);
    BigEndianRoundTrip(e, 8);
    BigEndianRoundTrip(f, 8);
    BigEndianRoundTrip(n, 8);
    BigEndianRoundTrip(m, 8);
  }

  /** The shared sequence; it refuses to wrap. */
  class ProbeNonceSequence {
    const epoch: nat
    var lastSequence: nat

    ghost predicate Valid()
      reads this
    {
      epoch <= U64_MAX && lastSequence <= U64_MAX
    }

    constructor (epoch: nat, lastSequence: nat)
      requires epoch <= U64_MAX && lastSequence <= U64_MAX
      ensures Valid() && this.epoch == epoch && this.lastSequence == lastSequence
    {
      this.epoch, this.lastSequence := epoch, lastSequence;
    }

    // ok is false when the sequence is exhausted.
    method GenerateProbePacket() returns (packet: seq<Byte>, ok: bool)
      requires Valid()
      modifies this`lastSequence
      ensures Valid()
      ensures ok <==> old(lastSequence) < U64_MAX
      ensures ok ==> lastSequence == old(lastSequence) + 1 && packet == Encode(epoch, lastSequence)
      ensures !ok ==> lastSequence == old(lastSequence)
    {
      if lastSequence == U64_MAX {
        return [], false;
      }
      lastSequence := lastSequence + 1;
      packet := BuildPacket(epoch, lastSequence);
      ok := true;
    }
  }

  // The byte loop of generateProbePacket.
  method BuildPacket(e: nat, n: nat) returns (packet: seq<Byte>)
    ensures packet == Encode(e, n)
  {
    var bytes := new Byte[PACKET_BYTES](i => if 0 <= i < 8 then MAGIC[i] else 0);
    for index := 0 to 8
      invariant forall i :: 0 <= i < 8 ==> bytes[i] == MAGIC[i]
      invariant forall i :: 0 <= i < index ==> bytes[8 + i] == BigEndian(e, 8)[i] && bytes[16 + i] == BigEndian(n, 8)[i]
    {
      BigEndianByte(e, 8, index);
      BigEndianByte(n, 8, index);
      bytes[8 + index] := ((e / Pow256(7 - index)) % 256) as Byte;
      bytes[16 + index] := ((n / Pow256(7 - index)) % 256) as Byte;
    }
    packet := bytes[..];
  }
}
