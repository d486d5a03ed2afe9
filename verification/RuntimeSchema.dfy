/**
 The data shared between control plane and packet programs (src/xdp/UdpDsrSchema.h and
 UdpRuntimeSchema.h). Addresses and ports are kept as their bytes in network order, which is
 what both sides compare.
 */
module RuntimeSchema {
  import opened Common

  const MAX_BACKENDS: nat := 64
  const STATIC_SCHEMA: nat := 2
  const RUNTIME_SCHEMA: nat := 3

  type Mac = m: seq<Byte> | |m| == 6 witness [0, 0, 0, 0, 0, 0]
  type Address = a: seq<Byte> | |a| == 4 witness [0, 0, 0, 0]
  type Port = p: seq<Byte> | |p| == 2 witness [0, 0]

  const NO_MAC: Mac := [0, 0, 0, 0, 0, 0]
  const NO_ADDRESS: Address := [0, 0, 0, 0]
  const NO_PORT: Port := [0, 0]

  datatype Backend = Backend(ifindex: nat, destinationMac: Mac, sourceMac: Mac)
  const EMPTY_BACKEND := Backend(0, NO_MAC, NO_MAC)

  datatype Snapshot = Snapshot(
    schemaVersion: nat, backendCount: nat, generation: nat, vipAddress: Address, vipPort: Port, reserved: nat,
    backends: seq<Backend>)

  datatype StaticConfig = StaticConfig(
    schemaVersion: nat, backendCount: nat, vipAddress: Address, vipPort: Port, reserved: nat)

  // A unicast address that is not all zeros.
  predicate UnicastMac(mac: Mac) {
    mac[0] % 2 == 0 && mac != NO_MAC
  }

  // The test as both sides of the maps write it: group bit clear, some bit set.
  predicate ValidMac(mac: Mac) {
    (mac[0] as bv8) & 1 == 0
    && (mac[0] as bv8) | (mac[1] as bv8) | (mac[2] as bv8) | (mac[3] as bv8) | (mac[4] as bv8) | (mac[5] as bv8) != 0
  }

  lemma ValidMacMeaning(mac: Mac)
    ensures ValidMac(mac) <==> UnicastMac(mac)
  {
    var b0, b1, b2, b3, b4, b5 :=
      mac[0] as bv8, mac[1] as bv8, mac[2] as bv8, mac[3] as bv8, mac[4] as bv8, mac[5] as bv8;
    assert b0 & 1 == 0 <==> mac[0] % 2 == 0;
    assert b0 | b1 | b2 | b3 | b4 | b5 == 0 <==> b0 == 0 && b1 == 0 && b2 == 0 && b3 == 0 && b4 == 0 && b5 == 0;
    assert mac == NO_MAC <==> mac[0] == 0 && mac[1] == 0 && mac[2] == 0 && mac[3] == 0 && mac[4] == 0 && mac[5] == 0;
  }

  predicate UsableBackend(b: Backend) {
    b.ifindex != 0 && ValidMac(b.destinationMac) && ValidMac(b.sourceMac)
  }
}
