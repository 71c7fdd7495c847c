/**
 * The IPv6 fixed header as the router reads it (section 3 of RFC 8200), the
 * 64-bit network prefix of an address, and the local-destination test.
 */
module Ipv6 {
  import opened Bytes

  /** A 128-bit address, as the 16 bytes of a `struct in6_addr`. */
  type Address = a: seq<byte> | |a| == 16 witness [0, 0, 0, 0, 0, 0, 0, 0, 0, 0, 0, 0, 0, 0, 0, 0]

  /** sizeof(struct ipv6_header). */
  const HeaderSize: nat := 40
  /** The next-header value that marks a routing-protocol payload. */
  const RoutingProtocol: byte := 2
  /** Number of leading address bytes that form the network prefix. */
  const PrefixBytes: nat := 8

  /** ff02::1, link-local all-nodes multicast (section 2.7.1 of RFC 4291). */
  const AllNodes: Address := [0xff, 0x02, 0, 0, 0, 0, 0, 0, 0, 0, 0, 0, 0, 0, 0, 0x01]

  /** A buffer long enough to hold the fixed header. */
  type Packet = p: seq<byte> | |p| >= HeaderSize witness seq(40, _ => 0)

  function PayloadLength(p: Packet): uint16 { ReadBe16(p[4..6]) }
  function NextHeader(p: Packet): byte { p[6] }
  function HopLimit(p: Packet): byte { p[7] }
  function Source(p: Packet): Address { p[8..24] }
  function Destination(p: Packet): Address { p[24..40] }

  /** get_network_prefix: keeps the first 64 bits of `a` and zeroes the host part. */
  function Prefix(a: Address): (r: Address)
    ensures forall i :: 0 <= i < PrefixBytes ==> r[i] == a[i]
    ensures forall i :: PrefixBytes <= i < 16 ==> r[i] == 0
  {
    a[..PrefixBytes] + [0, 0, 0, 0, 0, 0, 0, 0]
  }

  /** The host part of `a` is all zero. */
  predicate IsPrefix(a: Address)
  {
    forall i :: PrefixBytes <= i < 16 ==> a[i] == 0
  }

  /** memcmp(a, b, 8) == 0: the two addresses lie in the same /64 network. */
  predicate SamePrefix(a: Address, b: Address)
  {
    a[..PrefixBytes] == b[..PrefixBytes]
  }

  lemma PrefixIdempotent(a: Address)
    ensures Prefix(Prefix(a)) == Prefix(a)
  {
  }

  /** Two prefixes are equal exactly when their network parts agree. */
  lemma SamePrefixIsEquality(a: Address, b: Address)
    requires IsPrefix(a) && IsPrefix(b)
    ensures SamePrefix(a, b) <==> a == b
  {
    if SamePrefix(a, b) {
      forall i | 0 <= i < 16 ensures a[i] == b[i] {
        if i < PrefixBytes {
          assert a[..PrefixBytes][i] == b[..PrefixBytes][i];
        }
      }
    }
  }

  /** An address and its prefix always lie in the same network. */
  lemma PrefixSameNetwork(a: Address)
    ensures IsPrefix(Prefix(a)) && SamePrefix(Prefix(a), a)
  {
  }

  /** The packets the router keeps: those addressed to a local interface address or to ff02::1. */
  predicate IsForRouter(dest: Address, locals: seq<Address>)
  {
    dest in locals || dest == AllNodes
  }

  /** is_packet_for_router: compare with each local address in turn, then with ff02::1. */
  method IsPacketForRouter(dest: Address, locals: seq<Address>) returns (r: bool)
    ensures r <==> IsForRouter(dest, locals)
  {
    var i := 0;
    while i < |locals|
      invariant 0 <= i <= |locals|
      invariant dest !in locals[..i]
    {
      if locals[i] == dest {
        return true;
      }
      i := i + 1;
    }
    assert locals[..i] == locals;
    r := dest == AllNodes;
  }

  /** The packet with its hop-limit byte (offset 7) replaced by `h`. */
  function WithHopLimit(p: Packet, h: byte): (r: Packet)
    ensures |r| == |p| && HopLimit(r) == h
    ensures forall i :: 0 <= i < |p| && i != 7 ==> r[i] == p[i]
  {
    p[7 := h]
  }

  /** The forwarded copy: identical except that the hop limit is one less. */
  function Decremented(p: Packet): (r: Packet)
    requires HopLimit(p) > 1
    ensures |r| == |p| && HopLimit(r) == HopLimit(p) - 1
    ensures forall i :: 0 <= i < |p| && i != 7 ==> r[i] == p[i]
    ensures Source(r) == Source(p) && Destination(r) == Destination(p) && NextHeader(r) == NextHeader(p)
    ensures r[HeaderSize..] == p[HeaderSize..]
  {
    WithHopLimit(p, HopLimit(p) - 1)
  }
}
