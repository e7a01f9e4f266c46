/**
 * The byte layout in which the socket engine hands UDP peer addresses to
 * services and takes them back: a protocol tag byte, the two port bytes as
 * they sit in the socket address (network order), then the 4 address bytes
 * of IPv4 or the 16 of IPv6. gen_udp_address writes it and
 * udp_socket_address reads it back into a socket address.
 */
module UdpAddress {
  import opened Wrappers

  const ProtocolTcp: nat := 0
  const ProtocolUdp: nat := 1
  const ProtocolUdpV6: nat := 2
  /** UDP_ADDRESS_SIZE: tag, port and an IPv6 address. */
  const UdpAddressSize: nat := 19
  /** sizeof(struct sockaddr_in) and sizeof(struct sockaddr_in6). */
  const SockaddrInSize: nat := 16
  const SockaddrIn6Size: nat := 28

  /** The port and address bytes of a sockaddr_in or sockaddr_in6. */
  datatype SockAddr = V4(port: seq<bv8>, addr: seq<bv8>) | V6(port: seq<bv8>, addr: seq<bv8>)

  predicate WellFormed(sa: SockAddr)
  {
    |sa.port| == 2 && |sa.addr| == (if sa.V4? then 4 else 16)
  }

  /** The protocol whose tag an address of this family carries. */
  function ProtocolOf(sa: SockAddr): nat
  {
    if sa.V4? then ProtocolUdp else ProtocolUdpV6
  }

  /**
   * gen_udp_address: the tag, then the port, then the address; the result's
   * length is the size the function returns, 7 for IPv4 and 19 for IPv6.
   */
  function GenUdpAddress(protocol: nat, sa: SockAddr): (r: seq<bv8>)
    requires WellFormed(sa) && protocol == ProtocolOf(sa)
    ensures |r| == (if protocol == ProtocolUdp then 7 else 19) && |r| <= UdpAddressSize
    ensures r[0] as nat == protocol
  {
    [protocol as bv8] + sa.port + sa.addr
  }

  /**
   * udp_socket_address: decodes the 19-byte buffer for a socket of protocol
   * `protocol`; None (a length of 0) when the tag is not the socket's
   * protocol or the socket is not a UDP one.
   */
  function UdpSocketAddress(protocol: nat, a: seq<bv8>): (r: Option<SockAddr>)
    requires |a| == UdpAddressSize
    ensures r.Some? ==> WellFormed(r.value) && ProtocolOf(r.value) == protocol && a[0] as nat == protocol
    ensures a[0] as nat != protocol ==> r.None?
    ensures (protocol == ProtocolUdp || protocol == ProtocolUdpV6) && a[0] as nat == protocol ==> r.Some?
  {
    if a[0] as nat != protocol then None
    else if protocol == ProtocolUdp then Some(V4(a[1..3], a[3..7]))
    else if protocol == ProtocolUdpV6 then Some(V6(a[1..3], a[3..19]))
    else None
  }

  /** The socklen_t udp_socket_address returns. */
  function SockLen(r: Option<SockAddr>): nat
  {
    match r
    case None => 0
    case Some(V4(_, _)) => SockaddrInSize
    case Some(V6(_, _)) => SockaddrIn6Size
  }

  /** Decoding what gen_udp_address wrote gives the socket address back, whatever follows it in the buffer. */
  lemma GenThenDecode(sa: SockAddr, rest: seq<bv8>)
    requires WellFormed(sa) && |GenUdpAddress(ProtocolOf(sa), sa) + rest| == UdpAddressSize
    ensures UdpSocketAddress(ProtocolOf(sa), GenUdpAddress(ProtocolOf(sa), sa) + rest) == Some(sa)
  {
    var a := GenUdpAddress(ProtocolOf(sa), sa) + rest;
    assert a[1..3] == sa.port;
    if sa.V4? {
      assert a[3..7] == sa.addr;
    } else {
      assert a[3..19] == sa.addr;
    }
  }

  /** Encoding a decoded address gives back the buffer's meaningful prefix. */
  lemma DecodeThenGen(protocol: nat, a: seq<bv8>)
    requires |a| == UdpAddressSize && UdpSocketAddress(protocol, a).Some?
    ensures var g := GenUdpAddress(protocol, UdpSocketAddress(protocol, a).value); g == a[..|g|]
  {
    var sa := UdpSocketAddress(protocol, a).value;
    var g := GenUdpAddress(protocol, sa);
    assert g[0] == a[0];
    if protocol == ProtocolUdp {
      assert a[..7] == [a[0]] + a[1..3] + a[3..7];
    } else {
      assert a[..19] == [a[0]] + a[1..3] + a[3..19];
    }
  }

  /** Two buffers that agree on the bytes the protocol reads decode alike. */
  lemma DecodeReadsPrefix(protocol: nat, a: seq<bv8>, b: seq<bv8>)
    requires |a| == UdpAddressSize && |b| == UdpAddressSize
    requires a[..(if protocol == ProtocolUdp then 7 else 19)] == b[..(if protocol == ProtocolUdp then 7 else 19)]
    ensures UdpSocketAddress(protocol, a) == UdpSocketAddress(protocol, b)
  {
    var n := if protocol == ProtocolUdp then 7 else 19;
    assert a[0] == a[..n][0] && b[0] == b[..n][0];
    assert a[1..3] == a[..n][1..3] && b[1..3] == b[..n][1..3];
    if protocol == ProtocolUdp {
      assert a[3..7] == a[..n][3..7] && b[3..7] == b[..n][3..7];
    } else {
      assert a[3..19] == a[..n][3..19] && b[3..19] == b[..n][3..19];
    }
  }
}
