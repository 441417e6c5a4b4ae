// Peer addresses of the connection-oriented UDP transport: the key of the
// connection table is the pair (address bytes, port), taken out of the
// socket address the kernel fills in for a sender, and `send` rebuilds a
// socket address from that pair.
module UdpAddress {
  import opened Common

  datatype Family = Inet | Inet6

  /** `connection_type`: the address bytes and the port in host order. */
  datatype Peer = Peer(addr: seq<byte>, port: uint16)

  /** Addresses the kernel reports: four bytes for IPv4, sixteen for IPv6. */
  predicate ValidPeer(p: Peer) { |p.addr| == 4 || |p.addr| == 16 }

  /**
   * A socket address as it lies in memory: the family field, and the bytes
   * of the structure from offset 0 (the two bytes at offsets 0 and 1 stand
   * for the family field and are not read through `bytes`).
   */
  datatype SockAddr = SockAddr(family: Family, bytes: seq<byte>)

  const SOCKADDR_SIZE: nat := 16
  const SOCKADDR_IN_SIZE: nat := 16
  const SOCKADDR_IN6_SIZE: nat := 28
  const SOCKADDR_STORAGE_SIZE: nat := 128

  /** `htons`: the port as it is stored in a socket address, high byte first. */
  function PortBytes(port: uint16): (b: seq<byte>)
    ensures |b| == 2
  {
    [port / 256, port % 256]
  }

  /** `ntohs` of the two port bytes. */
  function PortOf(hi: byte, lo: byte): uint16
  {
    hi * 256 + lo
  }

  lemma PortRoundTrip(port: uint16)
    ensures PortOf(PortBytes(port)[0], PortBytes(port)[1]) == port
  {
  }

  function Zeros(n: nat): (z: seq<byte>)
    ensures |z| == n && forall k :: 0 <= k < n ==> z[k] == 0
  {
    seq(n, _ => 0)
  }

  /**
   * extract_address_port: IPv4 gives the port at offset 2 and the four
   * address bytes at offset 4; any other family is read as IPv6, with the
   * port at offset 2 and sixteen address bytes at offset 8.
   */
  function ExtractAddressPort(sa: SockAddr): (p: Peer)
    requires |sa.bytes| >= (if sa.family == Inet then 8 else 24)
    ensures ValidPeer(p)
    ensures |p.addr| == 4 <==> sa.family == Inet
  {
    var port := PortOf(sa.bytes[2], sa.bytes[3]);
    if sa.family == Inet then Peer(sa.bytes[4..8], port)
    else Peer(sa.bytes[8..24], port)
  }

  /** The family a peer's address belongs to. */
  function FamilyOf(p: Peer): Family
  {
    if |p.addr| == 4 then Inet else Inet6
  }

  /**
   * The structure the kernel writes for a datagram's sender: a
   * `sockaddr_in` (16 bytes, zero padded) or a `sockaddr_in6` (28 bytes,
   * flow information and scope id zero).
   */
  function SenderImage(p: Peer): (image: seq<byte>)
    requires ValidPeer(p)
    ensures |image| == if |p.addr| == 4 then SOCKADDR_IN_SIZE else SOCKADDR_IN6_SIZE
  {
    if |p.addr| == 4 then [0, 0] + PortBytes(p.port) + p.addr + Zeros(8)
    else [0, 0] + PortBytes(p.port) + Zeros(4) + p.addr + Zeros(4)
  }

  /**
   * The buffer after `recvfrom` wrote a sender's structure into `room`
   * bytes: the structure, cut at `room`, followed by whatever memory lies
   * after the part written.
   */
  function Delivered(image: seq<byte>, room: nat, beyond: seq<byte>): (b: seq<byte>)
    ensures |b| == Min(room, |image|) + |beyond|
  {
    if |image| <= room then image + beyond else image[..room] + beyond
  }

  /**
   * With a `sockaddr_storage` (both revisions of `accept`, and `recv` in the
   * server revision) the peer taken out is the sender, whatever the rest of
   * the storage holds.
   */
  lemma ExtractFromStorage(p: Peer, beyond: seq<byte>)
    requires ValidPeer(p)
    ensures |Delivered(SenderImage(p), SOCKADDR_STORAGE_SIZE, beyond)| >= (if FamilyOf(p) == Inet then 8 else 24)
    ensures ExtractAddressPort(SockAddr(FamilyOf(p), Delivered(SenderImage(p), SOCKADDR_STORAGE_SIZE, beyond))) == p
  {
    var b := Delivered(SenderImage(p), SOCKADDR_STORAGE_SIZE, beyond);
    if |p.addr| == 4 {
      assert b[4..8] == p.addr;
    } else {
      assert b[8..24] == p.addr;
    }
  }

  /**
   * `recv` in the manager revision passes a plain `struct sockaddr` of 16
   * bytes: an IPv4 sender still comes out whole.
   */
  lemma AsWrittenSockaddrKeepsIpv4(p: Peer, beyond: seq<byte>)
    requires |p.addr| == 4
    ensures |Delivered(SenderImage(p), SOCKADDR_SIZE, beyond)| >= 8
    ensures ExtractAddressPort(SockAddr(Inet, Delivered(SenderImage(p), SOCKADDR_SIZE, beyond))) == p
  {
    var b := Delivered(SenderImage(p), SOCKADDR_SIZE, beyond);
    assert b[4..8] == p.addr;
  }

  /**
   * The same 16-byte buffer cuts an IPv6 sender's structure after the
   * eighth address byte: the last eight address bytes are read from the
   * memory after the buffer, so the peer differs from the sender unless that
   * memory happens to hold them.
   */
  lemma AsWrittenSockaddrCutsIpv6(p: Peer, beyond: seq<byte>)
    requires |p.addr| == 16 && |beyond| >= 8
    ensures |Delivered(SenderImage(p), SOCKADDR_SIZE, beyond)| >= 24
    ensures ExtractAddressPort(SockAddr(Inet6, Delivered(SenderImage(p), SOCKADDR_SIZE, beyond)))
      == Peer(p.addr[..8] + beyond[..8], p.port)
    ensures beyond[..8] != p.addr[8..] ==>
      ExtractAddressPort(SockAddr(Inet6, Delivered(SenderImage(p), SOCKADDR_SIZE, beyond))) != p
  {
    var b := Delivered(SenderImage(p), SOCKADDR_SIZE, beyond);
    assert b[8..24] == p.addr[..8] + beyond[..8];
    if beyond[..8] != p.addr[8..] {
      assert p.addr[..8] + beyond[..8] != p.addr by {
        assert (p.addr[..8] + beyond[..8])[8..] == beyond[..8];
      }
    }
  }

  /**
   * The destination `send` rebuilds from a stored peer: four address bytes
   * give a `sockaddr_in` with zeroed padding, anything else a
   * `sockaddr_in6`, whose flow information and scope id are left as the
   * uninitialised storage `stale` holds. Returns the structure and its length.
   */
  function Rebuild(p: Peer, stale: seq<byte>): (r: (SockAddr, nat))
    requires |stale| >= SOCKADDR_IN6_SIZE
    ensures r.0.family == Inet <==> |p.addr| == 4
    ensures |r.0.bytes| == r.1
    ensures r.1 == if |p.addr| == 4 then SOCKADDR_IN_SIZE else 8 + |p.addr| + 4
  {
    if |p.addr| == 4 then (SockAddr(Inet, [0, 0] + PortBytes(p.port) + p.addr + Zeros(8)), SOCKADDR_IN_SIZE)
    else
      var b := [0, 0] + PortBytes(p.port) + stale[4..8] + p.addr + stale[24..28];
      (SockAddr(Inet6, b), |b|)
  }

  /**
   * The rebuilt destination is the peer again: taking the address and port
   * out of it gives back the stored pair, for either family and whatever
   * the uninitialised bytes hold.
   */
  lemma RebuildRoundTrip(p: Peer, stale: seq<byte>)
    requires ValidPeer(p) && |stale| >= SOCKADDR_IN6_SIZE
    ensures |Rebuild(p, stale).0.bytes| >= 24 || Rebuild(p, stale).0.family == Inet
    ensures ExtractAddressPort(Rebuild(p, stale).0) == p
  {
    var b := Rebuild(p, stale).0.bytes;
    if |p.addr| == 4 {
      assert b[4..8] == p.addr;
    } else {
      assert b[8..24] == p.addr;
    }
  }

  /** An IPv6 destination's length is that of `sockaddr_in6`, an IPv4 one zero padded. */
  lemma RebuildShape(p: Peer, stale: seq<byte>)
    requires ValidPeer(p) && |stale| >= SOCKADDR_IN6_SIZE
    ensures Rebuild(p, stale).1 == if |p.addr| == 4 then SOCKADDR_IN_SIZE else SOCKADDR_IN6_SIZE
    ensures |p.addr| == 4 ==> Rebuild(p, stale).0.bytes[8..16] == Zeros(8)
  {
    if |p.addr| == 4 {
      assert Rebuild(p, stale).0.bytes[8..16] == Zeros(8);
    }
  }
}
