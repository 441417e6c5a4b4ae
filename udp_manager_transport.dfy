// The connection-oriented UDP transport of the 2016 manager (the revision
// without locks): the same table and queues as the server revision, but
// `recv` looks at its own queue once and then blocks on the socket, and the
// sender's address is taken from a 16-byte `struct sockaddr`. The class reads
// senders as the kernel reports them (a `sockaddr_storage`); what the
// 16-byte buffer does to an IPv6 sender is stated in UdpAddress.
module UdpManagerTransport {
  import opened Common
  import opened UdpAddress
  import opened UdpMux

  /**
   * The manager revision's transport object. Its constructor, `Accept`,
   * `RegisterHead`, `SkipFailedPeeks`, `IsOpen`, `Connect` and `Disconnect`
   * are line for line those of `UdpServerTransport.Transport`, since both
   * source files share that code; `Recv`, `ReadOne` and `Send` differ.
   */
  class Transport {
    /** `connections` */
    var connections: Table
    /** `received_datagrams` */
    var queues: Queues
    /** The static `next_fake_fd` of `accept`. */
    var nextFakeFd: int
    /** What the server socket will yield, oldest first. */
    var socket: seq<Arrival>
    /** Every datagram given to `sendto`, oldest first. */
    var outbox: seq<Outgoing>

    ghost predicate Valid()
      reads this
    {
      TableValid(connections, nextFakeFd) && SocketValid(socket)
    }

    constructor(socket: seq<Arrival>)
      requires SocketValid(socket)
      ensures Valid()
      ensures connections == map[] && queues == map[] && nextFakeFd == FIRST_FAKE_FD
      ensures this.socket == socket && outbox == []
    {
      connections := map[];
      queues := map[];
      nextFakeFd := FIRST_FAKE_FD;
      this.socket := socket;
      outbox := [];
    }

    /**
     * accept: peek at the head of the socket (a failed peek is retried)
     * until it comes from a peer not in the table, then register that peer
     * under the next id. A peek never consumes the datagram, so a head that
     * is empty or from a known peer is looked at for ever: `None`.
     */
    method Accept() returns (r: Option<int>)
      requires Valid()
      modifies this`socket, this`connections, this`nextFakeFd
      ensures Valid()
      ensures socket == SkipFailures(old(socket))
      ensures r.Some? <==> Acceptable(old(connections), old(socket))
      ensures r.Some? ==> (r.value == old(nextFakeFd) && nextFakeFd == old(nextFakeFd) + 1 &&
        connections == old(connections)[socket[0].sender := r.value])
      ensures r.None? ==> connections == old(connections) && nextFakeFd == old(nextFakeFd)
      ensures queues == old(queues) && outbox == old(outbox)
    {
      SkipFailedPeeks();
      AcceptableHead(connections, old(socket), socket);
      r := RegisterHead();
    }

    /** The end of `accept`: a head with data from an unknown peer is registered under the next id. */
    method RegisterHead() returns (r: Option<int>)
      requires Valid() && (socket == [] || socket[0].Datagram?)
      modifies this`connections, this`nextFakeFd
      ensures Valid()
      ensures r.Some? <==> socket != [] && |socket[0].data| >= 1 && socket[0].sender !in old(connections)
      ensures r.Some? ==> (r.value == old(nextFakeFd) && nextFakeFd == old(nextFakeFd) + 1 &&
        connections == old(connections)[socket[0].sender := r.value])
      ensures r.None? ==> connections == old(connections) && nextFakeFd == old(nextFakeFd)
    {
      if socket == [] || |socket[0].data| < 1 || socket[0].sender in connections {
        return None;
      }
      var id := socket[0].sender;
      RegisterFresh(connections, nextFakeFd, id);
      connections := connections[id := nextFakeFd];
      r := Some(nextFakeFd);
      nextFakeFd := nextFakeFd + 1;
    }

    /** The failed peeks of `accept`: the errors at the head of the socket are consumed. */
    method SkipFailedPeeks()
      requires SocketValid(socket)
      modifies this`socket
      ensures SocketValid(socket) && socket == SkipFailures(old(socket))
    {
      while socket != [] && socket[0].Failure?
        invariant SocketValid(socket)
        invariant SkipFailures(socket) == SkipFailures(old(socket))
        decreases |socket|
      {
        SocketValidTail(socket);
        socket := socket[1..];
      }
    }

    /** is_open: 1 at the first table entry with the id as its value, 0 when there is none. */
    method IsOpen(fd: int) returns (found: int)
      ensures found == if UdpMux.IsOpen(connections, fd) then 1 else 0
    {
      var rest := connections.Keys;
      while rest != {}
        invariant rest <= connections.Keys
        invariant forall p :: p in connections && p !in rest ==> connections[p] != fd
        decreases rest
      {
        var p :| p in rest;
        if connections[p] == fd {
          return 1;
        }
        rest := rest - {p};
      }
      return 0;
    }

    /** connect: no handshake; 0 for an open id, -1 otherwise. */
    method Connect(fd: int) returns (r: int)
      ensures r == 0 <==> UdpMux.IsOpen(connections, fd)
      ensures r == 0 || r == -1
    {
      var open := IsOpen(fd);
      r := if open == 1 then 0 else -1;
    }

    /**
     * disconnect: erase the id's queue, then the table entry with that
     * value; 0 when there was one, -1 otherwise.
     */
    method Disconnect(fd: int) returns (r: int)
      requires Valid()
      modifies this
      ensures Valid()
      ensures (connections, queues, r) == UdpMux.Disconnect(old(connections), old(queues), fd)
      ensures nextFakeFd == old(nextFakeFd) && socket == old(socket) && outbox == old(outbox)
    {
      queues := queues - {fd};
      var rest := connections.Keys;
      while rest != {}
        invariant rest <= connections.Keys
        invariant connections == old(connections) && queues == old(queues) - {fd}
        invariant forall p :: p in connections && p !in rest ==> connections[p] != fd
        decreases rest
      {
        var p :| p in rest;
        if connections[p] == fd {
          EraseOnly(connections, nextFakeFd, p);
          UnregisterValid(connections, nextFakeFd, fd);
          connections := connections - {p};
          return 0;
        }
        rest := rest - {p};
      }
      assert Unregister(connections, fd) == connections;
      return -1;
    }

    /**
     * recv: the oldest datagram queued for the id, if there is one;
     * otherwise datagrams are read from the socket until one comes from the
     * id's own peer (returned) or the read fails (-1). Datagrams from other
     * clients are queued for them, those from unknown senders dropped; an
     * empty socket blocks the read for ever.
     */
    method Recv(fd: int, len: nat) returns (r: Received)
      requires Valid()
      modifies this
      ensures Valid()
      ensures RecvState(r, queues, socket) == UdpMux.Recv(old(connections), old(queues), old(socket), fd, len)
      ensures connections == old(connections) && nextFakeFd == old(nextFakeFd) && outbox == old(outbox)
    {
      if fd in queues && queues[fd] != [] {
        r := Data(queues[fd][0]);
        queues := queues[fd := queues[fd][1..]];
        return;
      }
      // `received_datagrams[sockfd]` has created the (empty) queue
      queues := queues[fd := []];
      while true
        invariant Valid() && fd in queues && queues[fd] == []
        invariant Route(connections, queues, socket, fd, len) == UdpMux.Recv(old(connections), old(queues), old(socket), fd, len)
        invariant connections == old(connections) && nextFakeFd == old(nextFakeFd) && outbox == old(outbox)
        decreases |socket|
      {
        if socket == [] {
          r := Blocks;
          return;
        }
        r := ReadOne(fd, len);
        if r != Blocks {
          return;
        }
      }
    }

    /**
     * One read of the routing loop, the reader's own queue being empty: an
     * error or the reader's datagram ends `recv` (returned as such); any
     * other datagram is queued or dropped and `Blocks` says "go round again".
     */
    method ReadOne(fd: int, len: nat) returns (r: Received)
      requires Valid() && fd in queues && queues[fd] == [] && socket != []
      modifies this
      ensures Valid() && fd in queues && |socket| < |old(socket)|
      ensures r == Blocks ==> (queues[fd] == [] &&
        Route(connections, queues, socket, fd, len) == Route(old(connections), old(queues), old(socket), fd, len))
      ensures r != Blocks ==> RecvState(r, queues, socket) == Route(old(connections), old(queues), old(socket), fd, len)
      ensures connections == old(connections) && nextFakeFd == old(nextFakeFd) && outbox == old(outbox)
    {
      var a := socket[0];
      SocketValidTail(socket);
      socket := socket[1..];
      if a.Failure? {
        return Error;
      }
      var dg := Truncate(a.data, len);
      if a.sender !in connections {
        return Blocks;
      }
      var g := connections[a.sender];
      if g == fd {
        return Data(dg);
      }
      queues := Enqueue(queues, g, dg);
      r := Blocks;
    }

    /**
     * send: find the peer registered under the id (-1 when there is none),
     * rebuild its socket address and hand the bytes to `sendto`, which is
     * taken to send them all. `stale` is the uninitialised storage the
     * address is built in.
     */
    method Send(fd: int, data: seq<byte>, stale: seq<byte>) returns (r: int)
      requires Valid() && |stale| >= SOCKADDR_IN6_SIZE
      modifies this
      ensures Valid()
      ensures r == -1 <==> !UdpMux.IsOpen(connections, fd)
      ensures r == -1 ==> outbox == old(outbox)
      ensures r != -1 ==> r == |data| && |outbox| == |old(outbox)| + 1 && outbox[..|old(outbox)|] == old(outbox)
      ensures r != -1 ==> var o := outbox[|old(outbox)|];
        o.data == data && |o.dest.bytes| == o.addrlen &&
        o.addrlen == (if o.dest.family == Inet then SOCKADDR_IN_SIZE else SOCKADDR_IN6_SIZE) &&
        (o.dest.family == Inet || |o.dest.bytes| >= 24) &&
        ExtractAddressPort(o.dest) in connections && connections[ExtractAddressPort(o.dest)] == fd
      ensures connections == old(connections) && queues == old(queues) && socket == old(socket) && nextFakeFd == old(nextFakeFd)
    {
      var found := None;
      var rest := connections.Keys;
      while rest != {} && found.None?
        invariant rest <= connections.Keys
        invariant found.None? ==> forall p :: p in connections && p !in rest ==> connections[p] != fd
        invariant found.Some? ==> found.value in connections && connections[found.value] == fd
        decreases rest
      {
        var p :| p in rest;
        if connections[p] == fd {
          found := Some(p);
        }
        rest := rest - {p};
      }
      if found.None? {
        return -1;
      }
      var id := found.value;
      var (dest, addrlen) := Rebuild(id, stale);
      RebuildRoundTrip(id, stale);
      RebuildShape(id, stale);
      outbox := outbox + [Outgoing(dest, addrlen, data)];
      r := |data|;
    }
  }
}
