// The connection-oriented UDP transport of the 2016 server (the revision with
// mutexes): one datagram socket shared by every client, a table from peer to
// synthetic id, and a queue per id for datagrams read on another client's
// behalf. `recv` polls the socket without blocking and looks at its own queue
// again on every round. Of the locks, only the one `recv` fails to release is
// modelled, as the flag `held` of its routing loop.
module UdpServerTransport {
  import opened Common
  import opened UdpAddress
  import opened UdpMux

  /**
   * The routing loop of this revision. `held` says that this thread still
   * holds `con_mutex`: the branch for a peer not in the table goes round
   * again without unlocking it, and the next datagram read then waits for
   * ever on relocking the (non-recursive) mutex. An error still ends the
   * loop with -1, and an empty socket is polled for ever.
   */
  function ServerRoute(connections: Table, queues: Queues, socket: seq<Arrival>, fd: int, len: nat, held: bool): (r: RecvState)
    ensures |r.socket| <= |socket|
    decreases |socket|
  {
    if socket == [] then RecvState(Blocks, queues, [])
    else match socket[0]
      case Failure => RecvState(Error, queues, socket[1..])
      case Datagram(p, data) =>
        if held then RecvState(Blocks, queues, socket[1..])
        else if p !in connections then ServerRoute(connections, queues, socket[1..], fd, len, true)
        else if connections[p] == fd then RecvState(Data(Truncate(data, len)), queues, socket[1..])
        else ServerRoute(connections, Enqueue(queues, connections[p], Truncate(data, len)), socket[1..], fd, len, false)
  }

  /**
   * One round of `recv` of this revision and all that follow: the oldest
   * datagram queued for `fd`, if there is one, otherwise the routing loop.
   * A call starts with `held` false.
   */
  function ServerRecv(connections: Table, queues: Queues, socket: seq<Arrival>, fd: int, len: nat, held: bool): (r: RecvState)
  {
    if Pending(queues, fd) != [] then
      RecvState(Data(Pending(queues, fd)[0]), queues[fd := Pending(queues, fd)[1..]], socket)
    else ServerRoute(connections, queues[fd := []], socket, fd, len, held)
  }

  /**
   * Whenever this revision's routing loop returns, it returns what the
   * shared rule `UdpMux.Route` gives, and leaves the same state; the held
   * lock can only turn a return into a call that never returns.
   */
  lemma {:induction false} ServerRouteOnlyHangs(connections: Table, queues: Queues, socket: seq<Arrival>, fd: int, len: nat, held: bool)
    ensures ServerRoute(connections, queues, socket, fd, len, held).result != Blocks ==>
      ServerRoute(connections, queues, socket, fd, len, held) == Route(connections, queues, socket, fd, len)
    decreases |socket|
  {
    if socket != [] && socket[0].Datagram? && !held {
      var p := socket[0].sender;
      if p !in connections {
        ServerRouteOnlyHangs(connections, queues, socket[1..], fd, len, true);
      } else if connections[p] != fd {
        ServerRouteOnlyHangs(connections, Enqueue(queues, connections[p], Truncate(socket[0].data, len)), socket[1..], fd, len, false);
      }
    }
  }

  /** With every sender in the table, this revision's routing loop is the shared rule. */
  lemma {:induction false} ServerRouteKnownPeers(connections: Table, queues: Queues, socket: seq<Arrival>, fd: int, len: nat)
    requires forall k :: 0 <= k < |socket| && socket[k].Datagram? ==> socket[k].sender in connections
    ensures ServerRoute(connections, queues, socket, fd, len, false) == Route(connections, queues, socket, fd, len)
    decreases |socket|
  {
    if socket != [] && socket[0].Datagram? {
      var p := socket[0].sender;
      if connections[p] != fd {
        ServerRouteKnownPeers(connections, Enqueue(queues, connections[p], Truncate(socket[0].data, len)), socket[1..], fd, len);
      }
    }
  }

  /**
   * Whenever `recv` of this revision returns, it returns what the shared
   * `UdpMux.Recv` gives, with the same queues and socket; so what is proved
   * of that rule (no datagram of another client is returned) holds here.
   */
  lemma ServerRecvAgrees(connections: Table, queues: Queues, socket: seq<Arrival>, fd: int, len: nat)
    ensures ServerRecv(connections, queues, socket, fd, len, false).result != Blocks ==>
      ServerRecv(connections, queues, socket, fd, len, false) == UdpMux.Recv(connections, queues, socket, fd, len)
  {
    ServerRouteOnlyHangs(connections, queues[fd := []], socket, fd, len, false);
  }

  /**
   * A datagram from a peer not in the table, then one for the reader: the
   * shared rule returns the second, this revision never returns.
   */
  lemma StrayDatagramHangs(connections: Table, queues: Queues, stray: Peer, d1: seq<byte>, own: Peer, d2: seq<byte>,
                           rest: seq<Arrival>, fd: int, len: nat)
    requires stray !in connections && own in connections && connections[own] == fd
    ensures var socket := [Datagram(stray, d1), Datagram(own, d2)] + rest;
      Route(connections, queues, socket, fd, len).result == Data(Truncate(d2, len)) &&
      ServerRoute(connections, queues, socket, fd, len, false).result == Blocks
  {
    var socket := [Datagram(stray, d1), Datagram(own, d2)] + rest;
    assert socket[1..][1..] == rest;
  }

  /**
   * The server revision's transport object. Its constructor, `Accept`,
   * `RegisterHead`, `SkipFailedPeeks`, `IsOpen`, `Connect` and `Disconnect`
   * are line for line those of `UdpManagerTransport.Transport`, since both
   * source files share that code; `Recv`, `ReadOne` and `Send` differ.
   */
  class Transport {
    /** `connections` */
    var connections: Table
    /** `received_datagrams` */
    var queues: Queues
    /** The static `next_fake_fd` of `accept`. */
    var nextFakeFd: int
    /** What the server socket will yield, oldest first. */
    var socket: seq<Arrival>
    /** Every datagram given to `sendto`, oldest first. */
    var outbox: seq<Outgoing>

    ghost predicate Valid()
      reads this
    {
      TableValid(connections, nextFakeFd) && SocketValid(socket)
    }

    constructor(socket: seq<Arrival>)
      requires SocketValid(socket)
      ensures Valid()
      ensures connections == map[] && queues == map[] && nextFakeFd == FIRST_FAKE_FD
      ensures this.socket == socket && outbox == []
    {
      connections := map[];
      queues := map[];
      nextFakeFd := FIRST_FAKE_FD;
      this.socket := socket;
      outbox := [];
    }

    /**
     * accept: peek at the head of the socket (a failed peek is retried)
     * until it comes from a peer not in the table, then register that peer
     * under the next id. A peek never consumes the datagram, so a head that
     * is empty or from a known peer is looked at for ever: `None`.
     */
    method Accept() returns (r: Option<int>)
      requires Valid()
      modifies this`socket, this`connections, this`nextFakeFd
      ensures Valid()
      ensures socket == SkipFailures(old(socket))
      ensures r.Some? <==> Acceptable(old(connections), old(socket))
      ensures r.Some? ==> (r.value == old(nextFakeFd) && nextFakeFd == old(nextFakeFd) + 1 &&
        connections == old(connections)[socket[0].sender := r.value])
      ensures r.None? ==> connections == old(connections) && nextFakeFd == old(nextFakeFd)
      ensures queues == old(queues) && outbox == old(outbox)
    {
      SkipFailedPeeks();
      AcceptableHead(connections, old(socket), socket);
      r := RegisterHead();
    }

    /** The end of `accept`: a head with data from an unknown peer is registered under the next id. */
    method RegisterHead() returns (r: Option<int>)
      requires Valid() && (socket == [] || socket[0].Datagram?)
      modifies this`connections, this`nextFakeFd
      ensures Valid()
      ensures r.Some? <==> socket != [] && |socket[0].data| >= 1 && socket[0].sender !in old(connections)
      ensures r.Some? ==> (r.value == old(nextFakeFd) && nextFakeFd == old(nextFakeFd) + 1 &&
        connections == old(connections)[socket[0].sender := r.value])
      ensures r.None? ==> connections == old(connections) && nextFakeFd == old(nextFakeFd)
    {
      if socket == [] || |socket[0].data| < 1 || socket[0].sender in connections {
        return None;
      }
      var id := socket[0].sender;
      RegisterFresh(connections, nextFakeFd, id);
      connections := connections[id := nextFakeFd];
      r := Some(nextFakeFd);
      nextFakeFd := nextFakeFd + 1;
    }

    /** The failed peeks of `accept`: the errors at the head of the socket are consumed. */
    method SkipFailedPeeks()
      requires SocketValid(socket)
      modifies this`socket
      ensures SocketValid(socket) && socket == SkipFailures(old(socket))
    {
      while socket != [] && socket[0].Failure?
        invariant SocketValid(socket)
        invariant SkipFailures(socket) == SkipFailures(old(socket))
        decreases |socket|
      {
        SocketValidTail(socket);
        socket := socket[1..];
      }
    }

    /** is_open: 1 when some table entry has the id as its value, 0 otherwise. */
    method IsOpen(fd: int) returns (found: int)
      ensures found == if UdpMux.IsOpen(connections, fd) then 1 else 0
    {
      found := 0;
      var rest := connections.Keys;
      while rest != {}
        invariant rest <= connections.Keys
        invariant found == 1 <==> exists p :: p in connections && p !in rest && connections[p] == fd
        invariant found == 0 || found == 1
        decreases rest
      {
        var p :| p in rest;
        if connections[p] == fd {
          found := 1;
        }
        rest := rest - {p};
      }
    }

    /** connect: no handshake; 0 for an open id, -1 otherwise. */
    method Connect(fd: int) returns (r: int)
      ensures r == 0 <==> UdpMux.IsOpen(connections, fd)
      ensures r == 0 || r == -1
    {
      var open := IsOpen(fd);
      r := if open == 1 then 0 else -1;
    }

    /**
     * disconnect: erase the id's queue, then the table entry with that
     * value; 0 when there was one, -1 otherwise.
     */
    method Disconnect(fd: int) returns (r: int)
      requires Valid()
      modifies this
      ensures Valid()
      ensures (connections, queues, r) == UdpMux.Disconnect(old(connections), old(queues), fd)
      ensures nextFakeFd == old(nextFakeFd) && socket == old(socket) && outbox == old(outbox)
    {
      queues := queues - {fd};
      var rest := connections.Keys;
      while rest != {}
        invariant rest <= connections.Keys
        invariant connections == old(connections) && queues == old(queues) - {fd}
        invariant forall p :: p in connections && p !in rest ==> connections[p] != fd
        decreases rest
      {
        var p :| p in rest;
        if connections[p] == fd {
          EraseOnly(connections, nextFakeFd, p);
          UnregisterValid(connections, nextFakeFd, fd);
          connections := connections - {p};
          return 0;
        }
        rest := rest - {p};
      }
      assert Unregister(connections, fd) == connections;
      return -1;
    }

    /**
     * recv: on every round, the oldest datagram queued for the id if there
     * is one; otherwise one datagram from the socket, which is returned when
     * it comes from the id's own peer, queued when it comes from another
     * client and dropped, with `con_mutex` left locked, when its sender is
     * unknown. An empty socket makes the non-blocking read fail with EAGAIN
     * and the loop poll for ever.
     */
    method Recv(fd: int, len: nat) returns (r: Received)
      requires Valid()
      modifies this
      ensures Valid()
      ensures RecvState(r, queues, socket) == ServerRecv(old(connections), old(queues), old(socket), fd, len, false)
      ensures connections == old(connections) && nextFakeFd == old(nextFakeFd) && outbox == old(outbox)
    {
      if fd !in queues {
        // `received_datagrams[sockfd]` creates an empty queue
        queues := queues[fd := []];
      }
      assert queues[fd := []] == old(queues)[fd := []];
      var held := false;
      while true
        invariant Valid() && fd in queues
        invariant ServerRecv(connections, queues, socket, fd, len, held) == ServerRecv(old(connections), old(queues), old(socket), fd, len, false)
        invariant connections == old(connections) && nextFakeFd == old(nextFakeFd) && outbox == old(outbox)
        decreases |socket|
      {
        if queues[fd] != [] {
          r := Data(queues[fd][0]);
          queues := queues[fd := queues[fd][1..]];
          return;
        }
        assert queues[fd := []] == queues;
        if socket == [] {
          r := Blocks;
          return;
        }
        var outcome;
        outcome, held := ReadOne(fd, len, held);
        if outcome.Some? {
          return outcome.value;
        }
        assert queues[fd := []] == queues;
      }
    }

    /**
     * One read of the routing loop, the reader's own queue being empty and
     * `held` saying whether this thread still holds `con_mutex`: an error,
     * the reader's datagram or a relock that never returns ends `recv`;
     * any other datagram is queued or dropped and `None` says "go round
     * again".
     */
    method ReadOne(fd: int, len: nat, held: bool) returns (outcome: Option<Received>, heldAfter: bool)
      requires Valid() && fd in queues && queues[fd] == [] && socket != []
      modifies this
      ensures Valid() && fd in queues && |socket| < |old(socket)|
      ensures outcome.None? ==> (queues[fd] == [] &&
        ServerRoute(connections, queues, socket, fd, len, heldAfter) == ServerRoute(old(connections), old(queues), old(socket), fd, len, held))
      ensures outcome.Some? ==> RecvState(outcome.value, queues, socket) == ServerRoute(old(connections), old(queues), old(socket), fd, len, held)
      ensures connections == old(connections) && nextFakeFd == old(nextFakeFd) && outbox == old(outbox)
    {
      var a := socket[0];
      SocketValidTail(socket);
      socket := socket[1..];
      if a.Failure? {
        return Some(Error), held;
      }
      if held {
        // `pthread_mutex_lock(&con_mutex)` on a mutex this thread holds
        return Some(Blocks), held;
      }
      var dg := Truncate(a.data, len);
      if a.sender !in connections {
        return None, true;
      }
      var g := connections[a.sender];
      if g == fd {
        return Some(Data(dg)), false;
      }
      queues := Enqueue(queues, g, dg);
      outcome, heldAfter := None, false;
    }

    /**
     * send: find the peer registered under the id (-1 when there is none),
     * rebuild its socket address and hand the bytes to `sendto`, which is
     * taken to send them all. `stale` is the uninitialised storage the
     * address is built in.
     */
    method Send(fd: int, data: seq<byte>, stale: seq<byte>) returns (r: int)
      requires Valid() && |stale| >= SOCKADDR_IN6_SIZE
      modifies this
      ensures Valid()
      ensures r == -1 <==> !UdpMux.IsOpen(connections, fd)
      ensures r == -1 ==> outbox == old(outbox)
      ensures r != -1 ==> r == |data| && |outbox| == |old(outbox)| + 1 && outbox[..|old(outbox)|] == old(outbox)
      ensures r != -1 ==> var o := outbox[|old(outbox)|];
        o.data == data && |o.dest.bytes| == o.addrlen &&
        o.addrlen == (if o.dest.family == Inet then SOCKADDR_IN_SIZE else SOCKADDR_IN6_SIZE) &&
        (o.dest.family == Inet || |o.dest.bytes| >= 24) &&
        ExtractAddressPort(o.dest) in connections && connections[ExtractAddressPort(o.dest)] == fd
      ensures connections == old(connections) && queues == old(queues) && socket == old(socket) && nextFakeFd == old(nextFakeFd)
    {
      var found := None;
      var rest := connections.Keys;
      while rest != {} && found.None?
        invariant rest <= connections.Keys
        invariant found.None? ==> forall p :: p in connections && p !in rest ==> connections[p] != fd
        invariant found.Some? ==> found.value in connections && connections[found.value] == fd
        decreases rest
      {
        var p :| p in rest;
        if connections[p] == fd {
          found := Some(p);
        }
        rest := rest - {p};
      }
      if found.None? {
        return -1;
      }
      var id := found.value;
      var (dest, addrlen) := Rebuild(id, stale);
      RebuildRoundTrip(id, stale);
      RebuildShape(id, stale);
      outbox := outbox + [Outgoing(dest, addrlen, data)];
      r := |data|;
    }
  }
}
