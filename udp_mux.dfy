// The connection-oriented view the UDP transport puts over one datagram
// socket: a table from peer to a synthetic id (1024, 1025, …) and, per id, a
// queue of datagrams that arrived while another client was reading. These
// are the rules both revisions of the transport follow; the classes that
// follow them are in UdpServerTransport and UdpManagerTransport. The server
// revision's `recv` can also wait for ever on a lock it failed to release;
// UdpServerTransport states that difference.
module UdpMux {
  import opened Common
  import opened UdpAddress

  /** What the server socket yields, oldest first: a datagram and its sender, or an error. */
  datatype Arrival = Datagram(sender: Peer, data: seq<byte>) | Failure

  /** The outcome of `recv`: one datagram's bytes, -1, or a call that never returns. */
  datatype Received = Data(bytes: seq<byte>) | Error | Blocks

  /** A datagram handed to `sendto`: the destination structure, its length and the bytes. */
  datatype Outgoing = Outgoing(dest: SockAddr, addrlen: nat, data: seq<byte>)

  /** `connections`: peer to synthetic id. */
  type Table = map<Peer, int>

  /** `received_datagrams`: synthetic id to the datagrams waiting for it, oldest first. */
  type Queues = map<int, seq<seq<byte>>>

  /** The first synthetic id, just above the default descriptor limit. */
  const FIRST_FAKE_FD: int := 1024

  /** is_open: some entry of the table has this id as its value. */
  predicate IsOpen(connections: Table, fd: int)
  {
    fd in connections.Values
  }

  /** The datagrams waiting for `fd`; a missing entry is an empty queue. */
  function Pending(queues: Queues, fd: int): seq<seq<byte>>
  {
    if fd in queues then queues[fd] else []
  }

  /** `recvfrom` into `len` bytes keeps the first `len` bytes of a datagram. */
  function Truncate(data: seq<byte>, len: nat): (d: seq<byte>)
    ensures |d| == Min(len, |data|) && d == data[..|d|]
  {
    if |data| <= len then data else data[..len]
  }

  /** The table keys are reported addresses, the ids are distinct and below the next one to hand out. */
  predicate TableValid(connections: Table, nextFakeFd: int)
  {
    nextFakeFd >= FIRST_FAKE_FD &&
    (forall p :: p in connections ==> ValidPeer(p) && FIRST_FAKE_FD <= connections[p] < nextFakeFd) &&
    (forall p, q :: p in connections && q in connections && connections[p] == connections[q] ==> p == q)
  }

  /** Every sender on the socket has a reported address. */
  predicate SocketValid(socket: seq<Arrival>)
  {
    forall k :: 0 <= k < |socket| && socket[k].Datagram? ==> ValidPeer(socket[k].sender)
  }

  lemma SocketValidTail(socket: seq<Arrival>)
    requires SocketValid(socket) && socket != []
    ensures SocketValid(socket[1..])
  {
    assert forall k :: 0 <= k < |socket| - 1 ==> socket[1..][k] == socket[k + 1];
  }

  // ---------------------------------------------------------------------
  // accept

  /**
   * The peek in `accept` that fails consumes the socket error and is
   * retried: what the peek finally looks at.
   */
  function SkipFailures(socket: seq<Arrival>): (s: seq<Arrival>)
    ensures |s| <= |socket| && s == socket[|socket| - |s|..]
    ensures s == [] || s[0].Datagram?
    ensures forall k :: 0 <= k < |socket| - |s| ==> socket[k].Failure?
    decreases |socket|
  {
    if socket != [] && socket[0].Failure? then SkipFailures(socket[1..]) else socket
  }

  /**
   * `accept` returns when the datagram at the head of the socket carries at
   * least one byte and comes from a peer not in the table; otherwise it peeks
   * at that same datagram for ever.
   */
  predicate Acceptable(connections: Table, socket: seq<Arrival>)
  {
    var s := SkipFailures(socket);
    s != [] && |s[0].data| >= 1 && s[0].sender !in connections
  }

  /** Whether `accept` registers anyone is decided by the head left after the failed peeks. */
  lemma AcceptableHead(connections: Table, socket: seq<Arrival>, head: seq<Arrival>)
    requires head == SkipFailures(socket)
    ensures Acceptable(connections, socket) <==> head != [] && |head[0].data| >= 1 && head[0].sender !in connections
  {
  }

  /**
   * Registering a new peer under the next id keeps the table valid, and the
   * new id is larger than every id handed out before.
   */
  lemma RegisterFresh(connections: Table, nextFakeFd: int, p: Peer)
    requires TableValid(connections, nextFakeFd)
    requires ValidPeer(p) && p !in connections
    ensures TableValid(connections[p := nextFakeFd], nextFakeFd + 1)
    ensures forall q :: q in connections ==> connections[q] < nextFakeFd
    ensures IsOpen(connections[p := nextFakeFd], nextFakeFd) && !IsOpen(connections, nextFakeFd)
  {
    assert connections[p := nextFakeFd][p] == nextFakeFd;
  }

  // ---------------------------------------------------------------------
  // disconnect

  /** The table without the entry whose value is `fd`. */
  function Unregister(connections: Table, fd: int): (c: Table)
    ensures c.Keys <= connections.Keys
  {
    map p | p in connections && connections[p] != fd :: connections[p]
  }

  /**
   * disconnect: erase `fd`'s queue and its table entry; 0 when there was an
   * entry, -1 otherwise.
   */
  function Disconnect(connections: Table, queues: Queues, fd: int): (r: (Table, Queues, int))
  {
    (Unregister(connections, fd), queues - {fd}, if IsOpen(connections, fd) then 0 else -1)
  }

  /**
   * After `disconnect(fd)` the id is closed and has no queue, every other id
   * keeps its state, and a second call returns -1 and changes nothing.
   */
  lemma DisconnectEffect(connections: Table, queues: Queues, fd: int)
    ensures !IsOpen(Disconnect(connections, queues, fd).0, fd)
    ensures fd !in Disconnect(connections, queues, fd).1
    ensures forall g :: g != fd ==> (IsOpen(Disconnect(connections, queues, fd).0, g) <==> IsOpen(connections, g))
    ensures forall g :: g != fd ==> Pending(Disconnect(connections, queues, fd).1, g) == Pending(queues, g)
    ensures Disconnect(connections, queues, fd).2 == 0 <==> IsOpen(connections, fd)
  {
    var c := Unregister(connections, fd);
    forall g | g != fd
      ensures IsOpen(c, g) <==> IsOpen(connections, g)
    {
      if IsOpen(connections, g) {
        var p :| p in connections && connections[p] == g;
        assert c[p] == g;
      }
    }
  }

  lemma DisconnectAgain(connections: Table, queues: Queues, fd: int)
    ensures var (c, q, _) := Disconnect(connections, queues, fd);
      Disconnect(c, q, fd) == (c, q, -1)
  {
    var (c, q, _) := Disconnect(connections, queues, fd);
    DisconnectEffect(connections, queues, fd);
    assert Unregister(c, fd) == c;
    assert q - {fd} == q;
  }

  /** Removing an id keeps the table valid. */
  lemma UnregisterValid(connections: Table, nextFakeFd: int, fd: int)
    requires TableValid(connections, nextFakeFd)
    ensures TableValid(Unregister(connections, fd), nextFakeFd)
  {
  }

  /** In a valid table the entry with value `fd` is the only one: erasing it is erasing all. */
  lemma EraseOnly(connections: Table, nextFakeFd: int, p: Peer)
    requires TableValid(connections, nextFakeFd) && p in connections
    ensures connections - {p} == Unregister(connections, connections[p])
  {
  }

  // ---------------------------------------------------------------------
  // recv

  /** The state `recv` leaves: its outcome, the queues and what is left on the socket. */
  datatype RecvState = RecvState(result: Received, queues: Queues, socket: seq<Arrival>)

  /** One datagram appended to `fd`'s queue, creating it if need be. */
  function Enqueue(queues: Queues, fd: int, dg: seq<byte>): Queues
  {
    queues[fd := Pending(queues, fd) + [dg]]
  }

  /**
   * The routing loop of `recv` for the client `fd`: an error ends it with
   * -1; a datagram from a peer not in the table is dropped; one from `fd`'s
   * own peer is returned; one from another client is queued for that
   * client. An empty socket is waited on for ever.
   */
  function Route(connections: Table, queues: Queues, socket: seq<Arrival>, fd: int, len: nat): (r: RecvState)
    ensures |r.socket| <= |socket|
    decreases |socket|
  {
    if socket == [] then RecvState(Blocks, queues, [])
    else match socket[0]
      case Failure => RecvState(Error, queues, socket[1..])
      case Datagram(p, data) =>
        if p !in connections then Route(connections, queues, socket[1..], fd, len)
        else if connections[p] == fd then RecvState(Data(Truncate(data, len)), queues, socket[1..])
        else Route(connections, Enqueue(queues, connections[p], Truncate(data, len)), socket[1..], fd, len)
  }

  /**
   * recv: the oldest datagram already queued for `fd`, if there is one;
   * otherwise the routing loop, after the lookup has created `fd`'s (empty)
   * queue.
   */
  function Recv(connections: Table, queues: Queues, socket: seq<Arrival>, fd: int, len: nat): (r: RecvState)
  {
    if Pending(queues, fd) != [] then
      RecvState(Data(Pending(queues, fd)[0]), queues[fd := Pending(queues, fd)[1..]], socket)
    else Route(connections, queues[fd := []], socket, fd, len)
  }

  /** A datagram neither for nor from the reader `fd`'s peer. */
  predicate NotFor(connections: Table, fd: int, a: Arrival)
  {
    a.Datagram? && (a.sender !in connections || connections[a.sender] != fd)
  }

  /** How many datagrams at the head of the socket are not for `fd`. */
  function Skipped(connections: Table, socket: seq<Arrival>, fd: int): (n: nat)
    ensures n <= |socket|
    decreases |socket|
  {
    if socket != [] && NotFor(connections, fd, socket[0]) then 1 + Skipped(connections, socket[1..], fd) else 0
  }

  /** The skipped arrivals are datagrams not for `fd`; the one after them is an error or for `fd`. */
  lemma {:induction false} SkippedMeaning(connections: Table, socket: seq<Arrival>, fd: int)
    ensures forall k :: 0 <= k < Skipped(connections, socket, fd) ==> NotFor(connections, fd, socket[k])
    ensures Skipped(connections, socket, fd) < |socket| ==> !NotFor(connections, fd, socket[Skipped(connections, socket, fd)])
    decreases |socket|
  {
    if socket != [] && NotFor(connections, fd, socket[0]) {
      SkippedMeaning(connections, socket[1..], fd);
      forall k | 1 <= k < Skipped(connections, socket, fd)
        ensures NotFor(connections, fd, socket[k])
      {
        assert socket[k] == socket[1..][k - 1];
      }
    }
  }

  /**
   * What the routing loop does: it passes over the datagrams not for `fd`
   * and stops at the first arrival that is: an error gives -1, a datagram
   * from the peer registered under `fd` is returned cut to `len`; with no
   * such arrival it waits for ever.
   */
  lemma {:induction false} RouteOutcome(connections: Table, queues: Queues, socket: seq<Arrival>, fd: int, len: nat)
    ensures var n := Skipped(connections, socket, fd);
      Route(connections, queues, socket, fd, len).result ==
        if n == |socket| then Blocks
        else if socket[n].Failure? then Error
        else Data(Truncate(socket[n].data, len))
    ensures var n := Skipped(connections, socket, fd);
      Route(connections, queues, socket, fd, len).socket == if n == |socket| then [] else socket[n + 1..]
    decreases |socket|
  {
    if socket != [] && NotFor(connections, fd, socket[0]) {
      var q := PassedOver(connections, queues, socket[0], len);
      RoutePassesOver(connections, queues, socket, fd, len);
      RouteOutcome(connections, q, socket[1..], fd, len);
      var m := Skipped(connections, socket[1..], fd);
      if m < |socket[1..]| {
        assert socket[1..][m] == socket[m + 1];
        assert socket[1..][m + 1..] == socket[m + 2..];
      }
    }
  }

  /** The datagrams for client `g` among `arrivals`, in arrival order, as `recvfrom` cut them. */
  function ForFd(connections: Table, arrivals: seq<Arrival>, g: int, len: nat): seq<seq<byte>>
    decreases |arrivals|
  {
    if arrivals == [] then []
    else
      var rest := ForFd(connections, arrivals[1..], g, len);
      match arrivals[0]
      case Failure => rest
      case Datagram(p, data) => if p in connections && connections[p] == g then [Truncate(data, len)] + rest else rest
  }

  /** The share of one arrival in `ForFd`, followed by the rest. */
  lemma ForFdCons(connections: Table, a: Arrival, rest: seq<Arrival>, g: int, len: nat)
    ensures ForFd(connections, [a] + rest, g, len) ==
      (if a.Datagram? && a.sender in connections && connections[a.sender] == g then [Truncate(a.data, len)] else []) +
      ForFd(connections, rest, g, len)
  {
    assert ([a] + rest)[0] == a && ([a] + rest)[1..] == rest;
  }

  /** Passing over one datagram not for `fd` appends it to its own client's queue, if it has one. */
  lemma PassOver(connections: Table, queues: Queues, a: Arrival, g: int, len: nat)
    requires a.Datagram?
    ensures Pending(PassedOver(connections, queues, a, len), g) == Pending(queues, g) +
        (if a.sender in connections && connections[a.sender] == g then [Truncate(a.data, len)] else [])
  {
  }

  /** The queue the routing loop leaves, having passed over a first datagram not for `fd`. */
  lemma RoutePassesOver(connections: Table, queues: Queues, socket: seq<Arrival>, fd: int, len: nat)
    requires socket != [] && NotFor(connections, fd, socket[0])
    ensures Route(connections, queues, socket, fd, len) ==
      Route(connections, PassedOver(connections, queues, socket[0], len), socket[1..], fd, len)
  {
  }

  /** The queues after passing over the first arrival, a datagram not for the reader. */
  function PassedOver(connections: Table, queues: Queues, a: Arrival, len: nat): Queues
    requires a.Datagram?
  {
    if a.sender in connections then Enqueue(queues, connections[a.sender], Truncate(a.data, len)) else queues
  }

  /** The arrivals the routing loop passes over before it stops. */
  function PassedOverArrivals(connections: Table, socket: seq<Arrival>, fd: int): seq<Arrival>
    decreases |socket|
  {
    if socket != [] && NotFor(connections, fd, socket[0]) then [socket[0]] + PassedOverArrivals(connections, socket[1..], fd)
    else []
  }

  /** Those arrivals are the first `Skipped` ones. */
  lemma {:induction false} PassedOverIsSkipped(connections: Table, socket: seq<Arrival>, fd: int)
    ensures PassedOverArrivals(connections, socket, fd) == socket[..Skipped(connections, socket, fd)]
    decreases |socket|
  {
    if socket != [] && NotFor(connections, fd, socket[0]) {
      PassedOverIsSkipped(connections, socket[1..], fd);
      assert socket[..Skipped(connections, socket, fd)] == [socket[0]] + socket[1..][..Skipped(connections, socket[1..], fd)];
    }
  }

  /** The share of the first passed-over datagram in client `g`'s queue, then the rest. */
  lemma ShareOfFirst(connections: Table, socket: seq<Arrival>, fd: int, g: int, len: nat)
    requires socket != [] && NotFor(connections, fd, socket[0])
    ensures ForFd(connections, PassedOverArrivals(connections, socket, fd), g, len) ==
      (if socket[0].sender in connections && connections[socket[0].sender] == g then [Truncate(socket[0].data, len)] else []) +
      ForFd(connections, PassedOverArrivals(connections, socket[1..], fd), g, len)
  {
    ForFdCons(connections, socket[0], PassedOverArrivals(connections, socket[1..], fd), g, len);
  }

  /**
   * Nothing the routing loop reads for another client is lost or
   * reordered: client `g`'s queue gains exactly its datagrams among those
   * passed over, oldest first.
   */
  lemma RouteQueues(connections: Table, queues: Queues, socket: seq<Arrival>, fd: int, len: nat, g: int)
    requires g != fd
    ensures Pending(Route(connections, queues, socket, fd, len).queues, g) ==
      Pending(queues, g) + ForFd(connections, socket[..Skipped(connections, socket, fd)], g, len)
  {
    RouteQueuesPassedOver(connections, queues, socket, fd, len, g);
    PassedOverIsSkipped(connections, socket, fd);
  }

  lemma {:induction false} RouteQueuesPassedOver(connections: Table, queues: Queues, socket: seq<Arrival>, fd: int, len: nat, g: int)
    requires g != fd
    ensures Pending(Route(connections, queues, socket, fd, len).queues, g) ==
      Pending(queues, g) + ForFd(connections, PassedOverArrivals(connections, socket, fd), g, len)
    decreases |socket|
  {
    if socket != [] && NotFor(connections, fd, socket[0]) {
      var q := PassedOver(connections, queues, socket[0], len);
      var share := if socket[0].sender in connections && connections[socket[0].sender] == g then [Truncate(socket[0].data, len)] else [];
      var later := ForFd(connections, PassedOverArrivals(connections, socket[1..], fd), g, len);
      assert Pending(Route(connections, q, socket[1..], fd, len).queues, g) == Pending(q, g) + later by {
        RouteQueuesPassedOver(connections, q, socket[1..], fd, len, g);
      }
      assert Pending(q, g) == Pending(queues, g) + share by {
        PassOver(connections, queues, socket[0], g, len);
      }
      assert ForFd(connections, PassedOverArrivals(connections, socket, fd), g, len) == share + later by {
        ShareOfFirst(connections, socket, fd, g, len);
      }
      RoutePassesOver(connections, queues, socket, fd, len);
      AppendAssoc(Pending(queues, g), share, later);
    } else {
      RouteStops(connections, queues, socket, fd, len);
    }
  }

  /** The reader's own queue is left as it was by the routing loop. */
  lemma {:induction false} RouteKeepsOwnQueue(connections: Table, queues: Queues, socket: seq<Arrival>, fd: int, len: nat)
    ensures Pending(Route(connections, queues, socket, fd, len).queues, fd) == Pending(queues, fd)
    decreases |socket|
  {
    if socket != [] && NotFor(connections, fd, socket[0]) {
      RoutePassesOver(connections, queues, socket, fd, len);
      RouteKeepsOwnQueue(connections, PassedOver(connections, queues, socket[0], len), socket[1..], fd, len);
      PassOver(connections, queues, socket[0], fd, len);
    } else {
      RouteStops(connections, queues, socket, fd, len);
    }
  }

  /** Where the routing loop stops at once, no queue changes. */
  lemma RouteStops(connections: Table, queues: Queues, socket: seq<Arrival>, fd: int, len: nat)
    requires socket == [] || !NotFor(connections, fd, socket[0])
    ensures Route(connections, queues, socket, fd, len).queues == queues
  {
  }

  /** A client with datagrams queued gets the oldest of them and the socket is not read. */
  lemma RecvQueuedFirst(connections: Table, queues: Queues, socket: seq<Arrival>, fd: int, len: nat)
    requires Pending(queues, fd) != []
    ensures Recv(connections, queues, socket, fd, len).result == Data(Pending(queues, fd)[0])
    ensures Pending(Recv(connections, queues, socket, fd, len).queues, fd) == Pending(queues, fd)[1..]
    ensures Recv(connections, queues, socket, fd, len).socket == socket
    ensures forall g :: g != fd ==> Pending(Recv(connections, queues, socket, fd, len).queues, g) == Pending(queues, g)
  {
  }

  /**
   * A datagram `recv` returns from the socket never belongs to another
   * client: its sender is the peer registered under the reader's id, and in
   * a valid table that peer is the only one with that id.
   */
  lemma RecvNeverMisdelivers(connections: Table, nextFakeFd: int, queues: Queues, socket: seq<Arrival>, fd: int, len: nat)
    requires TableValid(connections, nextFakeFd)
    requires Pending(queues, fd) == []
    ensures var n := Skipped(connections, socket, fd);
      Recv(connections, queues, socket, fd, len).result.Data? ==>
        n < |socket| && socket[n].Datagram? && socket[n].sender in connections &&
        Recv(connections, queues, socket, fd, len).result.bytes == Truncate(socket[n].data, len) &&
        forall p :: p in connections && connections[p] == fd ==> p == socket[n].sender
  {
    RouteOutcome(connections, queues[fd := []], socket, fd, len);
    SkippedMeaning(connections, socket, fd);
  }
}
