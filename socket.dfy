/**
 * The socket engine's bookkeeping (socket_server.c): the 65536-entry slot
 * table and its id reservation, the per-socket state machine, the two
 * write-buffer lists and how sending, closing and starting move a socket
 * between states, the adaptive read-buffer size and the control-command
 * dispatch. Sockets are the table's struct entries, so a slot holds a
 * value and an operation stores the socket it computes. Every kernel call
 * (write, read, sendto, epoll registration) is an oracle parameter.
 */
module SocketServer {
  import opened Wrappers
  import opened Arith
  import opened UdpAddress
  import opened WriteBuffers

  /** MAX_SOCKET = 2^MAX_SOCKET_P with MAX_SOCKET_P 16. */
  const MaxSocket: nat := 0x1_0000
  const MaxEvent: nat := 64
  const MinReadBuffer: nat := 64
  const Int32Max: int := 0x7fff_ffff
  const Int32Min: int := -0x8000_0000
  /** Ids are kept below 2^31 by `& 0x7fffffff`. */
  const IdLimit: nat := 0x8000_0000

  datatype SocketType = Invalid | Reserve | PListen | Listen | Connecting | Connected | HalfClose | PAccept | Bind

  datatype Priority = High | Low

  /**
   * struct socket. The union `p` is split into its two members: `size`, the
   * next read size of a TCP socket, and `udpAddress`, the default peer of a
   * UDP socket.
   */
  datatype Socket = Socket(owner: nat, high: seq<WriteBuffer>, low: seq<WriteBuffer>, wbSize: int,
                           fd: int, id: int, protocol: nat, stype: SocketType, size: int, udpAddress: seq<bv8>)

  /** struct socket_message: a null data pointer is None. */
  datatype Report = Report(id: int, owner: nat, ud: int, data: Option<string>)

  /** The codes a handler returns; Ignore is -1. */
  datatype Outcome = Ignore | Data | Close | Open | Accept | Error | Exit | Udp

  /** struct event: the socket is a slot index; None once cleared. */
  datatype Event = Event(s: Option<nat>, read: bool, write: bool)

  /** What the connect attempt of open_socket leads to: resolution or connect failed, connected at once, or in progress. */
  datatype OpenOutcome = OpenFailed | OpenConnected(fd: int) | OpenConnecting(fd: int)

  /** HASH_ID: the slot of an id; `(unsigned)id % 65536` equals the Euclidean remainder since 2^32 is a multiple of 65536. */
  function HashId(id: int): (h: nat)
    ensures h < MaxSocket
  {
    id % MaxSocket
  }

  function ZeroAddress(): (a: seq<bv8>)
    ensures |a| == UdpAddressSize
  {
    seq(UdpAddressSize, _ => 0)
  }

  predicate InUse(t: SocketType)
  {
    t != Invalid && t != Reserve
  }

  /** States in which a socket never holds pending writes. */
  predicate Quiet(t: SocketType)
  {
    t == Invalid || t == Reserve || t == PListen || t == Listen || t == PAccept
  }

  /** A read size the engine can reach: 64 times a power of two. */
  ghost predicate ReadSize(n: int)
    decreases if n < 0 then 0 else n
  {
    n == MinReadBuffer || (n > MinReadBuffer && n % 2 == 0 && ReadSize(n / 2))
  }

  /**
   * The invariant of a slot: the default UDP address has its full size,
   * buffers in the low list are untouched (a partly written one is moved to
   * the high list at once), quiet sockets hold no data, and a socket in use
   * counts in wb_size exactly the bytes its lists still hold and has a read
   * size of 64 times a power of two.
   */
  ghost predicate Sound(s: Socket)
  {
    |s.udpAddress| == UdpAddressSize &&
    (forall i :: 0 <= i < |s.low| ==> s.low[i].offset == 0) &&
    (Quiet(s.stype) ==> s.high == [] && s.low == []) &&
    (InUse(s.stype) ==> s.wbSize == Bytes(s.high) + Bytes(s.low) && ReadSize(s.size))
  }

  /** The slot entry before any socket used it. */
  function Unused(): (s: Socket)
    ensures Sound(s) && s.stype == Invalid
  {
    Socket(0, [], [], 0, -1, 0, ProtocolTcp, Invalid, MinReadBuffer, ZeroAddress())
  }

  /**
   * force_close: frees both lists and marks the slot INVALID; nothing
   * happens to a socket that is already INVALID. The source asserts the
   * socket is not merely reserved.
   */
  function ForceClosed(s: Socket): (r: Socket)
    requires s.stype != Reserve
    ensures r.stype == Invalid && (s.stype != Invalid ==> r.high == [] && r.low == [])
    ensures r.id == s.id && r.owner == s.owner && r.fd == s.fd && r.protocol == s.protocol
    ensures Sound(s) ==> Sound(r)
    ensures s.stype == Invalid && Sound(s) ==> r == s
  {
    if s.stype == Invalid then s else s.(high := [], low := [], stype := Invalid)
  }

  /** The message force_close fills in. */
  function ClosedReport(s: Socket): Report
  {
    Report(s.id, s.owner, 0, None)
  }

  /** Closing twice is closing once. */
  lemma ForceCloseIdempotent(s: Socket)
    requires s.stype != Reserve && Sound(s)
    ensures ForceClosed(ForceClosed(s)) == ForceClosed(s)
  {
  }

  /**
   * new_fd on a reserved slot: with `add`, a failed registration with the
   * poller (`addFails`) marks the slot INVALID; otherwise the slot takes the
   * id, fd, protocol and owner, a read size of 64 and an empty wb_size, and
   * stays RESERVE for the caller to set its state.
   */
  function NewFd(s: Socket, id: int, fd: int, protocol: nat, owner: nat, add: bool, addFails: bool): (r: Socket)
    requires s.stype == Reserve && Sound(s)
    ensures Sound(r)
    ensures r.stype == Invalid <==> add && addFails
    ensures r.stype != Invalid ==>
              r.stype == Reserve && r.id == id && r.fd == fd && r.protocol == protocol &&
              r.owner == owner && r.size == MinReadBuffer && r.wbSize == 0 && r.high == [] && r.low == []
  {
    if add && addFails then s.(stype := Invalid)
    else s.(id := id, fd := fd, protocol := protocol, size := MinReadBuffer, owner := owner, wbSize := 0)
  }

  /** The next read size after a read of `n` bytes into a buffer of `sz`: double when full, halve when less than half used. */
  function NextReadSize(sz: int, n: nat): int
  {
    if n == sz then sz * 2
    else if sz > MinReadBuffer && n * 2 < sz then sz / 2
    else sz
  }

  /**
   * The read size only moves between powers of two times 64: it doubles
   * exactly when a read fills the buffer, halves exactly when the buffer is
   * above the minimum and less than half used, and never drops below 64.
   */
  lemma ReadSizeAdapts(sz: int, n: nat)
    requires ReadSize(sz) && 0 < n <= sz
    ensures ReadSize(NextReadSize(sz, n)) && NextReadSize(sz, n) >= MinReadBuffer
    ensures NextReadSize(sz, n) > sz <==> n == sz
    ensures NextReadSize(sz, n) < sz <==> sz > MinReadBuffer && n * 2 < sz
  {
    assert sz >= MinReadBuffer;
    if n == sz {
      assert (sz * 2) / 2 == sz;
    }
  }

  /** The socket after appending `b` to the list of `priority`, counting its bytes in wb_size. */
  function Queued(s: Socket, priority: Priority, b: WriteBuffer): Socket
  {
    if priority == High then s.(high := s.high + [b], wbSize := s.wbSize + b.sz)
    else s.(low := s.low + [b], wbSize := s.wbSize + b.sz)
  }

  /** append_sendbuffer and its variants keep the slot invariant; a buffer for the low list must be untouched. */
  lemma QueuedSound(s: Socket, priority: Priority, b: WriteBuffer)
    requires Sound(s) && InUse(s.stype) && !Quiet(s.stype)
    requires priority == Low ==> b.offset == 0
    ensures Sound(Queued(s, priority, b))
    ensures Bytes(Queued(s, priority, b).high) + Bytes(Queued(s, priority, b).low) == Bytes(s.high) + Bytes(s.low) + b.sz
  {
    BytesAppend(s.high, [b]);
    BytesAppend(s.low, [b]);
    assert Bytes([b]) == b.sz;
  }

  /** The socket accepts a send request for `id`: it is in use under that id and not half-closed or awaiting start. */
  predicate TakesData(s: Socket, id: int)
  {
    s.stype != Invalid && s.id == id && s.stype != HalfClose && s.stype != PAccept
  }

  /**
   * What send_socket's callers must guarantee: the source asserts that the
   * target is not listening, and a socket still only reserved must not be
   * sent to, since new_fd later asserts that its lists are empty.
   */
  predicate SendAllowed(s: Socket, id: int)
  {
    TakesData(s, id) ==> s.stype != PListen && s.stype != Listen && s.stype != Reserve
  }

  /** The effect of send_list on one list: TCP writes bytes, UDP sends whole datagrams. */
  function Drain(protocol: nat, list: seq<WriteBuffer>, writes: seq<IoResult>): Drained
  {
    if protocol == ProtocolTcp then DrainTcp(list, writes) else DrainUdp(list, writes)
  }

  /** Sending from a list keeps the byte count and keeps every buffer behind the head untouched. */
  lemma DrainKeeps(protocol: nat, list: seq<WriteBuffer>, writes: seq<IoResult>)
    ensures Bytes(Drain(protocol, list, writes).rest) + Drain(protocol, list, writes).written == Bytes(list)
    ensures (forall i :: 0 <= i < |list| ==> list[i].offset == 0) ==>
      var r := Drain(protocol, list, writes).rest; forall i :: 1 <= i < |r| ==> r[i].offset == 0
    ensures protocol != ProtocolTcp && (forall i :: 0 <= i < |list| ==> list[i].offset == 0) ==>
      var r := Drain(protocol, list, writes).rest; forall i :: 0 <= i < |r| ==> r[i].offset == 0
  {
    if protocol == ProtocolTcp {
      DrainTcpConserves(list, writes);
      if forall i :: 0 <= i < |list| ==> list[i].offset == 0 {
        DrainTcpKeepsFresh(list, writes);
      }
    } else {
      DrainUdpConserves(list, writes);
      var sent := DrainUdpShape(list, writes);
      assert forall i :: 0 <= i < |list| - sent ==> list[sent..][i] == list[sent + i];
    }
  }

  /** Step 1 of send_buffer keeps the slot invariant: wb_size drops by exactly what left the high list. */
  lemma HighDrainedSound(s: Socket, writes: seq<IoResult>)
    requires Sound(s) && InUse(s.stype)
    ensures var d := Drain(s.protocol, s.high, writes);
      Sound(s.(high := d.rest, wbSize := s.wbSize - d.written)) && (d.failed ==> s.protocol == ProtocolTcp)
  {
    DrainKeeps(s.protocol, s.high, writes);
    if s.high == [] {
      assert Drain(s.protocol, s.high, writes).rest == [];
    }
  }

  /** send_list: send_list_tcp or send_list_udp by the socket's protocol. */
  method SendList(protocol: nat, list: seq<WriteBuffer>, writes: seq<IoResult>) returns (d: Drained)
    ensures d == Drain(protocol, list, writes)
  {
    if protocol == ProtocolTcp {
      d := SendListTcp(list, writes);
    } else {
      d := SendListUdp(list, writes);
    }
  }

  /** raise_uncomplete: the low list's head becomes the only element of the empty high list. */
  function RaiseUncomplete(s: Socket): (r: Socket)
    requires s.low != [] && s.high == []
    ensures r.high + r.low == s.high + s.low && r.high == [s.low[0]]
    ensures Bytes(r.high) + Bytes(r.low) == Bytes(s.low)
    ensures r.(high := [], low := []) == s.(high := [], low := [])
    ensures (forall i :: 1 <= i < |s.low| ==> s.low[i].offset == 0) ==> forall i :: 0 <= i < |r.low| ==> r.low[i].offset == 0
  {
    BytesAppend([s.low[0]], s.low[1..]);
    assert [s.low[0]] + s.low[1..] == s.low;
    s.(high := [s.low[0]], low := s.low[1..])
  }

  /**
   * What steps 2 and 3 of send_buffer make of socket `s`, whose high list is
   * empty, given the results of the writes from its low list: a failed
   * write closes it; otherwise the low list is what is left of it, a partly
   * sent head is raised to the high list, and wb_size drops by what was
   * written.
   */
  ghost predicate LowSent(s: Socket, lowWrites: seq<IoResult>, s': Socket, r: Outcome)
  {
    var e := Drain(s.protocol, s.low, lowWrites);
    var t := s.(low := e.rest, wbSize := s.wbSize - e.written);
    (e.failed ==> r == Close && t.stype != Reserve && s' == ForceClosed(t)) &&
    (!e.failed ==> r == Ignore && s.high == [] && s' == if Uncomplete(e.rest) then RaiseUncomplete(t) else t)
  }

  /**
   * What send_buffer makes of socket `s` given the results of its writes:
   * a failed write closes it; high data left unsent leaves the low list
   * alone; an emptied high list passes on to the low list; and with both
   * lists empty a half-closed socket is closed while any other keeps its
   * state.
   */
  ghost predicate BufferSent(s: Socket, highWrites: seq<IoResult>, lowWrites: seq<IoResult>, s': Socket, r: Outcome)
  {
    var d := Drain(s.protocol, s.high, highWrites);
    var t := s.(high := d.rest, wbSize := s.wbSize - d.written);
    t.stype != Reserve &&
    if d.failed then r == Close && s' == ForceClosed(t)
    else if d.rest != [] then r == Ignore && s' == t
    else if s.low != [] then LowSent(t, lowWrites, s', r)
    else if s.stype == HalfClose then r == Close && s' == ForceClosed(t)
    else r == Ignore && s' == t
  }

  /**
   * send_buffer: sends the high list as far as it goes; only when it is
   * empty sends the low list, and moves a partly sent low head to the high
   * list so that it finishes before any later high-priority data; with both
   * lists empty a half-closed socket is closed. A failed write closes the
   * socket.
   */
  method SendBuffer(s: Socket, highWrites: seq<IoResult>, lowWrites: seq<IoResult>) returns (s': Socket, r: Outcome)
    requires Sound(s) && InUse(s.stype)
    ensures Sound(s')
    ensures s'.id == s.id && s'.owner == s.owner && s'.fd == s.fd && s'.protocol == s.protocol
    ensures r == Ignore || r == Close
    ensures r == Close <==> s'.stype == Invalid
    ensures r == Ignore ==> s'.stype == s.stype
    ensures r == Ignore ==> Bytes(s'.high) + Bytes(s'.low) <= Bytes(s.high) + Bytes(s.low)
    ensures r == Ignore && Drain(s.protocol, s.high, highWrites).rest != [] ==> s'.low == s.low
    ensures s.high == [] && s.low == [] ==> (r == Close <==> s.stype == HalfClose)
    ensures s.stype == HalfClose && r == Ignore ==> s'.high != [] || s.low != []
    ensures BufferSent(s, highWrites, lowWrites, s', r)
  {
    var d := SendList(s.protocol, s.high, highWrites);
    DrainKeeps(s.protocol, s.high, highWrites);
    HighDrainedSound(s, highWrites);
    var t := s.(high := d.rest, wbSize := s.wbSize - d.written);
    if d.failed {
      assert s.protocol == ProtocolTcp;
      return ForceClosed(t), Close;
    }
    if t.high != [] {
      return t, Ignore;
    }
    if t.low != [] {
      s', r := SendLow(t, lowWrites);
      return;
    }
    if t.stype == HalfClose {
      return ForceClosed(t), Close;
    }
    return t, Ignore;
  }

  /** Steps 2 and 3 of send_buffer, once the high list is empty. */
  method SendLow(s: Socket, lowWrites: seq<IoResult>) returns (s': Socket, r: Outcome)
    requires Sound(s) && InUse(s.stype) && s.high == [] && s.low != []
    ensures Sound(s')
    ensures s'.id == s.id && s'.owner == s.owner && s'.fd == s.fd && s'.protocol == s.protocol
    ensures r == Ignore || r == Close
    ensures r == Close <==> s'.stype == Invalid
    ensures r == Ignore ==> s'.stype == s.stype && Bytes(s'.high) + Bytes(s'.low) <= Bytes(s.low)
    ensures LowSent(s, lowWrites, s', r)
    ensures var e := Drain(s.protocol, s.low, lowWrites);
      !e.failed ==> s'.high + s'.low == e.rest && s'.high == (if Uncomplete(e.rest) then [e.rest[0]] else []) &&
                    s'.wbSize == s.wbSize - e.written && s'.stype == s.stype
  {
    var d := SendList(s.protocol, s.low, lowWrites);
    DrainKeeps(s.protocol, s.low, lowWrites);
    s' := s.(low := d.rest, wbSize := s.wbSize - d.written);
    if d.failed {
      assert s.protocol == ProtocolTcp;
      return ForceClosed(s'), Close;
    }
    if Uncomplete(s'.low) {
      s' := RaiseUncomplete(s');
    }
    r := Ignore;
  }

  /** The opcodes of the control pipe. */
  function Opcode(tag: char): nat
  {
    match tag
    case 'S' => 1
    case 'B' => 2
    case 'L' => 3
    case 'K' => 4
    case 'O' => 5
    case 'X' => 6
    case 'D' => 7
    case 'P' => 8
    case 'A' => 9
    case 'C' => 10
    case 'T' => 11
    case 'U' => 12
    case _ => 0
  }

  /** A control request body: the fields the request structs overlay on the same buffer. */
  datatype Request = Request(id: int, fd: int, owner: nat, buffer: nat, sz: nat, address: seq<bv8>, v6: bool)

  /**
   * The effects of the control-request handlers on the slot table, `before`
   * and `after` the request, with the outcome `r` and message `rep` they
   * return.
   */

  /** open_socket: see Server.OpenSocket. */
  ghost predicate Opened(before: seq<Socket>, after: seq<Socket>, id: int, owner: nat, outcome: OpenOutcome, r: Outcome, rep: Report)
  {
    |before| == MaxSocket &&
    var s := before[HashId(id)];
    s.stype == Reserve && Sound(s) &&
    match outcome
    case OpenFailed =>
      r == Error && rep == Report(id, owner, 0, None) && after == before[HashId(id) := s.(stype := Invalid)]
    case OpenConnected(fd) =>
      r == Open && rep.id == id && rep.owner == owner &&
      after == before[HashId(id) := NewFd(s, id, fd, ProtocolTcp, owner, true, false).(stype := Connected)]
    case OpenConnecting(fd) =>
      r == Ignore && after == before[HashId(id) := NewFd(s, id, fd, ProtocolTcp, owner, true, false).(stype := Connecting)]
  }

  /** listen_socket: see Server.ListenSocket. */
  ghost predicate Listened(before: seq<Socket>, after: seq<Socket>, id: int, fd: int, owner: nat, r: Outcome)
  {
    |before| == MaxSocket &&
    var s := before[HashId(id)];
    s.stype == Reserve && Sound(s) && r == Ignore &&
    after == before[HashId(id) := NewFd(s, id, fd, ProtocolTcp, owner, false, false).(stype := PListen)]
  }

  /** bind_socket: see Server.BindSocket. */
  ghost predicate Bound(before: seq<Socket>, after: seq<Socket>, id: int, fd: int, owner: nat, addFails: bool, r: Outcome, rep: Report)
  {
    |before| == MaxSocket &&
    var s := before[HashId(id)];
    s.stype == Reserve && Sound(s) &&
    var t := NewFd(s, id, fd, ProtocolTcp, owner, true, addFails);
    (addFails ==> r == Error && rep == Report(id, owner, 0, None) && after == before[HashId(id) := t]) &&
    (!addFails ==> r == Open && rep == Report(id, owner, 0, Some("binding")) && after == before[HashId(id) := t.(stype := Bind)])
  }

  /** add_udp_socket: see Server.AddUdpSocket. */
  ghost predicate UdpAdded(before: seq<Socket>, after: seq<Socket>, id: int, fd: int, v6: bool, owner: nat, addFails: bool)
  {
    |before| == MaxSocket &&
    var s := before[HashId(id)];
    s.stype == Reserve && Sound(s) &&
    after == before[HashId(id) := AddUdp(s, id, fd, v6, owner, addFails)]
  }

  /** start_socket: see Server.StartSocket. */
  ghost predicate Started(before: seq<Socket>, after: seq<Socket>, id: int, owner: nat, addFails: bool, r: Outcome, rep: Report)
  {
    |before| == MaxSocket &&
    var s := before[HashId(id)];
    rep.id == id && rep.owner == owner &&
    (s.stype == Invalid || s.id != id ==> r == Error && after == before) &&
    (s.stype != Invalid && s.id == id ==>
      if s.stype == PAccept || s.stype == PListen then
        (if addFails then r == Error && after == before[HashId(id) := s.(stype := Invalid)]
         else r == Open && rep.data == Some("start") &&
              after == before[HashId(id) := s.(stype := if s.stype == PAccept then Connected else Listen, owner := owner)])
      else if s.stype == Connected then
        r == Open && rep.data == Some("transfer") && after == before[HashId(id) := s.(owner := owner)]
      else r == Ignore && after == before)
  }

  /** set_udp_address: see Server.SetUdpAddress. */
  ghost predicate AddressSet(before: seq<Socket>, after: seq<Socket>, id: int, address: seq<bv8>, r: Outcome, rep: Report)
  {
    |before| == MaxSocket && |address| == UdpAddressSize &&
    var s := before[HashId(id)];
    (s.stype == Invalid || s.id != id ==> r == Ignore && after == before) &&
    (s.stype != Invalid && s.id == id && address[0] as nat != s.protocol ==>
      r == Error && rep == ClosedReport(s) && after == before) &&
    (s.stype != Invalid && s.id == id && address[0] as nat == s.protocol ==>
      |s.udpAddress| == UdpAddressSize && r == Ignore &&
      after == before[HashId(id) := s.(udpAddress := CopyAddress(s.protocol, address, s.udpAddress))] &&
      UdpSocketAddress(s.protocol, after[HashId(id)].udpAddress) == UdpSocketAddress(s.protocol, address))
  }

  /** send_socket: see Server.SendSocket. */
  ghost predicate SentTo(before: seq<Socket>, after: seq<Socket>, id: int, buffer: nat, sz: nat, priority: Priority,
                         udpAddress: Option<seq<bv8>>, io: IoResult, r: Outcome, rep: Report)
  {
    |before| == MaxSocket &&
    var s := before[HashId(id)];
    (r == Ignore || r == Close) &&
    (!TakesData(s, id) ==> r == Ignore && after == before) &&
    (TakesData(s, id) ==>
      Sound(s) && SendAllowed(s, id) && (udpAddress.Some? ==> |udpAddress.value| == UdpAddressSize) &&
      after == before[HashId(id) := Sent(s, buffer, sz, priority, udpAddress, io)]) &&
    (r == Close <==> TakesData(s, id) && Direct(s) && s.protocol == ProtocolTcp && io.Failed?) &&
    (r == Close ==> rep == ClosedReport(s))
  }

  /**
   * close_socket: see Server.CloseSocket. A socket with pending data ends as
   * send_buffer leaves it when that closed it, force-closed when send_buffer
   * emptied both lists, and HALFCLOSE with the rest of its data otherwise.
   */
  ghost predicate Closed(before: seq<Socket>, after: seq<Socket>, id: int, owner: nat,
                         highWrites: seq<IoResult>, lowWrites: seq<IoResult>, r: Outcome, rep: Report)
  {
    |before| == MaxSocket && |after| == MaxSocket &&
    var h := HashId(id);
    var s := before[h];
    after == before[h := after[h]] && (r == Ignore || r == Close) &&
    (s.stype == Invalid || s.id != id ==> r == Close && rep == Report(id, owner, 0, None) && after == before) &&
    (s.stype != Invalid && s.id == id ==>
      rep.id == id && after[h].id == id && s.stype != Reserve &&
      (r == Close <==> after[h].stype == Invalid) &&
      (r == Ignore ==> after[h].stype == HalfClose && (after[h].high != [] || after[h].low != [])) &&
      (s.high == [] && s.low == [] ==> r == Close && after[h] == ForceClosed(s)) &&
      (s.high != [] || s.low != [] ==>
        exists u: Socket, t: Outcome :: BufferSent(s, highWrites, lowWrites, u, t) && u.stype != Reserve &&
          (t == Close ==> r == Close && after[h] == u) &&
          (t == Ignore && u.high == [] && u.low == [] ==> r == Close && after[h] == ForceClosed(u)) &&
          (t == Ignore && (u.high != [] || u.low != []) ==> r == Ignore && after[h] == u.(stype := HalfClose))))
  }

  /** The socket server: the slot table, the id counter and the pending poll events. */
  class Server {
    const slot: array<Socket>
    const ev: array<Event>
    var allocId: int
    var eventN: nat
    var eventIndex: nat

    ghost predicate Valid()
      reads this, slot
    {
      slot.Length == MaxSocket && ev.Length == MaxEvent && 0 <= allocId < IdLimit &&
      eventIndex <= eventN <= MaxEvent &&
      forall i :: 0 <= i < MaxSocket ==> Sound(slot[i])
    }

    /** socket_server_create once the poller and the control pipe exist: every slot INVALID with empty lists. */
    constructor ()
      ensures Valid() && allocId == 0 && eventN == 0 && eventIndex == 0
      ensures forall i :: 0 <= i < MaxSocket ==> slot[i].stype == Invalid
    {
      slot := new Socket[MaxSocket](_ => Unused());
      ev := new Event[MaxEvent](_ => Event(None, false, false));
      allocId := 0;
      eventN := 0;
      eventIndex := 0;
    }

    /** Writes one slot, keeping the table's invariant. */
    method Store(h: nat, s: Socket)
      requires Valid() && h < MaxSocket && Sound(s)
      modifies slot
      ensures Valid() && slot[..] == old(slot[..])[h := s]
    {
      slot[h] := s;
    }

    /**
     * reserve_id: draws successive ids from alloc_id (wrapping at 2^31 back
     * to 0) and takes the first whose slot is INVALID, marking it RESERVE
     * with that id and no fd; -1 after 65536 draws found every slot in use.
     * Successive ids hit successive slots, so the draws visit every slot.
     */
    method ReserveId() returns (id: int)
      requires Valid()
      modifies this`allocId, slot
      ensures Valid()
      ensures id == -1 <==> forall j :: 0 <= j < MaxSocket ==> old(slot[j]).stype != Invalid
      ensures id == -1 ==> slot[..] == old(slot[..]) && allocId == (old(allocId) + MaxSocket) % IdLimit
      ensures id != -1 ==>
                0 <= id < IdLimit && allocId == id && old(slot[HashId(id)]).stype == Invalid &&
                slot[..] == old(slot[..])[HashId(id) := old(slot[HashId(id)]).(stype := Reserve, id := id, fd := -1)]
      ensures id != -1 ==> forall j :: 0 <= j < (id - old(allocId) - 1) % IdLimit ==>
        old(slot[..])[Probed(old(allocId), j)].stype != Invalid
    {
      var i := 0;
      while i < MaxSocket
        invariant 0 <= i <= MaxSocket && Valid()
        invariant allocId == (old(allocId) + i) % IdLimit
        invariant slot[..] == old(slot[..])
        invariant forall j :: 0 <= j < i ==> slot[Probed(old(allocId), j)].stype != Invalid
      {
        id := NextId();
        ProbeStep(old(allocId), i);
        if slot[HashId(id)].stype == Invalid {
          MarkReserved(id);
          ProbeCount(old(allocId), i);
          return;
        }
        i := i + 1;
      }
      ProbedEverySlot(slot[..], old(allocId));
      return -1;
    }

    /** The success branch of reserve_id: the INVALID slot of `id` becomes RESERVE for it. */
    method MarkReserved(id: int)
      requires Valid() && slot[HashId(id)].stype == Invalid
      modifies slot
      ensures Valid() && slot[..] == old(slot[..])[HashId(id) := Reserved(old(slot[HashId(id)]), id)]
    {
      var h := HashId(id);
      Store(h, Reserved(slot[h], id));
    }

    /** The atomic increment of alloc_id, then `& 0x7fffffff` when it went negative. */
    method NextId() returns (id: int)
      requires Valid()
      modifies this`allocId
      ensures Valid() && id == allocId == (old(allocId) + 1) % IdLimit
    {
      id := if allocId == Int32Max then Int32Min else allocId + 1;
      allocId := id;
      if id < 0 {
        id := id % IdLimit;
        allocId := id;
      }
    }

    /**
     * connect, listen, bind and UDP sockets all start from a reserved slot
     * through new_fd: `outcome` is what the connect attempt of open_socket
     * came to. A failure marks the slot INVALID and reports an error.
     */
    method OpenSocket(id: int, owner: nat, outcome: OpenOutcome) returns (r: Outcome, rep: Report)
      requires Valid() && slot[HashId(id)].stype == Reserve
      modifies slot
      ensures Valid()
      ensures Opened(old(slot[..]), slot[..], id, owner, outcome, r, rep)
    {
      var h := HashId(id);
      rep := Report(id, owner, 0, None);
      match outcome
      case OpenFailed =>
        Store(h, slot[h].(stype := Invalid));
        r := Error;
      case OpenConnected(fd) =>
        Store(h, NewFd(slot[h], id, fd, ProtocolTcp, owner, true, false).(stype := Connected));
        r := Open;
      case OpenConnecting(fd) =>
        Store(h, NewFd(slot[h], id, fd, ProtocolTcp, owner, true, false).(stype := Connecting));
        r := Ignore;
    }

    /** listen_socket: the reserved slot takes the listening fd and waits in PLISTEN for start. */
    method ListenSocket(id: int, fd: int, owner: nat) returns (r: Outcome)
      requires Valid() && slot[HashId(id)].stype == Reserve
      modifies slot
      ensures Valid()
      ensures Listened(old(slot[..]), slot[..], id, fd, owner, r)
    {
      var h := HashId(id);
      Store(h, NewFd(slot[h], id, fd, ProtocolTcp, owner, false, false).(stype := PListen));
      r := Ignore;
    }

    /** bind_socket: the reserved slot takes the fd in state BIND, or becomes INVALID when the poller refuses it. */
    method BindSocket(id: int, fd: int, owner: nat, addFails: bool) returns (r: Outcome, rep: Report)
      requires Valid() && slot[HashId(id)].stype == Reserve
      modifies slot
      ensures Valid()
      ensures Bound(old(slot[..]), slot[..], id, fd, owner, addFails, r, rep)
    {
      var h := HashId(id);
      var t := NewFd(slot[h], id, fd, ProtocolTcp, owner, true, addFails);
      if t.stype == Invalid {
        Store(h, t);
        return Error, Report(id, owner, 0, None);
      }
      Store(h, t.(stype := Bind));
      return Open, Report(id, owner, 0, Some("binding"));
    }

    /**
     * add_udp_socket with the failure path ending the operation: a UDP
     * socket is CONNECTED at once with a zeroed default peer address; when
     * the poller refuses the fd the slot is left INVALID.
     */
    method AddUdpSocket(id: int, fd: int, v6: bool, owner: nat, addFails: bool)
      requires Valid() && slot[HashId(id)].stype == Reserve
      modifies slot
      ensures Valid()
      ensures UdpAdded(old(slot[..]), slot[..], id, fd, v6, owner, addFails)
    {
      var h := HashId(id);
      Store(h, AddUdp(slot[h], id, fd, v6, owner, addFails));
    }

    /**
     * start_socket: PACCEPT becomes CONNECTED and PLISTEN becomes LISTEN once
     * the poller takes the fd (INVALID if it refuses); a CONNECTED socket
     * only changes owner; an unknown id is an error and any other state is
     * left alone.
     */
    method StartSocket(id: int, owner: nat, addFails: bool) returns (r: Outcome, rep: Report)
      requires Valid()
      modifies slot
      ensures Valid()
      ensures Started(old(slot[..]), slot[..], id, owner, addFails, r, rep)
    {
      var h := HashId(id);
      rep := Report(id, owner, 0, None);
      var s := slot[h];
      if s.stype == Invalid || s.id != id {
        return Error, rep;
      }
      if s.stype == PAccept || s.stype == PListen {
        if addFails {
          Store(h, s.(stype := Invalid));
          return Error, rep;
        }
        Store(h, s.(stype := if s.stype == PAccept then Connected else Listen, owner := owner));
        return Open, rep.(data := Some("start"));
      } else if s.stype == Connected {
        Store(h, s.(owner := owner));
        return Open, rep.(data := Some("transfer"));
      }
      return Ignore, rep;
    }

    /**
     * set_udp_address: copies the 7 (IPv4) or 19 (IPv6) meaningful bytes of
     * the request into the socket's default peer; a tag that is not the
     * socket's protocol is an error, and an unknown id is ignored.
     */
    method SetUdpAddress(id: int, address: seq<bv8>) returns (r: Outcome, rep: Report)
      requires Valid() && |address| == UdpAddressSize
      modifies slot
      ensures Valid()
      ensures AddressSet(old(slot[..]), slot[..], id, address, r, rep)
    {
      var h := HashId(id);
      var s := slot[h];
      rep := ClosedReport(s);
      if s.stype == Invalid || s.id != id {
        return Ignore, rep;
      }
      if address[0] as nat != s.protocol {
        return Error, rep;
      }
      var a := CopyAddress(s.protocol, address, s.udpAddress);
      CopyAddressDecodes(s.protocol, address, s.udpAddress);
      Store(h, s.(udpAddress := a));
      r := Ignore;
    }

    /**
     * send_socket: a socket that does not take data for `id` drops the
     * buffer. An idle CONNECTED socket is written directly: for TCP the
     * unsent rest goes to the high list whatever the priority and a failed
     * write closes the socket; for UDP an unsent datagram is queued by
     * priority. Otherwise TCP data is queued by priority and UDP data on the
     * list of its priority. The source asserts the socket is not listening.
     */
    method SendSocket(id: int, buffer: nat, sz: nat, priority: Priority, udpAddress: Option<seq<bv8>>, io: IoResult)
      returns (r: Outcome, rep: Report)
      requires Valid()
      requires udpAddress.Some? ==> |udpAddress.value| == UdpAddressSize
      requires SendAllowed(slot[HashId(id)], id)
      modifies slot
      ensures Valid()
      ensures SentTo(old(slot[..]), slot[..], id, buffer, sz, priority, udpAddress, io, r, rep)
    {
      var h := HashId(id);
      var s := slot[h];
      rep := ClosedReport(s);
      if !TakesData(s, id) {
        return Ignore, rep;
      }
      var t := Sent(s, buffer, sz, priority, udpAddress, io);
      Store(h, t);
      r := if Direct(s) && s.protocol == ProtocolTcp && io.Failed? then Close else Ignore;
    }

    /**
     * close_socket: an unknown id reports a close and changes nothing; pending
     * data is sent first, and a socket with nothing left is force-closed,
     * while one that still holds data becomes HALFCLOSE so that send_buffer
     * closes it once both lists drain. The source asserts the socket is not
     * merely reserved.
     */
    method CloseSocket(id: int, owner: nat, highWrites: seq<IoResult>, lowWrites: seq<IoResult>)
      returns (r: Outcome, rep: Report)
      requires Valid()
      requires slot[HashId(id)].stype == Reserve ==> slot[HashId(id)].id != id
      modifies slot
      ensures Valid()
      ensures Closed(old(slot[..]), slot[..], id, owner, highWrites, lowWrites, r, rep)
    {
      var h := HashId(id);
      var s := slot[h];
      if s.stype == Invalid || s.id != id {
        return Close, Report(id, owner, 0, None);
      }
      if s.high == [] && s.low == [] {
        Store(h, ForceClosed(s));
        return Close, Report(id, owner, 0, None);
      }
      var u, t := SendBuffer(s, highWrites, lowWrites);
      if t != Ignore {
        Store(h, u);
        return t, ClosedReport(u);
      }
      if u.high == [] && u.low == [] {
        Store(h, ForceClosed(u));
        return Close, Report(id, owner, 0, None);
      }
      Store(h, u.(stype := HalfClose));
      r, rep := Ignore, ClosedReport(u);
    }

    /**
     * forward_message_tcp: reads up to the current read size. An interrupted
     * or blocked read is ignored, another error or end of stream closes the
     * socket, data read while half-closed is discarded, and otherwise the
     * read size adapts to the amount read and the data is reported. The
     * bytes read are not modelled: the report carries their count in `ud`
     * and None in place of the (non-null) buffer the source hands over.
     */
    method ForwardMessageTcp(i: nat, io: IoResult) returns (r: Outcome, rep: Report)
      requires Valid() && i < MaxSocket && InUse(slot[i].stype) && slot[i].protocol == ProtocolTcp
      modifies slot
      ensures Valid()
      ensures var s := old(slot[i]);
        (io.Interrupted? || io.WouldBlock? ==> r == Ignore && slot[..] == old(slot[..])) &&
        (io.Failed? ==> r == Error && rep == ClosedReport(s) && slot[..] == old(slot[..])[i := ForceClosed(s)]) &&
        (io.Ready? && Moved(io.count, s.size) == 0 ==>
          r == Close && rep == ClosedReport(s) && slot[..] == old(slot[..])[i := ForceClosed(s)]) &&
        (io.Ready? && Moved(io.count, s.size) > 0 && s.stype == HalfClose ==> r == Ignore && slot[..] == old(slot[..])) &&
        (io.Ready? && Moved(io.count, s.size) > 0 && s.stype != HalfClose ==>
          r == Data && rep == Report(s.id, s.owner, Moved(io.count, s.size), None) &&
          slot[..] == old(slot[..])[i := s.(size := NextReadSize(s.size, Moved(io.count, s.size)))])
      ensures slot[i].stype != Invalid ==> slot[i].size >= MinReadBuffer
    {
      var s := slot[i];
      rep := ClosedReport(s);
      if io.Interrupted? || io.WouldBlock? {
        return Ignore, rep;
      }
      if io.Failed? {
        Store(i, ForceClosed(s));
        return Error, rep;
      }
      var sz := s.size;
      assert sz >= MinReadBuffer;
      var n := Moved(io.count, sz);
      if n == 0 {
        Store(i, ForceClosed(s));
        return Close, rep;
      }
      if s.stype == HalfClose {
        return Ignore, rep;
      }
      ReadSizeAdapts(sz, n);
      Store(i, s.(size := NextReadSize(sz, n)));
      return Data, Report(s.id, s.owner, n, None);
    }

    /** An event left for a socket that is now INVALID under the id just closed. */
    predicate Stale(e: Event, id: int)
      reads this, slot
    {
      e.s.Some? && e.s.value < slot.Length && slot[e.s.value].stype == Invalid && slot[e.s.value].id == id
    }

    /**
     * clear_closed_event: after a close or an error, the events still to be
     * handled in this round no longer refer to the socket just closed.
     */
    method ClearClosedEvent(t: Outcome, id: int)
      requires Valid()
      modifies ev
      ensures (t == Close || t == Error) ==> forall k :: eventIndex <= k < eventN ==> !Stale(ev[k], id)
      ensures (t == Close || t == Error) ==> forall k :: eventIndex <= k < eventN ==>
        ev[k] == if Stale(old(ev[k]), id) then old(ev[k]).(s := None) else old(ev[k])
      ensures forall k :: 0 <= k < ev.Length && !((t == Close || t == Error) && eventIndex <= k < eventN) ==> ev[k] == old(ev[k])
    {
      if t == Close || t == Error {
        var i := eventIndex;
        while i < eventN
          invariant eventIndex <= i <= eventN
          invariant forall k :: eventIndex <= k < i ==> !Stale(ev[k], id)
          invariant forall k :: eventIndex <= k < i ==> ev[k] == if Stale(old(ev[k]), id) then old(ev[k]).(s := None) else old(ev[k])
          invariant forall k :: 0 <= k < ev.Length && !(eventIndex <= k < i) ==> ev[k] == old(ev[k])
        {
          if Stale(ev[i], id) {
            ev[i] := ev[i].(s := None);
          }
          i := i + 1;
        }
      }
    }

    /**
     * ctrl_cmd: runs the handler of the request's opcode. `io`, the write
     * results and `addFails` are the kernel's answers to the calls the
     * handler makes; the source asserts what the handlers assert.
     */
    method CtrlCmd(tag: char, req: Request, io: IoResult, highWrites: seq<IoResult>, lowWrites: seq<IoResult>,
                   addFails: bool, open: OpenOutcome) returns (r: Outcome, rep: Report)
      requires Valid()
      requires tag in "BLOU" ==> slot[HashId(req.id)].stype == Reserve
      requires tag == 'K' && slot[HashId(req.id)].stype == Reserve ==> slot[HashId(req.id)].id != req.id
      requires tag in "DPA" ==> SendAllowed(slot[HashId(req.id)], req.id)
      requires tag in "AC" ==> |req.address| == UdpAddressSize
      modifies slot
      ensures Valid()
      ensures r == Exit <==> tag == 'X'
      ensures tag == 'X' ==> rep == Report(0, 0, 0, None)
      ensures Opcode(tag) == 0 || tag == 'T' || tag == 'X' ==> slot[..] == old(slot[..])
      ensures Opcode(tag) == 0 || tag == 'T' || tag == 'U' ==> r == Ignore
      ensures tag == 'S' ==> Started(old(slot[..]), slot[..], req.id, req.owner, addFails, r, rep)
      ensures tag == 'B' ==> Bound(old(slot[..]), slot[..], req.id, req.fd, req.owner, addFails, r, rep)
      ensures tag == 'L' ==> Listened(old(slot[..]), slot[..], req.id, req.fd, req.owner, r)
      ensures tag == 'K' ==> Closed(old(slot[..]), slot[..], req.id, req.owner, highWrites, lowWrites, r, rep)
      ensures tag == 'O' ==> Opened(old(slot[..]), slot[..], req.id, req.owner, open, r, rep)
      ensures tag == 'D' ==> SentTo(old(slot[..]), slot[..], req.id, req.buffer, req.sz, High, None, io, r, rep)
      ensures tag == 'P' ==> SentTo(old(slot[..]), slot[..], req.id, req.buffer, req.sz, Low, None, io, r, rep)
      ensures tag == 'A' ==> SentTo(old(slot[..]), slot[..], req.id, req.buffer, req.sz, High, Some(req.address), io, r, rep)
      ensures tag == 'C' ==> AddressSet(old(slot[..]), slot[..], req.id, req.address, r, rep)
      ensures tag == 'U' ==> UdpAdded(old(slot[..]), slot[..], req.id, req.fd, req.v6, req.owner, addFails)
    {
      rep := Report(0, 0, 0, None);
      match tag
      case 'S' => r, rep := StartSocket(req.id, req.owner, addFails);
      case 'B' => r, rep := BindSocket(req.id, req.fd, req.owner, addFails);
      case 'L' => r := ListenSocket(req.id, req.fd, req.owner);
      case 'K' => r, rep := CloseSocket(req.id, req.owner, highWrites, lowWrites);
      case 'O' => r, rep := OpenSocket(req.id, req.owner, open);
      case 'X' => r := Exit;
      case 'D' => r, rep := SendSocket(req.id, req.buffer, req.sz, High, None, io);
      case 'P' => r, rep := SendSocket(req.id, req.buffer, req.sz, Low, None, io);
      case 'A' => r, rep := SendSocket(req.id, req.buffer, req.sz, High, Some(req.address), io);
      case 'C' => r, rep := SetUdpAddress(req.id, req.address);
      case 'T' => r := Ignore;
      case 'U' =>
        AddUdpSocket(req.id, req.fd, req.v6, req.owner, addFails);
        r := Ignore;
      case _ => r := Ignore;
    }
  }

  /** The socket takes the direct path of send_socket: CONNECTED with both lists empty. */
  predicate Direct(s: Socket)
  {
    s.high == [] && s.low == [] && s.stype == Connected
  }

  /** The byte count of the direct write: EINTR and EAGAIN count as nothing written. */
  function DirectWritten(io: IoResult, sz: nat): (n: nat)
    requires !io.Failed?
    ensures n <= sz
  {
    if io.Ready? then Moved(io.count, sz) else 0
  }

  /** The socket after send_socket accepted a request for it. */
  function Sent(s: Socket, buffer: nat, sz: nat, priority: Priority, udpAddress: Option<seq<bv8>>, io: IoResult): (t: Socket)
    requires Sound(s) && TakesData(s, s.id) && SendAllowed(s, s.id)
    requires udpAddress.Some? ==> |udpAddress.value| == UdpAddressSize
    ensures Sound(t) && t.id == s.id && t.owner == s.owner && t.protocol == s.protocol
    ensures t.stype == s.stype || t.stype == Invalid
    ensures t.stype == Invalid <==> Direct(s) && s.protocol == ProtocolTcp && io.Failed?
    ensures Direct(s) && s.protocol == ProtocolTcp && !io.Failed? ==>
      t == (if DirectWritten(io, sz) == sz then s
            else Queued(s, High, WriteBuffer(buffer, DirectWritten(io, sz), sz - DirectWritten(io, sz), [])))
    ensures Direct(s) && s.protocol != ProtocolTcp ==>
      t == (if io.Ready? && io.count >= sz then s
            else Queued(s, priority, WriteBuffer(buffer, 0, sz, if udpAddress.Some? then udpAddress.value else s.udpAddress)))
    ensures !Direct(s) && s.protocol == ProtocolTcp ==> t == Queued(s, priority, WriteBuffer(buffer, 0, sz, []))
    ensures !Direct(s) && s.protocol != ProtocolTcp ==>
      t == Queued(s, priority, WriteBuffer(buffer, 0, sz, if udpAddress.Some? then udpAddress.value else s.udpAddress))
    ensures t.stype != Invalid ==>
              Bytes(t.high) + Bytes(t.low) + (if Direct(s) && s.protocol == ProtocolTcp then DirectWritten(io, sz) else 0) >=
              Bytes(s.high) + Bytes(s.low)
  {
    var addr := if udpAddress.Some? then udpAddress.value else s.udpAddress;
    if Direct(s) then
      if s.protocol == ProtocolTcp then
        if io.Failed? then ForceClosed(s)
        else
          var n := DirectWritten(io, sz);
          if n == sz then s
          else
            QueuedSound(s, High, WriteBuffer(buffer, n, sz - n, []));
            Queued(s, High, WriteBuffer(buffer, n, sz - n, []))
      else if io.Ready? && io.count >= sz then s
      else
        QueuedSound(s, priority, WriteBuffer(buffer, 0, sz, addr));
        Queued(s, priority, WriteBuffer(buffer, 0, sz, addr))
    else if s.protocol == ProtocolTcp then
      QueuedSound(s, priority, WriteBuffer(buffer, 0, sz, []));
      Queued(s, priority, WriteBuffer(buffer, 0, sz, []))
    else
      QueuedSound(s, priority, WriteBuffer(buffer, 0, sz, addr));
      Queued(s, priority, WriteBuffer(buffer, 0, sz, addr))
  }

  /** The default peer after set_udp_address: the bytes the protocol reads come from the request. */
  function CopyAddress(protocol: nat, address: seq<bv8>, old_: seq<bv8>): (a: seq<bv8>)
    requires |address| == UdpAddressSize && |old_| == UdpAddressSize
    ensures |a| == UdpAddressSize
  {
    if protocol == ProtocolUdp then address[..7] + old_[7..] else address
  }

  /** The stored default peer decodes exactly as the request's address did. */
  lemma CopyAddressDecodes(protocol: nat, address: seq<bv8>, old_: seq<bv8>)
    requires |address| == UdpAddressSize && |old_| == UdpAddressSize
    ensures UdpSocketAddress(protocol, CopyAddress(protocol, address, old_)) == UdpSocketAddress(protocol, address)
  {
    var a := CopyAddress(protocol, address, old_);
    if protocol == ProtocolUdp {
      assert a[..7] == address[..7];
    }
    DecodeReadsPrefix(protocol, a, address);
  }

  /** add_udp_socket with the failure path ending the operation. */
  function AddUdp(s: Socket, id: int, fd: int, v6: bool, owner: nat, addFails: bool): (t: Socket)
    requires s.stype == Reserve && Sound(s)
    ensures Sound(t)
    ensures t.stype == Invalid <==> addFails
    ensures !addFails ==>
              t.stype == Connected && t.id == id && t.fd == fd && t.owner == owner &&
              t.protocol == (if v6 then ProtocolUdpV6 else ProtocolUdp) && t.udpAddress == ZeroAddress()
  {
    var t := NewFd(s, id, fd, if v6 then ProtocolUdpV6 else ProtocolUdp, owner, true, addFails);
    if t.stype == Invalid then t else t.(stype := Connected, udpAddress := ZeroAddress())
  }

  /**
   * add_udp_socket as written: when new_fd fails it marks the slot INVALID
   * and then goes on to store through the null socket pointer; None is that
   * null dereference.
   */
  function AddUdpAsWritten(s: Socket, id: int, fd: int, v6: bool, owner: nat, addFails: bool): Option<Socket>
    requires s.stype == Reserve && Sound(s)
  {
    var t := NewFd(s, id, fd, if v6 then ProtocolUdpV6 else ProtocolUdp, owner, true, addFails);
    if t.stype == Invalid then None else Some(t.(stype := Connected, udpAddress := ZeroAddress()))
  }

  /** The code as written dereferences null exactly when the poller refuses the fd; otherwise it agrees with AddUdp. */
  lemma AddUdpAsWrittenFaults(s: Socket, id: int, fd: int, v6: bool, owner: nat, addFails: bool)
    requires s.stype == Reserve && Sound(s)
    ensures AddUdpAsWritten(s, id, fd, v6, owner, addFails).None? <==> addFails
    ensures !addFails ==> AddUdpAsWritten(s, id, fd, v6, owner, addFails) == Some(AddUdp(s, id, fd, v6, owner, addFails))
  {
  }

  /** The slot the `j`-th draw after alloc_id `a` looks at. */
  function Probed(a: int, j: int): nat
  {
    (a + 1 + j) % MaxSocket
  }

  /** An INVALID slot marked RESERVE for `id`, with no fd yet. */
  function Reserved(s: Socket, id: int): (r: Socket)
    requires Sound(s) && s.stype == Invalid
    ensures Sound(r) && r.stype == Reserve && r.high == [] && r.low == []
  {
    s.(stype := Reserve, id := id, fd := -1)
  }

  /** When a full round of draws from `a` found no INVALID slot, there is none. */
  lemma ProbedEverySlot(slots: seq<Socket>, a: int)
    requires |slots| == MaxSocket
    requires forall j :: 0 <= j < MaxSocket ==> slots[Probed(a, j)].stype != Invalid
    ensures forall t :: 0 <= t < MaxSocket ==> slots[t].stype != Invalid
  {
    forall t | 0 <= t < MaxSocket
      ensures slots[t].stype != Invalid
    {
      ModReach(a + 1, t, MaxSocket);
      var j := (t - (a + 1)) % MaxSocket;
      assert Probed(a, j) == t;
    }
  }

  /** The next id drawn after `a + i` draws from `a` lands on the slot `a + 1 + i`. */
  lemma ProbeStep(a: int, i: nat)
    requires 0 <= a < IdLimit
    ensures ((a + i) % IdLimit + 1) % IdLimit == (a + i + 1) % IdLimit
    ensures HashId((a + i + 1) % IdLimit) == Probed(a, i)
  {
    var x := a + i;
    var q := x / IdLimit;
    var r := x % IdLimit;
    if r + 1 < IdLimit {
      DivUnique(x + 1, IdLimit, q, r + 1);
      ModSmall(r + 1, IdLimit);
    } else {
      DivUnique(x + 1, IdLimit, q + 1, 0);
    }
    ModModMultiple(x + 1, 0x8000, MaxSocket);
  }

  /** The number of draws before id `(a + 1 + i) % 2^31` is `i`. */
  lemma ProbeCount(a: int, i: nat)
    requires 0 <= a < IdLimit && i < MaxSocket
    ensures ((a + i + 1) % IdLimit - a - 1) % IdLimit == i
  {
    var x := a + i + 1;
    var q := x / IdLimit;
    assert x % IdLimit - a - 1 == i + (-q) * IdLimit;
    ModAddMultiple(i, -q, IdLimit);
    ModSmall(i, IdLimit);
  }
}
