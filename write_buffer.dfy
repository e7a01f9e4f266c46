/**
 * The write-buffer lists of a socket (socket_server.c): each socket keeps a
 * high- and a low-priority list of buffers still to be written, and
 * send_list_tcp / send_list_udp write them out from the head. A list is a
 * sequence here; the kernel's write and sendto are oracles whose results
 * are listed in the order the calls happen.
 */
module WriteBuffers {
  /**
   * What one write, sendto or read call reports: Ready(k) moves min(k, asked)
   * bytes; the others are the errno classes EINTR, EAGAIN and any other error.
   */
  datatype IoResult = Ready(count: nat) | Interrupted | WouldBlock | Failed

  /** The byte count a Ready call returns for a request of `asked` bytes. */
  function Moved(count: nat, asked: nat): (n: nat)
    ensures n <= asked && (n == asked <==> count >= asked)
  {
    if count < asked then count else asked
  }

  /**
   * struct write_buffer: `buffer` is the allocation, `offset` how far `ptr`
   * has advanced into it, `sz` the bytes still to write.
   */
  datatype WriteBuffer = WriteBuffer(buffer: nat, offset: nat, sz: nat, udpAddress: seq<bv8>)

  /** The bytes still to write in a list. */
  function Bytes(list: seq<WriteBuffer>): nat
  {
    if list == [] then 0 else list[0].sz + Bytes(list[1..])
  }

  lemma {:induction false} BytesAppend(a: seq<WriteBuffer>, b: seq<WriteBuffer>)
    ensures Bytes(a + b) == Bytes(a) + Bytes(b)
  {
    if a == [] {
      assert a + b == b;
    } else {
      assert (a + b)[1..] == a[1..] + b;
      BytesAppend(a[1..], b);
    }
  }

  /** list_uncomplete: the head buffer has been partly written (its ptr is past its start). */
  predicate Uncomplete(list: seq<WriteBuffer>)
  {
    list != [] && list[0].offset != 0
  }

  /** The head buffer after a partial write of `n` bytes. */
  function Advance(b: WriteBuffer, n: nat): (r: WriteBuffer)
    requires n <= b.sz
    ensures r.buffer == b.buffer && r.offset + r.sz == b.offset + b.sz
  {
    b.(offset := b.offset + n, sz := b.sz - n)
  }

  /** What is left of a list after sending, how many bytes went out, and whether a write failed. */
  datatype Drained = Drained(rest: seq<WriteBuffer>, written: nat, failed: bool)

  function Plus(d: Drained, n: nat): Drained
  {
    d.(written := n + d.written)
  }

  /**
   * The effect of send_list_tcp on a list: buffers are written from the head,
   * an interrupted write is repeated, EAGAIN stops, another error fails, and
   * a short write advances the head buffer and stops. When the listed
   * results run out the list is left as on EAGAIN.
   */
  function DrainTcp(list: seq<WriteBuffer>, writes: seq<IoResult>): Drained
    decreases |writes|
  {
    if list == [] || writes == [] then Drained(list, 0, false)
    else match writes[0]
      case Interrupted => DrainTcp(list, writes[1..])
      case WouldBlock => Drained(list, 0, false)
      case Failed => Drained(list, 0, true)
      case Ready(k) =>
        if k >= list[0].sz then Plus(DrainTcp(list[1..], writes[1..]), list[0].sz)
        else Drained([Advance(list[0], k)] + list[1..], k, false)
  }

  /**
   * send_list_tcp takes buffers off the head only once they are fully
   * written: what is left is the list from some buffer on, that buffer
   * possibly advanced by a partial write, and exactly the bytes of the
   * removed buffers plus the partial write went out.
   */
  lemma {:induction false} DrainTcpShape(list: seq<WriteBuffer>, writes: seq<IoResult>) returns (sent: nat, partial: nat)
    ensures var d := DrainTcp(list, writes);
      sent <= |list| &&
      (sent == |list| ==> d.rest == [] && partial == 0) &&
      (sent < |list| ==> partial <= list[sent].sz && d.rest == [Advance(list[sent], partial)] + list[sent + 1..]) &&
      d.written == Bytes(list[..sent]) + partial
    decreases |writes|
  {
    var d := DrainTcp(list, writes);
    if list == [] || writes == [] || writes[0].WouldBlock? || writes[0].Failed? {
      sent, partial := 0, 0;
      if list != [] {
        assert list[0].(offset := list[0].offset, sz := list[0].sz) == list[0];
        assert d.rest == [Advance(list[0], 0)] + list[1..];
      }
    } else if writes[0].Interrupted? {
      sent, partial := DrainTcpShape(list, writes[1..]);
    } else if writes[0].count >= list[0].sz {
      var s, p := DrainTcpShape(list[1..], writes[1..]);
      sent, partial := s + 1, p;
      assert list[1..][..s] == list[1..sent];
      assert list[..sent] == [list[0]] + list[1..sent];
      BytesAppend([list[0]], list[1..sent]);
      if s < |list[1..]| {
        assert list[1..][s + 1..] == list[sent + 1..];
      }
    } else {
      sent, partial := 0, writes[0].count;
    }
  }

  /** Sending never creates bytes: what is left plus what went out is what there was. */
  lemma DrainTcpConserves(list: seq<WriteBuffer>, writes: seq<IoResult>)
    ensures Bytes(DrainTcp(list, writes).rest) + DrainTcp(list, writes).written == Bytes(list)
  {
    var sent, partial := DrainTcpShape(list, writes);
    var d := DrainTcp(list, writes);
    assert list == list[..sent] + list[sent..];
    BytesAppend(list[..sent], list[sent..]);
    if sent < |list| {
      assert list[sent..] == [list[sent]] + list[sent + 1..];
      BytesAppend([list[sent]], list[sent + 1..]);
      BytesAppend([Advance(list[sent], partial)], list[sent + 1..]);
    }
  }

  /** Buffers behind the head are never touched: of a list of unwritten buffers, only the head can be left partly written. */
  lemma DrainTcpKeepsFresh(list: seq<WriteBuffer>, writes: seq<IoResult>)
    requires forall i :: 0 <= i < |list| ==> list[i].offset == 0
    ensures var r := DrainTcp(list, writes).rest; forall i :: 1 <= i < |r| ==> r[i].offset == 0
  {
    var sent, partial := DrainTcpShape(list, writes);
    var r := DrainTcp(list, writes).rest;
    assert forall i :: 1 <= i < |r| ==> r[i] == list[sent + i];
  }

  /**
   * send_list_tcp: writes the head buffer, repeating interrupted writes,
   * until the list is empty, a write would block, a write fails, or a write
   * is short.
   */
  method SendListTcp(list: seq<WriteBuffer>, writes: seq<IoResult>) returns (d: Drained)
    ensures d == DrainTcp(list, writes)
  {
    var rest := list;
    var written: nat := 0;
    var w := 0;
    while rest != []
      invariant w <= |writes|
      invariant DrainTcp(list, writes) == Plus(DrainTcp(rest, writes[w..]), written)
      decreases |writes| - w
    {
      var tmp := rest[0];
      while w < |writes| && writes[w].Interrupted?
        invariant w <= |writes| && DrainTcp(list, writes) == Plus(DrainTcp(rest, writes[w..]), written)
      {
        assert writes[w..][1..] == writes[w + 1..];
        w := w + 1;
      }
      if w == |writes| || writes[w].WouldBlock? {
        return Drained(rest, written, false);
      }
      if writes[w].Failed? {
        return Drained(rest, written, true);
      }
      var sz := Moved(writes[w].count, tmp.sz);
      written := written + sz;
      if sz != tmp.sz {
        return Drained([Advance(tmp, sz)] + rest[1..], written, false);
      }
      assert writes[w..][1..] == writes[w + 1..];
      rest := rest[1..];
      w := w + 1;
    }
    return Drained([], written, false);
  }

  /**
   * The effect of send_list_udp: each sendto that succeeds removes the head
   * datagram whole; the first one that does not stops the list, whatever
   * the error (errors other than EINTR and EAGAIN are only logged).
   */
  function DrainUdp(list: seq<WriteBuffer>, sends: seq<IoResult>): (d: Drained)
    ensures !d.failed
    decreases |sends|
  {
    if list == [] || sends == [] || !sends[0].Ready? then Drained(list, 0, false)
    else Plus(DrainUdp(list[1..], sends[1..]), list[0].sz)
  }

  /** send_list_udp takes whole datagrams off the head: what is left is a suffix of the list. */
  lemma {:induction false} DrainUdpShape(list: seq<WriteBuffer>, sends: seq<IoResult>) returns (sent: nat)
    ensures sent <= |list| && DrainUdp(list, sends).rest == list[sent..] && DrainUdp(list, sends).written == Bytes(list[..sent])
    decreases |sends|
  {
    if list == [] || sends == [] || !sends[0].Ready? {
      sent := 0;
    } else {
      var s := DrainUdpShape(list[1..], sends[1..]);
      sent := s + 1;
      assert list[1..][s..] == list[sent..];
      assert list[..sent] == [list[0]] + list[1..][..s];
      BytesAppend([list[0]], list[1..][..s]);
    }
  }

  lemma DrainUdpConserves(list: seq<WriteBuffer>, sends: seq<IoResult>)
    ensures Bytes(DrainUdp(list, sends).rest) + DrainUdp(list, sends).written == Bytes(list)
  {
    var sent := DrainUdpShape(list, sends);
    assert list == list[..sent] + list[sent..];
    BytesAppend(list[..sent], list[sent..]);
  }

  /** send_list_udp: sends datagrams from the head until the list is empty or a sendto does not succeed. */
  method SendListUdp(list: seq<WriteBuffer>, sends: seq<IoResult>) returns (d: Drained)
    ensures d == DrainUdp(list, sends)
  {
    var rest := list;
    var written: nat := 0;
    var w := 0;
    while rest != []
      invariant w <= |sends|
      invariant DrainUdp(list, sends) == Plus(DrainUdp(rest, sends[w..]), written)
      decreases |rest|
    {
      if w == |sends| || !sends[w].Ready? {
        return Drained(rest, written, false);
      }
      written := written + rest[0].sz;
      assert sends[w..][1..] == sends[w + 1..];
      rest := rest[1..];
      w := w + 1;
    }
    return Drained([], written, false);
  }
}
