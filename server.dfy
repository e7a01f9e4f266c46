/**
 * The message paths of skynet_server.c: the argument filter and size/type
 * packing of skynet_send, delivery into a registered context's queue,
 * skynet_context_endless, one weighted turn of
 * skynet_context_message_dispatch, and the monitor check that flags a
 * context as endless.
 */
module Server {
  import opened Wrappers
  import opened Arith
  import opened MessageQueue
  import opened Context
  import opened HandleTable
  import opened Monitor

  /** PTYPE_TAG_DONTCOPY: the payload is handed over as it is. */
  const PTypeTagDontCopy: nat := 0x1_0000
  /** PTYPE_TAG_ALLOCSESSION: the send allocates a fresh session. */
  const PTypeTagAllocSession: nat := 0x2_0000
  const UInt32Limit: nat := 0x1_0000_0000
  /** SIZE_MAX + 1 on a 64-bit target. */
  const SizeLimit: nat := 0x1_0000_0000_0000_0000

  /** `type & tag != 0` for a single-bit tag, on a two's-complement int. */
  predicate HasTag(ptype: int, tag: nat)
    requires tag > 0
  {
    (ptype / tag) % 2 == 1
  }

  /** A 32-bit pattern read back as a signed int, as the targeted compilers convert it. */
  function Int32Of(u: nat): (r: int)
    requires u < UInt32Limit
    ensures Int32Min <= r <= Int32Max && (r - u) % UInt32Limit == 0
  {
    if u <= Int32Max then u else u - UInt32Limit
  }

  /**
   * The size word as skynet_send builds it: the type byte above the low 24
   * size bits, as `(size_t)type << HANDLE_REMOTE_SHIFT` would place it.
   */
  function Pack(t: nat, sz: nat): (w: nat)
    requires t < 256 && sz < RemoteUnit
    ensures w < UInt32Limit
  {
    sz + t * RemoteUnit
  }

  /**
   * The size word as _filter_args writes it: `type << HANDLE_REMOTE_SHIFT`
   * is computed on a 32-bit int, which wraps to a negative value once the
   * type reaches 128; that int is sign-extended to the 64-bit size_t and
   * OR-ed over the size, whose bits it does not share.
   */
  function PackAsWritten(t: nat, sz: nat): (w: nat)
    requires t < 256 && sz < RemoteUnit
    ensures w < SizeLimit
  {
    var shifted := Int32Of(t * RemoteUnit % UInt32Limit);
    sz + shifted % SizeLimit
  }

  /** The type dispatch_message reads: `int type = sz >> HANDLE_REMOTE_SHIFT`, truncated to a 32-bit int. */
  function UnpackType(w: nat): (t: int)
    ensures Int32Min <= t <= Int32Max
  {
    Int32Of((w / RemoteUnit) % UInt32Limit)
  }

  /** The size dispatch_message reads: `sz & HANDLE_MASK`. */
  function UnpackSize(w: nat): (sz: nat)
    ensures sz < RemoteUnit
  {
    w % RemoteUnit
  }

  /** Every type byte and every size that passes the too-large check survive packing and unpacking. */
  lemma PackRoundTrip(t: nat, sz: nat)
    requires t < 256 && sz < RemoteUnit
    ensures UnpackType(Pack(t, sz)) == t && UnpackSize(Pack(t, sz)) == sz
  {
    DivUnique(Pack(t, sz), RemoteUnit, t, sz);
    ModSmall(t, UInt32Limit);
  }

  /** As written, the packing agrees with the intended one below type 128. */
  lemma PackAsWrittenLowTypes(t: nat, sz: nat)
    requires t < 128 && sz < RemoteUnit
    ensures PackAsWritten(t, sz) == Pack(t, sz)
  {
    ModSmall(t * RemoteUnit, UInt32Limit);
    ModSmall(t * RemoteUnit, SizeLimit);
  }

  /** As written, a type byte of 128 or more comes back from dispatch 256 lower, a negative type. */
  lemma PackAsWrittenHighTypes(t: nat, sz: nat)
    requires 128 <= t < 256 && sz < RemoteUnit
    ensures UnpackType(PackAsWritten(t, sz)) == t - 256
  {
    var x := t * RemoteUnit;
    ModSmall(x, UInt32Limit);
    var neg := x - UInt32Limit;
    assert Int32Of(x % UInt32Limit) == neg;
    DivUnique(neg, SizeLimit, -1, neg + SizeLimit);
    var w := sz + neg + SizeLimit;
    assert PackAsWritten(t, sz) == w;
    var hi := t + 0x100_0000_0000 - 256;
    DivUnique(w, RemoteUnit, hi, sz);
    DivUnique(hi, UInt32Limit, 255, t - 256 + UInt32Limit);
  }

  /** The smallest type the as-written packing corrupts: type 128 is dispatched as -128. */
  lemma PackAsWrittenType128()
    ensures UnpackType(PackAsWritten(128, 0)) == -128
  {
    PackAsWrittenHighTypes(128, 0);
  }

  /**
   * _filter_args for a size that passed skynet_send's check: allocates a
   * session when the ALLOCSESSION tag is set, replaces a non-null payload by
   * its copy `copy` unless the DONTCOPY tag is set, and packs the type byte
   * into the size word.
   */
  method FilterArgs(ctx: Ctx, ptype: int, session: int, data: nat, sz: nat, copy: nat)
    returns (session': int, data': nat, sz': nat)
    requires ctx.Valid() && sz < RemoteUnit
    requires HasTag(ptype, PTypeTagAllocSession) ==> session == 0
    modifies ctx`sessionId
    ensures ctx.Valid()
    ensures HasTag(ptype, PTypeTagAllocSession) ==>
      session' == NextSession(old(ctx.sessionId)) && ctx.sessionId == session' && session' > 0
    ensures !HasTag(ptype, PTypeTagAllocSession) ==> session' == session && ctx.sessionId == old(ctx.sessionId)
    ensures data' == if !HasTag(ptype, PTypeTagDontCopy) && data != 0 then copy else data
    ensures sz' == Pack(ptype % 256, sz) && UnpackType(sz') == ptype % 256 && UnpackSize(sz') == sz
  {
    var needCopy := !HasTag(ptype, PTypeTagDontCopy);
    var allocSession := HasTag(ptype, PTypeTagAllocSession);
    var t := ptype % 256;
    session' := session;
    if allocSession {
      session' := ctx.NewSession();
    }
    data' := data;
    if needCopy && data != 0 {
      data' := copy;
    }
    sz' := Pack(t, sz);
    PackRoundTrip(t, sz);
  }

  /** A context messages can be pushed to: live, with a well-formed queue that may be linked into `g`. */
  ghost predicate Deliverable(c: Ctx, g: GlobalQueue)
    reads c, c.queue, if c.queue != null then {c.queue.buf} else {}, g
  {
    c.Valid() && !c.Deleted && c.queue != null && c.queue.Valid() && Linkable(c.queue, g)
  }

  /** The ring buffer of the queue of the context registered under `handle`, as a set. */
  ghost function OwnedBuf(s: HandleStorage, handle: nat): set<array<Message>>
    reads s, s.Owned(handle), s.OwnedQueue(handle)
  {
    set q | q in s.OwnedQueue(handle) :: q.buf
  }

  /**
   * skynet_context_push: appends `m` to the queue of the context registered
   * under `handle` (linking the queue into the global queue if it was out of
   * it) and returns 0, or returns -1 when no context has that handle.
   */
  method ContextPush(s: HandleStorage, g: GlobalQueue, handle: nat, m: Message) returns (r: int)
    requires s.Valid() && g.Valid()
    requires handle in s.Live ==> Deliverable(s.Live[handle], g)
    modifies s.Owned(handle)`ref, s.Owned(handle)`Deleted
    modifies s.OwnedQueue(handle)`buf, s.OwnedQueue(handle)`cap, s.OwnedQueue(handle)`head, s.OwnedQueue(handle)`tail
    modifies s.OwnedQueue(handle)`inGlobal, s.OwnedQueue(handle)`Contents, s.OwnedQueue(handle)`release
    modifies s.OwnedQueue(handle)`next
    modifies OwnedBuf(s, handle), g, g.Spine`next
    ensures g.Valid() && (r == 0 || r == -1)
    ensures r == 0 <==> handle in s.Live
    ensures handle !in s.Live ==> g.Spine == old(g.Spine)
    ensures handle in s.Live ==>
      var c := s.Live[handle];
      Deliverable(c, g) && c.ref == old(c.ref) && c.queue.inGlobal &&
      c.queue.Contents == old(c.queue.Contents) + [m] &&
      g.Spine == if old(c.queue.inGlobal) then old(g.Spine) else old(g.Spine) + [c.queue]
  {
    var ctx := s.Grab(handle);
    if ctx == null {
      return -1;
    }
    PushHeld(ctx, g, m);
    return 0;
  }

  /** The push and the release of skynet_context_push, on a context held by one extra reference. */
  method PushHeld(c: Ctx, g: GlobalQueue, m: Message)
    requires Deliverable(c, g) && c.ref >= 2 && g.Valid()
    modifies c`ref, c`Deleted, c.queue`buf, c.queue`cap, c.queue`head, c.queue`tail
    modifies c.queue`inGlobal, c.queue`Contents, c.queue`release, c.queue`next, c.queue.buf, g, g.Spine`next
    ensures g.Valid() && Deliverable(c, g) && c.ref == old(c.ref) - 1 && c.queue.inGlobal
    ensures c.queue.Contents == old(c.queue.Contents) + [m]
    ensures g.Spine == if old(c.queue.inGlobal) then old(g.Spine) else old(g.Spine) + [c.queue]
  {
    c.queue.Push(m, g);
    var _ := c.Release(g);
  }

  /** Where skynet_send hands a message. */
  datatype Route =
    | Nowhere
    | ToHarbor(destination: nat, message: Message)
    | ToQueue(destination: nat, message: Message)

  /**
   * The message skynet_send builds from its arguments once the size has
   * passed: a zero source stands for the sender `self`, the session is the
   * sender's new session counter `sessionNow` when the ALLOCSESSION tag is
   * set, a non-null payload is replaced by its copy unless the DONTCOPY tag
   * is set, and the type byte is packed above the size.
   */
  function Outgoing(self: nat, sessionNow: int, source: nat, ptype: int, session: int, data: nat, sz: nat, copy: nat): Message
    requires sz < RemoteUnit
  {
    Message(if source == 0 then self else source,
            if HasTag(ptype, PTypeTagAllocSession) then sessionNow else session,
            if !HasTag(ptype, PTypeTagDontCopy) && data != 0 then copy else data,
            Pack(ptype % 256, sz))
  }

  /** The message of skynet_send: _filter_args, then the default source. */
  method Prepare(ctx: Ctx, source: nat, ptype: int, session: int, data: nat, sz: nat, copy: nat) returns (msg: Message)
    requires ctx.Valid() && sz < RemoteUnit
    requires HasTag(ptype, PTypeTagAllocSession) ==> session == 0
    modifies ctx`sessionId
    ensures ctx.Valid()
    ensures ctx.sessionId == if HasTag(ptype, PTypeTagAllocSession) then NextSession(old(ctx.sessionId)) else old(ctx.sessionId)
    ensures msg == Outgoing(ctx.handle, ctx.sessionId, source, ptype, session, data, sz, copy)
  {
    var session', data', sz' := FilterArgs(ctx, ptype, session, data, sz, copy);
    var src := source;
    if src == 0 {
      src := ctx.handle;
    }
    msg := Message(src, session', data', sz');
  }

  /**
   * skynet_send. A size that does not fit the 24 size bits is refused with
   * -1 and nothing else happens. Otherwise the message is prepared and its
   * session returned: with nothing sent for destination 0, after handing it
   * to the harbor when `remote` (the harbor's verdict on the destination)
   * holds, and after pushing it to the destination's queue otherwise, unless
   * no context has that handle, which returns -1.
   */
  method Send(s: HandleStorage, g: GlobalQueue, ctx: Ctx, source: nat, destination: nat, ptype: int,
              session: int, data: nat, sz: nat, remote: bool, copy: nat)
    returns (r: int, route: Route)
    requires s.Valid() && g.Valid() && ctx.Valid()
    requires destination in s.Live ==> Deliverable(s.Live[destination], g)
    requires HasTag(ptype, PTypeTagAllocSession) ==> session == 0
    modifies ctx`sessionId
    modifies s.Owned(destination)`ref, s.Owned(destination)`Deleted
    modifies s.OwnedQueue(destination)`buf, s.OwnedQueue(destination)`cap, s.OwnedQueue(destination)`head
    modifies s.OwnedQueue(destination)`tail, s.OwnedQueue(destination)`inGlobal, s.OwnedQueue(destination)`Contents
    modifies s.OwnedQueue(destination)`release, s.OwnedQueue(destination)`next, OwnedBuf(s, destination)
    modifies g, g.Spine`next
    ensures g.Valid() && ctx.Valid()
    ensures destination in s.Live ==> RefKept(s.Live[destination])
    ensures (sz >= RemoteUnit || destination == 0 || remote) && destination in s.Live ==>
      QueueKept(s.Live[destination].queue)
    ensures sz >= RemoteUnit ==>
      r == -1 && route == Nowhere && ctx.sessionId == old(ctx.sessionId) && g.Spine == old(g.Spine)
    ensures sz < RemoteUnit ==>
      ctx.sessionId == if HasTag(ptype, PTypeTagAllocSession) then NextSession(old(ctx.sessionId)) else old(ctx.sessionId)
    ensures sz < RemoteUnit ==>
      var msg := Outgoing(ctx.handle, ctx.sessionId, source, ptype, session, data, sz, copy);
      if destination == 0 then r == msg.session && route == Nowhere && g.Spine == old(g.Spine)
      else if remote then r == msg.session && route == ToHarbor(destination, msg) && g.Spine == old(g.Spine)
      else if destination !in s.Live then r == -1 && route == Nowhere && g.Spine == old(g.Spine)
      else
        var c := s.Live[destination];
        r == msg.session && route == ToQueue(destination, msg) &&
        Deliverable(c, g) && c.queue.Contents == old(c.queue.Contents) + [msg] && c.queue.inGlobal &&
        g.Spine == if old(c.queue.inGlobal) then old(g.Spine) else old(g.Spine) + [c.queue]
  {
    if sz >= RemoteUnit {
      return -1, Nowhere;
    }
    var msg := Prepare(ctx, source, ptype, session, data, sz, copy);
    r, route := Deliver(s, g, destination, remote, msg, ctx);
  }

  /** The context's reference count and deletion mark are as before. */
  twostate predicate RefKept(c: Ctx)
    reads c
  {
    c.ref == old(c.ref) && c.Deleted == old(c.Deleted)
  }

  /** The queue holds the same messages and is in the global queue exactly when it was before. */
  twostate predicate QueueKept(q: Queue?)
    reads q
  {
    q != null ==> q.Contents == old(q.Contents) && q.inGlobal == old(q.inGlobal)
  }

  /** The rest of skynet_send once the message is built: nothing for destination 0, otherwise Forward. */
  method Deliver(s: HandleStorage, g: GlobalQueue, destination: nat, remote: bool, msg: Message, ghost sender: Ctx)
    returns (r: int, route: Route)
    requires s.Valid() && g.Valid()
    requires destination in s.Live ==> Deliverable(s.Live[destination], g)
    modifies s.Owned(destination)`ref, s.Owned(destination)`Deleted
    modifies s.OwnedQueue(destination)`buf, s.OwnedQueue(destination)`cap, s.OwnedQueue(destination)`head
    modifies s.OwnedQueue(destination)`tail, s.OwnedQueue(destination)`inGlobal, s.OwnedQueue(destination)`Contents
    modifies s.OwnedQueue(destination)`release, s.OwnedQueue(destination)`next, OwnedBuf(s, destination)
    modifies g, g.Spine`next
    ensures g.Valid()
    ensures sender.ref == old(sender.ref) && sender.Deleted == old(sender.Deleted)
    ensures sender.sessionId == old(sender.sessionId) && sender.handle == old(sender.handle)
    ensures destination in s.Live ==> RefKept(s.Live[destination])
    ensures (destination == 0 || remote) && destination in s.Live ==>
      QueueKept(s.Live[destination].queue)
    ensures destination == 0 ==> r == msg.session && route == Nowhere && g.Spine == old(g.Spine)
    ensures destination != 0 && remote ==> r == msg.session && route == ToHarbor(destination, msg) && g.Spine == old(g.Spine)
    ensures destination != 0 && !remote && destination !in s.Live ==> r == -1 && route == Nowhere && g.Spine == old(g.Spine)
    ensures destination != 0 && !remote && destination in s.Live ==>
      var c := s.Live[destination];
      r == msg.session && route == ToQueue(destination, msg) &&
      Deliverable(c, g) && c.queue.Contents == old(c.queue.Contents) + [msg] && c.queue.inGlobal &&
      g.Spine == if old(c.queue.inGlobal) then old(g.Spine) else old(g.Spine) + [c.queue]
  {
    if destination == 0 {
      return msg.session, Nowhere;
    }
    route := Forward(s, g, destination, remote, msg);
    r := if route.Nowhere? then -1 else msg.session;
  }

  /**
   * The delivery step of skynet_send for a non-zero destination: to the
   * harbor when `remote`, otherwise into the destination's queue, which
   * fails when no context has that handle.
   */
  method Forward(s: HandleStorage, g: GlobalQueue, destination: nat, remote: bool, msg: Message)
    returns (route: Route)
    requires s.Valid() && g.Valid()
    requires destination in s.Live ==> Deliverable(s.Live[destination], g)
    modifies s.Owned(destination)`ref, s.Owned(destination)`Deleted
    modifies s.OwnedQueue(destination)`buf, s.OwnedQueue(destination)`cap, s.OwnedQueue(destination)`head
    modifies s.OwnedQueue(destination)`tail, s.OwnedQueue(destination)`inGlobal, s.OwnedQueue(destination)`Contents
    modifies s.OwnedQueue(destination)`release, s.OwnedQueue(destination)`next, OwnedBuf(s, destination)
    modifies g, g.Spine`next
    ensures g.Valid()
    ensures destination in s.Live ==> RefKept(s.Live[destination])
    ensures remote ==> route == ToHarbor(destination, msg) && g.Spine == old(g.Spine)
    ensures remote && destination in s.Live ==>
      QueueKept(s.Live[destination].queue)
    ensures !remote && destination !in s.Live ==> route == Nowhere && g.Spine == old(g.Spine)
    ensures !remote && destination in s.Live ==>
      var c := s.Live[destination];
      route == ToQueue(destination, msg) &&
      Deliverable(c, g) && c.queue.Contents == old(c.queue.Contents) + [msg] && c.queue.inGlobal &&
      g.Spine == if old(c.queue.inGlobal) then old(g.Spine) else old(g.Spine) + [c.queue]
  {
    if remote {
      return ToHarbor(destination, msg);
    }
    var pushed := ContextPush(s, g, destination, msg);
    if pushed != 0 {
      return Nowhere;
    }
    return ToQueue(destination, msg);
  }

  /** What dispatch_message hands the callback for a message sent with type byte `t` and size `sz`: the same two values. */
  lemma SendThenDispatch(ptype: int, sz: nat)
    requires sz < RemoteUnit
    ensures UnpackType(Pack(ptype % 256, sz)) == ptype % 256 && UnpackSize(Pack(ptype % 256, sz)) == sz
  {
    PackRoundTrip(ptype % 256, sz);
  }

  /**
   * skynet_context_endless: marks the context registered under `handle` as
   * endless; an unknown handle changes nothing.
   */
  method ContextEndless(s: HandleStorage, g: GlobalQueue, handle: nat)
    requires s.Valid() && g.Valid()
    requires handle in s.Live ==> s.Live[handle].Valid() && !s.Live[handle].Deleted && s.Live[handle].queue != null
    modifies s.Owned(handle)`ref, s.Owned(handle)`endless, s.Owned(handle)`Deleted
    modifies s.OwnedQueue(handle)`release, g, g.Spine`next
    ensures g.Valid() && g.Spine == old(g.Spine)
    ensures handle in s.Live ==>
      var c := s.Live[handle];
      c.endless && c.Valid() && !c.Deleted && c.ref == old(c.ref) && c.queue.release == old(c.queue.release)
  {
    var ctx := s.Grab(handle);
    if ctx == null {
      return;
    }
    ctx.endless := true;
    var _ := ctx.Release(g);
  }

  /**
   * skynet_monitor_check together with the skynet_context_endless call it
   * makes: a check that finds a message still in flight since the previous
   * check flags its destination, and the destination's context, if it is
   * registered, is marked endless.
   */
  method MonitorCheck(sm: SkynetMonitor, s: HandleStorage, g: GlobalQueue) returns (flagged: Option<nat>)
    requires sm.Valid() && s.Valid() && g.Valid()
    requires var d := sm.destination;
      d in s.Live ==> s.Live[d].Valid() && !s.Live[d].Deleted && s.Live[d].queue != null
    modifies sm`checkVersion
    modifies s.Owned(sm.destination)`ref, s.Owned(sm.destination)`endless, s.Owned(sm.destination)`Deleted
    modifies s.OwnedQueue(sm.destination)`release, g, g.Spine`next
    ensures sm.Valid() && sm.checkVersion == sm.version && g.Valid() && g.Spine == old(g.Spine)
    ensures flagged == if old(sm.checkVersion) == sm.version && sm.destination != 0 then Some(sm.destination) else None
    ensures flagged.Some? && flagged.value in s.Live ==> s.Live[flagged.value].endless
  {
    flagged := sm.Check();
    if flagged.Some? {
      ContextEndless(s, g, flagged.value);
    }
  }

  /** The monitor version after `n` triggers, each a wrapping 32-bit increment. */
  function Bump(v: int, n: nat): int
  {
    if n == 0 then v else Int32Succ(Bump(v, n - 1))
  }

  /**
   * How many messages one turn takes from a queue holding `len`: none from
   * an empty queue, one for a negative weight, and otherwise the length left
   * after the first pop shifted right by `weight`, but at least one.
   */
  function Batch(len: nat, weight: int): (k: nat)
    requires weight < 32
    ensures k == 0 <==> len == 0
    ensures k <= len
    ensures weight < 0 && len > 0 ==> k == 1
  {
    if len == 0 then 0
    else if weight < 0 then 1
    else
      var n := (len - 1) / Pow2(weight);
      DivAtMost(len - 1, Pow2(weight));
      if n < 1 then 1 else n
  }

  /** A larger weight never takes more messages in a turn. */
  lemma BatchShrinksWithWeight(len: nat, weight: int)
    requires 0 <= weight < 31
    ensures Batch(len, weight + 1) <= Batch(len, weight)
  {
    if len > 0 {
      Pow2Add(weight, 1);
      assert Pow2(1) == 2;
      QuotientHalves(len - 1, Pow2(weight));
    }
  }

  lemma QuotientHalves(x: nat, p: nat)
    requires p >= 1
    ensures x / (p * 2) <= x / p
  {
    DivDiv(x, p, 2);
    DivAtMost(x / p, 2);
  }

  /** Weight 0 takes everything but the last message of a queue holding two or more. */
  lemma BatchWeightZero(len: nat)
    requires len >= 2
    ensures Batch(len, 0) == len - 1
  {
    assert Pow2(0) == 1;
  }

  /** The head of a global queue's spine as skynet_globalmq_pop returns it. */
  function Front(spine: seq<Queue>): Queue?
  {
    if spine == [] then null else spine[0]
  }

  /** The spine left after skynet_globalmq_pop. */
  function Behind(spine: seq<Queue>): seq<Queue>
  {
    if spine == [] then [] else spine[1..]
  }

  /**
   * The outcome of one dispatch turn on queue `q`, which held `before` while
   * the global queue held `spine0`; `registered` says whether a context has
   * the queue's handle and `marked` whether the queue was marked for
   * release. A registered queue loses its first Batch messages, in order, to
   * the callback; an empty one stays out of the global queue, and a
   * non-empty one is requeued at the tail only when another queue is
   * waiting, which is then returned, otherwise it is returned itself. An
   * unregistered queue is released (drained, or put back in the global
   * queue if not marked) and the next queue is popped.
   */
  ghost predicate Turn(q: Queue, weight: int, registered: bool, marked: bool, before: seq<Message>,
                       spine0: seq<Queue>, next: Queue?, handled: seq<Message>, dropped: seq<Message>,
                       after: seq<Message>, spine: seq<Queue>)
    requires weight < 32
  {
    if registered then
      var k := Batch(|before|, weight);
      handled == before[..k] && after == before[k..] && dropped == [] &&
      if before == [] then next == Front(spine0) && spine == Behind(spine0)
      else if spine0 == [] then next == q && spine == []
      else next == spine0[0] && spine == spine0[1..] + [q]
    else if marked then
      handled == [] && dropped == before && after == [] && next == Front(spine0) && spine == Behind(spine0)
    else
      handled == [] && dropped == [] && after == before &&
      next == Front(spine0 + [q]) && spine == Behind(spine0 + [q])
  }

  /** A turn loses no message: what was queued is handled, dropped, or still queued, in its order. */
  lemma TurnKeepsMessages(q: Queue, weight: int, registered: bool, marked: bool, before: seq<Message>,
                          spine0: seq<Queue>, next: Queue?, handled: seq<Message>, dropped: seq<Message>,
                          after: seq<Message>, spine: seq<Queue>)
    requires weight < 32
    requires Turn(q, weight, registered, marked, before, spine0, next, handled, dropped, after, spine)
    ensures handled + dropped + after == before
  {
    if registered {
      var k := Batch(|before|, weight);
      assert before[..k] + before[k..] == before;
    }
  }

  /**
   * A turn on a registered queue puts it back into the global queue exactly
   * when it had messages and another queue was waiting, and then at the
   * tail, behind every queue that was waiting.
   */
  lemma TurnRequeuesAtTail(q: Queue, weight: int, before: seq<Message>, spine0: seq<Queue>, next: Queue?,
                           handled: seq<Message>, dropped: seq<Message>, after: seq<Message>, spine: seq<Queue>)
    requires weight < 32 && q !in spine0
    requires Turn(q, weight, true, false, before, spine0, next, handled, dropped, after, spine)
    ensures q in spine <==> before != [] && spine0 != []
    ensures q in spine ==> spine == spine0[1..] + [q] && next == spine0[0]
  {
    assert before == [] ==> q !in Behind(spine0);
  }

  /** The contexts a dispatch turn may touch: the one registered under the queue's handle. */
  ghost predicate Serving(c: Ctx, q: Queue)
    reads c
  {
    c.Valid() && !c.Deleted && c.queue == q && (c.hasCallback ==> c.init)
  }

  /**
   * The batching loop of skynet_context_message_dispatch: pops one message,
   * then, for a non-negative weight, sets the count to the remaining length
   * shifted right by `weight`; each message is handed to the callback
   * between two monitor triggers, the first naming it and the second
   * clearing it. An empty queue yields nothing and leaves the monitor alone.
   */
  method RunBatch(q: Queue, sm: SkynetMonitor, weight: int) returns (handled: seq<Message>)
    requires q.Valid() && sm.Valid() && weight < 32
    modifies q`head, q`inGlobal, q`overload, q`overloadThreshold, q`Contents
    modifies sm`source, sm`destination, sm`version
    ensures q.Valid() && sm.Valid()
    ensures var k := Batch(|old(q.Contents)|, weight);
      handled == old(q.Contents)[..k] && q.Contents == old(q.Contents)[k..] &&
      sm.version == Bump(old(sm.version), 2 * k)
    ensures old(q.Contents) == [] ==>
      !q.inGlobal && sm.source == old(sm.source) && sm.destination == old(sm.destination)
    ensures old(q.Contents) != [] ==>
      q.inGlobal == old(q.inGlobal) && sm.source == 0 && sm.destination == 0 && q.overload == 0
  {
    ghost var before := q.Contents;
    var i := 0;
    var n := 1;
    handled := [];
    while i < n
      invariant q.Valid() && sm.Valid()
      invariant 0 <= i <= |before| && handled == before[..i] && q.Contents == before[i..]
      invariant sm.version == Bump(old(sm.version), 2 * i)
      invariant i == 0 ==> n == 1 && q.inGlobal == old(q.inGlobal)
      invariant i == 0 ==> sm.source == old(sm.source) && sm.destination == old(sm.destination)
      invariant i > 0 ==> q.inGlobal == old(q.inGlobal) && sm.source == 0 && sm.destination == 0 && q.overload == 0
      invariant i > 0 ==> i <= Batch(|before|, weight) == (if n < 1 then 1 else n)
      decreases |q.Contents|
    {
      var r := q.Pop();
      if r.None? {
        return;
      }
      if i == 0 && weight >= 0 {
        var len := q.Length();
        n := len / Pow2(weight);
      }
      HandleOne(q, sm, r.value);
      handled := handled + [r.value];
      assert before[..i + 1] == before[..i] + [before[i]];
      assert Bump(old(sm.version), 2 * i + 2) == Int32Succ(Bump(old(sm.version), 2 * i + 1));
      i := i + 1;
    }
  }

  /**
   * The handling of one popped message: the overload report is taken (and
   * reset), the monitor is triggered with the message's source and the
   * queue's handle, the callback runs, and the monitor is cleared.
   */
  method HandleOne(q: Queue, sm: SkynetMonitor, m: Message)
    requires sm.Valid()
    modifies q`overload, sm`source, sm`destination, sm`version
    ensures sm.Valid() && q.overload == 0
    ensures sm.source == 0 && sm.destination == 0 && sm.version == Int32Succ(Int32Succ(old(sm.version)))
  {
    var _ := q.Overload();
    sm.Trigger(m.source, q.handle);
    sm.Trigger(0, 0);
  }

  /**
   * What a batch of `k` messages leaves in the monitor and the queue's
   * global flag: two triggers per message, a cleared monitor after a
   * non-empty batch, and a queue taken out of the global queue after an
   * empty one.
   */
  ghost predicate BatchEffect(k: nat, version0: int, source0: nat, destination0: nat, inGlobal0: bool,
                              version: int, source: nat, destination: nat, inGlobal: bool)
  {
    version == Bump(version0, 2 * k) &&
    (k > 0 ==> source == 0 && destination == 0 && inGlobal == inGlobal0) &&
    (k == 0 ==> source == source0 && destination == destination0 && !inGlobal)
  }

  /**
   * One turn of skynet_context_message_dispatch on queue `q`, which the
   * worker holds out of the global queue: without a registered context the
   * queue is released and the next queue popped; otherwise a batch is
   * handled under a reference to the context, and the queue is requeued
   * only when another queue was waiting.
   */
  method DispatchQueue(s: HandleStorage, g: GlobalQueue, sm: SkynetMonitor, q: Queue, weight: int)
    returns (next: Queue?, handled: seq<Message>, dropped: seq<Message>)
    requires s.Valid() && g.Valid() && sm.Valid() && q.Valid() && weight < 32
    requires q !in g.Spine && q.next == null
    requires q.handle in s.Live ==> Serving(s.Live[q.handle], q)
    modifies q`head, q`inGlobal, q`overload, q`overloadThreshold, q`Contents, q`Freed, q`release, q`next
    modifies s.Owned(q.handle)`ref, s.Owned(q.handle)`Deleted, g, g.Spine`next
    modifies sm`source, sm`destination, sm`version
    ensures g.Valid() && sm.Valid() && q.Valid()
    ensures Turn(q, weight, q.handle in s.Live, old(q.release), old(q.Contents), old(g.Spine),
                 next, handled, dropped, q.Contents, g.Spine)
    ensures q.handle in s.Live ==>
      var c := s.Live[q.handle];
      Serving(c, q) && c.ref == old(c.ref) && q.release == old(q.release)
  {
    var ctx := s.Grab(q.handle);
    if ctx == null {
      handled := [];
      next, dropped := DropTurn(g, q, weight);
      return;
    }
    dropped := [];
    next, handled := HeldTurn(ctx, g, sm, q, weight);
  }

  /** The turn on a queue whose handle has no context: skynet_mq_release, then the next global pop. */
  method DropTurn(g: GlobalQueue, q: Queue, weight: int) returns (next: Queue?, dropped: seq<Message>)
    requires g.Valid() && q.Valid() && q !in g.Spine && q.next == null && weight < 32
    modifies q`head, q`inGlobal, q`overload, q`overloadThreshold, q`Contents, q`Freed, q`next, g, g.Spine`next
    ensures g.Valid() && q.Valid()
    ensures Turn(q, weight, false, old(q.release), old(q.Contents), old(g.Spine), next, [], dropped, q.Contents, g.Spine)
    ensures old(q.release) ==>
      dropped == old(q.Contents) && q.Contents == [] && next == Front(old(g.Spine)) && g.Spine == Behind(old(g.Spine))
    ensures !old(q.release) ==>
      dropped == [] && q.Contents == old(q.Contents) &&
      next == Front(old(g.Spine) + [q]) && g.Spine == Behind(old(g.Spine) + [q])
  {
    dropped := q.Release(g);
    next := g.Pop();
  }

  /**
   * The turn on a queue whose context the worker holds by one extra
   * reference: a batch, then the requeue decision, then the release of
   * that reference.
   */
  method HeldTurn(c: Ctx, g: GlobalQueue, sm: SkynetMonitor, q: Queue, weight: int)
    returns (next: Queue?, handled: seq<Message>)
    requires g.Valid() && sm.Valid() && q.Valid() && weight < 32
    requires q !in g.Spine && q.next == null && Serving(c, q) && c.ref >= 2
    modifies q`head, q`inGlobal, q`overload, q`overloadThreshold, q`Contents, q`release, q`next
    modifies c`ref, c`Deleted, g, g.Spine`next, sm`source, sm`destination, sm`version
    ensures g.Valid() && sm.Valid() && q.Valid()
    ensures Turn(q, weight, true, old(q.release), old(q.Contents), old(g.Spine), next, handled, [], q.Contents, g.Spine)
    ensures Serving(c, q) && c.ref == old(c.ref) - 1 && q.release == old(q.release)
    ensures BatchEffect(Batch(|old(q.Contents)|, weight), old(sm.version), old(sm.source), old(sm.destination), old(q.inGlobal),
                        sm.version, sm.source, sm.destination, q.inGlobal)
  {
    handled := RunBatch(q, sm, weight);
    next := EndTurn(g, q, handled != []);
    var _ := c.Release(g);
  }

  /**
   * The global-queue step at the end of a turn: after an empty batch the
   * next queue is popped and `q` left out; after a non-empty one `q` is
   * requeued if another queue is waiting.
   */
  method EndTurn(g: GlobalQueue, q: Queue, handledAny: bool) returns (next: Queue?)
    requires g.Valid() && q !in g.Spine && q.next == null
    modifies g, g.Spine`next
    ensures g.Valid()
    ensures !handledAny ==> next == Front(old(g.Spine)) && g.Spine == Behind(old(g.Spine))
    ensures handledAny && old(g.Spine) == [] ==> next == q && g.Spine == []
    ensures handledAny && old(g.Spine) != [] ==> next == old(g.Spine)[0] && g.Spine == old(g.Spine)[1..] + [q]
  {
    if !handledAny {
      next := g.Pop();
    } else {
      next := Requeue(g, q);
    }
  }

  /**
   * The end of a turn that handled messages: when the global pop yields
   * another queue, `q` is pushed back and that queue returned; otherwise
   * `q` itself is returned for the next turn.
   */
  method Requeue(g: GlobalQueue, q: Queue) returns (next: Queue)
    requires g.Valid() && q !in g.Spine && q.next == null
    modifies g, g.Spine`next
    ensures g.Valid()
    ensures old(g.Spine) == [] ==> next == q && g.Spine == []
    ensures old(g.Spine) != [] ==> next == old(g.Spine)[0] && g.Spine == old(g.Spine)[1..] + [q]
  {
    var nq := g.Pop();
    next := q;
    if nq != null {
      g.Push(q);
      next := nq;
    }
  }

  /** The queue a turn works on: the one the worker holds, else the head of the global queue. */
  ghost function Picked(q0: Queue?, g: GlobalQueue): set<Queue>
    reads g
  {
    if q0 != null then {q0} else if g.Spine != [] then {g.Spine[0]} else {}
  }

  /** The context registered under the picked queue's handle, as a set. */
  ghost function PickedCtx(s: HandleStorage, q0: Queue?, g: GlobalQueue): set<Ctx>
    reads s, g, Picked(q0, g)
  {
    set q, h | q in Picked(q0, g) && h in s.Live && h == q.handle :: s.Live[h]
  }

  /**
   * skynet_context_message_dispatch: works on the queue `q0` the worker
   * holds, or pops one from the global queue (returning null when there is
   * none), and runs one turn on it.
   */
  method MessageDispatch(s: HandleStorage, g: GlobalQueue, sm: SkynetMonitor, q0: Queue?, weight: int)
    returns (next: Queue?, handled: seq<Message>, dropped: seq<Message>)
    requires s.Valid() && g.Valid() && sm.Valid() && weight < 32
    requires q0 != null ==> q0 !in g.Spine && q0.next == null
    requires forall q :: q in Picked(q0, g) ==> q.Valid() && (q.handle in s.Live ==> Serving(s.Live[q.handle], q))
    modifies Picked(q0, g)`head, Picked(q0, g)`inGlobal, Picked(q0, g)`overload
    modifies Picked(q0, g)`overloadThreshold, Picked(q0, g)`Contents, Picked(q0, g)`Freed, Picked(q0, g)`release, Picked(q0, g)`next
    modifies PickedCtx(s, q0, g)`ref, PickedCtx(s, q0, g)`Deleted, g, g.Spine`next
    modifies sm`source, sm`destination, sm`version
    ensures g.Valid() && sm.Valid()
    ensures q0 == null && old(g.Spine) == [] ==>
      next == null && handled == [] && dropped == [] && g.Spine == [] && sm.version == old(sm.version)
    ensures q0 != null ==>
      Turn(q0, weight, q0.handle in s.Live, old(q0.release), old(q0.Contents), old(g.Spine),
           next, handled, dropped, q0.Contents, g.Spine)
    ensures q0 == null && old(g.Spine) != [] ==>
      var q := old(g.Spine)[0];
      Turn(q, weight, q.handle in s.Live, old(q.release), old(q.Contents), old(g.Spine)[1..],
           next, handled, dropped, q.Contents, g.Spine)
  {
    var q := q0;
    if q == null {
      q := g.Pop();
      if q == null {
        return null, [], [];
      }
    }
    next, handled, dropped := DispatchQueue(s, g, sm, q, weight);
  }
}
