/**
 * Per-service message queues and the global run queue of the actor runtime.
 *
 * A service queue is a circular buffer that grows by doubling when it fills;
 * the global queue is an intrusive singly linked list threaded through the
 * `next` field of the service queues that currently have work to do.
 */
module MessageQueue {
  import opened Wrappers
  import opened Arith

  /** Initial capacity of a service queue. */
  const DefaultQueueSize: nat := 64
  /** Initial (and reset) overload threshold of a service queue. */
  const MqOverload: nat := 1024

  /** A message as it sits in a queue; `data` stands for the payload pointer (0 is NULL). */
  datatype Message = Message(source: nat, session: int, data: nat, sz: nat)

  /** The messages of ring buffer `s` from `head` up to, but excluding, `tail`, wrapping at the end. */
  ghost function Ring(s: seq<Message>, head: nat, tail: nat): seq<Message>
    requires head <= |s| && tail <= |s|
  {
    if head <= tail then s[head..tail] else s[head..] + s[..tail]
  }

  /**
   * The overload threshold after a successful pop that leaves `len` messages
   * queued: the threshold doubles for as long as the length exceeds it.
   */
  function RaisedThreshold(t: nat, len: int): nat
    requires t > 0
    decreases len - t
  {
    if len > t then RaisedThreshold(2 * t, len) else t
  }

  /**
   * The raised threshold covers the length, never shrinks, stays a power-of-two
   * multiple of the old one, and is the least such multiple: it is below twice
   * the length whenever it had to be raised.
   */
  lemma {:induction false} RaisedThresholdMeetsLength(t: nat, len: int)
    requires t > 0
    ensures RaisedThreshold(t, len) >= len && RaisedThreshold(t, len) >= t
    ensures len > t ==> RaisedThreshold(t, len) < 2 * len
    ensures len <= t ==> RaisedThreshold(t, len) == t
    ensures exists k: nat :: RaisedThreshold(t, len) == t * Pow2(k)
    decreases len - t
  {
    if len > t {
      RaisedThresholdMeetsLength(2 * t, len);
      var k: nat :| RaisedThreshold(2 * t, len) == 2 * t * Pow2(k);
      assert RaisedThreshold(t, len) == t * Pow2(k + 1);
    } else {
      assert RaisedThreshold(t, len) == t * Pow2(0);
    }
  }

  /** `q` may be linked into `g`: a queue counted as out of the global queue is really unlinked. */
  ghost predicate Linkable(q: Queue, g: GlobalQueue)
    reads q`inGlobal, q`next, g`Spine
  {
    !q.inGlobal ==> q !in g.Spine && q.next == null
  }

  /** Writing `m` at `tail` of a ring that is not full appends `m` to the ring's messages. */
  lemma RingPush(s: seq<Message>, head: nat, tail: nat, m: Message)
    requires head < |s| && tail < |s|
    requires |Ring(s, head, tail)| < |s| - 1 || (tail + 1) % |s| == head
    ensures var t' := if tail + 1 >= |s| then 0 else tail + 1;
      t' != head ==> Ring(s[tail := m], head, t') == Ring(s, head, tail) + [m]
    ensures var t' := if tail + 1 >= |s| then 0 else tail + 1;
      t' == head ==> s[tail := m][head..] + s[tail := m][..head] == Ring(s, head, tail) + [m]
  {
    var s' := s[tail := m];
    if tail + 1 >= |s| {
      if head == 0 {
        assert s'[head..] + s'[..head] == s'[0..tail] + [m];
      } else {
        assert Ring(s', head, 0) == s'[head..tail] + [m];
      }
    } else if tail + 1 == head {
      assert s'[head..] == s[head..];
      assert s'[..head] == s[..tail] + [m];
    } else if head <= tail {
      assert s'[head..tail + 1] == s[head..tail] + [m];
    } else {
      assert s'[head..] == s[head..];
      assert s'[..tail + 1] == s[..tail] + [m];
    }
  }

  /** Advancing `head` past the first message of a non-empty ring drops that message. */
  lemma RingPop(s: seq<Message>, head: nat, tail: nat)
    requires head < |s| && tail < |s| && head != tail
    ensures var h' := if head + 1 >= |s| then 0 else head + 1;
      Ring(s, head, tail) != [] && Ring(s, head, tail)[0] == s[head]
      && Ring(s, h', tail) == Ring(s, head, tail)[1..]
  {
    if head + 1 >= |s| {
      assert s[head..] == [s[head]];
    }
  }

  /** Element `i` of a full ring read from `head` is the one at `(head + i) % |s|`. */
  lemma FullRingIndex(s: seq<Message>, head: nat, i: nat)
    requires head < |s| && i < |s|
    ensures (head + i) % |s| < |s| && (s[head..] + s[..head])[i] == s[(head + i) % |s|]
  {
    if head + i < |s| {
      assert (head + i) % |s| == head + i;
    } else {
      assert (head + i) % |s| == head + i - |s|;
    }
  }

  /** A service queue (struct message_queue): a ring buffer of messages plus scheduling flags. */
  class Queue {
    const handle: nat
    var cap: nat
    var head: nat
    var tail: nat
    var release: bool
    var inGlobal: bool
    var overload: nat
    var overloadThreshold: nat
    var buf: array<Message>
    var next: Queue?
    /** The queued messages, oldest first. */
    ghost var Contents: seq<Message>
    /** Set once the queue has been drained and freed. */
    ghost var Freed: bool

    /** Ring-buffer invariant; it does not read `next`, which the global queue owns. */
    ghost predicate Valid()
      reads this`cap, this`head, this`tail, this`overloadThreshold, this`buf, this`Contents, buf
    {
      buf.Length == cap && DefaultQueueSize <= cap &&
      head < cap && tail < cap &&
      MqOverload <= overloadThreshold &&
      Contents == Ring(buf[..], head, tail)
    }

    /** skynet_mq_create: an empty queue of capacity 64, already counted as in the global queue. */
    constructor (handle: nat)
      ensures Valid() && fresh(buf)
      ensures this.handle == handle && cap == DefaultQueueSize && head == 0 && tail == 0
      ensures inGlobal && !release && overload == 0 && overloadThreshold == MqOverload
      ensures next == null && Contents == [] && !Freed
    {
      this.handle := handle;
      cap := DefaultQueueSize;
      head, tail := 0, 0;
      inGlobal := true;
      release := false;
      overload := 0;
      overloadThreshold := MqOverload;
      buf := new Message[DefaultQueueSize];
      next := null;
      Contents := [];
      Freed := false;
    }

    /** skynet_mq_length: the number of queued messages. */
    method Length() returns (n: int)
      requires Valid()
      ensures n == |Contents|
    {
      var h, t, c := head, tail, cap;
      if h <= t {
        n := t - h;
      } else {
        n := t + c - h;
      }
    }

    /** skynet_mq_overload: reports the recorded overload length once, then clears it. */
    method Overload() returns (r: nat)
      modifies this`overload
      ensures r == old(overload) && overload == 0
    {
      if overload != 0 {
        r := overload;
        overload := 0;
      } else {
        r := 0;
      }
    }

    /**
     * skynet_mq_pop. Popping an empty queue fails, resets the overload threshold
     * and marks the queue as out of the global queue; a successful pop yields the
     * oldest message and raises the threshold past the remaining length,
     * recording that length as the overload when it exceeded the old threshold.
     */
    method Pop() returns (r: Option<Message>)
      requires Valid()
      modifies this`head, this`inGlobal, this`overload, this`overloadThreshold, this`Contents
      ensures Valid()
      ensures old(Contents) == [] ==>
        r == None && Contents == [] && !inGlobal && overloadThreshold == MqOverload
        && overload == old(overload)
      ensures old(Contents) != [] ==>
        r == Some(old(Contents)[0]) && Contents == old(Contents)[1..] && inGlobal == old(inGlobal)
        && overloadThreshold == RaisedThreshold(old(overloadThreshold), |Contents|)
        && overload == (if |Contents| > old(overloadThreshold) then |Contents| else old(overload))
    {
      if head != tail {
        RingPop(buf[..], head, tail);
        var m := buf[head];
        head := head + 1;
        if head >= cap {
          head := 0;
        }
        Contents := Contents[1..];
        var length: int := tail - head;
        if length < 0 {
          length := length + cap;
        }
        assert length == |Contents|;
        while length > overloadThreshold
          modifies this`overload, this`overloadThreshold
          invariant overloadThreshold >= old(overloadThreshold) >= MqOverload
          invariant RaisedThreshold(overloadThreshold, length) == RaisedThreshold(old(overloadThreshold), length)
          invariant overloadThreshold == old(overloadThreshold) ==> overload == old(overload)
          invariant overloadThreshold != old(overloadThreshold) ==> overload == length && length > old(overloadThreshold)
          decreases length - overloadThreshold
        {
          overload := length;
          overloadThreshold := overloadThreshold * 2;
        }
        r := Some(m);
      } else {
        overloadThreshold := MqOverload;
        inGlobal := false;
        r := None;
      }
    }

    /** expand_queue: copies the full ring, oldest first, into an array twice as large. */
    method ExpandQueue(ghost full: seq<Message>)
      requires buf.Length == cap && DefaultQueueSize <= cap && head < cap && head == tail
      requires full == buf[head..] + buf[..head]
      modifies this`buf, this`cap, this`head, this`tail
      ensures fresh(buf) && buf.Length == cap && cap == 2 * old(cap)
      ensures head == 0 && tail == old(cap) && buf[..tail] == full
    {
      var newBuf := new Message[2 * cap];
      var i := 0;
      while i < cap
        modifies newBuf
        invariant 0 <= i <= cap
        invariant forall k :: 0 <= k < i ==> newBuf[k] == full[k]
      {
        FullRingIndex(buf[..], head, i);
        newBuf[i] := buf[(head + i) % cap];
        i := i + 1;
      }
      head := 0;
      tail := cap;
      cap := 2 * cap;
      buf := newBuf;
      assert buf[..tail] == full;
    }

    /** The ring part of skynet_mq_push: writes `m` at `tail`, growing the ring when it becomes full. */
    method Append(m: Message)
      requires Valid()
      modifies this`buf, this`cap, this`head, this`tail, this`Contents, buf
      ensures Valid() && Contents == old(Contents) + [m]
      ensures buf == old(buf) || fresh(buf)
    {
      RingPush(buf[..], head, tail, m);
      buf[tail] := m;
      tail := tail + 1;
      if tail >= cap {
        tail := 0;
      }
      if head == tail {
        ExpandQueue(old(Contents) + [m]);
      }
      Contents := Contents + [m];
    }

    /**
     * skynet_mq_push: appends `m` (growing the ring when it becomes full) and, if
     * the queue was out of the global queue, marks it in and links it there.
     */
    method Push(m: Message, g: GlobalQueue)
      requires Valid() && g.Valid()
      requires Linkable(this, g)
      modifies this`buf, this`cap, this`head, this`tail, this`inGlobal, this`Contents, buf, g, g.Spine`next
      ensures Valid() && g.Valid()
      ensures Contents == old(Contents) + [m] && inGlobal
      ensures g.Spine == if old(inGlobal) then old(g.Spine) else old(g.Spine) + [this]
      ensures buf == old(buf) || fresh(buf)
    {
      Append(m);
      if !inGlobal {
        inGlobal := true;
        g.Push(this);
      }
    }

    /**
     * skynet_mq_mark_release: flags the queue for release and, unless it is
     * already in the global queue, links it there so that a worker frees it.
     */
    method MarkRelease(g: GlobalQueue)
      requires g.Valid() && !release
      requires Linkable(this, g)
      modifies this`release, g, g.Spine`next
      ensures release && g.Valid()
      ensures g.Spine == if old(inGlobal) then old(g.Spine) else old(g.Spine) + [this]
    {
      release := true;
      if !inGlobal {
        g.Push(this);
      }
    }

    /** _drop_queue: pops every message, handing each to the drop callback in order, then frees the queue. */
    method DropQueue() returns (dropped: seq<Message>)
      requires Valid()
      modifies this`head, this`inGlobal, this`overload, this`overloadThreshold, this`Contents, this`Freed
      ensures Valid() && dropped == old(Contents) && Contents == [] && Freed
    {
      dropped := [];
      while true
        invariant Valid() && old(Contents) == dropped + Contents
        decreases |Contents|
      {
        ghost var before := Contents;
        var r := Pop();
        if r.None? {
          break;
        }
        assert before == [r.value] + Contents;
        dropped := dropped + [r.value];
      }
      Freed := true;
    }

    /**
     * skynet_mq_release: a queue marked for release is drained (the dropped
     * messages are returned in order) and freed; otherwise it goes back into
     * the global queue.
     */
    method Release(g: GlobalQueue) returns (dropped: seq<Message>)
      requires Valid() && g.Valid() && this !in g.Spine && next == null
      modifies this`head, this`inGlobal, this`overload, this`overloadThreshold, this`Contents, this`Freed
      modifies g, g.Spine`next
      ensures Valid() && g.Valid()
      ensures old(release) ==> dropped == old(Contents) && Contents == [] && Freed && g.Spine == old(g.Spine)
      ensures !old(release) ==>
        dropped == [] && Contents == old(Contents) && Freed == old(Freed) && g.Spine == old(g.Spine) + [this]
    {
      if release {
        dropped := DropQueue();
      } else {
        dropped := [];
        g.Push(this);
      }
    }
  }

  /** The global queue (struct global_queue): service queues that have work, linked through `next`. */
  class GlobalQueue {
    var head: Queue?
    var tail: Queue?
    /** The linked queues, from head to tail. */
    ghost var Spine: seq<Queue>

    ghost predicate Valid()
      reads this, Spine`next
    {
      (|Spine| == 0 <==> head == null) &&
      (|Spine| == 0 <==> tail == null) &&
      (|Spine| > 0 ==> head == Spine[0] && tail == Spine[|Spine| - 1]) &&
      (forall i :: 0 <= i < |Spine| - 1 ==> Spine[i].next == Spine[i + 1]) &&
      (|Spine| > 0 ==> Spine[|Spine| - 1].next == null) &&
      (forall i, j :: 0 <= i < j < |Spine| ==> Spine[i] != Spine[j])
    }

    /** skynet_mq_init: an empty global queue. */
    constructor ()
      ensures Valid() && Spine == []
    {
      head := null;
      tail := null;
      Spine := [];
    }

    /** skynet_globalmq_push: links `q` at the tail. */
    method Push(q: Queue)
      requires Valid() && q.next == null && q !in Spine
      modifies this, Spine`next
      ensures Valid() && Spine == old(Spine) + [q]
    {
      if tail != null {
        tail.next := q;
        tail := q;
      } else {
        head := q;
        tail := q;
      }
      Spine := Spine + [q];
    }

    /** skynet_globalmq_pop: unlinks and returns the head queue, or null when there is none. */
    method Pop() returns (q: Queue?)
      requires Valid()
      modifies this, Spine`next
      ensures Valid()
      ensures old(Spine) == [] ==> q == null && Spine == []
      ensures old(Spine) != [] ==> q == old(Spine)[0] && Spine == old(Spine)[1..] && q.next == null
    {
      q := head;
      if q != null {
        if |Spine| == 1 {
          assert q.next == null;
        } else {
          assert q.next == Spine[1];
        }
        head := q.next;
        if head == null {
          tail := null;
        }
        q.next := null;
        Spine := Spine[1..];
      }
    }
  }

  /** Pushes `ms` in order onto a queue that is already counted as in the global queue. */
  method PushAll(q: Queue, g: GlobalQueue, ms: seq<Message>)
    requires q.Valid() && g.Valid() && q.inGlobal
    modifies q`buf, q`cap, q`head, q`tail, q`inGlobal, q`Contents, q.buf, g, g.Spine`next
    ensures q.Valid() && g.Valid() && q.inGlobal
    ensures q.Contents == old(q.Contents) + ms && g.Spine == old(g.Spine)
  {
    var i := 0;
    while i < |ms|
      invariant 0 <= i <= |ms|
      invariant q.Valid() && g.Valid() && q.inGlobal && g.Spine == old(g.Spine)
      invariant q.buf == old(q.buf) || fresh(q.buf)
      invariant q.Contents == old(q.Contents) + ms[..i]
    {
      q.Push(ms[i], g);
      assert ms[..i + 1] == ms[..i] + [ms[i]];
      i := i + 1;
    }
    assert ms[..i] == ms;
  }

  /**
   * Messages pushed into a fresh queue come back out in push order, however
   * many there are: every growth of the ring keeps them all and in order.
   */
  method PushAllThenDrain(ms: seq<Message>) returns (out: seq<Message>)
    ensures out == ms
  {
    var g := new GlobalQueue();
    var q := new Queue(1);
    PushAll(q, g, ms);
    out := q.DropQueue();
  }

  /**
   * A queue marked for release while it still holds messages hands every
   * one of them, in order, to the drop callback when it is released.
   */
  method ReleaseDropsPending(ms: seq<Message>) returns (dropped: seq<Message>)
    ensures dropped == ms
  {
    var g := new GlobalQueue();
    var q := new Queue(7);
    PushAll(q, g, ms);
    q.MarkRelease(g);
    assert g.Spine == [];
    dropped := q.Release(g);
  }
}
