/**
 * Service contexts (struct skynet_context): the reference count that decides
 * when a service is deleted, its session counter and its flags.
 */
module Context {
  import opened MessageQueue

  const Int32Max: int := 0x7fff_ffff
  const Int32Min: int := -0x8000_0000

  /** `++` on a 32-bit signed int, wrapping from the largest value to the smallest. */
  function Int32Succ(s: int): int
  {
    if s == Int32Max then Int32Min else s + 1
  }

  /**
   * skynet_context_newsession on a session counter `s`: the incremented counter,
   * restarted at 1 whenever the 32-bit increment does not yield a positive value.
   */
  function NextSession(s: int): (r: int)
    requires Int32Min <= s <= Int32Max
    ensures 0 < r <= Int32Max
    ensures 0 <= s < Int32Max ==> r == s + 1
    ensures s == Int32Max ==> r == 1
  {
    var n := Int32Succ(s);
    if n <= 0 then 1 else n
  }

  /** Sessions drawn one after another from a counter that starts in range are all positive and distinct until the counter wraps. */
  lemma {:induction false} SessionsIncrease(s: int, k: nat)
    requires 0 <= s && s + k <= Int32Max
    ensures Iterate(s, k) == s + k
    decreases k
  {
    if k > 0 {
      SessionsIncrease(s, k - 1);
      assert Iterate(s, k) == NextSession(Iterate(s, k - 1));
    }
  }

  /** The session counter after `k` calls of skynet_context_newsession. */
  function Iterate(s: int, k: nat): int
    requires Int32Min <= s <= Int32Max
    ensures Int32Min <= Iterate(s, k) <= Int32Max
  {
    if k == 0 then s else NextSession(Iterate(s, k - 1))
  }

  class Ctx {
    var handle: nat
    var queue: Queue?
    var ref: int
    var sessionId: int
    var init: bool
    var endless: bool
    /** Whether a message callback is installed (cb != NULL). */
    var hasCallback: bool
    /** Set once delete_context has run. */
    ghost var Deleted: bool

    /** The reference count never goes negative and reaches 0 exactly when the context is deleted. */
    ghost predicate Valid()
      reads this`ref, this`Deleted, this`sessionId
    {
      ref >= 0 && (Deleted <==> ref == 0) && Int32Min <= sessionId <= Int32Max
    }

    /** The allocation part of skynet_context_new: two references, one for the handle table and one for the creator. */
    constructor ()
      ensures Valid() && ref == 2 && !Deleted
      ensures handle == 0 && queue == null && sessionId == 0
      ensures !init && !endless && !hasCallback
    {
      handle := 0;
      queue := null;
      ref := 2;
      sessionId := 0;
      init := false;
      endless := false;
      hasCallback := false;
      Deleted := false;
    }

    /** skynet_context_newsession: a positive session number, also stored as the new counter. */
    method NewSession() returns (r: int)
      requires Valid()
      modifies this`sessionId
      ensures Valid() && r == NextSession(old(sessionId)) && sessionId == r
    {
      var session := Int32Succ(sessionId);
      sessionId := session;
      if session <= 0 {
        sessionId := 1;
        return 1;
      }
      return session;
    }

    /** skynet_context_grab: takes one more reference on a live context. */
    method Grab()
      requires Valid() && !Deleted
      modifies this`ref
      ensures Valid() && ref == old(ref) + 1
    {
      ref := ref + 1;
    }

    /**
     * delete_context: releases the module instance, marks the queue for
     * release (linking it into the global queue if it is not there), and
     * frees the context.
     */
    method Delete(g: GlobalQueue)
      requires queue != null && g.Valid() && !queue.release && Linkable(queue, g)
      modifies this`Deleted, queue`release, g, g.Spine`next
      ensures Deleted && queue.release && g.Valid()
      ensures g.Spine == if old(queue.inGlobal) then old(g.Spine) else old(g.Spine) + [queue]
    {
      queue.MarkRelease(g);
      Deleted := true;
    }

    /**
     * skynet_context_release: drops one reference; the release that takes the
     * count to 0 deletes the context and returns null, any other returns the
     * context itself.
     */
    method Release(g: GlobalQueue) returns (r: Ctx?)
      requires Valid() && !Deleted && queue != null && g.Valid()
      requires ref == 1 ==> !queue.release && Linkable(queue, g)
      modifies this`ref, this`Deleted, queue`release, g, g.Spine`next
      ensures Valid() && g.Valid() && ref == old(ref) - 1
      ensures r == null <==> Deleted
      ensures r != null ==> r == this && g.Spine == old(g.Spine) && queue.release == old(queue.release)
      ensures r == null ==>
        queue.release && g.Spine == (if old(queue.inGlobal) then old(g.Spine) else old(g.Spine) + [queue])
    {
      ref := ref - 1;
      if ref == 0 {
        Delete(g);
        return null;
      }
      return this;
    }
  }

  /**
   * A context launched with two references and grabbed `k` more times
   * survives `k + 1` releases, and the next one takes its count to 0.
   */
  method DeletedByLastRelease(k: nat) returns (survivors: nat, deleted: bool)
    ensures survivors == k + 1 && deleted
  {
    var g := new GlobalQueue();
    var c := new Ctx();
    var q := new Queue(1);
    c.queue := q;
    var i := 0;
    while i < k
      modifies c
      invariant 0 <= i <= k && c.Valid() && !c.Deleted && c.ref == 2 + i && c.queue == q
    {
      c.Grab();
      i := i + 1;
    }
    survivors := 0;
    var r := c.Release(g);
    while r != null
      invariant c.Valid() && g.Valid() && c.queue == q
      invariant r != null ==> g.Spine == [] && r == c && !c.Deleted && c.ref == k + 1 - survivors && !q.release && Linkable(q, g)
      invariant r == null ==> c.Deleted && survivors == k + 1
      decreases c.ref
    {
      survivors := survivors + 1;
      r := c.Release(g);
    }
    deleted := c.ref == 0;
  }
}
