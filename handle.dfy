/**
 * The handle table (struct handle_storage): an open-addressed table from
 * 32-bit service handles to contexts, and a sorted array of global names.
 *
 * A handle carries the node's harbor id in its top 8 bits and a 24-bit local
 * id below; the slot of a handle is the handle modulo the slot count, which
 * is a power of two no larger than 2^24.
 */
module HandleTable {
  import opened Wrappers
  import opened Arith
  import opened MessageQueue
  import opened Context

  const DefaultSlotSize: nat := 4
  const MaxSlotSize: nat := 0x4000_0000
  const HandleRemoteShift: nat := 24
  const HandleMask: nat := 0xff_ffff
  /** 1 << HANDLE_REMOTE_SHIFT: local ids lie below it, the harbor id is a multiple of it. */
  const RemoteUnit: nat := 0x100_0000

  /** A name bound to a handle (struct handle_name). */
  datatype HandleName = HandleName(name: string, handle: nat)

  /** The sign of strcmp on two NUL-free strings. */
  function StrCmp(a: string, b: string): (r: int)
    ensures -1 <= r <= 1
  {
    if |a| == 0 && |b| == 0 then 0
    else if |a| == 0 then -1
    else if |b| == 0 then 1
    else if a[0] != b[0] then (if a[0] < b[0] then -1 else 1)
    else StrCmp(a[1..], b[1..])
  }

  /** strcmp reports equality exactly for equal strings. */
  lemma {:induction false} StrCmpZero(a: string, b: string)
    ensures StrCmp(a, b) == 0 <==> a == b
  {
    if |a| > 0 && |b| > 0 && a[0] == b[0] {
      StrCmpZero(a[1..], b[1..]);
      assert a == [a[0]] + a[1..] && b == [b[0]] + b[1..];
    }
  }

  /** Swapping the arguments of strcmp flips its sign. */
  lemma {:induction false} StrCmpAntisymmetric(a: string, b: string)
    ensures StrCmp(b, a) == -StrCmp(a, b)
  {
    if |a| > 0 && |b| > 0 && a[0] == b[0] {
      StrCmpAntisymmetric(a[1..], b[1..]);
    }
  }

  /** The order strcmp defines is transitive. */
  lemma {:induction false} StrCmpTransitive(a: string, b: string, c: string)
    requires StrCmp(a, b) < 0 && StrCmp(b, c) < 0
    ensures StrCmp(a, c) < 0
  {
    if |a| > 0 && |b| > 0 && |c| > 0 && a[0] == b[0] && b[0] == c[0] {
      StrCmpTransitive(a[1..], b[1..], c[1..]);
    }
  }

  /** Names strictly increasing in strcmp order, so no name occurs twice. */
  ghost predicate SortedNames(s: seq<HandleName>)
  {
    forall i, j :: 0 <= i < j < |s| ==> StrCmp(s[i].name, s[j].name) < 0
  }

  /** Reference lookup: the handle of the first entry called `n`, or 0 when there is none. */
  function LookupName(s: seq<HandleName>, n: string): nat
  {
    if |s| == 0 then 0
    else if s[0].name == n then s[0].handle
    else LookupName(s[1..], n)
  }

  lemma {:induction false} LookupAbsent(s: seq<HandleName>, n: string)
    requires forall k :: 0 <= k < |s| ==> s[k].name != n
    ensures LookupName(s, n) == 0
  {
    if |s| > 0 {
      LookupAbsent(s[1..], n);
    }
  }

  /** In a sorted array the entry called `n` is the only one, so lookup finds its handle. */
  lemma {:induction false} LookupSorted(s: seq<HandleName>, i: int)
    requires SortedNames(s) && 0 <= i < |s|
    ensures LookupName(s, s[i].name) == s[i].handle
  {
    if i > 0 {
      StrCmpZero(s[0].name, s[i].name);
      LookupSorted(s[1..], i - 1);
    }
  }

  /** The entries of `s` whose handle is not `h`, in order (the compaction loop of skynet_handle_retire). */
  function RemoveHandle(s: seq<HandleName>, h: nat): seq<HandleName>
  {
    if |s| == 0 then []
    else RemoveHandle(s[..|s| - 1], h) + (if s[|s| - 1].handle == h then [] else [s[|s| - 1]])
  }

  /** Removal keeps exactly the entries whose handle differs, so no name stays bound to `h`. */
  lemma {:induction false} RemoveHandleMembers(s: seq<HandleName>, h: nat)
    ensures forall e :: e in RemoveHandle(s, h) <==> e in s && e.handle != h
    decreases |s|
  {
    if |s| > 0 {
      RemoveHandleMembers(s[..|s| - 1], h);
      assert s == s[..|s| - 1] + [s[|s| - 1]];
    }
  }

  /** Appending a name larger than every name of a sorted array keeps it sorted. */
  lemma SortedAppend(s: seq<HandleName>, x: HandleName)
    requires SortedNames(s)
    requires forall i :: 0 <= i < |s| ==> StrCmp(s[i].name, x.name) < 0
    ensures SortedNames(s + [x])
  {
    var r := s + [x];
    forall i, j | 0 <= i < j < |r|
      ensures StrCmp(r[i].name, r[j].name) < 0
    {
      if j == |s| {
        assert r[i] == s[i] && r[j] == x;
      } else {
        assert r[i] == s[i] && r[j] == s[j];
      }
    }
  }

  /** Removal preserves the strcmp order of the names. */
  lemma {:induction false} RemoveHandleSorted(s: seq<HandleName>, h: nat)
    requires SortedNames(s)
    ensures SortedNames(RemoveHandle(s, h))
    decreases |s|
  {
    if |s| > 0 {
      var p := s[..|s| - 1];
      var x := s[|s| - 1];
      assert SortedNames(p) by {
        forall i, j | 0 <= i < j < |p|
          ensures StrCmp(p[i].name, p[j].name) < 0
        {
          assert p[i] == s[i] && p[j] == s[j];
        }
      }
      RemoveHandleSorted(p, h);
      if x.handle != h {
        var rp := RemoveHandle(p, h);
        RemoveHandleMembers(p, h);
        forall i | 0 <= i < |rp|
          ensures StrCmp(rp[i].name, x.name) < 0
        {
          assert rp[i] in p;
          var k :| 0 <= k < |p| && p[k] == rp[i];
          assert s[k] == rp[i];
        }
        SortedAppend(rp, x);
      }
    }
  }

  /** Inserting `e` where it belongs between the smaller and the larger names keeps the array sorted. */
  lemma SortedInsert(s: seq<HandleName>, p: int, e: HandleName)
    requires SortedNames(s) && 0 <= p <= |s|
    requires forall k :: 0 <= k < p ==> StrCmp(s[k].name, e.name) < 0
    requires forall k :: p <= k < |s| ==> StrCmp(e.name, s[k].name) < 0
    ensures SortedNames(s[..p] + [e] + s[p..])
  {
    var r := s[..p] + [e] + s[p..];
    forall i, j | 0 <= i < j < |r|
      ensures StrCmp(r[i].name, r[j].name) < 0
    {
      if i < p && j > p {
        assert r[i] == s[i] && r[j] == s[j - 1];
      } else if i == p {
        assert r[j] == s[j - 1];
      } else if j == p {
        assert r[i] == s[i];
      } else if j < p {
        assert r[i] == s[i] && r[j] == s[j];
      } else {
        assert r[i] == s[i - 1] && r[j] == s[j - 1];
      }
    }
  }

  /** A handle and a context that the handle table may release: its count may reach 0 only if its queue can be marked. */
  ghost predicate Releasable(c: Ctx, g: GlobalQueue)
    reads c, c.queue, g
  {
    c.Valid() && !c.Deleted && c.queue != null &&
    (c.ref == 1 ==> !c.queue.release && Linkable(c.queue, g))
  }

  /**
   * What a retire-all sweep keeps about the registrations `live` while it
   * works from the registrations `L0`, contexts `Cs`, queues `Qs` and global
   * queue `S0` it started from: what is still registered was registered then
   * and can still be released, no two registered contexts share a queue, and
   * only those queues have joined the global queue.
   */
  ghost predicate Sweep(live: map<nat, Ctx>, g: GlobalQueue, L0: map<nat, Ctx>, Cs: set<Ctx>, Qs: set<Queue>, S0: seq<Queue>)
    reads g, Cs, Qs
  {
    (forall h :: h in live ==>
      h in L0 && live[h] == L0[h] && live[h] in Cs && live[h].queue in Qs && Releasable(live[h], g)) &&
    (forall h1, h2 :: h1 in live && h2 in live && h1 != h2 ==> live[h1].queue != live[h2].queue) &&
    (forall q :: q in g.Spine ==> q in S0 || q in Qs)
  }

  /** The queues of a set of contexts. */
  ghost function QueuesOf(cs: set<Ctx>): set<Queue>
    reads cs
  {
    set c | c in cs && c.queue != null :: c.queue
  }

  /** Masking the low 24 bits of a handle before reducing it modulo the slot count changes nothing. */
  lemma SlotOfLocalId(x: int, log: nat)
    requires log <= 24
    ensures (x % RemoteUnit) % Pow2(log) == x % Pow2(log)
  {
    var a, b := Pow2(24 - log), Pow2(log);
    Pow2Add(24 - log, log);
    Pow2Values();
    assert RemoteUnit == a * b;
    ModModMultiple(x, a, b);
  }

  /** Adding the harbor bits to a local id does not move it to another slot. */
  lemma SlotWithHarbor(low: nat, harbor: nat, log: nat)
    requires log <= 24 && harbor % RemoteUnit == 0
    ensures (low + harbor) % Pow2(log) == low % Pow2(log)
  {
    var a, b := Pow2(24 - log), Pow2(log);
    Pow2Add(24 - log, log);
    Pow2Values();
    assert RemoteUnit == a * b;
    var k := harbor / RemoteUnit;
    assert harbor == k * RemoteUnit;
    MulAssoc(k, a, b);
    ModAddMultiple(low, k * a, b);
  }

  /** The slot of the `i`-th probe of skynet_handle_register from `index` in a table of `size` slots. */
  function ProbeSlot(index: int, i: int, size: nat): int
    requires size > 0
  {
    ((i + index) % RemoteUnit) % size
  }

  /** The `i`-th probe from `index` takes local id `(i + index) % 2^24`, from which `i` is recovered. */
  lemma ProbeNumber(index: int, i: int)
    requires 0 <= i < RemoteUnit
    ensures ((i + index) % RemoteUnit - index) % RemoteUnit == i
  {
    var q := (i + index) / RemoteUnit;
    assert (i + index) % RemoteUnit - index == i + (-q) * RemoteUnit;
    ModAddMultiple(i, -q, RemoteUnit);
    ModSmall(i, RemoteUnit);
  }

  /** A full round of probes from any start visits every slot. */
  lemma ProbesCoverSlots(index: int, k: int, log: nat)
    requires log <= 24 && 0 <= k < Pow2(log)
    ensures 0 <= (k - index) % Pow2(log) < Pow2(log)
    ensures ProbeSlot(index, (k - index) % Pow2(log), Pow2(log)) == k
  {
    ModReach(index, k, Pow2(log));
    SlotOfLocalId((k - index) % Pow2(log) + index, log);
  }

  /** When every one of a full round of probes from `index` hit an occupied slot, every slot is occupied. */
  lemma ProbedAll(s: seq<Ctx?>, index: int, log: nat)
    requires log <= 24 && |s| == Pow2(log)
    requires forall j :: 0 <= j < |s| ==> s[ProbeSlot(index, j, |s|)] != null
    ensures forall k :: 0 <= k < |s| ==> s[k] != null
  {
    forall k | 0 <= k < |s|
      ensures s[k] != null
    {
      ProbesCoverSlots(index, k, log);
      var j := (k - index) % |s|;
      assert s[ProbeSlot(index, j, |s|)] != null;
    }
  }

  /**
   * The rehash loop of skynet_handle_register: moves every context of a full
   * slot array to the slot of its handle in an array twice as large; no two
   * contexts collide because their handles differ modulo the old size.
   */
  method Rehash(slot: array<Ctx?>, size: nat) returns (newSlot: array<Ctx?>)
    requires slot.Length == size > 0
    requires forall j :: 0 <= j < size ==> slot[j] != null && slot[j].handle % size == j
    ensures fresh(newSlot) && newSlot.Length == 2 * size
    ensures forall j :: 0 <= j < size ==> newSlot[slot[j].handle % (2 * size)] == slot[j]
    ensures forall k :: 0 <= k < 2 * size && newSlot[k] != null ==>
      newSlot[k].handle % (2 * size) == k && newSlot[k] == slot[newSlot[k].handle % size]
    ensures newSlot[0] == null || newSlot[size] == null
  {
    newSlot := new Ctx?[2 * size](_ => null);
    var i := 0;
    while i < size
      invariant 0 <= i <= size
      invariant forall j :: 0 <= j < i ==> newSlot[slot[j].handle % (2 * size)] == slot[j]
      invariant forall k :: 0 <= k < 2 * size && newSlot[k] != null ==>
        newSlot[k].handle % (2 * size) == k && newSlot[k].handle % size < i &&
        newSlot[k] == slot[newSlot[k].handle % size]
    {
      var hash := slot[i].handle % (2 * size);
      ModModMultiple(slot[i].handle, 2, size);
      if newSlot[hash] != null {
        ModModMultiple(newSlot[hash].handle, 2, size);
        assert false;
      }
      newSlot[hash] := slot[i];
      i := i + 1;
    }
    if newSlot[0] != null && newSlot[size] != null {
      HalvesShareSlot(newSlot[0].handle, newSlot[size].handle, size);
      assert false;
    }
  }

  /** Handles in slots 0 and `size` of a doubled array both come from slot 0 of the old one. */
  lemma HalvesShareSlot(x: int, y: int, size: nat)
    requires size > 0 && x % (2 * size) == 0 && y % (2 * size) == size
    ensures x % size == 0 && y % size == 0
  {
    ModModMultiple(x, 2, size);
    ModModMultiple(y, 2, size);
    ModSmall(0, size);
    ModAddOnce(0, size);
  }

  /** The growing branch of _insert_name_before: copies the entries into `cap` fresh slots, leaving `before` free. */
  method CopyWithGap(a: array<HandleName>, count: nat, before: nat, cap: nat) returns (larger: array<HandleName>)
    requires count <= a.Length && before <= count < cap
    ensures fresh(larger) && larger.Length == cap
    ensures forall k :: 0 <= k < before ==> larger[k] == a[k]
    ensures forall k :: before < k <= count ==> larger[k] == a[k - 1]
  {
    larger := new HandleName[cap];
    var i := 0;
    while i < before
      invariant 0 <= i <= before
      invariant forall k :: 0 <= k < i ==> larger[k] == a[k]
    {
      larger[i] := a[i];
      i := i + 1;
    }
    i := before;
    while i < count
      invariant before <= i <= count
      invariant forall k :: 0 <= k < before ==> larger[k] == a[k]
      invariant forall k :: before < k <= i ==> larger[k] == a[k - 1]
    {
      larger[i + 1] := a[i];
      i := i + 1;
    }
  }

  /** The in-place branch of _insert_name_before: moves entries `before..count` one place up. */
  method ShiftRight(a: array<HandleName>, count: nat, before: nat)
    requires before <= count < a.Length
    modifies a
    ensures forall k :: 0 <= k < before ==> a[k] == old(a[k])
    ensures forall k :: before < k <= count ==> a[k] == old(a[k - 1])
  {
    var i := count;
    while i > before
      invariant before <= i <= count
      invariant forall k :: 0 <= k <= i ==> a[k] == old(a[k])
      invariant forall k :: i < k <= count ==> a[k] == old(a[k - 1])
    {
      a[i] := a[i - 1];
      i := i - 1;
    }
  }

  /** Removal from one more entry of `s` extends the removal from the shorter prefix. */
  lemma RemoveHandleStep(s: seq<HandleName>, i: nat, h: nat)
    requires i < |s|
    ensures RemoveHandle(s[..i + 1], h) == RemoveHandle(s[..i], h) + (if s[i].handle == h then [] else [s[i]])
  {
    assert s[..i + 1][..i] == s[..i];
  }

  /** A sequence that agrees with `s` before `before`, holds `x` there and `s` shifted by one after it, is `s` with `x` inserted. */
  lemma InsertedAt(s: seq<HandleName>, u: seq<HandleName>, before: nat, x: HandleName)
    requires before <= |s| && |u| == |s| + 1 && u[before] == x
    requires forall k :: 0 <= k < before ==> u[k] == s[k]
    requires forall k :: before < k < |u| ==> u[k] == s[k - 1]
    ensures u == s[..before] + [x] + s[before..]
  {
    var t := s[..before] + [x] + s[before..];
    forall k | 0 <= k < |u|
      ensures u[k] == t[k]
    {
      if k > before {
        assert t[k] == s[k - 1];
      }
    }
  }

  /** The in-place compaction loop of skynet_handle_retire over the first `n` entries of `a`. */
  method Compact(a: array<HandleName>, n: nat, handle: nat) returns (j: nat)
    requires n <= a.Length
    modifies a
    ensures j <= n && a[..j] == RemoveHandle(old(a[..n]), handle)
  {
    ghost var s := a[..n];
    var i := 0;
    j := 0;
    while i < n
      invariant 0 <= j <= i <= n
      invariant a[..j] == RemoveHandle(s[..i], handle)
      invariant forall k :: i <= k < n ==> a[k] == s[k]
    {
      RemoveHandleStep(s, i, handle);
      if a[i].handle == handle {
      } else {
        if i != j {
          a[j] := a[i];
        }
        assert a[..j + 1] == a[..j] + [s[i]];
        j := j + 1;
      }
      i := i + 1;
    }
    assert s[..n] == s;
  }

  class HandleStorage {
    const harbor: nat
    var handleIndex: nat
    var slotSize: nat
    var slot: array<Ctx?>
    var nameCap: nat
    var nameCount: nat
    var names: array<HandleName>
    /** log2 of the slot count. */
    ghost var SlotLog: nat
    /** The registered contexts by handle. */
    ghost var Live: map<nat, Ctx>

    /**
     * Every registered context sits in the slot of its handle and every
     * occupied slot holds a registered context; handles carry this node's
     * harbor; the names are sorted.
     */
    ghost predicate Valid()
      reads this, slot, names, slot[..]`handle
    {
      slot.Length == slotSize && 2 <= SlotLog <= 24 && slotSize == Pow2(SlotLog) &&
      harbor % RemoteUnit == 0 && harbor < 256 * RemoteUnit &&
      1 <= handleIndex <= RemoteUnit &&
      (forall h :: h in Live ==>
        slot[h % slotSize] == Live[h] && Live[h].handle == h && harbor <= h < harbor + RemoteUnit) &&
      (forall i :: 0 <= i < slotSize && slot[i] != null ==>
        slot[i].handle % slotSize == i && slot[i].handle in Live) &&
      names.Length == nameCap && 1 <= nameCap && nameCount <= nameCap &&
      SortedNames(names[..nameCount])
    }

    /** The bound names, in strcmp order. */
    ghost function Names(): seq<HandleName>
      reads this, names
      requires nameCount <= names.Length
    {
      names[..nameCount]
    }

    /** skynet_handle_init: four empty slots, the harbor id in the top byte, room for two names. */
    constructor (harborId: int)
      ensures Valid() && Live == map[] && Names() == []
      ensures harbor == (harborId % 256) * RemoteUnit && handleIndex == 1 && slotSize == DefaultSlotSize
      ensures nameCap == 2
    {
      slotSize := DefaultSlotSize;
      slot := new Ctx?[DefaultSlotSize](_ => null);
      harbor := (harborId % 256) * RemoteUnit;
      handleIndex := 1;
      nameCap := 2;
      nameCount := 0;
      names := new HandleName[2];
      SlotLog := 2;
      Live := map[];
    }

    /**
     * skynet_handle_register: stores `ctx` in the first free slot probed from
     * `handleIndex`, doubling the slot array when every slot is taken, and
     * returns the probed local id combined with the harbor bits. The model
     * also stores the handle in the context, which the caller does next in
     * the source.
     */
    method Register(ctx: Ctx) returns (h: nat)
      requires Valid() && ctx !in Live.Values
      requires (exists k :: 0 <= k < slot.Length && slot[k] == null) || 2 * slotSize - 1 <= HandleMask
      modifies this`slot, this`slotSize, this`handleIndex, this`SlotLog, this`Live, slot, ctx`handle
      ensures Valid() && h !in old(Live) && Live == old(Live)[h := ctx] && ctx.handle == h
      ensures harbor <= h < harbor + RemoteUnit && handleIndex == h - harbor + 1
      ensures (h - harbor - old(handleIndex)) % RemoteUnit < slotSize
      ensures forall j :: 0 <= j < (h - harbor - old(handleIndex)) % RemoteUnit ==>
        slot[ProbeSlot(old(handleIndex), j, slotSize)] != null
      ensures Names() == old(Names())
    {
      var grown := false;
      while true
        invariant Valid() && ctx !in Live.Values && Live == old(Live) && handleIndex == old(handleIndex)
        invariant names == old(names) && nameCount == old(nameCount)
        invariant grown ==> fresh(slot) && exists k :: 0 <= k < slot.Length && slot[k] == null
        invariant !grown ==> slot == old(slot)
        invariant !grown ==> (exists k :: 0 <= k < slot.Length && slot[k] == null) || 2 * slotSize - 1 <= HandleMask
        decreases if grown then 0 else 1
      {
        var stored;
        stored, h := Probe(ctx);
        if stored {
          return;
        }
        Grow();
        grown := true;
      }
    }

    /**
     * One round of skynet_handle_register's linear probe: from `handleIndex`
     * on, looks at every slot once and stores `ctx` in the first free one;
     * reports whether there was one.
     */
    method Probe(ctx: Ctx) returns (stored: bool, h: nat)
      requires Valid() && ctx !in Live.Values
      modifies this`handleIndex, this`Live, slot, ctx`handle
      ensures Valid()
      ensures stored ==> h !in old(Live) && Live == old(Live)[h := ctx] && ctx.handle == h
      ensures stored ==> harbor <= h < harbor + RemoteUnit && handleIndex == h - harbor + 1
      ensures stored ==> (h - harbor - old(handleIndex)) % RemoteUnit < slotSize
      ensures stored ==> forall j :: 0 <= j < (h - harbor - old(handleIndex)) % RemoteUnit ==>
        old(slot[ProbeSlot(handleIndex, j, slotSize)]) != null &&
        slot[ProbeSlot(old(handleIndex), j, slotSize)] != null
      ensures !stored ==> Live == old(Live) && handleIndex == old(handleIndex)
      ensures stored <==> exists k :: 0 <= k < slotSize && old(slot[k]) == null
      ensures !stored ==> forall k :: 0 <= k < slotSize ==> slot[k] != null
    {
      var i := 0;
      while i < slotSize && slot[ProbeSlot(handleIndex, i, slotSize)] != null
        invariant 0 <= i <= slotSize
        invariant forall j :: 0 <= j < i ==> slot[ProbeSlot(handleIndex, j, slotSize)] != null
      {
        i := i + 1;
      }
      if i == slotSize {
        ProbedAll(slot[..], handleIndex, SlotLog);
        return false, 0;
      }
      assert old(slot[ProbeSlot(handleIndex, i, slotSize)]) == null;
      h := StoreProbed(ctx, i);
      return true, h;
    }

    /** The success branch of the probe: the `i`-th probe found the first free slot. */
    method StoreProbed(ctx: Ctx, i: nat) returns (h: nat)
      requires Valid() && ctx !in Live.Values && i < slotSize
      requires slot[ProbeSlot(handleIndex, i, slotSize)] == null
      requires forall j :: 0 <= j < i ==> slot[ProbeSlot(handleIndex, j, slotSize)] != null
      modifies this`handleIndex, this`Live, slot, ctx`handle
      ensures Valid() && h !in old(Live) && Live == old(Live)[h := ctx] && ctx.handle == h
      ensures harbor <= h < harbor + RemoteUnit && handleIndex == h - harbor + 1
      ensures (h - harbor - old(handleIndex)) % RemoteUnit == i
      ensures forall j :: 0 <= j < i ==> slot[ProbeSlot(old(handleIndex), j, slotSize)] != null
    {
      var low := (i + handleIndex) % RemoteUnit;
      Pow2Monotone(SlotLog, 24);
      Pow2Values();
      ProbeNumber(handleIndex, i);
      assert (low - handleIndex) % RemoteUnit == i;
      ghost var before := slot[..];
      h := Store(ctx, low);
      forall j | 0 <= j < i
        ensures slot[ProbeSlot(old(handleIndex), j, slotSize)] != null
      {
        assert before[ProbeSlot(old(handleIndex), j, slotSize)] != null;
      }
    }

    /** A context absent from the registered ones occupies no slot. */
    lemma NotStored(ctx: Ctx)
      requires Valid() && ctx !in Live.Values
      ensures forall i :: 0 <= i < slotSize ==> slot[i] != ctx
    {
      forall i | 0 <= i < slotSize && slot[i] != null
        ensures slot[i] != ctx
      {
        var hd: nat := slot[i].handle;
        assert Live[hd] == slot[hd % slotSize];
      }
    }

    /**
     * The success branch of skynet_handle_register's probe: stores `ctx` in the
     * free slot of local id `low`, advances the index past it, and returns the
     * local id combined with the harbor bits.
     */
    method Store(ctx: Ctx, low: nat) returns (h: nat)
      requires Valid() && ctx !in Live.Values && low < RemoteUnit && slot[low % slotSize] == null
      modifies this`handleIndex, this`Live, slot, ctx`handle
      ensures Valid() && h == low + harbor && h !in old(Live) && Live == old(Live)[h := ctx]
      ensures ctx.handle == h && handleIndex == low + 1
    {
      NotStored(ctx);
      SlotWithHarbor(low, harbor, SlotLog);
      h := low + harbor;
      slot[low % slotSize] := ctx;
      handleIndex := low + 1;
      ctx.handle := h;
      Live := Live[h := ctx];
    }

    /** The growth step of skynet_handle_register: rehashes a full slot array into one twice as large. */
    method Grow()
      requires Valid() && 2 * slotSize - 1 <= HandleMask
      requires forall k :: 0 <= k < slotSize ==> slot[k] != null
      modifies this`slot, this`slotSize, this`SlotLog
      ensures Valid() && fresh(slot) && slotSize == 2 * old(slotSize)
      ensures exists k :: 0 <= k < slot.Length && slot[k] == null
    {
      var size := slotSize;
      if SlotLog >= 24 {
        Pow2AtLeast24(SlotLog);
        assert false;
      }
      var newSlot := Rehash(slot, size);
      ghost var oldSlot := slot;
      slot := newSlot;
      slotSize := 2 * size;
      SlotLog := SlotLog + 1;
      forall h | h in Live
        ensures slot[h % slotSize] == Live[h] && Live[h].handle == h
      {
        assert oldSlot[h % size] == Live[h];
      }
      forall i | 0 <= i < slotSize && slot[i] != null
        ensures slot[i].handle % slotSize == i && slot[i].handle in Live
      {
        assert slot[i] == oldSlot[slot[i].handle % size];
      }
      assert slot[0] == null || slot[size] == null;
    }

    /** The context registered under `handle`, as a set (empty when there is none). */
    ghost function Owned(handle: nat): set<Ctx>
      reads this
    {
      if handle in Live then {Live[handle]} else {}
    }

    /** The queue of the context registered under `handle`, as a set. */
    ghost function OwnedQueue(handle: nat): set<Queue>
      reads this, Owned(handle)
    {
      if handle in Live && Live[handle].queue != null then {Live[handle].queue} else {}
    }

    /** The name compaction of skynet_handle_retire: drops every name bound to `handle`, keeping the order of the rest. */
    method RemoveNames(handle: nat)
      requires Valid()
      modifies this`nameCount, names
      ensures Valid() && Names() == RemoveHandle(old(Names()), handle)
    {
      ghost var s := Names();
      RemoveHandleSorted(s, handle);
      nameCount := Compact(names, nameCount, handle);
    }

    /** Empties the slot of a registered `handle`. */
    method Evict(handle: nat)
      requires Valid() && handle in Live
      modifies this`Live, slot
      ensures Valid() && Live == old(Live) - {handle}
    {
      slot[handle % slotSize] := null;
      Live := Live - {handle};
    }

    /** The table half of skynet_handle_retire: empties the slot of a registered `handle` and drops every name bound to it. */
    method Unregister(handle: nat)
      requires Valid() && handle in Live
      modifies this`Live, this`nameCount, slot, names
      ensures Valid() && Live == old(Live) - {handle}
      ensures Names() == RemoveHandle(old(Names()), handle)
    {
      Evict(handle);
      RemoveNames(handle);
    }

    /**
     * skynet_handle_retire: when `handle` is registered, releases the table's
     * reference on its context, empties its slot and drops every name bound
     * to it; reports whether it was registered.
     */
    method Retire(handle: nat, g: GlobalQueue) returns (ret: bool)
      requires Valid() && g.Valid()
      requires handle in Live ==> Releasable(Live[handle], g)
      modifies this`Live, this`nameCount, slot, names
      modifies Owned(handle)`ref, Owned(handle)`Deleted, OwnedQueue(handle)`release, g, g.Spine`next
      ensures Valid() && g.Valid()
      ensures ret <==> handle in old(Live)
      ensures Live == old(Live) - {handle}
      ensures ret ==> Names() == RemoveHandle(old(Names()), handle)
      ensures !ret ==> Names() == old(Names()) && g.Spine == old(g.Spine)
      ensures ret ==> old(Live[handle]).ref == old(Live[handle].ref) - 1
      ensures ret ==> (old(Live[handle]).ref == 0 <==> old(Live[handle]).Deleted)
      ensures ret && old(Live[handle].ref) == 1 && !old(Live[handle].queue.inGlobal) ==>
        g.Spine == old(g.Spine) + [old(Live[handle].queue)]
      ensures ret && (old(Live[handle].ref) != 1 || old(Live[handle].queue.inGlobal)) ==> g.Spine == old(g.Spine)
    {
      var hash := handle % slotSize;
      var ctx := slot[hash];
      ret := false;
      if ctx != null && ctx.handle == handle {
        RetireFound(handle, ctx, g);
        ret := true;
      }
    }

    /** The part of skynet_handle_retire after the lookup: unregisters `handle`, then releases its context. */
    method RetireFound(handle: nat, ctx: Ctx, g: GlobalQueue)
      requires Valid() && g.Valid() && handle in Live && Live[handle] == ctx && Releasable(ctx, g)
      modifies this`Live, this`nameCount, slot, names, ctx`ref, ctx`Deleted, ctx.queue`release, g, g.Spine`next
      ensures Valid() && g.Valid()
      ensures Live == old(Live) - {handle} && Names() == RemoveHandle(old(Names()), handle)
      ensures ctx.ref == old(ctx.ref) - 1 && (ctx.ref == 0 <==> ctx.Deleted)
      ensures old(ctx.ref) == 1 && !old(ctx.queue.inGlobal) ==> g.Spine == old(g.Spine) + [ctx.queue]
      ensures old(ctx.ref) != 1 || old(ctx.queue.inGlobal) ==> g.Spine == old(g.Spine)
    {
      Unregister(handle);
      ReleaseRetired(ctx, g);
    }

    /** skynet_context_release on a context being retired; the table itself is not touched. */
    method ReleaseRetired(ctx: Ctx, g: GlobalQueue)
      requires Valid() && g.Valid() && Releasable(ctx, g)
      modifies ctx`ref, ctx`Deleted, ctx.queue`release, g, g.Spine`next
      ensures Valid() && g.Valid()
      ensures ctx.ref == old(ctx.ref) - 1 && (ctx.ref == 0 <==> ctx.Deleted)
      ensures old(ctx.ref) == 1 && !old(ctx.queue.inGlobal) ==> g.Spine == old(g.Spine) + [ctx.queue]
      ensures old(ctx.ref) != 1 || old(ctx.queue.inGlobal) ==> g.Spine == old(g.Spine)
    {
      var _ := ctx.Release(g);
    }

    /** Every registered context can be released and no two of them share a queue. */
    ghost predicate Retirable(g: GlobalQueue)
      reads this, g, Live.Values, QueuesOf(Live.Values)
    {
      (forall h :: h in Live ==> Releasable(Live[h], g)) &&
      (forall h1, h2 :: h1 in Live && h2 in Live && h1 != h2 ==> Live[h1].queue != Live[h2].queue)
    }

    /**
     * skynet_context_release on the context registered as `x` during a
     * sweep: the other registrations keep what the sweep relies on.
     */
    method ReleaseAmong(ctx: Ctx, g: GlobalQueue, ghost live: map<nat, Ctx>, ghost x: nat,
                        ghost L0: map<nat, Ctx>, ghost Cs: set<Ctx>, ghost Qs: set<Queue>, ghost S0: seq<Queue>)
      requires Valid() && x in live && live[x] == ctx && g.Valid() && Sweep(live, g, L0, Cs, Qs, S0)
      modifies ctx`ref, ctx`Deleted, ctx.queue`release, g, g.Spine`next
      ensures Valid() && g.Valid() && Sweep(live - {x}, g, L0, Cs, Qs, S0)
    {
      var q := ctx.queue;
      ReleaseRetired(ctx, g);
      forall h | h in live && h != x
        ensures Releasable(live[h], g)
      {
        var c := live[h];
        assert c.queue != q;
        assert old(Releasable(c, g));
        if c.ref == 1 && !c.queue.inGlobal {
          assert c.queue !in old(g.Spine);
        }
      }
    }

    /** Retires a registered handle in the middle of a sweep, keeping what the sweep relies on. */
    method RetireRegistered(handle: nat, g: GlobalQueue, ghost L0: map<nat, Ctx>, ghost Cs: set<Ctx>, ghost Qs: set<Queue>, ghost S0: seq<Queue>)
      requires Valid() && g.Valid() && handle in Live && Sweep(Live, g, L0, Cs, Qs, S0)
      modifies this`Live, this`nameCount, slot, names, Cs`ref, Cs`Deleted
      modifies Qs`release, Qs`next, g, S0`next
      ensures Valid() && g.Valid() && Sweep(Live, g, L0, Cs, Qs, S0)
      ensures Live == old(Live) - {handle}
    {
      var ctx := slot[handle % slotSize];
      ghost var live := Live;
      Unregister(handle);
      ReleaseAmong(ctx, g, live, handle, L0, Cs, Qs, S0);
    }

    /** One step of the skynet_handle_retireall sweep: retires the context in slot `i` unless the slot is empty or holds handle 0. */
    method RetireSlot(i: nat, g: GlobalQueue, ghost L0: map<nat, Ctx>, ghost Cs: set<Ctx>, ghost Qs: set<Queue>, ghost S0: seq<Queue>)
      returns (retired: bool)
      requires Valid() && g.Valid() && i < slotSize && Sweep(Live, g, L0, Cs, Qs, S0)
      modifies this`Live, this`nameCount, slot, names, Cs`ref, Cs`Deleted
      modifies Qs`release, Qs`next, g, S0`next
      ensures Valid() && g.Valid() && Sweep(Live, g, L0, Cs, Qs, S0)
      ensures retired <==> old(slot[i]) != null && old(slot[i]).handle != 0
      ensures slotSize == old(slotSize)
      ensures retired ==> Live.Keys < old(Live.Keys)
      ensures !retired ==> Live == old(Live) && forall h :: h in Live && h % slotSize == i ==> h == 0
    {
      var ctx := slot[i];
      retired := false;
      if ctx != null && ctx.handle != 0 {
        RetireRegistered(ctx.handle, g, L0, Cs, Qs, S0);
        retired := true;
      }
    }

    /**
     * skynet_handle_retireall: sweeps the slots, retiring every context whose
     * handle is not 0, until a sweep retires nothing; afterwards no context
     * with a non-zero handle remains registered.
     */
    method RetireAll(g: GlobalQueue)
      requires Valid() && g.Valid() && Retirable(g)
      modifies this`Live, this`nameCount, slot, names, Live.Values`ref, Live.Values`Deleted
      modifies QueuesOf(Live.Values)`release, QueuesOf(Live.Values)`next, g, g.Spine`next
      ensures Valid() && g.Valid()
      ensures forall h :: h in Live ==> h in old(Live) && Live[h] == old(Live)[h]
      ensures forall h :: h in Live ==> h == 0
    {
      ghost var L0, Cs, Qs, S0 := Live, Live.Values, QueuesOf(Live.Values), g.Spine;
      forall h | h in Live
        ensures Live[h] in Cs && Live[h].queue in Qs
      {
        assert Live[h] in Live.Values;
      }
      while true
        invariant Valid() && g.Valid() && Sweep(Live, g, L0, Cs, Qs, S0)
        decreases Live.Keys
      {
        var n := SweepSlots(g, L0, Cs, Qs, S0);
        if n == 0 {
          return;
        }
      }
    }

    /**
     * One pass of skynet_handle_retireall over every slot; returns how many
     * contexts it retired. A pass that retires nothing leaves only handle 0
     * registered, and any other pass shrinks the registrations.
     */
    method SweepSlots(g: GlobalQueue, ghost L0: map<nat, Ctx>, ghost Cs: set<Ctx>, ghost Qs: set<Queue>, ghost S0: seq<Queue>)
      returns (n: nat)
      requires Valid() && g.Valid() && Sweep(Live, g, L0, Cs, Qs, S0)
      modifies this`Live, this`nameCount, slot, names, Cs`ref, Cs`Deleted
      modifies Qs`release, Qs`next, g, S0`next
      ensures Valid() && g.Valid() && Sweep(Live, g, L0, Cs, Qs, S0)
      ensures n == 0 ==> Live == old(Live) && forall h :: h in Live ==> h == 0
      ensures n > 0 ==> Live.Keys < old(Live.Keys)
    {
      n := 0;
      var i := 0;
      while i < slotSize
        invariant 0 <= i <= slotSize
        invariant Valid() && g.Valid() && Sweep(Live, g, L0, Cs, Qs, S0)
        invariant n == 0 ==> Live == old(Live)
        invariant n == 0 ==> forall h :: h in Live && h % slotSize < i ==> h == 0
        invariant n > 0 ==> Live.Keys < old(Live.Keys)
      {
        var r := RetireSlot(i, g, L0, Cs, Qs, S0);
        if r {
          n := n + 1;
        }
        i := i + 1;
      }
    }

    /**
     * skynet_handle_grab: the context registered under `handle`, with one
     * more reference taken on it, or null when the handle is not registered.
     */
    method Grab(handle: nat) returns (r: Ctx?)
      requires Valid()
      requires handle in Live ==> Live[handle].Valid() && !Live[handle].Deleted
      modifies Owned(handle)`ref
      ensures r == (if handle in Live then Live[handle] else null)
      ensures r != null ==> r.Valid() && r.ref == old(r.ref) + 1
    {
      var hash := handle % slotSize;
      var ctx := slot[hash];
      r := null;
      if ctx != null && ctx.handle == handle {
        r := ctx;
        r.Grab();
      }
    }

    /**
     * The binary search of skynet_handle_findname and _insert_name: finds the
     * entry called `n`, or the position where it would have to be inserted.
     */
    method Locate(n: string) returns (found: bool, at: int)
      requires Valid()
      ensures 0 <= at <= nameCount
      ensures found ==> at < nameCount && names[at].name == n
      ensures !found ==> forall k :: 0 <= k < at ==> StrCmp(names[k].name, n) < 0
      ensures !found ==> forall k :: at <= k < nameCount ==> StrCmp(n, names[k].name) < 0
    {
      var begin: int := 0;
      var end: int := nameCount - 1;
      while begin <= end
        invariant 0 <= begin <= end + 1 <= nameCount
        invariant forall k :: 0 <= k < begin ==> StrCmp(names[k].name, n) < 0
        invariant forall k :: end < k < nameCount ==> StrCmp(n, names[k].name) < 0
      {
        var mid := (begin + end) / 2;
        var c := StrCmp(names[mid].name, n);
        if c == 0 {
          StrCmpZero(names[mid].name, n);
          return true, mid;
        }
        if c < 0 {
          forall k | 0 <= k < mid
            ensures StrCmp(names[k].name, n) < 0
          {
            assert Names()[k] == names[k] && Names()[mid] == names[mid];
            StrCmpTransitive(names[k].name, names[mid].name, n);
          }
          begin := mid + 1;
        } else {
          StrCmpAntisymmetric(names[mid].name, n);
          forall k | mid < k < nameCount
            ensures StrCmp(n, names[k].name) < 0
          {
            assert Names()[k] == names[k] && Names()[mid] == names[mid];
            StrCmpTransitive(n, names[mid].name, names[k].name);
          }
          end := mid - 1;
        }
      }
      return false, begin;
    }

    /** No entry is called `n` when `n` lies strictly between the entries before and after `at`. */
    lemma AbsentBetween(n: string, at: int)
      requires Valid() && 0 <= at <= nameCount
      requires forall k :: 0 <= k < at ==> StrCmp(names[k].name, n) < 0
      requires forall k :: at <= k < nameCount ==> StrCmp(n, names[k].name) < 0
      ensures forall k :: 0 <= k < nameCount ==> Names()[k].name != n
    {
      forall k | 0 <= k < nameCount
        ensures Names()[k].name != n
      {
        StrCmpZero(names[k].name, n);
        StrCmpZero(n, names[k].name);
      }
    }

    /** skynet_handle_findname: the handle bound to `n`, or 0 when no such name exists. */
    method FindName(n: string) returns (handle: nat)
      requires Valid()
      ensures handle == LookupName(Names(), n)
    {
      var found, at := Locate(n);
      if found {
        LookupSorted(Names(), at);
        return names[at].handle;
      }
      AbsentBetween(n, at);
      LookupAbsent(Names(), n);
      return 0;
    }

    /**
     * _insert_name_before: opens a gap at `before` (doubling the array when it
     * is full) and stores the entry there.
     */
    method InsertNameBefore(n: string, handle: nat, before: int)
      requires Valid() && 0 <= before <= nameCount
      requires nameCount < nameCap || 2 * nameCap <= MaxSlotSize
      modifies this`names, this`nameCap, this`nameCount, names
      ensures names.Length == nameCap && 1 <= nameCap && nameCount <= nameCap
      ensures nameCount == old(nameCount) + 1
      ensures nameCap == if old(nameCount) >= old(nameCap) then 2 * old(nameCap) else old(nameCap)
      ensures Names() == old(Names())[..before] + [HandleName(n, handle)] + old(Names())[before..]
      ensures names == old(names) || fresh(names)
    {
      ghost var s := Names();
      if nameCount >= nameCap {
        nameCap := nameCap * 2;
        names := CopyWithGap(names, nameCount, before, nameCap);
      } else {
        ShiftRight(names, nameCount, before);
      }
      names[before] := HandleName(n, handle);
      nameCount := nameCount + 1;
      InsertedAt(s, Names(), before, HandleName(n, handle));
    }

    /**
     * skynet_handle_namehandle (_insert_name): binds `n` to `handle` at its
     * sorted position and returns the stored name, or returns None and
     * changes nothing when the name is already bound.
     */
    method NameHandle(handle: nat, n: string) returns (r: Option<string>)
      requires Valid()
      requires nameCount < nameCap || 2 * nameCap <= MaxSlotSize
      modifies this`names, this`nameCap, this`nameCount, names
      ensures Valid()
      ensures r == None <==> exists k :: 0 <= k < |old(Names())| && old(Names())[k].name == n
      ensures r == None ==> Names() == old(Names()) && nameCap == old(nameCap)
      ensures r != None ==> nameCap == if old(nameCount) >= old(nameCap) then 2 * old(nameCap) else old(nameCap)
      ensures r != None ==>
        r == Some(n) && exists p :: 0 <= p <= |old(Names())| && Names() == old(Names())[..p] + [HandleName(n, handle)] + old(Names())[p..]
      ensures r != None ==> LookupName(Names(), n) == handle
    {
      var found, at := Locate(n);
      if found {
        assert Names()[at].name == n;
        return None;
      }
      ghost var s := Names();
      AbsentBetween(n, at);
      SortedInsert(s, at, HandleName(n, handle));
      InsertNameBefore(n, handle, at);
      LookupSorted(Names(), at);
      r := Some(n);
    }
  }
}
