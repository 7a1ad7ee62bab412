/**
  Whole runs of the allocator: a client that allocates, resizes, writes and
  frees through slots sees each slot as a byte buffer of its own.
 */
module AllocatorRuns {
  import opened Bits
  import opened Blocks
  import opened Allocator

  /** What a client knows of a buffer: its requested length, and the bytes that are certain. */
  type Buf = seq<Option<byte>>

  datatype Op =
    | Alloc(sz: nat, grant: bool)
    | ZeroAlloc(n: nat, sz: nat, grant: bool)
    | Resize(slot: nat, sz: nat, grant: bool)
    | Release(slot: nat)
    | Put(slot: nat, i: nat, v: byte)

  /** The requests that fit 32 bits whatever the heap's size below 2 GiB. */
  predicate Modest(op: Op) {
    match op
    case Alloc(sz, _) => Small(sz)
    case ZeroAlloc(n, sz, _) => Small(n * sz)
    case Resize(_, sz, _) => Small(sz)
    case Release(_) => true
    case Put(_, _, _) => true
  }

  predicate Small(sz: nat) { sz + 12 <= 0x8000_0000 }

  /** Small requests are exactly those that fit from every break. */
  lemma SmallIff(sz: nat)
    requires sz < 0x1_0000_0000
    ensures Small(sz) <==> sz + 19 < 0x1_0000_0000 && forall end: nat :: end < 0x8000_0000 ==> FitsFrom(end, sz)
  {
    WantIff(sz);
    U32Small(sz + 12);
    if Small(sz) {
      UpBound(sz + 12);
      UpBound(Want(sz));
    } else if sz + 19 < 0x1_0000_0000 {
      assert Want(sz) > 0x8000_0000;
      assert !FitsFrom(0x7FFF_FFFF, sz);
    }
  }

  function Fresh(n: nat, x: Option<byte>): (b: Buf)
    ensures |b| == n && forall i :: 0 <= i < n ==> b[i] == x
  {
    seq(n, i => x)
  }

  /** The first bytes stay, the rest is uncertain. */
  function Resized(b: Buf, sz: nat): (r: Buf)
    ensures |r| == sz
  {
    if sz <= |b| then b[..sz] else b + Fresh(sz - |b|, None)
  }

  /** The buffers after an operation; ok says whether an allocation succeeded. */
  function Step(bufs: seq<Buf>, op: Op, ok: bool): (r: seq<Buf>)
  {
    match op
    case Alloc(sz, _) => bufs + [if ok then Fresh(sz, None) else []]
    case ZeroAlloc(n, sz, _) => bufs + [if ok then Fresh(n * sz, Some(0)) else []]
    case Resize(s, sz, _) => if s < |bufs| && (ok || sz == 0) then bufs[s := Resized(bufs[s], sz)] else bufs
    case Release(s) => if s < |bufs| then bufs[s := []] else bufs
    case Put(s, i, v) => if s < |bufs| && i < |bufs[s]| then bufs[s := bufs[s][i := Some(v)]] else bufs
  }

  function Steps(ops: seq<Op>, oks: seq<bool>): (r: seq<Buf>)
    requires |ops| == |oks|
  {
    if ops == [] then [] else Step(Steps(ops[..|ops| - 1], oks[..|ops| - 1]), ops[|ops| - 1], oks[|ops| - 1])
  }

  /** A payload has room for the buffer and holds its certain bytes. */
  ghost predicate Agrees(b: Buf, x: seq<byte>) {
    |b| <= |x| && forall i :: 0 <= i < |b| && b[i].Some? ==> b[i].value == x[i]
  }

  type Live = map<nat, seq<byte>>

  /** A zero slot is empty; any other points at a live block that holds the buffer. */
  ghost predicate Holds(live: Live, p: nat, b: Buf) {
    if p == 0 then b == [] else 12 <= p && p - 12 in live && Agrees(b, live[p - 12])
  }

  predicate Differ(p: nat, q: nat) { p != q || p == 0 }

  /** Each nonzero slot has a live block to itself that holds its buffer. */
  ghost predicate Tracks(live: Live, slots: seq<nat>, bufs: seq<Buf>) {
    && |slots| == |bufs|
    && (forall s {:trigger Holds(live, slots[s], bufs[s])} :: 0 <= s < |slots| ==> Holds(live, slots[s], bufs[s]))
    && (forall s, t {:trigger Differ(slots[s], slots[t])} :: 0 <= s < t < |slots| ==> Differ(slots[s], slots[t]))
  }

  /** No block is live without a slot: nothing leaks. */
  ghost predicate Owned(live: Live, slots: seq<nat>) {
    forall a :: a in live ==> a + 12 in slots
  }

  /** What a slot gains: nothing, or a block that was not live. */
  ghost predicate Added(live: Live, live': Live, p: nat, b: Buf) {
    if p == 0 then live' == live && b == []
    else
      && 12 <= p && p - 12 !in live && p - 12 in live' && live' == live[p - 12 := live'[p - 12]]
      && Agrees(b, live'[p - 12])
  }

  lemma HoldsStill(live: Live, live': Live, p: nat, b: Buf, q: nat, c: Buf)
    requires Holds(live, p, b) && Added(live, live', q, c)
    ensures Holds(live', p, b) && Differ(p, q)
  {}

  lemma AddSlot(live: Live, live': Live, slots: seq<nat>, bufs: seq<Buf>, p: nat, b: Buf)
    requires Tracks(live, slots, bufs) && Added(live, live', p, b)
    ensures Tracks(live', slots + [p], bufs + [b])
  {
    var slots', bufs' := slots + [p], bufs + [b];
    forall s {:trigger Holds(live', slots'[s], bufs'[s])} | 0 <= s < |slots'|
      ensures Holds(live', slots'[s], bufs'[s])
    {
      if s < |slots| { HoldsStill(live, live', slots[s], bufs[s], p, b); }
    }
    forall s, t {:trigger Differ(slots'[s], slots'[t])} | 0 <= s < t < |slots'| ensures Differ(slots'[s], slots'[t]) {
      if t < |slots| { assert Differ(slots[s], slots[t]); } else { HoldsStill(live, live', slots[s], bufs[s], p, b); }
    }
  }

  lemma AddOwned(live: Live, live': Live, slots: seq<nat>, p: nat, b: Buf)
    requires Owned(live, slots) && Added(live, live', p, b)
    ensures Owned(live', slots + [p])
  {
    var slots' := slots + [p];
    forall a | a in live' ensures a + 12 in slots' {
      if a in live { assert a + 12 in slots; } else { assert slots'[|slots|] == p; }
    }
  }

  /** The live blocks without slot s's. */
  function Others(live: Live, slots: seq<nat>, s: nat): Live
    requires s < |slots|
  {
    if slots[s] < 12 then live else live - {slots[s] - 12}
  }

  lemma HoldsOther(live: Live, slots: seq<nat>, bufs: seq<Buf>, s: nat, t: nat)
    requires Tracks(live, slots, bufs) && s < |slots| && t < |slots| && s != t
    ensures Holds(Others(live, slots, s), slots[t], bufs[t])
  {
    assert Holds(live, slots[t], bufs[t]) && Holds(live, slots[s], bufs[s]);
    assert if s < t then Differ(slots[s], slots[t]) else Differ(slots[t], slots[s]);
  }

  lemma ChangeSlot(live: Live, live': Live, slots: seq<nat>, bufs: seq<Buf>, s: nat, q: nat, b: Buf)
    requires Tracks(live, slots, bufs) && s < |slots| && Added(Others(live, slots, s), live', q, b)
    ensures Tracks(live', slots[s := q], bufs[s := b])
  {
    var slots', bufs', rest := slots[s := q], bufs[s := b], Others(live, slots, s);
    forall t {:trigger Holds(live', slots'[t], bufs'[t])} | 0 <= t < |slots'|
      ensures Holds(live', slots'[t], bufs'[t])
    {
      if t != s {
        HoldsOther(live, slots, bufs, s, t);
        HoldsStill(rest, live', slots[t], bufs[t], q, b);
      }
    }
    forall t, u {:trigger Differ(slots'[t], slots'[u])} | 0 <= t < u < |slots'| ensures Differ(slots'[t], slots'[u]) {
      if t != s && u != s {
        assert Differ(slots[t], slots[u]);
      } else {
        var o := if t == s then u else t;
        HoldsOther(live, slots, bufs, s, o);
        HoldsStill(rest, live', slots[o], bufs[o], q, b);
      }
    }
  }

  lemma ChangeOwned(live: Live, live': Live, slots: seq<nat>, s: nat, q: nat, b: Buf)
    requires Owned(live, slots) && s < |slots| && Added(Others(live, slots, s), live', q, b)
    ensures Owned(live', slots[s := q])
  {
    var slots' := slots[s := q];
    forall a | a in live' ensures a + 12 in slots' {
      if a + 12 == q {
        assert slots'[s] == q;
      } else {
        assert a in live && a + 12 in slots;
        var t :| 0 <= t < |slots| && slots[t] == a + 12;
        assert slots'[t] == a + 12;
      }
    }
  }

  lemma ResizeAgrees(b: Buf, x: seq<byte>, y: seq<byte>, sz: nat)
    requires Agrees(b, x) && Same(x, y, sz) && sz <= |y|
    ensures Agrees(Resized(b, sz), y)
  {
    var r, n := Resized(b, sz), if |x| < sz then |x| else sz;
    forall i | 0 <= i < |r| && r[i].Some? ensures r[i].value == y[i] {
      assert y[i] == y[..n][i] == x[..n][i];
    }
  }

  // ---- runs ----

  /** The client's pointers and lengths, what its buffers should hold, and how large their blocks can be. */
  ghost predicate Client(h: Heap, slots: seq<nat>, lens: seq<nat>, bufs: seq<Buf>, spans: seq<Option<Span>>)
    reads h
  {
    && h.Inv() && Apart(h.m) && Tracks(h.Live(), slots, bufs) && Owned(h.Live(), slots)
    && Lengths(lens, bufs) && Metered(h.Live(), slots, spans)
  }

  ghost predicate Lengths(lens: seq<nat>, bufs: seq<Buf>) {
    |lens| == |bufs| && forall s :: 0 <= s < |lens| ==> lens[s] == |bufs[s]|
  }

  lemma SmallFits(h: Heap, sz: nat)
    requires h.Inv() && Small(sz)
    ensures h.Fits(sz) && sz + 19 < 0x1_0000_0000
  {
    SmallIff(sz);
    assert FitsFrom(|h.mem|, sz);
  }

  // ---- realloc and the free list ----

  /** The size of the block that a resize meets; 0 for anything else. */
  ghost function BlockSize(h: Heap, slots: seq<nat>, op: Op): nat
    reads h
  {
    if op.Resize? && op.slot < |slots| && slots[op.slot] >= 12 && slots[op.slot] - 12 in h.m
    then h.m[slots[op.slot] - 12].size else 0
  }

  /** The resize cuts off a tail, which split_block then leaves on no list. */
  predicate Cuts(op: Op, size: nat) {
    op.Resize? && op.sz > 0 && size >= Up8(op.sz + 12) + 20
  }

  // ---- how large a slot's block can be ----

  /** Sizes from lo to below hi; req is the request the block was last placed or cut for. */
  datatype Span = Span(lo: nat, hi: nat, req: nat)

  predicate Lies(sp: Option<Span>, size: nat) {
    match sp case None => size == 0 case Some(x) => x.lo <= size < x.hi
  }

  function PlacedFor(l: nat): Span
    requires Small(l)
  {
    Span(Want(l), Want(l) + 20, l)
  }

  /** What a resize to sz bytes makes of a block of a known size. */
  function Refitted(sp: Option<Span>, sz: nat, size: nat): Option<Span>
    requires Small(sz)
  {
    var w := Up8(sz + 12);
    if sz == 0 then None
    else if sp.None? || size < w then Some(PlacedFor(sz))
    else if size >= w + 20 then Some(Span(w, w + 1, sz))
    else Some(Span(size, size + 1, sp.value.req))
  }

  /** The spans after an operation; size is that of the block a resize met. */
  function Span1(spans: seq<Option<Span>>, op: Op, ok: bool, size: nat): seq<Option<Span>>
    requires Modest(op)
  {
    match op
    case Alloc(sz, _) => spans + [if ok then Some(PlacedFor(sz)) else None]
    case ZeroAlloc(n, sz, _) => spans + [if ok then Some(PlacedFor(n * sz)) else None]
    case Resize(s, sz, _) => if s < |spans| && (ok || sz == 0) then spans[s := Refitted(spans[s], sz, size)] else spans
    case Release(s) => if s < |spans| then spans[s := None] else spans
    case Put(_, _, _) => spans
  }

  /** The size of the block behind a pointer. */
  ghost predicate Within(live: Live, p: nat, sp: Option<Span>) {
    if p == 0 then sp == None else 12 <= p && p - 12 in live && sp.Some? && Lies(sp, |live[p - 12]| + 12)
  }

  ghost predicate Metered(live: Live, slots: seq<nat>, spans: seq<Option<Span>>) {
    |slots| == |spans|
    && forall s {:trigger Within(live, slots[s], spans[s])} :: 0 <= s < |slots| ==> Within(live, slots[s], spans[s])
  }

  lemma AddMetered(live: Live, live': Live, slots: seq<nat>, spans: seq<Option<Span>>, p: nat, b: Buf, sp: Option<Span>)
    requires Metered(live, slots, spans) && Added(live, live', p, b) && Within(live', p, sp)
    ensures Metered(live', slots + [p], spans + [sp])
  {
    var slots', spans' := slots + [p], spans + [sp];
    forall s {:trigger Within(live', slots'[s], spans'[s])} | 0 <= s < |slots'|
      ensures Within(live', slots'[s], spans'[s])
    {
      if s < |slots| { assert Within(live, slots[s], spans[s]); }
    }
  }

  lemma ChangeMetered(live: Live, live': Live, slots: seq<nat>, bufs: seq<Buf>, spans: seq<Option<Span>>, s: nat,
                      q: nat, b: Buf, sp: Option<Span>)
    requires Tracks(live, slots, bufs) && Metered(live, slots, spans) && s < |slots|
    requires Added(Others(live, slots, s), live', q, b) && Within(live', q, sp)
    ensures Metered(live', slots[s := q], spans[s := sp])
  {
    var slots', spans' := slots[s := q], spans[s := sp];
    forall t {:trigger Within(live', slots'[t], spans'[t])} | 0 <= t < |slots'|
      ensures Within(live', slots'[t], spans'[t])
    {
      if t != s {
        assert Within(live, slots[t], spans[t]);
        HoldsOther(live, slots, bufs, s, t);
        HoldsStill(Others(live, slots, s), live', slots[t], bufs[t], q, b);
      }
    }
  }

  /** One more slot, for what an allocation returned. */
  lemma Gains(h: Heap, live: Live, slots: seq<nat>, lens: seq<nat>, bufs: seq<Buf>, spans: seq<Option<Span>>, p: nat,
              b: Buf, sp: Option<Span>)
    requires h.Inv() && Apart(h.m) && Tracks(live, slots, bufs) && Owned(live, slots) && Added(live, h.Live(), p, b)
    requires Lengths(lens, bufs) && Metered(live, slots, spans) && Within(h.Live(), p, sp)
    ensures Client(h, slots + [p], lens + [|b|], bufs + [b], spans + [sp])
  {
    AddSlot(live, h.Live(), slots, bufs, p, b);
    AddOwned(live, h.Live(), slots, p, b);
    AddMetered(live, h.Live(), slots, spans, p, b, sp);
  }

  /** Slot s now holds q. */
  lemma Changes(h: Heap, live: Live, slots: seq<nat>, lens: seq<nat>, bufs: seq<Buf>, spans: seq<Option<Span>>,
                s: nat, q: nat, b: Buf, sp: Option<Span>)
    requires h.Inv() && Apart(h.m) && Tracks(live, slots, bufs) && Owned(live, slots) && s < |slots|
    requires Added(Others(live, slots, s), h.Live(), q, b)
    requires Lengths(lens, bufs) && Metered(live, slots, spans) && Within(h.Live(), q, sp)
    ensures Client(h, slots[s := q], lens[s := |b|], bufs[s := b], spans[s := sp])
  {
    ChangeSlot(live, h.Live(), slots, bufs, s, q, b);
    ChangeOwned(live, h.Live(), slots, s, q, b);
    ChangeMetered(live, h.Live(), slots, bufs, spans, s, q, b, sp);
  }

  // ---- the operations on slots ----

  method DoAlloc(h: Heap, slots: seq<nat>, lens: seq<nat>, ghost bufs: seq<Buf>, ghost spans: seq<Option<Span>>,
                 sz: nat, grant: bool)
    returns (slots': seq<nat>, lens': seq<nat>, ok: bool)
    requires Client(h, slots, lens, bufs, spans) && Small(sz)
    modifies h
    ensures Client(h, slots', lens', Step(bufs, Alloc(sz, grant), ok), Span1(spans, Alloc(sz, grant), ok, 0))
    ensures NoLost(h.m) <==> NoLost(old(h.m))
  {
    ghost var live := h.Live();
    SmallFits(h, sz);
    var p := h.MallocLive(sz, grant);
    ok := p != 0;
    ghost var b, sp := if ok then Fresh(sz, None) else [], if ok then Some(PlacedFor(sz)) else None;
    Gains(h, live, slots, lens, bufs, spans, p, b, sp);
    slots', lens' := slots + [p], lens + [if ok then sz else 0];
  }

  /** calloc when the product does not wrap. */
  method SmallCalloc(h: Heap, n: nat, sz: nat, total: nat, grant: bool) returns (p: nat)
    requires h.Inv() && Apart(h.m) && total == n * sz && Small(total)
    modifies h
    ensures h.Inv() && Apart(h.m) && (NoLost(h.m) <==> NoLost(old(h.m)))
    ensures p == 0 ==> unchanged(h)
    ensures p != 0 ==> Added(old(h.Live()), h.Live(), p, Fresh(total, Some(0)))
    ensures p != 0 ==> Within(h.Live(), p, Some(PlacedFor(total)))
  {
    U32Small(total);
    SmallFits(h, total);
    p := h.Calloc(n, sz, grant);
  }

  method DoZeroAlloc(h: Heap, slots: seq<nat>, lens: seq<nat>, ghost bufs: seq<Buf>, ghost spans: seq<Option<Span>>,
                     n: nat, sz: nat, grant: bool)
    returns (slots': seq<nat>, lens': seq<nat>, ok: bool)
    requires Client(h, slots, lens, bufs, spans) && Small(n * sz)
    modifies h
    ensures Client(h, slots', lens', Step(bufs, ZeroAlloc(n, sz, grant), ok),
              Span1(spans, ZeroAlloc(n, sz, grant), ok, 0))
    ensures NoLost(h.m) <==> NoLost(old(h.m))
  {
    ghost var live := h.Live();
    var total := n * sz;
    var p := SmallCalloc(h, n, sz, total, grant);
    ok := p != 0;
    ghost var b, sp := if ok then Fresh(total, Some(0)) else [], if ok then Some(PlacedFor(total)) else None;
    Gains(h, live, slots, lens, bufs, spans, p, b, sp);
    slots', lens' := slots + [p], lens + [if ok then total else 0];
  }

  /** What a resize of pointer p leaves: the others as they were, and q with the resized buffer. */
  method ResizeBlock(h: Heap, p: nat, ghost b: Buf, ghost sp: Option<Span>, sz: nat, grant: bool)
    returns (q: nat, ghost size: nat)
    requires h.Inv() && Apart(h.m) && Small(sz) && Holds(h.Live(), p, b) && Within(h.Live(), p, sp)
    modifies h
    ensures h.Inv() && Apart(h.m) && (p == 0 || p - 12 in old(h.m))
    ensures size == (if p == 0 then 0 else old(h.m)[p - 12].size) && Lies(sp, size)
    ensures NoLost(h.m) <==> NoLost(old(h.m)) && (sz == 0 || size < Up8(sz + 12) + 20)
    ensures q == 0 && sz > 0 ==> unchanged(h)
    ensures q != 0 || sz == 0 ==>
              Added(if p == 0 then old(h.Live()) else old(h.Live()) - {p - 12}, h.Live(), q, Resized(b, sz))
    ensures q != 0 || sz == 0 ==> Within(h.Live(), q, Refitted(sp, sz, size))
  {
    hide Apart, NoLost;
    SmallFits(h, sz);
    ghost var live := h.Live();
    size := if p == 0 then 0 else h.m[p - 12].size;
    if p != 0 { LiveSize(h.mem, h.m, h.base, p - 12); }
    q := h.Realloc(p, sz, grant);
    if q != 0 {
      ResizedAdded(live, h.Live(), p, q, b, sz);
      ResizedWithin(h.Live(), p, q, sp, sz, size);
    }
  }

  lemma ResizedAdded(live: Live, live': Live, p: nat, q: nat, b: Buf, sz: nat)
    requires Holds(live, p, b) && Small(sz) && 12 <= q && q - 12 in live' && sz <= |live'[q - 12]|
             && (q == p || q - 12 !in live)
    requires live' == (if p == 0 then live else live - {p - 12})[q - 12 := live'[q - 12]]
    requires p != 0 ==> Same(live[p - 12], live'[q - 12], sz)
    ensures Added(if p == 0 then live else live - {p - 12}, live', q, Resized(b, sz))
  {
    if p != 0 { ResizeAgrees(b, live[p - 12], live'[q - 12], sz); }
  }

  lemma ResizedWithin(live': Live, p: nat, q: nat, sp: Option<Span>, sz: nat, size: nat)
    requires 0 < sz && Small(sz) && 12 <= q && q - 12 in live' && (p == 0 <==> sp == None) && Lies(sp, size)
    requires Resizes(size, sz, |live'[q - 12]| + 12)
    ensures Within(live', q, Refitted(sp, sz, size))
  {
    U32Small(sz + 12);
    assert Up8(sz + 12) > 0;
  }

  lemma SlotCount(live: Live, slots: seq<nat>, bufs: seq<Buf>, spans: seq<Option<Span>>)
    requires Tracks(live, slots, bufs) && Metered(live, slots, spans)
    ensures |slots| == |bufs| == |spans|
  {}

  lemma SlotHolds(live: Live, slots: seq<nat>, bufs: seq<Buf>, spans: seq<Option<Span>>, s: nat)
    requires Tracks(live, slots, bufs) && Metered(live, slots, spans) && s < |slots|
    ensures Holds(live, slots[s], bufs[s]) && Within(live, slots[s], spans[s])
  {}

  lemma OthersOf(live: Live, slots: seq<nat>, s: nat, b: Buf)
    requires s < |slots| && Holds(live, slots[s], b)
    ensures slots[s] == 0 || 12 <= slots[s]
    ensures Others(live, slots, s) == if slots[s] == 0 then live else live - {slots[s] - 12}
  {}

  method ResizeSlot(h: Heap, slots: seq<nat>, lens: seq<nat>, ghost bufs: seq<Buf>, ghost spans: seq<Option<Span>>,
                    s: nat, sz: nat, grant: bool)
    returns (q: nat, ghost size: nat)
    requires Client(h, slots, lens, bufs, spans) && Small(sz) && s < |slots|
    modifies h
    ensures |spans| == |bufs| == |slots| && size == old(BlockSize(h, slots, Resize(s, sz, grant)))
            && Lies(spans[s], size)
    ensures NoLost(h.m) <==> NoLost(old(h.m)) && !Cuts(Resize(s, sz, grant), size)
    ensures q == 0 && sz > 0 ==> unchanged(h)
    ensures q != 0 || sz == 0 ==>
              Client(h, slots[s := q], lens[s := sz], bufs[s := Resized(bufs[s], sz)],
                spans[s := Refitted(spans[s], sz, size)])
  {
    hide Heap.Inv, Heap.Live, Apart, NoLost, Tracks, Metered, Owned, Added, Others, Within, Holds, Lies, Up8,
         Refitted, Resized;
    ghost var live := h.Live();
    SlotCount(live, slots, bufs, spans);
    SlotHolds(live, slots, bufs, spans, s);
    OthersOf(live, slots, s, bufs[s]);
    q, size := ResizeBlock(h, slots[s], bufs[s], spans[s], sz, grant);
    if q == 0 && sz > 0 { return; }
    Changes(h, live, slots, lens, bufs, spans, s, q, Resized(bufs[s], sz), Refitted(spans[s], sz, size));
  }

  method DoResize(h: Heap, slots: seq<nat>, lens: seq<nat>, ghost bufs: seq<Buf>, ghost spans: seq<Option<Span>>,
                  s: nat, sz: nat, grant: bool)
    returns (slots': seq<nat>, lens': seq<nat>, ok: bool, ghost size: nat)
    requires Client(h, slots, lens, bufs, spans) && Small(sz)
    modifies h
    ensures Met(Resize(s, sz, grant), spans, size)
    ensures Client(h, slots', lens', Step(bufs, Resize(s, sz, grant), ok), Span1(spans, Resize(s, sz, grant), ok, size))
    ensures NoLost(h.m) <==> NoLost(old(h.m)) && !Cuts(Resize(s, sz, grant), size)
  {
    slots', lens', ok, size := slots, lens, false, 0;
    if s >= |slots| { return; }
    var q: nat;
    q, size := ResizeSlot(h, slots, lens, bufs, spans, s, sz, grant);
    ok := q != 0;
    if ok || sz == 0 { slots', lens' := slots[s := q], lens[s := sz]; }
  }

  method DoRelease(h: Heap, slots: seq<nat>, lens: seq<nat>, ghost bufs: seq<Buf>, ghost spans: seq<Option<Span>>,
                   s: nat)
    returns (slots': seq<nat>, lens': seq<nat>)
    requires Client(h, slots, lens, bufs, spans)
    modifies h
    ensures Client(h, slots', lens', Step(bufs, Release(s), true), Span1(spans, Release(s), true, 0))
    ensures NoLost(h.m) <==> NoLost(old(h.m))
  {
    slots', lens' := slots, lens;
    if s >= |slots| { return; }
    ghost var live := h.Live();
    assert Holds(live, slots[s], bufs[s]);
    h.Free(slots[s]);
    Changes(h, live, slots, lens, bufs, spans, s, 0, [], None);
    slots', lens' := slots[s := 0], lens[s := 0];
  }

  /** A live block that stays in its place is one taken out and put back. */
  lemma Replaced(live: Live, live': Live, slots: seq<nat>, s: nat, b: Buf)
    requires s < |slots| && slots[s] >= 12 && slots[s] - 12 in live && slots[s] - 12 in live'
    requires live' == live[slots[s] - 12 := live'[slots[s] - 12]] && Agrees(b, live'[slots[s] - 12])
    ensures Added(Others(live, slots, s), live', slots[s], b)
  {
    assert live' == (live - {slots[s] - 12})[slots[s] - 12 := live'[slots[s] - 12]];
  }

  lemma WithinKept(live: Live, live': Live, p: nat, sp: Option<Span>)
    requires p >= 12 && p - 12 in live && p - 12 in live' && |live'[p - 12]| == |live[p - 12]| && Within(live, p, sp)
    ensures Within(live', p, sp)
  {}

  /** A store into a buffer of the client. */
  method PokeSlot(h: Heap, p: nat, ghost b: Buf, i: nat, v: byte)
    requires h.Inv() && p >= 12 && Holds(h.Live(), p, b) && i < |b|
    modifies h
    ensures h.Inv() && h.m == old(h.m) && p - 12 in h.Live() && h.Live() == old(h.Live())[p - 12 := h.Live()[p - 12]]
    ensures |h.Live()[p - 12]| == |old(h.Live())[p - 12]| && Agrees(b[i := Some(v)], h.Live()[p - 12])
  {
    LiveSize(h.mem, h.m, h.base, p - 12);
    h.Poke(p, i, v);
  }

  method DoPut(h: Heap, slots: seq<nat>, lens: seq<nat>, ghost bufs: seq<Buf>, ghost spans: seq<Option<Span>>,
               s: nat, i: nat, v: byte)
    requires Client(h, slots, lens, bufs, spans)
    modifies h
    ensures Client(h, slots, lens, Step(bufs, Put(s, i, v), true), spans) && h.m == old(h.m)
  {
    hide Apart, Within, Agrees, Added, Others, Tracks, Metered, Owned, Heap.Inv;
    SlotCount(h.Live(), slots, bufs, spans);
    if s >= |slots| || i >= lens[s] { return; }
    ghost var live, b := h.Live(), bufs[s][i := Some(v)];
    SlotHolds(live, slots, bufs, spans, s);
    PokeSlot(h, slots[s], bufs[s], i, v);
    Replaced(live, h.Live(), slots, s, b);
    WithinKept(live, h.Live(), slots[s], spans[s]);
    Changes(h, live, slots, lens, bufs, spans, s, slots[s], b, spans[s]);
    assert slots[s := slots[s]] == slots && lens[s := |b|] == lens && spans[s := spans[s]] == spans;
  }

  method Do(h: Heap, slots: seq<nat>, lens: seq<nat>, ghost bufs: seq<Buf>, ghost spans: seq<Option<Span>>, op: Op)
    returns (slots': seq<nat>, lens': seq<nat>, ok: bool, ghost size: nat)
    requires Client(h, slots, lens, bufs, spans) && Modest(op)
    modifies h
    ensures Met(op, spans, size) && Client(h, slots', lens', Step(bufs, op, ok), Span1(spans, op, ok, size))
    ensures NoLost(h.m) <==> NoLost(old(h.m)) && !Cuts(op, size)
  {
    slots', lens', ok, size := slots, lens, true, 0;
    match op
    case Alloc(sz, grant) => slots', lens', ok := DoAlloc(h, slots, lens, bufs, spans, sz, grant);
    case ZeroAlloc(n, sz, grant) => slots', lens', ok := DoZeroAlloc(h, slots, lens, bufs, spans, n, sz, grant);
    case Resize(s, sz, grant) => slots', lens', ok, size := DoResize(h, slots, lens, bufs, spans, s, sz, grant);
    case Release(s) => slots', lens' := DoRelease(h, slots, lens, bufs, spans, s);
    case Put(s, i, v) => DoPut(h, slots, lens, bufs, spans, s, i, v);
  }

  // ---- runs ----

  predicate AllModest(ops: seq<Op>) { forall i :: 0 <= i < |ops| ==> Modest(ops[i]) }

  /** The spans after a run whose resizes met blocks of the given sizes. */
  function Spans(ops: seq<Op>, oks: seq<bool>, sizes: seq<nat>): seq<Option<Span>>
    requires |ops| == |oks| == |sizes| && AllModest(ops)
  {
    if ops == [] then []
    else
      var n := |ops| - 1;
      Span1(Spans(ops[..n], oks[..n], sizes[..n]), ops[n], oks[n], sizes[n])
  }

  /** The size an operation meets lies in its slot's span; only a resize of a block meets one. */
  predicate Met(op: Op, spans: seq<Option<Span>>, size: nat) {
    if op.Resize? && op.slot < |spans| then Lies(spans[op.slot], size) else size == 0
  }

  /** Every size of the run lies where the operations before it put it. */
  predicate Measured(ops: seq<Op>, oks: seq<bool>, sizes: seq<nat>)
    requires |ops| == |oks| == |sizes| && AllModest(ops)
  {
    ops == []
    || (var n := |ops| - 1;
        Measured(ops[..n], oks[..n], sizes[..n]) && Met(ops[n], Spans(ops[..n], oks[..n], sizes[..n]), sizes[n]))
  }

  /** Some resize of the run cut off a tail; sizes are the blocks the resizes met. */
  predicate Cut(ops: seq<Op>, sizes: seq<nat>)
    requires |ops| == |sizes|
  {
    ops != [] && (Cut(ops[..|ops| - 1], sizes[..|ops| - 1]) || Cuts(ops[|ops| - 1], sizes[|ops| - 1]))
  }

  lemma Snoc(ops: seq<Op>, oks: seq<bool>, sizes: seq<nat>, ok: bool, size: nat, i: nat)
    requires i < |ops| && |oks| == |sizes| == i && AllModest(ops)
    ensures var ops', oks', sizes' := ops[..i + 1], oks + [ok], sizes + [size];
            && Steps(ops', oks') == Step(Steps(ops[..i], oks), ops[i], ok)
            && Spans(ops', oks', sizes') == Span1(Spans(ops[..i], oks, sizes), ops[i], ok, size)
            && (Measured(ops', oks', sizes')
                <==> Measured(ops[..i], oks, sizes) && Met(ops[i], Spans(ops[..i], oks, sizes), size))
            && (Cut(ops', sizes') <==> Cut(ops[..i], sizes) || Cuts(ops[i], size))
  {
    assert ops[..i + 1][..i] == ops[..i] && (oks + [ok])[..i] == oks && (sizes + [size])[..i] == sizes;
  }

  /**
    After every run, each slot holds exactly what its own operations put there.
    The free list holds exactly the blocks flagged free if and only if it did at
    the start and no resize cut off a tail; the sizes that decide this lie where
    the run's own requests put them.
   */
  method Run(h: Heap, ops: seq<Op>) returns (slots: seq<nat>, lens: seq<nat>, oks: seq<bool>, ghost sizes: seq<nat>)
    requires h.Inv() && Apart(h.m) && h.Live() == map[] && AllModest(ops)
    modifies h
    ensures |oks| == |ops| == |sizes| && Measured(ops, oks, sizes)
    ensures Client(h, slots, lens, Steps(ops, oks), Spans(ops, oks, sizes))
    ensures NoLost(h.m) <==> NoLost(old(h.m)) && !Cut(ops, sizes)
  {
    hide Measured, Cut, Spans, Steps, Heap.Inv, Apart, NoLost, Tracks, Metered, Owned, Step, Span1, Met, Cuts;
    slots, lens, oks, sizes := [], [], [], [];
    var i := 0;
    RunStart(h, ops);
    while i < |ops|
      invariant 0 <= i <= |ops| && |oks| == i == |sizes| && AllModest(ops[..i]) && Measured(ops[..i], oks, sizes)
      invariant Client(h, slots, lens, Steps(ops[..i], oks), Spans(ops[..i], oks, sizes))
      invariant NoLost(h.m) <==> NoLost(old(h.m)) && !Cut(ops[..i], sizes)
    {
      var ok: bool;
      ghost var size: nat;
      slots, lens, ok, size := Do(h, slots, lens, Steps(ops[..i], oks), Spans(ops[..i], oks, sizes), ops[i]);
      Snoc(ops, oks, sizes, ok, size, i);
      oks, sizes := oks + [ok], sizes + [size];
      i := i + 1;
    }
    assert ops[..|ops|] == ops;
  }

  lemma RunStart(h: Heap, ops: seq<Op>)
    requires h.Inv() && Apart(h.m) && h.Live() == map[]
    ensures AllModest(ops[..0]) && Measured(ops[..0], [], []) && !Cut(ops[..0], [])
    ensures Client(h, [], [], Steps(ops[..0], []), Spans(ops[..0], [], []))
  {}

  // ---- which resizes cut ----

  /** A block lies between what its request wants and less than a block's worth more. */
  predicate SpanOk(sp: Option<Span>) {
    sp.Some? ==>
      var x := sp.value;
      Small(x.req) && 16 <= x.lo && x.hi <= Want(x.req) + 20 && (Want(x.req) <= x.lo || Want(x.req) == 20)
  }

  predicate AllSpansOk(spans: seq<Option<Span>>) { forall s :: 0 <= s < |spans| ==> SpanOk(spans[s]) }

  lemma WantUp(sz: nat)
    requires Small(sz)
    ensures 16 <= Up8(sz + 12) || sz == 0
    ensures Want(sz) == if Up8(sz + 12) < 20 then 20 else Up8(sz + 12)
  {
    U32Small(sz + 12);
    U32Small(sz + 19);
  }

  lemma RefittedOk(sp: Option<Span>, sz: nat, size: nat)
    requires Small(sz) && SpanOk(sp) && Lies(sp, size)
    ensures SpanOk(Refitted(sp, sz, size))
  {
    WantUp(sz);
  }

  lemma Span1Ok(spans: seq<Option<Span>>, op: Op, ok: bool, size: nat)
    requires Modest(op) && AllSpansOk(spans) && Met(op, spans, size)
    ensures AllSpansOk(Span1(spans, op, ok, size))
  {
    hide Want, Up8;
    match op
    case Alloc(sz, _) => WantUp(sz);
    case ZeroAlloc(n, sz, _) => WantUp(n * sz);
    case Resize(s, sz, _) => if s < |spans| { RefittedOk(spans[s], sz, size); }
    case Release(_) =>
    case Put(_, _, _) =>
  }

  lemma {:induction false} SpansOk(ops: seq<Op>, oks: seq<bool>, sizes: seq<nat>)
    requires |ops| == |oks| == |sizes| && AllModest(ops) && Measured(ops, oks, sizes)
    ensures AllSpansOk(Spans(ops, oks, sizes))
    decreases |ops|
  {
    if ops != [] {
      var n := |ops| - 1;
      SpansOk(ops[..n], oks[..n], sizes[..n]);
      Span1Ok(Spans(ops[..n], oks[..n], sizes[..n]), ops[n], oks[n], sizes[n]);
    }
  }

  /** The resize asks a block for at least what its request wanted. */
  predicate Keeps(op: Op, sp: Option<Span>) {
    op.Resize? && op.sz > 0 && sp.Some? && SpanOk(sp) ==> Up8(op.sz + 12) >= Want(sp.value.req)
  }

  /** The resize asks a block for less than that by a block's worth. */
  predicate Shrinks(op: Op, sp: Option<Span>) {
    op.Resize? && op.sz > 0 && sp.Some? && SpanOk(sp) && Up8(op.sz + 12) + 20 <= Want(sp.value.req)
  }

  /** The first never cuts, the second always does. */
  lemma CutsByRequest(op: Op, sp: Option<Span>, size: nat)
    requires op.Resize? && Modest(op) && SpanOk(sp) && Lies(sp, size)
    ensures Keeps(op, sp) ==> !Cuts(op, size)
    ensures Shrinks(op, sp) ==> Cuts(op, size)
  {
    WantUp(op.sz);
  }

  function SlotSpan(op: Op, spans: seq<Option<Span>>): Option<Span> {
    if op.Resize? && op.slot < |spans| then spans[op.slot] else None
  }

  /** Every resize of the run keeps. */
  predicate AllKeep(ops: seq<Op>, oks: seq<bool>, sizes: seq<nat>)
    requires |ops| == |oks| == |sizes| && AllModest(ops)
  {
    ops == []
    || (var n := |ops| - 1;
        AllKeep(ops[..n], oks[..n], sizes[..n])
        && Keeps(ops[n], SlotSpan(ops[n], Spans(ops[..n], oks[..n], sizes[..n]))))
  }

  /** Some resize of the run shrinks. */
  predicate SomeShrinks(ops: seq<Op>, oks: seq<bool>, sizes: seq<nat>)
    requires |ops| == |oks| == |sizes| && AllModest(ops)
  {
    ops != []
    && (var n := |ops| - 1;
        SomeShrinks(ops[..n], oks[..n], sizes[..n])
        || Shrinks(ops[n], SlotSpan(ops[n], Spans(ops[..n], oks[..n], sizes[..n]))))
  }

  lemma MetCuts(op: Op, spans: seq<Option<Span>>, size: nat)
    requires Modest(op) && AllSpansOk(spans) && Met(op, spans, size)
    ensures Keeps(op, SlotSpan(op, spans)) ==> !Cuts(op, size)
    ensures Shrinks(op, SlotSpan(op, spans)) ==> Cuts(op, size)
  {
    if op.Resize? {
      CutsByRequest(op, SlotSpan(op, spans), size);
      WantUp(op.sz);
    }
  }

  /**
    So the free list stays whole over every run whose resizes ask each block for
    at least what its last request wanted, and is broken by every run in which
    one asks for less by a block's worth.
   */
  lemma {:induction false} CutIf(ops: seq<Op>, oks: seq<bool>, sizes: seq<nat>)
    requires |ops| == |oks| == |sizes| && AllModest(ops) && Measured(ops, oks, sizes)
    ensures AllKeep(ops, oks, sizes) ==> !Cut(ops, sizes)
    ensures SomeShrinks(ops, oks, sizes) ==> Cut(ops, sizes)
    decreases |ops|
  {
    if ops != [] {
      var n := |ops| - 1;
      CutIf(ops[..n], oks[..n], sizes[..n]);
      SpansOk(ops[..n], oks[..n], sizes[..n]);
      MetCuts(ops[n], Spans(ops[..n], oks[..n], sizes[..n]), sizes[n]);
    }
  }

  // ---- growing resizes ----

  /** A resize that does not shrink its buffer, with at least five bytes. */
  predicate Grows(op: Op, bufs: seq<Buf>) {
    op.Resize? && op.slot < |bufs| ==> op.sz == 0 || (op.sz >= 5 && op.sz >= |bufs[op.slot]|)
  }

  predicate AllGrow(ops: seq<Op>, oks: seq<bool>)
    requires |ops| == |oks|
  {
    ops == [] || (var n := |ops| - 1; AllGrow(ops[..n], oks[..n]) && Grows(ops[n], Steps(ops[..n], oks[..n])))
  }

  /** A block is not much larger than its buffer. */
  predicate Snug(sp: Option<Span>, len: nat) {
    sp.Some? ==> Small(len) && sp.value.hi <= Want(len) + 20
  }

  predicate AllSnug(spans: seq<Option<Span>>, bufs: seq<Buf>) {
    |spans| == |bufs| && forall s :: 0 <= s < |spans| ==> Snug(spans[s], |bufs[s]|)
  }

  lemma WantGrows(a: nat, b: nat)
    requires a <= b && b + 19 < 0x1_0000_0000
    ensures Want(a) <= Want(b) && (b >= 5 ==> Want(b) == Up8(b + 12))
  {
    U32Small(a + 12);
    U32Small(b + 12);
    U32Small(a + 19);
    U32Small(b + 19);
    assert (a + 19) / 8 <= (b + 19) / 8;
  }

  lemma RefittedSnug(sp: Option<Span>, len: nat, sz: nat, size: nat)
    requires Small(sz) && Snug(sp, len) && Lies(sp, size) && (sz == 0 || (sz >= 5 && sz >= len))
    ensures Snug(Refitted(sp, sz, size), sz) && (sz > 0 ==> size < Up8(sz + 12) + 20)
  {
    if sz > 0 { WantGrows(len, sz); }
  }

  lemma StepSnug(spans: seq<Option<Span>>, bufs: seq<Buf>, op: Op, ok: bool, size: nat)
    requires Modest(op) && AllSnug(spans, bufs) && Met(op, spans, size) && Grows(op, bufs)
    ensures AllSnug(Span1(spans, op, ok, size), Step(bufs, op, ok)) && !Cuts(op, size)
  {
    hide Want, Up8;
    if op.Resize? && op.slot < |spans| { RefittedSnug(spans[op.slot], |bufs[op.slot]|, op.sz, size); }
    assert !Cuts(op, size);
  }

  /** No run of resizes that grow to at least five bytes cuts anything off. */
  lemma {:induction false} GrowingRun(ops: seq<Op>, oks: seq<bool>, sizes: seq<nat>)
    requires |ops| == |oks| == |sizes| && AllModest(ops) && Measured(ops, oks, sizes) && AllGrow(ops, oks)
    ensures !Cut(ops, sizes) && AllSnug(Spans(ops, oks, sizes), Steps(ops, oks))
    decreases |ops|
  {
    if ops != [] {
      var n := |ops| - 1;
      GrowingRun(ops[..n], oks[..n], sizes[..n]);
      StepSnug(Spans(ops[..n], oks[..n], sizes[..n]), Steps(ops[..n], oks[..n]), ops[n], oks[n], sizes[n]);
    }
  }

  /** Below five bytes a resize cuts exactly blocks of 36 bytes and more, and malloc(1) may have taken one. */
  lemma TinyIff(s: nat, sz: nat, grant: bool, size: nat)
    requires 0 < sz < 5
    ensures Cuts(Resize(s, sz, grant), size) <==> size >= 36
    ensures Placed(1, 36)
  {
    U32Small(sz + 19);
    U32Small(13);
    U32Small(20);
  }

  lemma FreshHeap(m: Map)
    requires m == map[]
    ensures Apart(m) && NoLost(m)
  {}

  lemma SomeSizes()
    ensures Want(100) == 112 && Up4096(112) == 4096 && Up8(13) == 16
  {
    U32Small(112);
    U32Small(119);
    U32Small(4207);
    U32Small(20);
  }

  /** malloc(100) and realloc to one byte on a fresh heap: a block is free and on no list. */
  method LostTail(low: seq<byte>) returns (h: Heap, p: nat, q: nat)
    requires 0 < |low| < 0x7FFF_0000
    ensures fresh(h) && h.Inv() && p == q != 0 && !NoLost(h.m)
  {
    hide Heap.Inv, Apart, NoLost, Want, Up8, Up4096, Gained, Heap.Live, Resizes, Same;
    h := new Heap(low);
    FreshHeap(h.m);
    SomeSizes();
    SmallFits(h, 100);
    p := h.MallocLive(100, true);
    SmallFits(h, 1);
    IsBusy(map[], h.m, p - 12);
    q := h.Realloc(p, 1, true);
  }

  lemma IsBusy(m: Map, m': Map, b: nat)
    requires Gained(m, m', b)
    ensures b in m' && m'[b].kind == Busy
  {}
}
