/**
  malloc.c over its byte memory.  An address is an index into mem, whose end is
  the break; a block is a 12-byte header (size, free flag, list link) and its
  payload.  The ghost fields m, nx and ls are what the headers say.
 */
module Allocator {
  import opened Bits
  import opened Memory
  import opened Buffer
  import opened Blocks

  /** x & ~7 */
  function Down8(x: nat): (r: nat)
    ensures r % 8 == 0 && r % 4 == 0 && r <= x < r + 8
  {
    var q := x / 8;
    assert 8 * q == 4 * (2 * q);
    8 * q
  }

  /** x & ~4095 */
  function Down4096(x: nat): (r: nat)
    ensures r % 4096 == 0 && r % 4 == 0 && r <= x < r + 4096
  {
    var q := x / 4096;
    assert 4096 * q == 4 * (1024 * q);
    4096 * q
  }

  lemma U32Small(x: nat)
    ensures U32(x) < 0x1_0000_0000
    ensures x < 0x1_0000_0000 ==> U32(x) == x
    ensures 0x1_0000_0000 <= x < 0x2_0000_0000 ==> U32(x) == x - 0x1_0000_0000
  {}

  /** round_up to a multiple of 8, with the unsigned sum's wrap-around. */
  function Up8(v: nat): (r: nat)
    ensures r % 4 == 0 && r < 0x1_0000_0000
    ensures v + 7 < 0x1_0000_0000 ==> v <= r < v + 8
    ensures 0x1_0000_0000 <= v + 7 < 0x1_0000_0008 ==> r < 8
  {
    U32Small(v + 7);
    Down8(U32(v + 7))
  }

  /** round_up to a multiple of 4096. */
  function Up4096(v: nat): (r: nat)
    ensures r % 4 == 0 && r < 0x1_0000_0000
    ensures v + 4095 < 0x1_0000_0000 ==> v <= r < v + 4096
  {
    U32Small(v + 4095);
    Down4096(U32(v + 4095))
  }

  /** Rounding up does not pass 2^31. */
  lemma UpBound(v: nat)
    requires v <= 0x8000_0000
    ensures Up8(v) <= 0x8000_0000 && Up4096(v) <= 0x8000_0000
  {
    U32Small(v + 7);
    U32Small(v + 4095);
    assert (v + 7) / 8 <= 0x1000_0000 && (v + 4095) / 4096 <= 0x8_0000;
  }

  /** Both round to multiples; with the bounds above that leaves one value each. */
  lemma UpMultiples(v: nat)
    ensures Up8(v) % 8 == 0 && Up4096(v) % 4096 == 0
  {
    U32Small(v + 7);
    U32Small(v + 4095);
  }

  /** The block size malloc looks for. */
  function Want(sz: nat): nat
    requires sz < 0x1_0000_0000
  {
    var w := Up8(U32(sz + 12));
    if w < 20 then 20 else w
  }

  /** A block of the wanted size has room for the request exactly when the size computation does not wrap. */
  lemma WantIff(sz: nat)
    requires sz < 0x1_0000_0000
    ensures 20 <= Want(sz) < 0x1_0000_0000 && Want(sz) % 4 == 0
    ensures sz + 12 <= Want(sz) <==> sz + 19 < 0x1_0000_0000
  {
    U32Small(sz + 12);
  }

  /** The sizes malloc's block may have: what is wanted, and less than a block's worth more. */
  predicate Placed(sz: nat, size: nat) {
    sz < 0x1_0000_0000 && Want(sz) <= size < Want(sz) + 20
  }

  /** What realloc makes of a block's size: cut to the request, kept, or that of another block. */
  predicate Resizes(size: nat, sz: nat, size': nat) {
    var w := Up8(sz + 12);
    if size >= w + 20 then size' == w else if size >= w then size' == size else Placed(sz, size')
  }

  ghost predicate Zeroed(s: seq<byte>, n: nat) {
    n <= |s| && forall k :: 0 <= k < n ==> s[k] == 0
  }

  function SetByte(s: seq<byte>, i: nat, v: byte): seq<byte>
    requires i < |s|
  {
    s[i := v]
  }

  /** y begins with the first bytes of x, as many as x has and sz asks for. */
  ghost predicate Same(x: seq<byte>, y: seq<byte>, sz: nat) {
    var n := if |x| < sz then |x| else sz;
    n <= |y| && x[..n] == y[..n]
  }

  lemma ChangeTwice(live: map<nat, seq<byte>>, live1: map<nat, seq<byte>>, live2: map<nat, seq<byte>>, c: nat)
    requires c in live1 && live1 == live[c := live1[c]] && c in live2 && live2 == live1[c := live2[c]]
    ensures live2 == live[c := live2[c]]
  {}

  lemma DropMaps(live: map<nat, seq<byte>>, live1: map<nat, seq<byte>>, live2: map<nat, seq<byte>>, a: nat, c: nat)
    requires a != c && c in live1 && live1 == live[c := live1[c]] && live2 == live1 - {a}
    ensures c in live2 && live2[c] == live1[c] && live2 == live[c := live2[c]] - {a}
  {}

  /** Adding c, then changing c and dropping a. */
  lemma MoveMaps(live: map<nat, seq<byte>>, live1: map<nat, seq<byte>>, live2: map<nat, seq<byte>>, a: nat, c: nat)
    requires a in live && c !in live && c in live1 && live1 == live[c := live1[c]]
    requires c in live2 && live2 == live1[c := live2[c]] - {a}
    ensures a in live1 && live1[a] == live[a] && live2 == (live - {a})[c := live2[c]]
  {}

  /** A payload that holds a wrapped product holds the product exactly when nothing wrapped. */
  lemma RoomIff(x: nat, n: nat)
    requires U32(x) <= n < 0x8000_0000
    ensures x <= n <==> x < 0x1_0000_0000
  {
    U32Small(x);
  }

  /** 65536 times 65537 bytes are more than 32 bits hold: calloc asks for 65536. */
  lemma ProductWraps()
    ensures U32(0x1_0000 * 0x1_0001) == 0x1_0000 < 0x1_0000 * 0x1_0001
  {
    assert 0x1_0000 * 0x1_0001 == 0x1_0001_0000;
    U32Small(0x1_0001_0000);
  }

  lemma StillFree(m: Map, base: nat, end: nat, b: nat, want: nat)
    requires Tiled(m, base, end) && b in m && m[b].kind == Linked && 16 <= want <= m[b].size
    ensures m[b].size >= want + 20 ==> b in SplitOf(m, b, want) && SplitOf(m, b, want)[b].kind == Lost
  {
    assert Lt(b, b + want);
  }

  // ---- the break ----

  /** What the kernel's break call leaves and returns for a break at cur. */
  function Brk(cur: nat, req: nat, grant: bool): nat {
    if req <= cur then cur else if grant then req else cur
  }

  /** brk_set: the break as a positive long, or 0. */
  function BrkSet(cur: nat, req: nat, grant: bool): nat {
    if 0 < Brk(cur, req, grant) < 0x8000_0000 then Brk(cur, req, grant) else 0
  }

  /** The test of grow_heap. */
  predicate GrowPasses(end: nat, need: nat, grant: bool) {
    BrkSet(end, U32(end + need), grant) >= U32(end + need)
  }

  /** Growing for sz bytes from a break at end stays within 32 bits. */
  predicate FitsFrom(end: nat, sz: nat) {
    sz < 0x1_0000_0000 && Want(sz) + 4095 < 0x1_0000_0000 && end + Up4096(Want(sz)) < 0x1_0000_0000
  }

  /**
    The test means that the break has moved past the new block exactly when
    neither the rounding nor the new end wraps around.
   */
  lemma GrowIff(end: nat, bytes: nat, grant: bool)
    requires 0 < end < 0x8000_0000 && 0 < bytes < 0x1_0000_0000
    ensures var need := Up4096(bytes);
            && ((GrowPasses(end, need, grant) ==> end + bytes <= Brk(end, U32(end + need), grant))
                <==> bytes + 4095 < 0x1_0000_0000 && end + need < 0x1_0000_0000)
            && (bytes + 4095 < 0x1_0000_0000 && end + need < 0x1_0000_0000 ==>
                  (GrowPasses(end, need, grant) <==> grant && end + need < 0x8000_0000))
  {
    U32Small(bytes + 4095);
    U32Small(end + Up4096(bytes));
  }

  /**
    malloc needs FitsFrom for nothing but this: without it no block on the list
    is large enough, and the test lets through a block past the break.
   */
  lemma OutsideFits(m: Map, base: nat, end: nat, sz: nat, grant: bool)
    requires Tiled(m, base, end) && 0 < end < 0x8000_0000 && sz < 0x1_0000_0000
    ensures var need := Up4096(Want(sz));
            FitsFrom(end, sz) <==> (GrowPasses(end, need, grant) ==> end + Want(sz) <= Brk(end, U32(end + need), grant))
    ensures !FitsFrom(end, sz) ==> forall a :: !Fit(m, a, Want(sz))
  {
    WantIff(sz);
    GrowIff(end, Want(sz), grant);
    if Want(sz) <= 0x8000_0000 { UpBound(Want(sz)); }
  }

  /** A break at one gibibyte and a request for three: the new end wraps to 0, and the test passes. */
  lemma GrowWraps()
    ensures Want(0xBFFF_FFF4) == Up4096(0xC000_0000) == 0xC000_0000
    ensures GrowPasses(0x4000_0000, 0xC000_0000, false)
  {
    U32Small(0xC000_0000);
    U32Small(0xC000_0007);
    U32Small(0xC000_0FFF);
    U32Small(0x1_0000_0000);
  }

  /**
    A request for 0xFFFFF000 bytes is rounded up to no page at all, and the test passes
    with the break where it was.
   */
  lemma RoundWraps(end: nat, grant: bool)
    requires 0 < end < 0x8000_0000
    ensures Want(0xFFFF_F000) == 0xFFFF_F010 && Up4096(0xFFFF_F010) == 0
    ensures GrowPasses(end, 0, grant) && Brk(end, U32(end + 0), grant) == end
  {
    U32Small(0xFFFF_F00C);
    U32Small(0xFFFF_F013);
    U32Small(0x1_0000_100F);
    U32Small(end);
  }

  /** realloc leaves a block of this size in place only if it has room for sz bytes. */
  predicate KeptWithRoom(size: nat, sz: nat) { size >= Up8(U32(sz + 12)) ==> sz + 12 <= size }

  /**
    It does so for every block exactly when the size computation does not wrap;
    0xFFFFFFF4 bytes are taken for none.
   */
  lemma KeepIff(sz: nat)
    requires sz < 0x1_0000_0000
    ensures (forall size: nat :: 20 <= size < 0x8000_0000 ==> KeptWithRoom(size, sz)) <==> sz + 19 < 0x1_0000_0000
    ensures Up8(U32(0xFFFF_FFF4 + 12)) == 0
  {
    U32Small(sz + 12);
    U32Small(sz + 19);
    U32Small(0x1_0000_0000);
    U32Small(7);
    if sz + 19 >= 0x1_0000_0000 {
      var w := Up8(U32(sz + 12));
      assert w <= 16;
      assert !KeptWithRoom(20, sz);
    }
  }

  class Heap {
    var mem: seq<byte>
    var base: nat
    var head: nat
    ghost var m: Map
    ghost var nx: Nexts
    ghost var ls: seq<nat>

    /** The blocks tile the heap and memory holds their headers. */
    ghost predicate Core()
      reads this
    {
      0 < base && |mem| < 0x8000_0000 && Tiled(m, base, |mem|) && Image(mem, m, nx)
    }

    ghost predicate Inv()
      reads this
    {
      Core() && Listed(m, ls) && Chained(nx, ls) && head == HeadOf(ls)
    }

    /** The state after heap_init_if_needed: an empty heap at the break. */
    constructor (low: seq<byte>)
      requires 0 < |low| < 0x8000_0000
      ensures Inv() && m == map[] && ls == [] && mem == low && base == |low|
    {
      mem, base, head, m, nx, ls := low, |low|, 0, map[], map[], [];
    }

    // ---- header fields ----

    method Size(b: nat) returns (v: nat)
      requires Core() && b in m
      ensures v == m[b].size < |mem|
    {
      assert Probe(b);
      v := Word(mem, b);
    }

    method Next(b: nat) returns (v: nat)
      requires Core() && b in m
      ensures b in nx && v == nx[b] < 0x1_0000_0000
    {
      assert Probe(b);
      v := Word(mem, b + 8);
    }

    method IsFree(b: nat) returns (v: bool)
      requires Core() && b in m
      ensures v == (m[b].kind != Busy)
    {
      assert Probe(b);
      v := Word(mem, b + 4) != 0;
    }

    method SetNext(b: nat, v: nat)
      requires Core() && b in m && v < 0x1_0000_0000
      modifies this`mem, this`nx
      ensures Core() && |mem| == |old(mem)| && nx == old(nx)[b := v] && Kept(m, old(mem), mem)
    {
      Inside(m, base, |mem|, b);
      mem := Store(mem, b + 8, v);
      NextPut(old(mem), mem, m, nx, base, b, v);
      nx := nx[b := v];
    }

    method SetFlag(b: nat, v: nat, ghost k: Kind)
      requires Core() && b in m && v == Flag(k)
      modifies this`mem, this`m
      ensures Core() && |mem| == |old(mem)| && m == Relabel(old(m), b, k) && Kept(old(m), old(mem), mem)
    {
      Inside(m, base, |mem|, b);
      mem := Store(mem, b + 4, v);
      FlagPut(old(mem), mem, m, nx, base, b, k);
      m := Relabel(m, b, k);
    }

    // ---- stores that change the shape ----

    /** The stores of split_block, ghost kinds for the two halves. */
    method Carve(b: nat, want: nat, ghost k: Kind, ghost k': Kind)
      requires Core() && b in m && 16 <= want && want % 4 == 0 && want + 20 <= m[b].size
      requires Flag(k) == Flag(m[b].kind) && Flag(k') == 1
      modifies this`mem, this`m, this`nx
      ensures Core() && |mem| == |old(mem)| && b + want !in old(m) && m == Split(old(m), b, want, k, k')
      ensures b in old(nx) && nx == old(nx)[b + want := old(nx)[b]] && Kept(m, old(mem), mem)
    {
      var size := Size(b);
      var next := Next(b);
      assert b + m[b].size <= |mem|;
      var mem1 := Store(mem, b + want, size - want);
      var mem2 := Store(mem1, b + want + 4, 1);
      var mem3 := Store(mem2, b + want + 8, next);
      var mem4 := Store(mem3, b, want);
      CarvePut(mem, mem1, mem2, mem3, mem4, m, nx, base, b, want, k, k');
      mem, m, nx := mem4, Split(m, b, want, k, k'), nx[b + want := nx[b]];
    }

    /** The stores of a merge of a with the block b right after it. */
    method Absorb(a: nat, b: nat)
      requires Core() && a in m && b in m && After(m, a) == b
      modifies this`mem, this`m, this`nx
      ensures Core() && |mem| == |old(mem)| && m == Merge(old(m), a, b) && Kept(m, old(mem), mem)
      ensures b in old(nx) && nx == old(nx)[a := old(nx)[b]]
    {
      var size := Size(a);
      var size' := Size(b);
      var next := Next(b);
      Inside(m, base, |mem|, a);
      MergedFits(m, base, |mem|, a, b);
      var mem1 := Store(mem, a, size + size');
      var mem2 := Store(mem1, a + 8, next);
      AbsorbPut(mem, mem1, mem2, m, nx, base, a, b);
      mem, m, nx := mem2, Merge(m, a, b), nx[a := nx[b]];
    }

    /** The break moves up by need bytes, and a free block of that size stands there. */
    method Place(need: nat)
      requires Core() && 16 <= need && need % 4 == 0 && |mem| + need < 0x8000_0000
      modifies this`mem, this`m, this`nx
      ensures Core() && |old(mem)| !in old(m) && |mem| == |old(mem)| + need
      ensures m == Extend(old(m), |old(mem)|, need) && nx == old(nx)[|old(mem)| := 0] && Kept(old(m), old(mem), mem)
    {
      var mem0 := mem + Zeros(need);
      var mem1 := Store(mem0, |mem|, need);
      var mem2 := Store(mem1, |mem| + 4, 1);
      var mem3 := Store(mem2, |mem| + 8, 0);
      GrowPut(mem, mem0, mem1, mem2, mem3, m, nx, base, need);
      m, nx := Extend(m, |mem|, need), nx[|mem| := 0];
      mem := mem3;
    }

    // ---- the free list ----

    /** The list can be walked, though the blocks on it may be about to change. */
    ghost predicate Walkable()
      reads this
    {
      && Core() && Sorted(ls) && Chained(nx, ls) && head == HeadOf(ls)
      && forall k :: 0 <= k < |ls| ==> ls[k] in m && base <= ls[k]
    }

    /** The loop that unlink_free and split_block share: the entry that links to b, or 0. */
    method FindPrev(b: nat) returns (p: nat, ghost j: nat)
      requires Walkable() && b != 0
      ensures p != 0 ==> j + 1 < |ls| && p == ls[j] && ls[j + 1] == b
      ensures p == 0 ==> b !in ls || ls[0] == b
    {
      p, j := head, 0;
      while p != 0
        invariant j <= |ls| && p == (if j < |ls| then ls[j] else 0)
        invariant forall i :: 0 < i <= j && i < |ls| ==> ls[i] != b
        decreases |ls| - j
        modifies {}
      {
        assert j < |ls| && Link(nx, ls, j) && base <= ls[j];
        var n := Next(p);
        if n == b { return; }
        p, j := n, j + 1;
      }
    }

    /** The patch that unlink_free and split_block share: whatever links to b links to next instead. */
    method Repoint(b: nat, next: nat, ghost k: nat)
      requires Walkable() && b != 0 && next < 0x1_0000_0000
      requires b in ls ==> k < |ls| && ls[k] == b && forall j :: 0 <= j < |ls| && ls[j] == b ==> j == k
      modifies this`mem, this`nx, this`head
      ensures Core() && |mem| == |old(mem)| && Kept(m, old(mem), mem)
      ensures b !in ls ==> nx == old(nx) && head == old(head)
      ensures b in ls && k == 0 ==> nx == old(nx) && head == next
      ensures b in ls && k > 0 ==> nx == old(nx)[ls[k - 1] := next] && head == ls[0]
    {
      if head == b {
        head := next;
      } else {
        var p, j := FindPrev(b);
        if p != 0 { SetNext(p, next); }
      }
    }

    /** unlink_free: a block that is not on the list leaves everything as it was. */
    method UnlinkFree(b: nat) returns (ghost k: nat)
      requires Inv() && b in m && m[b].kind != Busy
      modifies this
      ensures Inv() && base == old(base) && |mem| == |old(mem)| && m == Relabel(old(m), b, Lost)
              && Kept(old(m), old(mem), mem)
      ensures old(m)[b].kind == Lost ==> ls == old(ls)
      ensures old(m)[b].kind == Linked ==> k < |old(ls)| && old(ls)[k] == b && ls == Drop(old(ls), k)
    {
      var next := Next(b);
      k := 0;
      if m[b].kind == Linked { k := OnList(m, ls, b); } else { OffList(m, ls, b); ForgetLost(m, b); }
      Repoint(b, next, k);
      ForgetLink(mem, m, nx, base, b);
      if m[b].kind == Linked {
        Unlinked(m, old(nx), nx, ls, k, head);
        ls := Drop(ls, k);
        m := Relabel(m, b, Lost);
      }
    }

    /** split_block: a linked block hands its place on the list to the tail; a busy one's tail is lost. */
    method SplitBlock(b: nat, want: nat)
      requires Inv() && b in m && m[b].kind != Lost && 16 <= want && want % 4 == 0
      modifies this
      ensures Inv() && base == old(base) && |mem| == |old(mem)| && Kept(m, old(mem), mem)
      ensures m == if old(m)[b].size < want + 20 then old(m) else SplitOf(old(m), b, want)
    {
      var size := Size(b);
      if size < want + 20 { return; }
      ghost var m0, nx0, k := m, nx, 0;
      if m[b].kind == Linked { k := OnList(m, ls, b); } else { OffList(m, ls, b); }
      Carve(b, want, if m0[b].kind == Linked then Lost else Busy, if m0[b].kind == Linked then Linked else Lost);
      ghost var mem1 := mem;
      var tail := b + want;
      ChainedElsewhere(nx0, ls, tail, nx0[b]);
      Repoint(b, tail, k);
      SplitAny(m0, base, |mem|, nx0, nx, ls, k, b, want, head);
      ls := SplitList(m0, ls, k, b, want);
      KeptTrans(m, old(mem), mem1, mem);
    }

    /** The walk of grow_heap to the last entry. */
    method LastLink() returns (p: nat)
      requires Walkable() && ls != []
      ensures p == ls[|ls| - 1]
    {
      p := head;
      ghost var j := 0;
      var n := Next(p);
      assert Link(nx, ls, 0);
      while n != 0
        invariant j < |ls| && p == ls[j] && n == NextIn(ls, j)
        decreases |ls| - j
        modifies {}
      {
        p, j := n, j + 1;
        n := Next(p);
        assert Link(nx, ls, j);
      }
    }

    /** The new block at b goes to the end of the list. */
    method Append(b: nat)
      requires Walkable() && b < 0x1_0000_0000
      modifies this`mem, this`nx, this`head
      ensures Core() && |mem| == |old(mem)| && Kept(m, old(mem), mem)
      ensures ls == [] ==> nx == old(nx) && head == b
      ensures ls != [] ==> nx == old(nx)[ls[|ls| - 1] := b] && head == ls[0]
    {
      if head == 0 {
        head := b;
      } else {
        var p := LastLink();
        SetNext(p, b);
      }
    }

    /** grow_heap; grant says whether the kernel moves the break, which must stay a positive long. */
    method GrowHeap(bytes: nat, grant: bool) returns (b: nat)
      requires Inv() && 16 <= bytes && bytes + 4095 < 0x1_0000_0000 && |mem| + Up4096(bytes) < 0x1_0000_0000
      modifies this
      ensures Inv() && base == old(base) && Kept(old(m), old(mem), mem)
      ensures b != 0 <==> grant && |old(mem)| + Up4096(bytes) < 0x8000_0000
      ensures b == 0 ==> unchanged(this)
      ensures b != 0 ==> b == |old(mem)| && b !in old(m) && m == Extend(old(m), b, Up4096(bytes))
    {
      var need := Up4096(bytes);
      GrowIff(|mem|, bytes, grant);
      var end := U32(|mem| + need);
      if BrkSet(|mem|, end, grant) < end { return 0; }
      b := |mem|;
      ghost var m0, nx0 := m, nx;
      OffEnd(m, base, |mem|, ls);
      Place(need);
      ghost var mem1 := mem;
      ChainedElsewhere(nx0, ls, b, 0);
      Append(b);
      GrowDone(m0, base, b, nx0, nx, ls, need, head);
      ls := Insert(ls, |ls|, b);
      KeptLess(m, m0, mem1, mem);
      KeptTrans(m0, old(mem), mem1, mem);
    }

    /** Splitting a linked block and taking what stays off the list. */
    method Detach(b: nat, want: nat)
      requires Inv() && b in m && m[b].kind == Linked && 16 <= want <= m[b].size && want % 4 == 0
      modifies this
      ensures var m1 := if old(m)[b].size < want + 20 then old(m) else SplitOf(old(m), b, want);
              b in m1 && m == Relabel(m1, b, Lost) && Kept(m1, old(mem), mem)
      ensures Inv() && base == old(base) && |mem| == |old(mem)|
    {
      ghost var m0, mem0 := m, mem;
      SplitBlock(b, want);
      ghost var m1, mem1 := m, mem;
      StillFree(m0, base, |mem|, b, want);
      var k := UnlinkFree(b);
      KeptTrans(m1, mem0, mem1, mem);
    }

    /** Handing out a linked block: split, unlink, mark busy. */
    method Take(b: nat, want: nat)
      requires Inv() && b in m && m[b].kind == Linked && 16 <= want <= m[b].size && want % 4 == 0
      modifies this
      ensures Inv() && base == old(base) && |mem| == |old(mem)| && m == Taken(old(m), b, want)
              && Kept(old(m), old(mem), mem)
    {
      ghost var m0, mem0 := m, mem;
      Detach(b, want);
      ghost var m2, mem2 := m, mem;
      SetFlag(b, 0, Busy);
      TakenDone(m0, m2, base, |mem|, b, want, mem0, mem2, mem);
    }

    /** Handing out a block that may touch only blocks before it. */
    method HandOut(b: nat, want: nat)
      requires Inv() && ApartBut(m, b) && b in m && m[b].kind == Linked && 16 <= want <= m[b].size && want % 4 == 0
      modifies this
      ensures Inv() && Apart(m) && base == old(base) && Kept(old(m), old(mem), mem) && (NoLost(old(m)) <==> NoLost(m))
      ensures Gained(old(m), m, b) && want <= m[b].size < want + 20
    {
      TakenApart(m, base, |mem|, b, want);
      TakenGained(m, base, |mem|, b, want);
      Take(b, want);
    }

    /** A fresh block at the break, handed out. */
    method GrowOut(want: nat, grant: bool) returns (b: nat)
      requires Inv() && Apart(m) && 16 <= want && want % 4 == 0
      requires want + 4095 < 0x1_0000_0000 && |mem| + Up4096(want) < 0x1_0000_0000
      modifies this
      ensures Inv() && Apart(m) && base == old(base) && Kept(old(m), old(mem), mem) && (NoLost(old(m)) <==> NoLost(m))
      ensures b != 0 <==> grant && |old(mem)| + Up4096(want) < 0x8000_0000
      ensures b == 0 ==> unchanged(this)
      ensures b != 0 ==> Gained(old(m), m, b) && want <= m[b].size < want + 20
    {
      ghost var m0, mem0 := m, mem;
      b := GrowHeap(want, grant);
      if b == 0 { return; }
      ghost var m1, mem1 := m, mem;
      ExtendApart(m0, base, b, Up4096(want));
      HandOut(b, want);
      ExtendGained(m0, b, Up4096(want), m);
      KeptLess(m1, m0, mem1, mem);
      KeptTrans(m0, mem0, mem1, mem);
    }

    // ---- the public operations ----

    /** The payload of every live block. */
    ghost function Live(): map<nat, seq<byte>>
      reads this
    {
      LiveOf(mem, m)
    }

    /** Growing the heap for sz bytes stays within 32 bits. */
    ghost predicate Fits(sz: nat)
      reads this
    {
      FitsFrom(|mem|, sz)
    }

    /** The first linked block of at least want bytes, or 0. */
    method FirstFit(want: nat) returns (b: nat)
      requires Inv()
      ensures b != 0 ==> Fit(m, b, want)
      ensures forall a :: Fit(m, a, want) ==> b != 0 && b <= a
    {
      b := head;
      ghost var j := 0;
      while b != 0
        invariant j <= |ls| && b == (if j < |ls| then ls[j] else 0)
        invariant forall i :: 0 <= i < j ==> m[ls[i]].size < want
        decreases |ls| - j
      {
        assert j < |ls| && Link(nx, ls, j);
        var size := Size(b);
        if size >= want { break; }
        b := Next(b);
        j := j + 1;
      }
      forall a | Fit(m, a, want) ensures b != 0 && b <= a {
        var i := OnList(m, ls, a);
        if j < i { assert Lt(ls[j], ls[i]); }
      }
    }

    /** malloc: 0, or a block that was not live, the first that fits, every live payload as it was. */
    method Malloc(sz: nat, grant: bool) returns (p: nat)
      requires Inv() && Apart(m) && Fits(sz)
      modifies this
      ensures Inv() && Apart(m) && base == old(base) && (NoLost(old(m)) <==> NoLost(m))
      ensures p == 0 ==> unchanged(this)
      ensures p == 0 <==> sz == 0 || ((forall a :: !Fit(old(m), a, Want(sz)))
                                      && !(grant && |old(mem)| + Up4096(Want(sz)) < 0x8000_0000))
      ensures p != 0 ==> sz > 0 && 12 <= p && Gained(old(m), m, p - 12) && Want(sz) <= m[p - 12].size < Want(sz) + 20
      ensures p != 0 ==> Kept(old(m), old(mem), mem) && p - 12 !in old(Live()) && p - 12 in Live()
      ensures p != 0 ==> Live() == old(Live())[p - 12 := Live()[p - 12]]
      ensures forall a :: sz > 0 && Fit(old(m), a, Want(sz)) ==> p != 0 && p - 12 <= a
    {
      if sz == 0 { return 0; }
      WantIff(sz);
      ghost var m0, mem0 := m, mem;
      var b := FirstFit(Want(sz));
      if b != 0 {
        ApartWithout(m, b);
        HandOut(b, Want(sz));
      } else {
        b := GrowOut(Want(sz), grant);
        if b == 0 { return 0; }
      }
      LiveGained(m0, m, base, mem0, mem, b);
      return b + 12;
    }

    /** The walk of free_insert_coalesce: b belongs right after p, whose link is n. */
    method FindPlace(b: nat) returns (p: nat, n: nat, ghost k: nat)
      requires Walkable() && ls != [] && head < b
      ensures k < |ls| && p == ls[k] && n == NextIn(ls, k) && p < b && (n == 0 || b <= n)
    {
      p, k := head, 0;
      n := Next(p);
      assert Link(nx, ls, 0);
      while n != 0 && n < b
        invariant k < |ls| && p == ls[k] && n == NextIn(ls, k) && p < b
        decreases |ls| - k
        modifies {}
      {
        p, k := n, k + 1;
        n := Next(p);
        assert Link(nx, ls, k);
      }
    }

    /** b's link and its predecessor's, or the head. */
    method LinkIn(b: nat) returns (ghost k: nat)
      requires Walkable() && b in m && b !in ls && b < 0x1_0000_0000
      modifies this`mem, this`nx, this`head
      ensures Core() && |mem| == |old(mem)| && Kept(m, old(mem), mem)
      ensures k <= |ls| && (k > 0 ==> ls[k - 1] < b) && (k < |ls| ==> b < ls[k])
      ensures var nx1 := old(nx)[b := if k < |ls| then ls[k] else 0];
              (k == 0 ==> nx == nx1 && head == b) && (k > 0 ==> nx == nx1[ls[k - 1] := b] && head == ls[0])
    {
      k := 0;
      if head == 0 || b < head {
        SetNext(b, head);
        head := b;
      } else {
        var p, n, j := FindPlace(b);
        SetNext(b, n);
        ghost var mem1 := mem;
        SetNext(p, b);
        KeptTrans(m, old(mem), mem1, mem);
        k := j + 1;
      }
    }

    /** The first half of free_insert_coalesce: b goes on the list in address order. */
    method InsertFree(b: nat) returns (ghost k: nat)
      requires Inv() && b in m && m[b].kind == Busy
      modifies this
      ensures Inv() && base == old(base) && |mem| == |old(mem)| && m == Relabel(old(m), b, Linked)
      ensures Kept(m, old(mem), mem) && k < |ls| && ls[k] == b
    {
      ghost var m0, nx0 := m, nx;
      OffList(m, ls, b);
      SetFlag(b, 1, Linked);
      ghost var mem1 := mem;
      k := LinkIn(b);
      InsertDone(m0, nx0, nx, ls, k, b, head);
      ls := Insert(ls, k, b);
      KeptLess(m0, m, old(mem), mem1);
      KeptTrans(m, old(mem), mem1, mem);
    }

    /** A linked block absorbs the next one on the list if it stands right behind. */
    method MergeNext(a: nat, ghost k: nat)
      requires Inv() && k < |ls| && ls[k] == a
      modifies this
      ensures Inv() && base == old(base) && |mem| == |old(mem)| && Kept(m, old(mem), mem)
      ensures m == Forward(old(m), old(ls), k)
      ensures k < |ls| && ls[k] == a && ls[..k + 1] == old(ls)[..k + 1]
    {
      assert Link(nx, ls, k);
      var n := Next(a);
      if n != 0 {
        var size := Size(a);
        if a + size == n {
          assert Link(nx, ls, k + 1);
          MergeDone(m, nx, ls, k);
          Absorb(a, n);
          ls := Drop(ls, k + 1);
        }
      }
    }

    /** The second half of free_insert_coalesce: b merges with the block behind it, then with the one before. */
    method Coalesce(b: nat, ghost k: nat)
      requires Inv() && k < |ls| && ls[k] == b && ApartOff(m, b)
      modifies this
      ensures Inv() && Apart(m) && base == old(base) && |mem| == |old(mem)|
      ensures SameOthers(old(m), m) && Kept(m, old(mem), mem)
    {
      ForwardApart(m, base, |mem|, ls, k);
      ForwardOthers(m, ls, k);
      MergeNext(b, k);
      ghost var m1, mem1 := m, mem;
      Unique(ls, k);
      if head != b {
        var p, j := FindPrev(b);
        assert p != 0 && j + 1 == k;
        BackwardApart(m, base, |mem|, ls, j);
        ForwardOthers(m, ls, j);
        MergeNext(p, j);
        KeptLess(m1, m, old(mem), mem1);
        KeptTrans(m, old(mem), mem1, mem);
      } else {
        HeadApart(m, ls);
      }
    }

    method FreeInsertCoalesce(b: nat)
      requires Inv() && Apart(m) && b in m && m[b].kind == Busy
      modifies this
      ensures Inv() && Apart(m) && base == old(base) && |mem| == |old(mem)| && (NoLost(old(m)) <==> NoLost(m))
      ensures Released(old(m), m, b) && Kept(m, old(mem), mem)
    {
      FreedApart(m, b);
      var k := InsertFree(b);
      ghost var m1, mem1 := m, mem;
      Coalesce(b, k);
      FreedReleased(old(m), m, b);
      KeptLess(m1, m, old(mem), mem1);
      KeptTrans(m, old(mem), mem1, mem);
    }

    /** free: a live block is live no longer; a block already free is left alone. */
    method Free(p: nat)
      requires Inv() && Apart(m) && (p == 0 || (12 <= p && p - 12 in m))
      modifies this
      ensures Inv() && Apart(m) && base == old(base) && |mem| == |old(mem)| && (NoLost(old(m)) <==> NoLost(m))
      ensures p == 0 || old(m)[p - 12].kind != Busy ==> unchanged(this)
      ensures p != 0 && old(m)[p - 12].kind == Busy ==> Live() == old(Live()) - {p - 12} && Released(old(m), m, p - 12)
      ensures Kept(m, old(mem), mem)
    {
      if p == 0 { return; }
      var b := p - 12;
      var free := IsFree(b);
      if free { return; }
      FreeInsertCoalesce(b);
      LiveReleased(old(m), m, base, old(mem), mem, b);
    }

    /** The copy loop of realloc: the first n payload bytes of block a go to block c. */
    method CopyBytes(a: nat, c: nat, n: nat)
      requires Inv() && a in m && c in m && a != c && 12 + n <= m[a].size && 12 + n <= m[c].size
      modifies this`mem
      ensures Inv() && |mem| == |old(mem)|
      ensures forall k {:trigger mem[k]} :: 0 <= k < |mem| && !(c + 12 <= k < c + 12 + n) ==> mem[k] == old(mem)[k]
      ensures a + 12 + n <= |mem| && c + 12 + n <= |mem| && mem[c + 12..c + 12 + n] == old(mem)[a + 12..a + 12 + n]
    {
      assert a + m[a].size <= |mem| && c + m[c].size <= |mem|;
      assert Lt(a, c) || Lt(c, a);
      var i := 0;
      while i < n
        invariant 0 <= i <= n && |mem| == |old(mem)|
        invariant forall k :: 0 <= k < |mem| && !(c + 12 <= k < c + 12 + i) ==> mem[k] == old(mem)[k]
        invariant mem[c + 12..c + 12 + i] == old(mem)[a + 12..a + 12 + i]
      {
        ghost var done := mem[c + 12..c + 12 + i];
        mem := mem[c + 12 + i := mem[a + 12 + i]];
        i := i + 1;
        assert mem[c + 12..c + 12 + i] == done + [old(mem)[a + 12 + i - 1]];
      }
      PayloadWrite(old(mem), mem, m, nx, base, c, n);
    }

    method CopyPayload(a: nat, c: nat, n: nat)
      requires Inv() && a in m && c in m && a != c && m[a].kind == Busy && m[c].kind == Busy
      requires 12 + n <= m[a].size && 12 + n <= m[c].size
      modifies this`mem
      ensures Inv() && |mem| == |old(mem)| && a in old(Live()) && c in Live() && Live() == old(Live())[c := Live()[c]]
      ensures n <= |Live()[c]| == m[c].size - 12 && n <= |old(Live())[a]| && Live()[c][..n] == old(Live())[a][..n]
      ensures c in old(Live()) && |old(Live())[c]| == |Live()[c]|
    {
      CopyBytes(a, c, n);
      LiveWrite(old(mem), mem, m, base, c);
      LiveSize(mem, m, base, c);
      LiveSize(old(mem), m, base, a);
      LiveSize(old(mem), m, base, c);
      assert Live()[c][..n] == mem[c + 12..c + 12 + n];
      assert old(Live())[a][..n] == old(mem)[a + 12..a + 12 + n];
    }

    /** realloc's in-place path: b already has room, and a long enough tail is cut off. */
    method Shrink(b: nat, want: nat)
      requires Inv() && Apart(m) && b in m && m[b].kind == Busy && 16 <= want <= m[b].size && want % 4 == 0
      modifies this
      ensures Inv() && Apart(m) && base == old(base) && (NoLost(m) <==> NoLost(old(m)) && old(m)[b].size < want + 20)
      ensures b in old(Live()) && b in Live() && want - 12 <= |Live()[b]| && Live()[b] <= old(Live())[b]
      ensures |Live()[b]| + 12 == if old(m)[b].size >= want + 20 then want else old(m)[b].size
      ensures Live() == old(Live())[b := Live()[b]]
    {
      LiveSize(mem, m, base, b);
      var size := Size(b);
      if size >= want + 20 {
        assert Lt(b, b + want);
        ShrinkApart(m, b, want);
        ShrinkLoses(m, b, want);
        SplitBlock(b, want);
        LiveShrunk(old(mem), mem, old(m), base, b, want);
      }
    }

    /** malloc as the other operations see it. */
    method MallocLive(sz: nat, grant: bool) returns (q: nat)
      requires Inv() && Apart(m) && sz + 19 < 0x1_0000_0000 && Fits(sz)
      modifies this
      ensures Inv() && Apart(m) && base == old(base) && (NoLost(old(m)) <==> NoLost(m))
      ensures q == 0 ==> unchanged(this)
      ensures q != 0 ==> 12 <= q && Gained(old(m), m, q - 12) && sz + 12 <= m[q - 12].size && Placed(sz, m[q - 12].size)
      ensures q != 0 ==> q - 12 !in old(Live()) && q - 12 in Live() && Live() == old(Live())[q - 12 := Live()[q - 12]]
      ensures q != 0 ==> sz > 0 && sz <= |Live()[q - 12]| && Placed(sz, |Live()[q - 12]| + 12)
      ensures sz > 0 && grant && |old(mem)| + Up4096(Want(sz)) < 0x8000_0000 ==> q != 0
    {
      WantIff(sz);
      q := Malloc(sz, grant);
      if q != 0 { LiveSize(mem, m, base, q - 12); }
    }

    /** free as the other operations see it. */
    method FreeLive(a: nat)
      requires Inv() && Apart(m) && a in m && m[a].kind == Busy
      modifies this
      ensures Inv() && Apart(m) && base == old(base) && (NoLost(old(m)) <==> NoLost(m)) && Live() == old(Live()) - {a}
    {
      Free(a + 12);
    }

    /** As much of block a's payload as there is and sz asks for goes to block c. */
    method CopyFront(a: nat, c: nat, sz: nat)
      requires Inv() && a in m && m[a].kind == Busy && c in m && m[c].kind == Busy && a != c && sz + 12 <= m[c].size
      modifies this`mem
      ensures Inv() && a in old(Live()) && c in old(Live()) && c in Live() && Live() == old(Live())[c := Live()[c]]
      ensures sz <= |Live()[c]| == |old(Live())[c]| && Same(old(Live())[a], Live()[c], sz)
    {
      LiveSize(mem, m, base, a);
      var size := Size(a);
      var copy := size - 12;
      if copy > sz { copy := sz; }
      CopyPayload(a, c, copy);
    }

    /** Block a's payload moves to block c, and a is freed. */
    method Transfer(a: nat, c: nat, sz: nat)
      requires Inv() && Apart(m) && a in m && m[a].kind == Busy && c in m && m[c].kind == Busy && a != c
               && sz + 12 <= m[c].size
      modifies this
      ensures Inv() && Apart(m) && base == old(base) && (NoLost(old(m)) <==> NoLost(m))
      ensures a in old(Live()) && c in old(Live()) && c in Live() && sz <= |Live()[c]| == |old(Live())[c]|
      ensures Same(old(Live())[a], Live()[c], sz)
      ensures Live() == old(Live())[c := Live()[c]] - {a}
    {
      ghost var live := Live();
      CopyFront(a, c, sz);
      ghost var live1 := Live();
      FreeLive(a);
      DropMaps(live, live1, Live(), a, c);
    }

    /** realloc's copying path. */
    method Move(a: nat, sz: nat, grant: bool) returns (q: nat)
      requires Inv() && Apart(m) && a in m && m[a].kind == Busy && sz + 19 < 0x1_0000_0000 && Fits(sz)
      modifies this
      ensures Inv() && Apart(m) && base == old(base) && (NoLost(old(m)) <==> NoLost(m))
      ensures q == 0 ==> unchanged(this)
      ensures q != 0 ==> 12 <= q && q - 12 !in old(Live()) && q - 12 in Live() && a in old(Live())
      ensures q != 0 ==> sz <= |Live()[q - 12]| && Placed(sz, |Live()[q - 12]| + 12)
      ensures q != 0 ==> Live() == (old(Live()) - {a})[q - 12 := Live()[q - 12]]
      ensures q != 0 ==> Same(old(Live())[a], Live()[q - 12], sz)
    {
      ghost var live := Live();
      LiveSize(mem, m, base, a);
      q := MallocLive(sz, grant);
      if q == 0 { return; }
      ghost var live1 := Live();
      assert a in old(m) && m[a] == old(m)[a];
      Transfer(a, q - 12, sz);
      MoveMaps(live, live1, Live(), a, q - 12);
    }

    /** realloc on a live block and a nonzero size. */
    method Refit(b: nat, sz: nat, grant: bool) returns (q: nat)
      requires Inv() && Apart(m) && 0 < sz && sz + 19 < 0x1_0000_0000 && Fits(sz) && b in m && m[b].kind == Busy
      modifies this
      ensures Inv() && Apart(m) && base == old(base)
      ensures NoLost(m) <==> NoLost(old(m)) && old(m)[b].size < Up8(sz + 12) + 20
      ensures q == 0 ==> unchanged(this)
      ensures q != 0 ==> 12 <= q && q - 12 in Live() && sz <= |Live()[q - 12]|
      ensures q != 0 ==> (q == b + 12 || q - 12 !in old(Live()))
      ensures q != 0 ==> b in old(Live()) && Live() == (old(Live()) - {b})[q - 12 := Live()[q - 12]]
      ensures q != 0 ==> Same(old(Live())[b], Live()[q - 12], sz)
      ensures old(m)[b].size >= Up8(sz + 12) ==> q == b + 12
      ensures q != 0 ==> Resizes(old(m)[b].size, sz, |Live()[q - 12]| + 12)
    {
      hide Apart, NoLost, Payload, Up8;
      LiveSize(mem, m, base, b);
      var want := Up8(sz + 12);
      var size := Size(b);
      if size >= want {
        Shrink(b, want);
        return b + 12;
      }
      q := Move(b, sz, grant);
    }

    /** realloc: the first bytes of the payload stay, wherever the block ends up, and no other payload changes. */
    method Realloc(p: nat, sz: nat, grant: bool) returns (q: nat)
      requires Inv() && Apart(m) && sz + 19 < 0x1_0000_0000 && Fits(sz)
      requires p == 0 || (12 <= p && p - 12 in m && m[p - 12].kind == Busy)
      modifies this
      ensures Inv() && Apart(m) && base == old(base)
      ensures NoLost(m) <==> NoLost(old(m)) && (p == 0 || sz == 0 || old(m)[p - 12].size < Up8(sz + 12) + 20)
      ensures p != 0 && sz == 0 ==> q == 0 && Live() == old(Live()) - {p - 12}
      ensures q == 0 && (p == 0 || sz > 0) ==> unchanged(this)
      ensures q != 0 ==> sz > 0 && 12 <= q && q - 12 in Live() && sz <= |Live()[q - 12]|
      ensures q != 0 ==> (q == p || q - 12 !in old(Live()))
      ensures q != 0 && p == 0 ==> Live() == old(Live())[q - 12 := Live()[q - 12]]
      ensures q != 0 && p != 0 ==> p - 12 in old(Live()) && Live() == (old(Live()) - {p - 12})[q - 12 := Live()[q - 12]]
      ensures q != 0 && p != 0 ==> Same(old(Live())[p - 12], Live()[q - 12], sz)
      ensures p != 0 && sz > 0 && old(m)[p - 12].size >= Up8(sz + 12) ==> q == p
      ensures q != 0 ==> Resizes(if p == 0 then 0 else old(m)[p - 12].size, sz, |Live()[q - 12]| + 12)
    {
      if p == 0 {
        q := MallocLive(sz, grant);
      } else if sz == 0 {
        FreeLive(p - 12);
        q := 0;
      } else {
        q := Refit(p - 12, sz, grant);
      }
    }

    // ---- client stores ----

    /** The zeroing loop of calloc. */
    method ZeroBytes(c: nat, n: nat)
      requires Inv() && c in m && m[c].kind == Busy && 12 + n <= m[c].size
      modifies this`mem
      ensures Inv() && |mem| == |old(mem)| && c in Live() && Live() == old(Live())[c := Live()[c]]
      ensures Zeroed(Live()[c], n) && c in old(Live()) && |Live()[c]| == |old(Live())[c]| == m[c].size - 12
    {
      assert c + m[c].size <= |mem|;
      var i := 0;
      while i < n
        invariant 0 <= i <= n && |mem| == |old(mem)|
        invariant forall k :: 0 <= k < |mem| && !(c + 12 <= k < c + 12 + i) ==> mem[k] == old(mem)[k]
        invariant forall k :: c + 12 <= k < c + 12 + i ==> mem[k] == 0
      {
        mem := mem[c + 12 + i := 0];
        i := i + 1;
      }
      PayloadWrite(old(mem), mem, m, nx, base, c, n);
      LiveWrite(old(mem), mem, m, base, c);
      LiveSize(mem, m, base, c);
      LiveSize(old(mem), m, base, c);
    }

    method MallocFresh(sz: nat, grant: bool) returns (q: nat)
      requires Inv() && Apart(m) && sz + 19 < 0x1_0000_0000 && Fits(sz)
      modifies this
      ensures Inv() && Apart(m) && base == old(base) && (NoLost(old(m)) <==> NoLost(m))
      ensures q == 0 ==> unchanged(this)
      ensures q != 0 ==> 12 <= q && q - 12 in m && m[q - 12].kind == Busy && sz + 12 <= m[q - 12].size
      ensures q != 0 ==> Placed(sz, m[q - 12].size)
      ensures q != 0 ==> q - 12 !in old(Live()) && q - 12 in Live() && Live() == old(Live())[q - 12 := Live()[q - 12]]
    {
      q := MallocLive(sz, grant);
    }

    /** malloc and zero. */
    method ZeroMalloc(total: nat, grant: bool) returns (p: nat)
      requires Inv() && Apart(m) && total + 19 < 0x1_0000_0000 && Fits(total)
      modifies this
      ensures Inv() && Apart(m) && base == old(base) && (NoLost(old(m)) <==> NoLost(m))
      ensures p == 0 ==> unchanged(this)
      ensures p != 0 ==> 12 <= p && p - 12 !in old(Live()) && p - 12 in Live()
      ensures p != 0 ==> Live() == old(Live())[p - 12 := Live()[p - 12]]
      ensures p != 0 ==> Zeroed(Live()[p - 12], total) && Placed(total, |Live()[p - 12]| + 12)
      ensures p != 0 ==> |Live()[p - 12]| < 0x8000_0000
    {
      ghost var live := Live();
      p := MallocFresh(total, grant);
      if p == 0 { return; }
      ghost var live1 := Live();
      ZeroBytes(p - 12, total);
      ChangeTwice(live, live1, Live(), p - 12);
      LiveSize(mem, m, base, p - 12);
    }

    /** calloc for a product of elements and size: only its low 32 bits are asked for. */
    method ProductMalloc(product: nat, grant: bool) returns (p: nat)
      requires Inv() && Apart(m) && U32(product) + 19 < 0x1_0000_0000 && Fits(U32(product))
      modifies this
      ensures Inv() && Apart(m) && base == old(base) && (NoLost(old(m)) <==> NoLost(m))
      ensures p == 0 ==> unchanged(this)
      ensures p != 0 ==> 12 <= p && p - 12 !in old(Live()) && p - 12 in Live()
      ensures p != 0 ==> Live() == old(Live())[p - 12 := Live()[p - 12]]
      ensures p != 0 ==> Zeroed(Live()[p - 12], U32(product)) && Placed(U32(product), |Live()[p - 12]| + 12)
      ensures p != 0 ==> (product <= |Live()[p - 12]| <==> product < 0x1_0000_0000)
    {
      p := ZeroMalloc(U32(product), grant);
      if p != 0 { RoomIff(product, |Live()[p - 12]|); }
    }

    /** calloc: the product is an unsigned long of 32 bits, so the test for a larger one never succeeds. */
    method Calloc(n: nat, sz: nat, grant: bool) returns (p: nat)
      requires Inv() && Apart(m) && U32(n * sz) + 19 < 0x1_0000_0000 && Fits(U32(n * sz))
      modifies this
      ensures Inv() && Apart(m) && base == old(base) && (NoLost(old(m)) <==> NoLost(m))
      ensures p == 0 ==> unchanged(this)
      ensures p != 0 ==> 12 <= p && p - 12 !in old(Live()) && p - 12 in Live()
      ensures p != 0 ==> Live() == old(Live())[p - 12 := Live()[p - 12]]
      ensures p != 0 ==> Zeroed(Live()[p - 12], U32(n * sz)) && Placed(U32(n * sz), |Live()[p - 12]| + 12)
      ensures p != 0 ==> (n * sz <= |Live()[p - 12]| <==> n * sz < 0x1_0000_0000)
    {
      p := ProductMalloc(n * sz, grant);
    }

    /** A client's store into a live payload. */
    method Poke(p: nat, i: nat, v: byte)
      requires Inv() && 12 <= p && p - 12 in m && m[p - 12].kind == Busy && 12 + i < m[p - 12].size
      modifies this`mem
      ensures Inv() && |mem| == |old(mem)| && p - 12 in old(Live()) && i < |old(Live())[p - 12]|
      ensures Live() == old(Live())[p - 12 := SetByte(old(Live())[p - 12], i, v)]
    {
      var c := p - 12;
      assert c + m[c].size <= |mem|;
      mem := mem[p + i := v];
      PayloadWrite(old(mem), mem, m, nx, base, c, i + 1);
      LiveWrite(old(mem), mem, m, base, c);
      LiveSize(mem, m, base, c);
      LiveSize(old(mem), m, base, c);
    }
  }
}
