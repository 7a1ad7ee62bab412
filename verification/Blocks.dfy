/**
  The heap of malloc.c as a map from block addresses to sizes and kinds, its
  free list as a sequence, and how both lie in memory.
 */
module Blocks {
  import opened Bits
  import opened Memory

  /** Lost: flagged free, but on no list (the tail a shrinking realloc cuts off). */
  datatype Kind = Busy | Linked | Lost

  datatype Blk = Blk(size: nat, kind: Kind)

  /** Blocks by address. */
  type Map = map<nat, Blk>

  /** What each block's third word holds, list link or not. */
  type Nexts = map<nat, nat>

  function Flag(k: Kind): nat { if k == Busy then 0 else 1 }

  predicate Lt(a: nat, b: nat) { a < b }

  function After(m: Map, a: nat): nat
    requires a in m
  {
    a + m[a].size
  }

  ghost predicate Bounded(m: Map, base: nat, end: nat) {
    forall a {:trigger m[a]} :: a in m ==> base <= a && 16 <= m[a].size && m[a].size % 4 == 0 && a + m[a].size <= end
  }

  /** After a block comes a block or the end. */
  ghost predicate Closed(m: Map, end: nat) {
    forall a {:trigger After(m, a)} :: a in m ==> After(m, a) == end || After(m, a) in m
  }

  ghost predicate Disjoint(m: Map) {
    forall a, b {:trigger Lt(a, b)} :: a in m && b in m && Lt(a, b) ==> a + m[a].size <= b
  }

  /** The blocks lie end to end from base to end. */
  ghost predicate Tiled(m: Map, base: nat, end: nat) {
    base <= end && (base == end || base in m) && Bounded(m, base, end) && Closed(m, end) && Disjoint(m)
  }

  /** No two linked blocks touch. */
  ghost predicate Apart(m: Map) {
    forall a, b {:trigger Lt(a, b)} ::
      a in m && b in m && m[a].kind == Linked && m[b].kind == Linked && Lt(a, b) ==> a + m[a].size < b
  }

  /** Every other block ends before b or starts after it. */
  lemma Separate(m: Map, base: nat, end: nat, b: nat)
    requires Tiled(m, base, end) && b in m
    ensures forall a {:trigger m[a]} :: a in m && a != b ==> a + m[a].size <= b || b + m[b].size <= a
  {
    forall a {:trigger m[a]} | a in m && a != b
      ensures a + m[a].size <= b || b + m[b].size <= a
    {
      assert Lt(a, b) || Lt(b, a);
    }
  }

  // ---- the ways the allocator changes the blocks ----

  function Relabel(m: Map, b: nat, k: Kind): Map
    requires b in m
  {
    m[b := m[b].(kind := k)]
  }

  lemma RelabelTiled(m: Map, base: nat, end: nat, b: nat, k: Kind)
    requires Tiled(m, base, end) && b in m
    ensures Tiled(Relabel(m, b, k), base, end)
  {
    var m' := Relabel(m, b, k);
    forall a {:trigger After(m', a)} | a in m' ensures After(m', a) == end || After(m', a) in m' {
      assert After(m, a) == After(m', a);
    }
  }

  /** b cut to want bytes of kind k; the rest becomes a block of kind k'. */
  function Split(m: Map, b: nat, want: nat, k: Kind, k': Kind): Map
    requires b in m && want <= m[b].size
  {
    m[b := Blk(want, k)][b + want := Blk(m[b].size - want, k')]
  }

  lemma SplitClosed(m: Map, end: nat, b: nat, want: nat, k: Kind, k': Kind)
    requires Closed(m, end) && b in m && 0 < want < m[b].size && b + want !in m
    ensures Closed(Split(m, b, want, k, k'), end)
  {
    var m' := Split(m, b, want, k, k');
    forall a {:trigger After(m', a)} | a in m' ensures After(m', a) == end || After(m', a) in m' {
      if a in m { assert After(m, a) == end || After(m, a) in m; }
      assert After(m, b) == end || After(m, b) in m;
    }
  }

  lemma SplitDisjoint(m: Map, b: nat, want: nat, k: Kind, k': Kind)
    requires Disjoint(m) && b in m && 0 < want < m[b].size && b + want !in m
    ensures Disjoint(Split(m, b, want, k, k'))
  {
    var m' := Split(m, b, want, k, k');
    forall a, c {:trigger Lt(a, c)} | a in m' && c in m' && Lt(a, c) ensures a + m'[a].size <= c {
      assert a in m && c == b + want ==> a == b || Lt(a, b) || Lt(b, a);
      assert c in m && a == b + want ==> Lt(b, c);
    }
  }

  lemma SplitTiled(m: Map, base: nat, end: nat, b: nat, want: nat, k: Kind, k': Kind)
    requires Tiled(m, base, end) && b in m && 16 <= want && want % 4 == 0 && want + 20 <= m[b].size
    ensures b + want !in m && Tiled(Split(m, b, want, k, k'), base, end)
  {
    assert Lt(b, b + want);
    SplitClosed(m, end, b, want, k, k');
    SplitDisjoint(m, b, want, k, k');
  }

  function Merge(m: Map, a: nat, b: nat): Map
    requires a in m && b in m
  {
    m[a := Blk(m[a].size + m[b].size, m[a].kind)] - {b}
  }

  lemma MergeClosed(m: Map, end: nat, a: nat, b: nat)
    requires Closed(m, end) && Disjoint(m) && a in m && b in m && After(m, a) == b && a < b
    requires forall c {:trigger m[c]} :: c in m ==> 0 < m[c].size
    ensures Closed(Merge(m, a, b), end)
  {
    var m' := Merge(m, a, b);
    forall c {:trigger After(m', c)} | c in m' ensures After(m', c) == end || After(m', c) in m' {
      if c == a {
        assert After(m, b) == end || After(m, b) in m;
      } else {
        assert After(m, c) == end || After(m, c) in m;
        assert Lt(c, a) || Lt(a, c);
        assert Lt(b, c) || Lt(c, b);
      }
    }
  }

  lemma MergeDisjoint(m: Map, a: nat, b: nat)
    requires Disjoint(m) && a in m && b in m && After(m, a) == b && a < b
    ensures Disjoint(Merge(m, a, b))
  {
    var m' := Merge(m, a, b);
    forall c, d {:trigger Lt(c, d)} | c in m' && d in m' && Lt(c, d) ensures c + m'[c].size <= d {
      if c == a { assert Lt(b, d); }
    }
  }

  lemma MergeBounded(m: Map, base: nat, end: nat, a: nat, b: nat)
    requires Bounded(m, base, end) && a in m && b in m && After(m, a) == b
    ensures Bounded(Merge(m, a, b), base, end)
  {}

  lemma MergeTiled(m: Map, base: nat, end: nat, a: nat, b: nat)
    requires Tiled(m, base, end) && a in m && b in m && After(m, a) == b
    ensures a < b && Tiled(Merge(m, a, b), base, end)
  {
    assert m[a].size >= 16;
    MergeBounded(m, base, end, a, b);
    MergeClosed(m, end, a, b);
    MergeDisjoint(m, a, b);
  }

  lemma Inside(m: Map, base: nat, end: nat, a: nat)
    requires Tiled(m, base, end) && a in m
    ensures base <= a && a + 16 <= end
  {
    assert m[a].size >= 16;
  }

  function Extend(m: Map, end: nat, size: nat): Map {
    m[end := Blk(size, Linked)]
  }

  lemma ExtendTiled(m: Map, base: nat, end: nat, size: nat)
    requires Tiled(m, base, end) && 16 <= size && size % 4 == 0
    ensures end !in m && Tiled(Extend(m, end, size), base, end + size)
  {
    var m' := Extend(m, end, size);
    if end in m {
      Inside(m, base, end, end);
      assert false;
    }
    forall a {:trigger After(m', a)} | a in m' ensures After(m', a) == end + size || After(m', a) in m' {
      if a in m { assert After(m, a) == end || After(m, a) in m; }
    }
  }

  // ---- tiling means tiling ----

  /** Every address from a block's start to the end lies in a block. */
  lemma {:induction false} Covered(m: Map, base: nat, end: nat, a: nat, x: nat) returns (b: nat)
    requires Tiled(m, base, end) && a in m && a <= x < end
    ensures b in m && b <= x < b + m[b].size
    decreases end - a
  {
    assert After(m, a) == end || After(m, a) in m;
    if x < a + m[a].size { b := a; } else { b := Covered(m, base, end, a + m[a].size, x); }
  }

  /** Each address of the heap lies in exactly one block. */
  lemma OneBlock(m: Map, base: nat, end: nat, x: nat) returns (b: nat)
    requires Tiled(m, base, end) && base <= x < end
    ensures b in m && b <= x < b + m[b].size
    ensures forall c {:trigger m[c]} :: c in m && c <= x < c + m[c].size ==> c == b
  {
    b := Covered(m, base, end, base, x);
    Separate(m, base, end, b);
  }

  // ---- the free list and its place in memory ----

  /** ls holds exactly the linked blocks, in address order. */
  ghost predicate Listed(m: Map, ls: seq<nat>) {
    && (forall k :: 0 <= k < |ls| ==> ls[k] in m && m[ls[k]].kind == Linked)
    && (forall a {:trigger m[a]} :: a in m && m[a].kind == Linked ==> a in ls)
    && Sorted(ls)
  }

  function NextIn(ls: seq<nat>, k: nat): nat { if k + 1 < |ls| then ls[k + 1] else 0 }

  function HeadOf(ls: seq<nat>): nat { if ls == [] then 0 else ls[0] }

  /** Each linked block's link is the next block on the list. */
  ghost predicate Chained(nx: Nexts, ls: seq<nat>) {
    forall k {:trigger Link(nx, ls, k)} :: 0 <= k < |ls| ==> Link(nx, ls, k)
  }

  ghost predicate Link(nx: Nexts, ls: seq<nat>, k: nat) {
    k < |ls| && ls[k] in nx && nx[ls[k]] == NextIn(ls, k)
  }

  /** Memory holds a header at a. */
  ghost predicate Header(mem: seq<byte>, a: nat, x: Blk, next: nat) {
    Word(mem, a) == x.size && Word(mem, a + 4) == Flag(x.kind) && Word(mem, a + 8) == next
  }

  predicate Probe(a: nat) { true }

  /** Memory holds every header. */
  ghost predicate Image(mem: seq<byte>, m: Map, nx: Nexts) {
    forall a {:trigger Probe(a)} :: Probe(a) && a in m ==> a in nx && Header(mem, a, m[a], nx[a])
  }

  /** No live payload byte differs. */
  ghost predicate Kept(m: Map, mem: seq<byte>, mem': seq<byte>) {
    && |mem| <= |mem'|
    && forall a, k {:trigger m[a], mem'[k]} ::
         a in m && m[a].kind == Busy && a + 12 <= k < a + m[a].size && k < |mem| ==> mem'[k] == mem[k]
  }

  ghost predicate SameHeader(mem: seq<byte>, mem': seq<byte>, a: nat) {
    Word(mem', a) == Word(mem, a) && Word(mem', a + 4) == Word(mem, a + 4) && Word(mem', a + 8) == Word(mem, a + 8)
  }

  /** Storing into block b's header leaves every other header and every live payload alone. */
  lemma OneField(mem: seq<byte>, mem': seq<byte>, m: Map, base: nat, b: nat, f: nat, v: nat)
    requires Tiled(m, base, |mem|) && b in m && (f == 0 || f == 4 || f == 8) && Wrote(mem, mem', b + f, v)
    ensures Kept(m, mem, mem')
    ensures f != 0 ==> Word(mem', b) == Word(mem, b)
    ensures f != 4 ==> Word(mem', b + 4) == Word(mem, b + 4)
    ensures f != 8 ==> Word(mem', b + 8) == Word(mem, b + 8)
    ensures forall a {:trigger Probe(a)} :: Probe(a) && a in m && a != b ==> SameHeader(mem, mem', a)
  {
    Separate(m, base, |mem|, b);
    if f != 0 { WordKept(mem, mem', b); }
    if f != 4 { WordKept(mem, mem', b + 4); }
    if f != 8 { WordKept(mem, mem', b + 8); }
    forall a {:trigger Probe(a)} | a in m && a != b ensures SameHeader(mem, mem', a) {
      assert a + m[a].size <= b || b + m[b].size <= a;
      WordKept(mem, mem', a);
      WordKept(mem, mem', a + 4);
      WordKept(mem, mem', a + 8);
    }
  }

  lemma FlagPut(mem: seq<byte>, mem': seq<byte>, m: Map, nx: Nexts, base: nat, b: nat, k: Kind)
    requires Tiled(m, base, |mem|) && b in m && Image(mem, m, nx) && Wrote(mem, mem', b + 4, Flag(k))
    ensures Image(mem', Relabel(m, b, k), nx) && Kept(m, mem, mem') && Tiled(Relabel(m, b, k), base, |mem|)
  {
    OneField(mem, mem', m, base, b, 4, Flag(k));
    RelabelTiled(m, base, |mem|, b, k);
    assert Probe(b);
  }

  lemma NextPut(mem: seq<byte>, mem': seq<byte>, m: Map, nx: Nexts, base: nat, b: nat, v: nat)
    requires Tiled(m, base, |mem|) && b in m && Image(mem, m, nx) && Wrote(mem, mem', b + 8, v)
    ensures Image(mem', m, nx[b := v]) && Kept(m, mem, mem')
  {
    OneField(mem, mem', m, base, b, 8, v);
    assert Probe(b);
  }

  /** Memory does not tell a linked block from a lost one. */
  lemma ForgetLink(mem: seq<byte>, m: Map, nx: Nexts, base: nat, b: nat)
    requires Tiled(m, base, |mem|) && Image(mem, m, nx) && b in m && m[b].kind != Busy
    ensures Tiled(Relabel(m, b, Lost), base, |mem|) && Image(mem, Relabel(m, b, Lost), nx)
  {
    RelabelTiled(m, base, |mem|, b, Lost);
    var m' := Relabel(m, b, Lost);
    forall a {:trigger Probe(a)} | a in m' ensures a in nx && Header(mem, a, m'[a], nx[a]) {
      assert Probe(a);
    }
  }

  lemma KeptTrans(m: Map, x: seq<byte>, y: seq<byte>, z: seq<byte>)
    requires Kept(m, x, y) && Kept(m, y, z)
    ensures Kept(m, x, z)
  {
    forall a, k {:trigger m[a], z[k]} | a in m && m[a].kind == Busy && a + 12 <= k < a + m[a].size && k < |x|
      ensures z[k] == x[k]
    {
      assert y[k] == x[k];
    }
  }

  /** Three stores write a whole header. */
  lemma HeaderPut(mem: seq<byte>, mem1: seq<byte>, mem2: seq<byte>, mem3: seq<byte>, m: Map, base: nat, b: nat,
                  x: Blk, next: nat)
    requires Tiled(m, base, |mem|) && b in m
    requires Wrote(mem, mem1, b, x.size) && Wrote(mem1, mem2, b + 4, Flag(x.kind)) && Wrote(mem2, mem3, b + 8, next)
    ensures Kept(m, mem, mem3) && Header(mem3, b, x, next)
    ensures forall a {:trigger Probe(a)} :: Probe(a) && a in m && a != b ==> SameHeader(mem, mem3, a)
  {
    OneField(mem, mem1, m, base, b, 0, x.size);
    OneField(mem1, mem2, m, base, b, 4, Flag(x.kind));
    OneField(mem2, mem3, m, base, b, 8, next);
    KeptTrans(m, mem, mem1, mem2);
    KeptTrans(m, mem, mem2, mem3);
  }

  /** The stores of split_block: the tail's header, then b's size. */
  lemma CarvePut(mem: seq<byte>, mem1: seq<byte>, mem2: seq<byte>, mem3: seq<byte>, mem4: seq<byte>,
                 m: Map, nx: Nexts, base: nat, b: nat, want: nat, k: Kind, k': Kind)
    requires Tiled(m, base, |mem|) && Image(mem, m, nx) && b in m && b in nx
    requires 16 <= want && want % 4 == 0 && want + 20 <= m[b].size
    requires Flag(k) == Flag(m[b].kind) && Flag(k') == 1
    requires Wrote(mem, mem1, b + want, m[b].size - want) && Wrote(mem1, mem2, b + want + 4, 1)
    requires Wrote(mem2, mem3, b + want + 8, nx[b]) && Wrote(mem3, mem4, b, want)
    ensures b + want !in m
    ensures var m' := Split(m, b, want, k, k');
            Tiled(m', base, |mem|) && Image(mem4, m', nx[b + want := nx[b]]) && Kept(m', mem, mem4)
  {
    var m', t := Split(m, b, want, k, k'), b + want;
    SplitTiled(m, base, |mem|, b, want, k, k');
    assert Probe(b) && Probe(t);
    HeaderPut(mem, mem1, mem2, mem3, m', base, t, m'[t], nx[b]);
    OneField(mem3, mem4, m', base, b, 0, want);
    KeptTrans(m', mem, mem3, mem4);
  }

  /** The stores of a merge: a's size and link. */
  lemma AbsorbPut(mem: seq<byte>, mem1: seq<byte>, mem2: seq<byte>, m: Map, nx: Nexts, base: nat, a: nat, b: nat)
    requires Tiled(m, base, |mem|) && Image(mem, m, nx) && a in m && b in m && b in nx && After(m, a) == b
    requires Wrote(mem, mem1, a, m[a].size + m[b].size) && Wrote(mem1, mem2, a + 8, nx[b])
    ensures var m' := Merge(m, a, b); Tiled(m', base, |mem|) && Image(mem2, m', nx[a := nx[b]]) && Kept(m', mem, mem2)
  {
    var m' := Merge(m, a, b);
    MergeTiled(m, base, |mem|, a, b);
    assert Probe(a) && Probe(b);
    OneField(mem, mem1, m', base, a, 0, m[a].size + m[b].size);
    OneField(mem1, mem2, m', base, a, 8, nx[b]);
    KeptTrans(m', mem, mem1, mem2);
  }

  lemma MergedFits(m: Map, base: nat, end: nat, a: nat, b: nat)
    requires Tiled(m, base, end) && a in m && b in m && After(m, a) == b
    ensures m[a].size + m[b].size <= end
  {}

  /** The stores of grow_heap: the header of the block at the old break. */
  lemma GrowPut(mem: seq<byte>, mem0: seq<byte>, mem1: seq<byte>, mem2: seq<byte>, mem3: seq<byte>,
                m: Map, nx: Nexts, base: nat, need: nat)
    requires Tiled(m, base, |mem|) && Image(mem, m, nx) && 16 <= need && need % 4 == 0
    requires |mem0| == |mem| + need && mem0[..|mem|] == mem
    requires Wrote(mem0, mem1, |mem|, need) && Wrote(mem1, mem2, |mem| + 4, 1) && Wrote(mem2, mem3, |mem| + 8, 0)
    ensures |mem| !in m
    ensures var m' := Extend(m, |mem|, need);
            Tiled(m', base, |mem|  + need) && Image(mem3, m', nx[|mem| := 0]) && Kept(m, mem, mem3)
  {
    var m' := Extend(m, |mem|, need);
    ExtendTiled(m, base, |mem|, need);
    HeaderPut(mem0, mem1, mem2, mem3, m', base, |mem|, m'[|mem|], 0);
    forall a {:trigger Probe(a)} | a in m ensures SameHeader(mem, mem0, a) {
      Inside(m, base, |mem|, a);
      WordKept(mem, mem0, a);
      WordKept(mem, mem0, a + 4);
      WordKept(mem, mem0, a + 8);
    }
    assert forall a {:trigger m[a]} :: a in m ==> m'[a] == m[a];
  }

  // ---- changes to the list ----

  function Drop(ls: seq<nat>, k: nat): (r: seq<nat>)
    requires k < |ls|
    ensures |r| == |ls| - 1
    ensures forall i :: 0 <= i < |r| ==> r[i] == if i < k then ls[i] else ls[i + 1]
  {
    ls[..k] + ls[k + 1..]
  }

  function Insert(ls: seq<nat>, k: nat, b: nat): (r: seq<nat>)
    requires k <= |ls|
    ensures |r| == |ls| + 1
    ensures forall i :: 0 <= i < |r| ==> r[i] == if i < k then ls[i] else if i == k then b else ls[i - 1]
  {
    ls[..k] + [b] + ls[k..]
  }

  ghost predicate Sorted(ls: seq<nat>) {
    forall j, k {:trigger Lt(ls[j], ls[k])} :: 0 <= j < k < |ls| ==> Lt(ls[j], ls[k])
  }

  /** On a sorted list only the entry at k is ls[k]. */
  lemma Unique(ls: seq<nat>, k: nat)
    requires Sorted(ls) && k < |ls|
    ensures forall j :: 0 <= j < |ls| && ls[j] == ls[k] ==> j == k
  {
    forall j | 0 <= j < |ls| && j != k ensures ls[j] != ls[k] {
      assert Lt(ls[j], ls[k]) || Lt(ls[k], ls[j]);
    }
  }

  /** A link that no list entry owns does not matter. */
  lemma ChainedElsewhere(nx: Nexts, ls: seq<nat>, t: nat, v: nat)
    requires Chained(nx, ls) && t !in ls
    ensures Chained(nx[t := v], ls)
  {
    var nx' := nx[t := v];
    forall i {:trigger Link(nx', ls, i)} | 0 <= i < |ls| ensures Link(nx', ls, i) {
      assert Link(nx, ls, i) && ls[i] in ls;
    }
  }

  lemma DropSorted(ls: seq<nat>, k: nat)
    requires Sorted(ls) && k < |ls|
    ensures Sorted(Drop(ls, k)) && ls[k] !in Drop(ls, k)
    ensures forall a :: a in Drop(ls, k) <==> a in ls && a != ls[k]
  {
    var r := Drop(ls, k);
    Unique(ls, k);
    forall i, j {:trigger Lt(r[i], r[j])} | 0 <= i < j < |r| ensures Lt(r[i], r[j]) {
      assert Lt(ls[if i < k then i else i + 1], ls[if j < k then j else j + 1]);
    }
    forall a | a in ls && a != ls[k] ensures a in r {
      var i :| 0 <= i < |ls| && ls[i] == a;
      assert r[if i < k then i else i - 1] == a;
    }
  }

  /** Taking an entry off the list: its predecessor links past it. */
  lemma DropChained(nx: Nexts, ls: seq<nat>, k: nat)
    requires Sorted(ls) && Chained(nx, ls) && k < |ls|
    ensures k == 0 ==> Chained(nx, Drop(ls, 0))
    ensures k > 0 ==> Chained(nx[ls[k - 1] := NextIn(ls, k)], Drop(ls, k))
  {
    var r := Drop(ls, k);
    var nx' := if k == 0 then nx else nx[ls[k - 1] := NextIn(ls, k)];
    if k > 0 { Unique(ls, k - 1); }
    forall i {:trigger Link(nx', r, i)} | 0 <= i < |r| ensures Link(nx', r, i) {
      var j := if i < k then i else i + 1;
      assert Link(nx, ls, j);
    }
  }

  lemma InsertSorted(ls: seq<nat>, k: nat, b: nat)
    requires Sorted(ls) && k <= |ls| && (k > 0 ==> ls[k - 1] < b) && (k < |ls| ==> b < ls[k])
    ensures Sorted(Insert(ls, k, b)) && b !in ls
    ensures forall a :: a in Insert(ls, k, b) <==> a in ls || a == b
  {
    var r := Insert(ls, k, b);
    forall i | 0 <= i < |ls| ensures ls[i] < b <==> i < k {
      if i < k - 1 { assert Lt(ls[i], ls[k - 1]); }
      if k < i { assert Lt(ls[k], ls[i]); }
    }
    forall i | 0 <= i < |ls| ensures ls[i] != b {
      if i > k { assert Lt(ls[k], ls[i]); }
    }
    forall i, j {:trigger Lt(r[i], r[j])} | 0 <= i < j < |r| ensures Lt(r[i], r[j]) {
      if i != k && j != k {
        assert Lt(ls[if i < k then i else i - 1], ls[if j < k then j else j - 1]);
      } else if i == k {
        if j > k + 1 { assert Lt(ls[k], ls[j - 1]); }
      }
    }
    forall a | a in ls ensures a in r {
      var i :| 0 <= i < |ls| && ls[i] == a;
      assert r[if i < k then i else i + 1] == a;
    }
    assert r[k] == b;
  }

  /** Putting b on the list at k: b links to the rest, its predecessor to b. */
  lemma InsertChained(nx: Nexts, ls: seq<nat>, k: nat, b: nat)
    requires Sorted(ls) && Chained(nx, ls) && k <= |ls| && b !in ls
    ensures var nx' := nx[b := if k < |ls| then ls[k] else 0];
            Chained(if k == 0 then nx' else nx'[ls[k - 1] := b], Insert(ls, k, b))
  {
    var r := Insert(ls, k, b);
    var nx1 := nx[b := if k < |ls| then ls[k] else 0];
    var nx' := if k == 0 then nx1 else nx1[ls[k - 1] := b];
    if k > 0 { Unique(ls, k - 1); }
    forall i {:trigger Link(nx', r, i)} | 0 <= i < |r| ensures Link(nx', r, i) {
      if i != k {
        var j := if i < k then i else i - 1;
        assert Link(nx, ls, j);
        assert ls[j] != b;
      }
    }
  }

  // ---- and to both ----

  lemma UnlinkListed(m: Map, ls: seq<nat>, k: nat)
    requires Listed(m, ls) && k < |ls|
    ensures Listed(Relabel(m, ls[k], Lost), Drop(ls, k))
  {
    DropSorted(ls, k);
    var m', r := Relabel(m, ls[k], Lost), Drop(ls, k);
    forall i | 0 <= i < |r| ensures r[i] in m' && m'[r[i]].kind == Linked { assert r[i] in r; }
  }

  lemma InsertListed(m: Map, ls: seq<nat>, k: nat, b: nat)
    requires Listed(m, ls) && b in m && k <= |ls| && (k > 0 ==> ls[k - 1] < b) && (k < |ls| ==> b < ls[k])
    ensures Listed(Relabel(m, b, Linked), Insert(ls, k, b)) && b !in ls
  {
    InsertSorted(ls, k, b);
    var m', r := Relabel(m, b, Linked), Insert(ls, k, b);
    forall i | 0 <= i < |r| ensures r[i] in m' && m'[r[i]].kind == Linked { assert r[i] in r; }
  }

  lemma MergeListed(m: Map, ls: seq<nat>, k: nat)
    requires Listed(m, ls) && k + 1 < |ls|
    ensures ls[k] < ls[k + 1] && Listed(Merge(m, ls[k], ls[k + 1]), Drop(ls, k + 1))
  {
    assert Lt(ls[k], ls[k + 1]);
    DropSorted(ls, k + 1);
    var m', r := Merge(m, ls[k], ls[k + 1]), Drop(ls, k + 1);
    forall i | 0 <= i < |r| ensures r[i] in m' && m'[r[i]].kind == Linked { assert r[i] in r; }
  }

  lemma SplitPlace(m: Map, base: nat, end: nat, ls: seq<nat>, k: nat, want: nat)
    requires Tiled(m, base, end) && Listed(m, ls) && k < |ls|
    requires 16 <= want && want + 20 <= m[ls[k]].size
    ensures ls[k] + want !in m && (k > 0 ==> ls[k - 1] < ls[k]) && (k + 1 < |ls| ==> ls[k] + want < ls[k + 1])
  {
    assert Lt(ls[k], ls[k] + want);
    if k > 0 { assert Lt(ls[k - 1], ls[k]); }
    if k + 1 < |ls| { assert Lt(ls[k], ls[k + 1]); }
  }

  /** On a split of a linked block, the tail takes its place on the list. */
  lemma SplitListed(m: Map, base: nat, end: nat, ls: seq<nat>, k: nat, want: nat)
    requires Tiled(m, base, end) && Listed(m, ls) && k < |ls|
    requires 16 <= want && want + 20 <= m[ls[k]].size
    ensures Listed(Split(m, ls[k], want, Lost, Linked), Insert(Drop(ls, k), k, ls[k] + want)) && ls[k] + want !in m
  {
    SplitPlace(m, base, end, ls, k, want);
    ReplaceListed(m, ls, k, want);
  }

  lemma ReplaceListed(m: Map, ls: seq<nat>, k: nat, want: nat)
    requires Listed(m, ls) && k < |ls| && 0 < want <= m[ls[k]].size && ls[k] + want !in m
    requires (k > 0 ==> ls[k - 1] < ls[k]) && (k + 1 < |ls| ==> ls[k] + want < ls[k + 1])
    ensures Listed(Split(m, ls[k], want, Lost, Linked), Insert(Drop(ls, k), k, ls[k] + want))
  {
    var b, d := ls[k], Drop(ls, k);
    var r := Insert(d, k, b + want);
    DropSorted(ls, k);
    InsertSorted(d, k, b + want);
    Replaced(m, ls, r, b, want);
  }

  lemma Replaced(m: Map, ls: seq<nat>, r: seq<nat>, b: nat, want: nat)
    requires Listed(m, ls) && b in m && 0 < want <= m[b].size && b + want !in m && Sorted(r)
    requires forall a :: a in r <==> (a in ls && a != b) || a == b + want
    ensures Listed(Split(m, b, want, Lost, Linked), r)
  {
    var m' := Split(m, b, want, Lost, Linked);
    forall i | 0 <= i < |r| ensures r[i] in m' && m'[r[i]].kind == Linked {
      assert r[i] in r;
    }
  }

  lemma SplitChained(nx: Nexts, ls: seq<nat>, k: nat, t: nat)
    requires Sorted(ls) && Chained(nx, ls) && k < |ls| && t !in ls
    ensures ls[k] in nx
    ensures var nx' := nx[t := nx[ls[k]]];
            Chained(if k == 0 then nx' else nx'[ls[k - 1] := t], Insert(Drop(ls, k), k, t))
  {
    var d := Drop(ls, k);
    assert Link(nx, ls, k);
    DropSorted(ls, k);
    DropChained(nx, ls, k);
    if k == 0 {
      InsertChained(nx, d, k, t);
    } else {
      var nx1: Nexts := nx[ls[k - 1] := NextIn(ls, k)];
      var nx2: Nexts := nx[t := nx[ls[k]]][ls[k - 1] := t];
      InsertChained(nx1, d, k, t);
      assert nx1[t := if k < |d| then d[k] else 0][ls[k - 1] := t] == nx2;
    }
  }

  lemma ExtendListed(m: Map, base: nat, end: nat, ls: seq<nat>, need: nat)
    requires Tiled(m, base, end) && Listed(m, ls) && 16 <= need && need % 4 == 0
    ensures Listed(Extend(m, end, need), Insert(ls, |ls|, end)) && end !in ls
  {
    ExtendTiled(m, base, end, need);
    if ls != [] { Inside(m, base, end, ls[|ls| - 1]); }
    InsertSorted(ls, |ls|, end);
    var m', r := Extend(m, end, need), Insert(ls, |ls|, end);
    forall i | 0 <= i < |r| ensures r[i] in m' && m'[r[i]].kind == Linked { assert r[i] in r; }
  }

  /** Cutting a tail off a busy block leaves the list as it was. */
  lemma ShrinkListed(m: Map, ls: seq<nat>, b: nat, want: nat)
    requires Listed(m, ls) && b in m && want <= m[b].size && m[b].kind == Busy && b + want !in m
    ensures Listed(Split(m, b, want, Busy, Lost), ls)
  {}

  /** What unlink_free leaves behind: the head or the predecessor links past the block. */
  lemma Unlinked(m: Map, nx: Nexts, nx': Nexts, ls: seq<nat>, k: nat, head': nat)
    requires Listed(m, ls) && Chained(nx, ls) && k < |ls| && ls[k] in nx
    requires k == 0 ==> nx' == nx && head' == nx[ls[k]]
    requires k > 0 ==> nx' == nx[ls[k - 1] := nx[ls[k]]] && head' == ls[0]
    ensures Listed(Relabel(m, ls[k], Lost), Drop(ls, k)) && Chained(nx', Drop(ls, k)) && head' == HeadOf(Drop(ls, k))
  {
    assert Link(nx, ls, k);
    DropChained(nx, ls, k);
    UnlinkListed(m, ls, k);
  }

  lemma ForgetLost(m: Map, b: nat)
    requires b in m && m[b].kind == Lost
    ensures Relabel(m, b, Lost) == m
  {}

  lemma OffList(m: Map, ls: seq<nat>, b: nat)
    requires Listed(m, ls) && b in m && m[b].kind != Linked
    ensures b !in ls
  {}

  lemma OnList(m: Map, ls: seq<nat>, b: nat) returns (k: nat)
    requires Listed(m, ls) && b in m && m[b].kind == Linked
    ensures k < |ls| && ls[k] == b && forall j :: 0 <= j < |ls| && ls[j] == b ==> j == k
  {
    k :| 0 <= k < |ls| && ls[k] == b;
    Unique(ls, k);
  }

  /** What split_block leaves behind for a linked block: the tail stands where the block stood. */
  lemma SplitDone(m: Map, base: nat, end: nat, nx: Nexts, nx': Nexts, ls: seq<nat>, k: nat, want: nat, head': nat)
    requires Tiled(m, base, end) && Listed(m, ls) && Chained(nx, ls) && k < |ls| && ls[k] in nx
    requires 16 <= want && want + 20 <= m[ls[k]].size
    requires var t, nx1 := ls[k] + want, nx[ls[k] + want := nx[ls[k]]];
             && (k == 0 ==> nx' == nx1 && head' == t)
             && (k > 0 ==> nx' == nx1[ls[k - 1] := t] && head' == ls[0])
    ensures var ls' := Insert(Drop(ls, k), k, ls[k] + want);
            Listed(Split(m, ls[k], want, Lost, Linked), ls') && Chained(nx', ls') && head' == HeadOf(ls')
  {
    SplitListed(m, base, end, ls, k, want);
    SplitChained(nx, ls, k, ls[k] + want);
  }

  /** What grow_heap leaves behind: the new block at the end of the list. */
  lemma GrowDone(m: Map, base: nat, end: nat, nx: Nexts, nx': Nexts, ls: seq<nat>, need: nat, head': nat)
    requires Tiled(m, base, end) && Listed(m, ls) && Chained(nx, ls) && 16 <= need && need % 4 == 0
    requires ls == [] ==> nx' == nx[end := 0] && head' == end
    requires ls != [] ==> nx' == nx[end := 0][ls[|ls| - 1] := end] && head' == ls[0]
    ensures var ls' := Insert(ls, |ls|, end);
            Listed(Extend(m, end, need), ls') && Chained(nx', ls') && head' == HeadOf(ls')
  {
    ExtendListed(m, base, end, ls, need);
    InsertChained(nx, ls, |ls|, end);
  }

  // ---- taking a block ----

  /** The blocks after a linked block b is handed out for want bytes. */
  function Taken(m: Map, b: nat, want: nat): Map
    requires b in m
  {
    if m[b].size < want + 20 then Relabel(m, b, Busy) else Split(m, b, want, Busy, Linked)
  }

  /** No two linked blocks touch, b aside. */
  ghost predicate ApartBut(m: Map, b: nat) {
    forall a, c {:trigger Lt(a, c)} ::
      a in m && c in m && m[a].kind == Linked && m[c].kind == Linked && Lt(a, c) && c != b ==> a + m[a].size < c
  }

  lemma TakenApart(m: Map, base: nat, end: nat, b: nat, want: nat)
    requires Tiled(m, base, end) && b in m && m[b].kind == Linked && ApartBut(m, b) && 16 <= want <= m[b].size
    ensures Apart(Taken(m, b, want))
  {
    var m' := Taken(m, b, want);
    forall a, c {:trigger Lt(a, c)} | a in m' && c in m' && m'[a].kind == Linked && m'[c].kind == Linked && Lt(a, c)
      ensures a + m'[a].size < c
    {
      assert a in m ==> a == b || Lt(a, b) || Lt(b, a);
      assert c in m ==> c == b || Lt(b, c) || Lt(c, b);
    }
  }

  ghost predicate NoLost(m: Map) {
    forall a {:trigger m[a]} :: a in m ==> m[a].kind != Lost
  }

  /** b is live now and was not; every other block is live exactly when it was, with its size. */
  ghost predicate Gained(m: Map, m': Map, b: nat) {
    && b in m' && m'[b].kind == Busy && !(b in m && m[b].kind == Busy)
    && (forall a {:trigger m[a]} :: a in m && m[a].kind == Busy ==> a in m' && m'[a] == m[a])
    && (forall a {:trigger m'[a]} :: a in m' && m'[a].kind == Busy && a != b ==> a in m && m[a] == m'[a])
  }

  lemma TakenGained(m: Map, base: nat, end: nat, b: nat, want: nat)
    requires Tiled(m, base, end) && b in m && m[b].kind == Linked && 16 <= want <= m[b].size
    ensures Gained(m, Taken(m, b, want), b) && want <= Taken(m, b, want)[b].size < want + 20
    ensures NoLost(m) <==> NoLost(Taken(m, b, want))
  {
    assert Lt(b, b + want);
    var m' := Taken(m, b, want);
    assert forall a {:trigger m[a]} :: a in m && a != b ==> a in m' && m'[a] == m[a];
  }

  /** What the steps of handing out a block come to. */
  lemma TakenDone(m: Map, m2: Map, base: nat, end: nat, b: nat, want: nat, mem: seq<byte>, mem2: seq<byte>,
                  mem3: seq<byte>)
    requires Tiled(m, base, end) && b in m && m[b].kind == Linked && 16 <= want <= m[b].size
    requires var m1 := if m[b].size < want + 20 then m else SplitOf(m, b, want);
             b in m1 && m2 == Relabel(m1, b, Lost) && Kept(m1, mem, mem2)
    requires Kept(m2, mem2, mem3)
    ensures Relabel(m2, b, Busy) == Taken(m, b, want) && Kept(m, mem, mem3)
  {
    var m1 := if m[b].size < want + 20 then m else SplitOf(m, b, want);
    assert Lt(b, b + want);
    KeptLess(m1, m, mem, mem2);
    KeptLess(m2, m, mem2, mem3);
    KeptTrans(m, mem, mem2, mem3);
  }

  lemma ApartWithout(m: Map, b: nat)
    requires Apart(m)
    ensures ApartBut(m, b)
  {}

  // ---- live payloads ----

  function Payload(mem: seq<byte>, a: nat, size: nat): seq<byte> {
    if 12 <= size && a + size <= |mem| then mem[a + 12..a + size] else []
  }

  /** The payload of every busy block, by block address. */
  function LiveOf(mem: seq<byte>, m: Map): map<nat, seq<byte>> {
    map a | a in m && m[a].kind == Busy :: Payload(mem, a, m[a].size)
  }

  lemma KeptPayload(m: Map, base: nat, mem: seq<byte>, mem': seq<byte>, a: nat)
    requires Tiled(m, base, |mem|) && Kept(m, mem, mem') && a in m && m[a].kind == Busy
    ensures Payload(mem', a, m[a].size) == Payload(mem, a, m[a].size)
  {
    forall k | a + 12 <= k < a + m[a].size ensures mem'[k] == mem[k] {}
  }

  lemma LiveGained(m: Map, m': Map, base: nat, mem: seq<byte>, mem': seq<byte>, b: nat)
    requires Tiled(m, base, |mem|) && Kept(m, mem, mem') && Gained(m, m', b)
    ensures b !in LiveOf(mem, m) && b in LiveOf(mem', m')
    ensures LiveOf(mem', m') == LiveOf(mem, m)[b := Payload(mem', b, m'[b].size)]
  {
    forall a {:trigger m[a]} | a in m && m[a].kind == Busy
      ensures Payload(mem', a, m[a].size) == Payload(mem, a, m[a].size)
    {
      KeptPayload(m, base, mem, mem', a);
    }
  }

  /** Kept for more live blocks is kept for fewer. */
  lemma KeptLess(m: Map, m': Map, mem: seq<byte>, mem': seq<byte>)
    requires Kept(m, mem, mem')
    requires forall a {:trigger m'[a]} :: a in m' && m'[a].kind == Busy ==> a in m && m[a] == m'[a]
    ensures Kept(m', mem, mem')
  {
    forall a, k {:trigger m'[a], mem'[k]} | a in m' && m'[a].kind == Busy && a + 12 <= k < a + m'[a].size && k < |mem|
      ensures mem'[k] == mem[k]
    {
      assert m[a] == m'[a];
    }
  }

  lemma OffEnd(m: Map, base: nat, end: nat, ls: seq<nat>)
    requires Tiled(m, base, end) && Listed(m, ls)
    ensures end !in ls
  {
    forall k | 0 <= k < |ls| ensures ls[k] < end { Inside(m, base, end, ls[k]); }
  }

  /** The blocks after split_block on b: a linked block hands its place to the tail, a busy one's tail is lost. */
  function SplitOf(m: Map, b: nat, want: nat): Map
    requires b in m && want <= m[b].size
  {
    if m[b].kind == Linked then Split(m, b, want, Lost, Linked) else Split(m, b, want, Busy, Lost)
  }

  function SplitList(m: Map, ls: seq<nat>, k: nat, b: nat, want: nat): seq<nat>
    requires b in m && (m[b].kind == Linked ==> k < |ls|)
  {
    if m[b].kind == Linked then Insert(Drop(ls, k), k, b + want) else ls
  }

  lemma SplitAny(m: Map, base: nat, end: nat, nx: Nexts, nx': Nexts, ls: seq<nat>, k: nat, b: nat, want: nat,
                 head': nat)
    requires Tiled(m, base, end) && Listed(m, ls) && Chained(nx, ls) && b in m && b in nx && m[b].kind != Lost
    requires 16 <= want && want + 20 <= m[b].size
    requires m[b].kind == Linked ==> k < |ls| && ls[k] == b
    requires var nx1 := nx[b + want := nx[b]];
             && (m[b].kind != Linked ==> nx' == nx1 && head' == HeadOf(ls))
             && (m[b].kind == Linked && k == 0 ==> nx' == nx1 && head' == b + want)
             && (m[b].kind == Linked && k > 0 ==> nx' == nx1[ls[k - 1] := b + want] && head' == ls[0])
    ensures var ls' := SplitList(m, ls, k, b, want);
            Listed(SplitOf(m, b, want), ls') && Chained(nx', ls') && head' == HeadOf(ls')
  {
    if m[b].kind == Linked {
      SplitDone(m, base, end, nx, nx', ls, k, want, head');
    } else {
      assert Lt(b, b + want);
      ShrinkListed(m, ls, b, want);
      ChainedElsewhere(nx, ls, b + want, nx[b]);
    }
  }

  lemma ExtendApart(m: Map, base: nat, end: nat, need: nat)
    requires Tiled(m, base, end) && Apart(m)
    ensures ApartBut(Extend(m, end, need), end)
  {
    var m' := Extend(m, end, need);
    forall a, c {:trigger Lt(a, c)}
      | a in m' && c in m' && m'[a].kind == Linked && m'[c].kind == Linked && Lt(a, c) && c != end
      ensures a + m'[a].size < c
    {
      Inside(m, base, end, c);
    }
  }

  lemma ExtendGained(m: Map, end: nat, need: nat, m': Map)
    requires end !in m && Gained(Extend(m, end, need), m', end)
    ensures Gained(m, m', end) && (NoLost(m) <==> NoLost(Extend(m, end, need)))
  {
    var m1 := Extend(m, end, need);
    assert forall a {:trigger m[a]} :: a in m ==> a in m1 && m1[a] == m[a];
  }

  /** A linked block that is large enough. */
  ghost predicate Fit(m: Map, a: nat, want: nat) {
    a in m && m[a].kind == Linked && want <= m[a].size
  }

  // ---- giving a block back ----

  /** What inserting b on the list at k leaves behind. */
  lemma InsertDone(m: Map, nx: Nexts, nx': Nexts, ls: seq<nat>, k: nat, b: nat, head': nat)
    requires Listed(m, ls) && Chained(nx, ls) && b in m && k <= |ls|
    requires (k > 0 ==> ls[k - 1] < b) && (k < |ls| ==> b < ls[k])
    requires var nx1 := nx[b := if k < |ls| then ls[k] else 0];
             (k == 0 ==> nx' == nx1 && head' == b) && (k > 0 ==> nx' == nx1[ls[k - 1] := b] && head' == ls[0])
    ensures var ls' := Insert(ls, k, b);
            Listed(Relabel(m, b, Linked), ls') && Chained(nx', ls') && head' == HeadOf(ls')
  {
    InsertListed(m, ls, k, b);
    InsertChained(nx, ls, k, b);
  }

  /** What merging two neighbours on the list leaves behind. */
  lemma MergeDone(m: Map, nx: Nexts, ls: seq<nat>, k: nat)
    requires Listed(m, ls) && Chained(nx, ls) && k + 1 < |ls| && ls[k + 1] in nx
    ensures var ls' := Drop(ls, k + 1);
            && Listed(Merge(m, ls[k], ls[k + 1]), ls') && Chained(nx[ls[k] := nx[ls[k + 1]]], ls')
            && HeadOf(ls) == HeadOf(ls')
  {
    assert Link(nx, ls, k + 1);
    MergeListed(m, ls, k);
    DropChained(nx, ls, k + 1);
  }

  /** No two linked blocks other than b touch. */
  ghost predicate ApartOff(m: Map, b: nat) {
    forall a, c {:trigger Lt(a, c)} ::
      a in m && c in m && m[a].kind == Linked && m[c].kind == Linked && Lt(a, c) && a != b && c != b
      ==> a + m[a].size < c
  }

  /** The list's neighbours: nothing linked lies between ls[k] and ls[k + 1]. */
  lemma Neighbours(m: Map, ls: seq<nat>, k: nat, c: nat)
    requires Listed(m, ls) && k < |ls| && c in m && m[c].kind == Linked && ls[k] < c
    ensures k + 1 < |ls| && ls[k + 1] <= c
  {
    var i := OnList(m, ls, c);
    assert i < k ==> Lt(ls[i], ls[k]);
    assert k + 1 < i ==> Lt(ls[k + 1], ls[i]);
  }

  function Forward(m: Map, ls: seq<nat>, k: nat): Map
    requires Listed(m, ls) && k < |ls|
  {
    if k + 1 < |ls| && After(m, ls[k]) == ls[k + 1] then Merge(m, ls[k], ls[k + 1]) else m
  }

  /** After the forward merge only the block before ls[k] can touch it. */
  lemma ForwardApart(m: Map, base: nat, end: nat, ls: seq<nat>, k: nat)
    requires Tiled(m, base, end) && Listed(m, ls) && k < |ls| && ApartOff(m, ls[k])
    ensures ApartBut(Forward(m, ls, k), ls[k])
  {
    var b, m' := ls[k], Forward(m, ls, k);
    forall a, c {:trigger Lt(a, c)}
      | a in m' && c in m' && m'[a].kind == Linked && m'[c].kind == Linked && Lt(a, c) && c != b
      ensures a + m'[a].size < c
    {
      if a == b {
        Neighbours(m, ls, k, c);
        assert Lt(b, ls[k + 1]);
        assert ls[k + 1] == c || Lt(ls[k + 1], c);
      }
    }
  }

  /** After the backward merge no two linked blocks touch. */
  lemma BackwardApart(m: Map, base: nat, end: nat, ls: seq<nat>, k: nat)
    requires Tiled(m, base, end) && Listed(m, ls) && k + 1 < |ls| && ApartBut(m, ls[k + 1])
    ensures Apart(Forward(m, ls, k))
  {
    var p, b, m' := ls[k], ls[k + 1], Forward(m, ls, k);
    assert Lt(p, b);
    forall a, c {:trigger Lt(a, c)}
      | a in m' && c in m' && m'[a].kind == Linked && m'[c].kind == Linked && Lt(a, c)
      ensures a + m'[a].size < c
    {
      if c == b {
        if a != p {
          assert Lt(a, p) by { if p < a { Neighbours(m, ls, k, a); } }
        }
      } else if a == p && b !in m' {
        Neighbours(m, ls, k, c);
        assert Lt(b, c);
      }
    }
  }

  /** b is live no longer; every other block is live exactly when it was, with its size. */
  ghost predicate Released(m: Map, m': Map, b: nat) {
    && (forall a {:trigger m[a]} :: a in m && m[a].kind == Busy && a != b ==> a in m' && m'[a] == m[a])
    && (forall a {:trigger m'[a]} :: a in m' && m'[a].kind == Busy ==> a != b && a in m && m[a] == m'[a])
  }

  lemma FreedApart(m: Map, b: nat)
    requires Apart(m) && b in m
    ensures ApartOff(Relabel(m, b, Linked), b)
  {}

  /** The same blocks are live, and the same are lost. */
  ghost predicate SameOthers(m: Map, m': Map) {
    && (forall a {:trigger m[a]} :: a in m && m[a].kind != Linked ==> a in m' && m'[a] == m[a])
    && (forall a {:trigger m'[a]} :: a in m' && m'[a].kind != Linked ==> a in m && m[a] == m'[a])
  }

  lemma ForwardOthers(m: Map, ls: seq<nat>, k: nat)
    requires Listed(m, ls) && k < |ls|
    ensures SameOthers(m, Forward(m, ls, k))
  {}

  lemma HeadApart(m: Map, ls: seq<nat>)
    requires Listed(m, ls) && ls != [] && ApartBut(m, ls[0])
    ensures Apart(m)
  {
    forall a, c {:trigger Lt(a, c)} | a in m && c in m && m[a].kind == Linked && m[c].kind == Linked && Lt(a, c)
      ensures a + m[a].size < c
    {
      var i := OnList(m, ls, a);
      assert i > 0 ==> Lt(ls[0], ls[i]);
    }
  }

  lemma FreedReleased(m: Map, m': Map, b: nat)
    requires b in m && m[b].kind == Busy && SameOthers(Relabel(m, b, Linked), m')
    ensures Released(m, m', b) && (NoLost(m) <==> NoLost(m'))
  {
    var m1 := Relabel(m, b, Linked);
    assert forall a {:trigger m[a]} :: a in m && a != b ==> a in m1 && m1[a] == m[a];
  }

  lemma LiveReleased(m: Map, m': Map, base: nat, mem: seq<byte>, mem': seq<byte>, b: nat)
    requires Tiled(m, base, |mem|) && Kept(m', mem, mem') && Released(m, m', b)
    ensures LiveOf(mem', m') == LiveOf(mem, m) - {b}
  {
    forall a {:trigger m'[a]} | a in m' && m'[a].kind == Busy
      ensures Payload(mem', a, m'[a].size) == Payload(mem, a, m'[a].size)
    {
      assert m[a] == m'[a];
      forall k | a + 12 <= k < a + m'[a].size ensures mem'[k] == mem[k] {}
    }
  }

  /** Writing a block's payload leaves every header alone. */
  lemma PayloadWrite(mem: seq<byte>, mem': seq<byte>, m: Map, nx: Nexts, base: nat, c: nat, n: nat)
    requires Tiled(m, base, |mem|) && Image(mem, m, nx) && c in m && 12 + n <= m[c].size && |mem'| == |mem|
    requires forall k {:trigger mem'[k]} :: 0 <= k < |mem| && !(c + 12 <= k < c + 12 + n) ==> mem'[k] == mem[k]
    ensures Image(mem', m, nx)
  {
    Separate(m, base, |mem|, c);
    forall a {:trigger Probe(a)} | a in m ensures a in nx && Header(mem', a, m[a], nx[a]) {
      assert Probe(a) && (a == c || a + m[a].size <= c || c + m[c].size <= a);
      WordKept(mem, mem', a);
      WordKept(mem, mem', a + 4);
      WordKept(mem, mem', a + 8);
    }
  }

  /** Writing one live payload leaves the others alone. */
  lemma LiveWrite(mem: seq<byte>, mem': seq<byte>, m: Map, base: nat, c: nat)
    requires Tiled(m, base, |mem|) && c in m && m[c].kind == Busy && |mem'| == |mem|
    requires forall k {:trigger mem'[k]} :: 0 <= k < |mem| && !(c + 12 <= k < c + m[c].size) ==> mem'[k] == mem[k]
    ensures LiveOf(mem', m) == LiveOf(mem, m)[c := Payload(mem', c, m[c].size)]
  {
    Separate(m, base, |mem|, c);
    forall a {:trigger m[a]} | a in m && m[a].kind == Busy && a != c
      ensures Payload(mem', a, m[a].size) == Payload(mem, a, m[a].size)
    {
      forall k | a + 12 <= k < a + m[a].size ensures mem'[k] == mem[k] {}
    }
  }

  /** Shrinking a live block keeps the front of its payload. */
  lemma LiveShrunk(mem: seq<byte>, mem': seq<byte>, m: Map, base: nat, b: nat, want: nat)
    requires Tiled(m, base, |mem|) && b in m && m[b].kind == Busy && 16 <= want && want + 20 <= m[b].size
    requires Kept(SplitOf(m, b, want), mem, mem')
    ensures b in LiveOf(mem, m) && want - 12 <= |LiveOf(mem, m)[b]|
    ensures LiveOf(mem', SplitOf(m, b, want)) == LiveOf(mem, m)[b := LiveOf(mem, m)[b][..want - 12]]
  {
    var m' := SplitOf(m, b, want);
    assert Lt(b, b + want);
    forall a {:trigger m'[a]} | a in m' && m'[a].kind == Busy
      ensures Payload(mem', a, m'[a].size) == Payload(mem, a, m'[a].size)
    {
      forall k | a + 12 <= k < a + m'[a].size ensures mem'[k] == mem[k] {}
    }
    assert Payload(mem, b, want) == Payload(mem, b, m[b].size)[..want - 12];
  }

  /** The tail cut off a busy block is flagged free and on no list. */
  lemma ShrinkLoses(m: Map, b: nat, want: nat)
    requires b in m && m[b].kind == Busy && want <= m[b].size
    ensures !NoLost(SplitOf(m, b, want))
  {
    assert SplitOf(m, b, want)[b + want].kind == Lost;
  }

  lemma ShrinkApart(m: Map, b: nat, want: nat)
    requires Apart(m) && b in m && m[b].kind == Busy && want <= m[b].size && b + want !in m
    ensures Apart(SplitOf(m, b, want))
  {}

  lemma LiveSize(mem: seq<byte>, m: Map, base: nat, a: nat)
    requires Tiled(m, base, |mem|) && a in m && m[a].kind == Busy
    ensures a in LiveOf(mem, m) && |LiveOf(mem, m)[a]| == m[a].size - 12
    ensures LiveOf(mem, m)[a] == mem[a + 12..a + m[a].size]
  {}
}
