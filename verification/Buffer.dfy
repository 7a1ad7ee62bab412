/** The growable byte buffer of tar.c. */
module Buffer {
  import opened Bits

  function Zeros(n: nat): (r: seq<byte>)
    ensures |r| == n && forall i :: 0 <= i < n ==> r[i] == 0
  {
    seq(n, i => 0)
  }

  // ---- the capacity bput settles on ----

  /** A capacity reached by doubling from 8192. */
  ghost predicate Doubled(n: nat) {
    exists k: nat :: n == 8192 * Pow2(k)
  }

  /** nc after j turns of the 32-bit doubling loop. */
  function Doubling(nc: nat, j: nat): nat {
    if j == 0 then nc else U32(2 * Doubling(nc, j - 1))
  }

  function First(cap: nat): (r: nat) { if cap == 0 then 8192 else cap }

  /** The doubling loop ends after j turns. */
  ghost predicate Ends(nc: nat, need: nat, j: nat) {
    Doubling(nc, j) >= need && forall i: nat :: i < j ==> Doubling(nc, i) < need
  }

  /** bput, asked for need bytes, goes on with capacity nc. */
  ghost predicate Settles(cap: nat, need: nat, nc: nat) {
    if need <= cap then nc == cap else exists j: nat :: nc == Doubling(First(cap), j) && Ends(First(cap), need, j)
  }

  lemma PowEighteen()
    ensures Pow2(18) == 262144
  {
    assert Pow2(9) == 512;
  }

  lemma DoubledBound(n: nat)
    requires Doubled(n) && n < 0x1_0000_0000
    ensures n <= 0x8000_0000
  {
    var k: nat :| n == 8192 * Pow2(k);
    PowEighteen();
    if k >= 19 { Pow2Mono(19, k); } else { Pow2Mono(k, 18); }
  }

  /** Below 2 GiB, doubling stays within 32 bits. */
  lemma DoubleFits(n: nat)
    requires Doubled(n) && n < 0x8000_0000
    ensures Doubled(2 * n) && 2 * n <= 0x8000_0000
  {
    var k: nat :| n == 8192 * Pow2(k);
    assert 2 * n == 8192 * Pow2(k + 1);
    DoubledBound(2 * n);
  }

  /** However long it runs, doubling never passes 2 GiB: after 2 GiB it is zero. */
  lemma {:induction false} DoublingBound(nc: nat, j: nat)
    requires Doubled(nc) && nc < 0x1_0000_0000
    ensures Doubling(nc, j) == 0 || Doubled(Doubling(nc, j))
    ensures Doubling(nc, j) <= 0x8000_0000
  {
    if j == 0 {
      DoubledBound(nc);
    } else {
      DoublingBound(nc, j - 1);
      if 0 < Doubling(nc, j - 1) < 0x8000_0000 { DoubleFits(Doubling(nc, j - 1)); }
    }
  }

  lemma {:induction false} ZeroStays(nc: nat, j: nat)
    requires nc == 0
    ensures Doubling(nc, j) == 0
  {
    if j > 0 { ZeroStays(nc, j - 1); }
  }

  lemma {:induction false} DoublingFrom(nc: nat, j: nat)
    requires j > 0
    ensures Doubling(nc, j) == Doubling(U32(2 * nc), j - 1)
  {
    if j > 1 { DoublingFrom(nc, j - 1); }
  }

  /** One more turn in front. */
  lemma EndsLater(nc: nat, need: nat, j: nat)
    requires nc < need && Ends(U32(2 * nc), need, j)
    ensures Ends(nc, need, j + 1)
  {
    DoublingFrom(nc, j + 1);
    forall i: nat | i < j + 1
      ensures Doubling(nc, i) < need
    {
      if i > 0 { DoublingFrom(nc, i); }
    }
  }

  lemma {:induction false} EndsBelow(nc: nat, need: nat) returns (j: nat)
    requires Doubled(nc) && 0 < nc < 0x1_0000_0000 && need <= 0x8000_0000
    ensures Ends(nc, need, j)
    decreases need - nc
  {
    if nc >= need {
      j := 0;
      assert Doubling(nc, 0) == nc;
    } else {
      DoubleFits(nc);
      var i := EndsBelow(U32(2 * nc), need);
      EndsLater(nc, need, i);
      j := i + 1;
    }
  }

  lemma FirstDoubled(cap: nat)
    requires cap == 0 || Doubled(cap)
    ensures Doubled(First(cap)) && First(cap) > 0
  {
    assert Pow2(0) == 1;
    assert cap == 0 ==> First(cap) == 8192 * Pow2(0);
  }

  lemma {:induction false} DoublingPow(nc: nat, j: nat)
    requires nc == 8192 && j <= 18
    ensures Doubling(nc, j) == nc * Pow2(j)
  {
    if j > 0 {
      DoublingPow(nc, j - 1);
      PowEighteen();
      Pow2Mono(j, 18);
    }
  }

  lemma NineteenTurns(nc: nat, j: nat)
    requires nc == 8192 && j == 19
    ensures Doubling(nc, j) == 0
  {
    hide Pow2;
    DoublingPow(nc, j - 1);
    PowEighteen();
  }

  /**
    From 8192 the nineteenth doubling is zero, and so is every later one: asked for more
    than 2 GiB, the loop runs for ever.
   */
  lemma EndlessDoubling(nc: nat, need: nat, j: nat)
    requires nc == 8192 && need > 0x8000_0000
    ensures Doubling(nc, 19) == 0 && Doubling(Doubling(nc, 19), j) == 0 && !Ends(nc, need, j)
  {
    hide Doubling;
    NineteenTurns(nc, 19);
    ZeroStays(Doubling(nc, 19), j);
    FirstDoubled(0);
    DoublingBound(nc, j);
  }

  lemma SettlesBound(cap: nat, need: nat, nc: nat)
    requires (cap == 0 || Doubled(cap)) && cap < 0x1_0000_0000 && Settles(cap, need, nc)
    ensures nc <= 0x8000_0000
  {
    FirstDoubled(cap);
    if cap > 0 { DoubledBound(cap); }
    if need > cap {
      var j: nat :| nc == Doubling(First(cap), j) && Ends(First(cap), need, j);
      DoublingBound(First(cap), j);
    }
  }

  /** bput settles on nc and its copy of n bytes stays inside. */
  ghost predicate Appends(cap: nat, len: nat, n: nat, nc: nat) {
    Settles(cap, U32(len + n), nc) && len + n <= nc
  }

  /**
    bput finds a capacity and its copy of n bytes stays inside exactly when the
    buffer ends up with at most 2 GiB.  Above that the loop never ends, and
    once len + n wraps the copy runs past a buffer that was not grown.
   */
  lemma AppendIff(cap: nat, len: nat, n: nat)
    requires (cap == 0 || Doubled(cap)) && len <= cap < 0x1_0000_0000 && n < 0x1_0000_0000
    ensures (exists nc :: Appends(cap, len, n, nc)) <==> len + n <= 0x8000_0000
  {
    FirstDoubled(cap);
    if cap > 0 { DoubledBound(cap); }
    if len + n <= 0x8000_0000 {
      if len + n > cap {
        var j := EndsBelow(First(cap), len + n);
        assert Appends(cap, len, n, Doubling(First(cap), j));
      } else {
        assert Appends(cap, len, n, cap);
      }
    } else {
      var need := U32(len + n);
      forall nc | Settles(cap, need, nc)
        ensures !Appends(cap, len, n, nc)
      {
        SettlesBound(cap, need, nc);
      }
    }
  }

  /** The doubling loop of bput. */
  method Capacity(cap: nat, need: nat) returns (nc: nat)
    requires (cap == 0 || Doubled(cap)) && cap < need <= 0x8000_0000
    ensures Settles(cap, need, nc) && need <= nc <= 0x8000_0000 && Doubled(nc)
  {
    FirstDoubled(cap);
    nc := if cap == 0 then 8192 else cap;
    ghost var j: nat := 0;
    while nc < need
      invariant 0 < nc <= 0x8000_0000 && Doubled(nc) && nc == Doubling(First(cap), j)
      invariant forall i: nat :: i < j ==> Doubling(First(cap), i) < need
      decreases need - nc
    {
      DoubleFits(nc);
      nc := U32(2 * nc);
      j := j + 1;
    }
    assert Ends(First(cap), need, j);
  }

  /** The first len bytes of p are in use. */
  class Buf {
    var p: array<byte>
    var len: nat

    ghost predicate Valid()
      reads this
    {
      len <= p.Length < 0x1_0000_0000 && (p.Length == 0 || Doubled(p.Length))
    }

    ghost function Contents(): (s: seq<byte>)
      requires Valid()
      reads this, p
    {
      p[..len]
    }

    constructor ()
      ensures Valid() && fresh(p) && Contents() == []
    {
      p := new byte[0];
      len := 0;
    }

    /**
      bput: appends d, moving everything to a larger array when it does not
      fit.  By AppendIff these are all the appends that come to an end in place.
     */
    method Put(d: seq<byte>)
      requires Valid() && len + |d| <= 0x8000_0000
      modifies this, p
      ensures Valid() && (p == old(p) || fresh(p))
      ensures Contents() == old(Contents()) + d && Settles(old(p.Length), len, p.Length)
    {
      hide Doubled, Ends, Doubling, First, Pow2;
      if len + |d| > p.Length {
        Grow(len + |d|);
      }
      var q, n := p, len;
      ghost var before := q[..n];
      var i := 0;
      while i < |d|
        invariant 0 <= i <= |d| && q == p && n == len && Valid() && n + |d| <= q.Length
        invariant q[..n + i] == before + d[..i]
      {
        q[n + i] := d[i];
        assert q[..n + i + 1] == before + d[..i + 1];
        i := i + 1;
      }
      len := n + |d|;
      assert d[..|d|] == d;
    }

    method Grow(need: nat)
      requires Valid() && p.Length < need <= 0x8000_0000
      modifies this`p
      ensures Valid() && fresh(p) && need <= p.Length && len == old(len) && Contents() == old(Contents())
      ensures Settles(old(p.Length), need, p.Length)
    {
      var nc := Capacity(p.Length, need);
      var q := new byte[nc];
      var i := 0;
      while i < len
        invariant 0 <= i <= len
        invariant forall k :: 0 <= k < i ==> q[k] == p[k] == old(p[k])
        modifies q
      {
        q[i] := p[i];
        i := i + 1;
      }
      p := q;
      assert Contents() == old(Contents());
    }
  }
}
