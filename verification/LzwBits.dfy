/** LZW codes as bits of growing width, and whole code streams back from them. */
module LzwBits {
  import opened Bits
  import opened Lzw
  import opened LzwEncoder

  /** The least width from b up, at most twelve, that top fits. */
  function Grow(b: nat, top: nat): (r: nat)
    requires b <= 12
    ensures b <= r <= 12
    decreases 12 - b
  {
    if b == 12 || top < Pow2(b) then b else Grow(b + 1, top)
  }

  lemma {:induction false} GrowIs(b: nat, top: nat, r: nat)
    requires b <= r <= 12 && (r == 12 || top < Pow2(r)) && (b < r ==> Pow2(r - 1) <= top)
    ensures Grow(b, top) == r
    decreases r - b
  {
    if b < r {
      Pow2Mono(b, r - 1);
      GrowIs(b + 1, top, r);
    }
  }

  /** What a writer of codes keeps: whether a code has followed the last clear, and the entries made since. */
  datatype Writer = Writer(begun: bool, n: nat)

  /** The largest code that can come next. */
  function Top(K: nat, w: Writer): nat {
    if !w.begun then K + 1 else if K + 2 + w.n < 4096 then K + 2 + w.n else 4095
  }

  function Width(K: nat, m: nat, w: Writer): (r: nat)
    requires m <= 11
    ensures m + 1 <= r <= 12
  {
    Grow(m + 1, Top(K, w))
  }

  function Wrote(K: nat, w: Writer, c: nat): Writer {
    if c == K then Writer(false, 0)
    else Writer(true, if w.begun && K + 2 + w.n < 4096 then w.n + 1 else w.n)
  }

  /** A code stream as bits, each code as wide as the codes possible at that point need. */
  function Write(K: nat, m: nat, w: Writer, cs: seq<nat>): (r: seq<bit>)
    requires m <= 11
    decreases cs
  {
    if cs == [] then [] else NatBits(cs[0], Width(K, m, w)) + Write(K, m, Wrote(K, w, cs[0]), cs[1..])
  }

  // ---- the decoder's width is the writer's ----

  ghost predicate InStep(K: nat, m: nat, w: Writer, d: State)
    requires m <= 11
  {
    w.begun == d.prev.Some? && w.n == |d.T.P| && (!w.begun ==> w.n == 0) && d.csz == Width(K, m, w)
  }

  /** For code sizes of at least two the decoder's width keeps up with the writer's. */
  lemma StaysInStep(K: nat, m: nat, w: Writer, d: State, c: nat)
    requires 2 <= m <= 8 && K == Pow2(m) && StateOk(K, m, d) && InStep(K, m, w, d) && TurnFor(K, m, d, c).Go?
    ensures InStep(K, m, Wrote(K, w, c), TurnFor(K, m, d, c).d)
  {
    hide Str, Grow;
    assert Pow2(m + 1) == 2 * K && K >= 4 by { Pow2Mono(2, m); assert Pow2(2) == 4; }
    assert Pow2(12) == 4096;
    if c == K {
      GrowIs(m + 1, K + 1, m + 1);
    } else if !w.begun {
      GrowIs(m + 1, K + 1, m + 1);
      GrowIs(m + 1, K + 2, m + 1);
    } else {
      WidthGrows(m, Top(K, w), d.csz);
      if Avail(K, d.T) < 4096 { NextWidth(K, m, w, d); }
    }
  }

  lemma {:induction false} GrowBounds(b: nat, top: nat)
    requires b <= 12
    ensures var r := Grow(b, top); (r == 12 || top < Pow2(r)) && (b < r ==> Pow2(r - 1) <= top)
    decreases 12 - b
  {
    if !(b == 12 || top < Pow2(b)) { GrowBounds(b + 1, top); }
  }

  lemma WidthGrows(m: nat, top: nat, csz: nat)
    requires m <= 11 && csz == Grow(m + 1, top)
    ensures (csz == 12 || top < Pow2(csz)) && (m + 1 < csz ==> Pow2(csz - 1) <= top)
  {
    GrowBounds(m + 1, top);
  }

  /** The decoder widens its codes exactly when the next entry's number needs another bit. */
  lemma NextWidth(K: nat, m: nat, w: Writer, d: State)
    requires 2 <= m <= 8 && w.begun && InStep(K, m, w, d) && Avail(K, d.T) < 4096
    ensures var csz' := if Avail(K, d.T) + 1 == Pow2(d.csz) && d.csz < 12 then d.csz + 1 else d.csz;
            csz' == Width(K, m, Writer(true, w.n + 1))
  {
    var top := Avail(K, d.T);
    assert Pow2(12) == 4096;
    WidthGrows(m, top, d.csz);
    if top + 1 == Pow2(d.csz) && d.csz < 12 {
      assert Pow2(d.csz + 1) == 2 * Pow2(d.csz);
      Pow2Mono(d.csz + 1, 12);
      assert top + 1 < 4096;
      GrowIs(m + 1, top + 1, d.csz + 1);
    } else {
      GrowIs(m + 1, Top(K, Writer(true, w.n + 1)), d.csz);
    }
  }

  // ---- reading what was written ----

  /** A code the decoder accepts fits the width. */
  lemma CodeFitsWidth(K: nat, m: nat, w: Writer, d: State, c: nat)
    requires 2 <= m <= 8 && StateOk(K, m, d) && InStep(K, m, w, d) && c < 4096 && !TurnFor(K, m, d, c).Malformed?
    ensures c < Pow2(d.csz)
  {
    GrowBounds(m + 1, Top(K, w));
    assert Pow2(12) == 4096;
  }

  lemma CodesTurn(K: nat, m: nat, d: State, cs: seq<nat>, r: Turn)
    requires StateOk(K, m, d) && m <= 11 && Small(cs) && cs != [] && TurnFor(K, m, d, cs[0]) == r
    ensures r.Stop? ==> DecodeCodes(K, m, d, cs) == Output([], true)
    ensures r.Malformed? ==> DecodeCodes(K, m, d, cs) == Output([], false)
    ensures r.Go? ==> StateOk(K, m, r.d) && var rest := DecodeCodes(K, m, r.d, cs[1..]);
                      DecodeCodes(K, m, d, cs) == Output(r.s + rest.s, rest.ok)
  {
    TurnOk(K, m, d, cs[0]);
  }

  /** The bits of the codes stand in bs at pos. */
  ghost predicate WrittenAt(K: nat, m: nat, w: Writer, cs: seq<nat>, bs: seq<bit>, pos: nat)
    requires m <= 11
    decreases cs
  {
    if cs == [] then true
    else
      var n := Width(K, m, w);
      pos + n <= |bs| && bs[pos..pos + n] == NatBits(cs[0], n)
      && WrittenAt(K, m, Wrote(K, w, cs[0]), cs[1..], bs, pos + n)
  }

  lemma {:induction false} WriteAt(K: nat, m: nat, w: Writer, cs: seq<nat>, bs: seq<bit>, pos: nat)
    requires m <= 11
    requires pos + |Write(K, m, w, cs)| <= |bs| && bs[pos..pos + |Write(K, m, w, cs)|] == Write(K, m, w, cs)
    ensures WrittenAt(K, m, w, cs, bs, pos)
    decreases cs
  {
    if cs != [] {
      var n, rest := Width(K, m, w), Write(K, m, Wrote(K, w, cs[0]), cs[1..]);
      var x := bs[pos..pos + n + |rest|];
      assert bs[pos..pos + n] == x[..n] == NatBits(cs[0], n);
      assert bs[pos + n..pos + n + |rest|] == x[n..] == rest;
      WriteAt(K, m, Wrote(K, w, cs[0]), cs[1..], bs, pos + n);
    }
  }

  lemma FirstCode(K: nat, m: nat, w: Writer, d: State, cs: seq<nat>, bs: seq<bit>, pos: nat)
    requires 2 <= m <= 8 && StateOk(K, m, d) && InStep(K, m, w, d) && WrittenAt(K, m, w, cs, bs, pos)
    requires Small(cs) && cs != [] && !TurnFor(K, m, d, cs[0]).Malformed?
    ensures pos + d.csz <= |bs| && ValAt(bs, pos, d.csz) == cs[0]
  {
    CodeFitsWidth(K, m, w, d, cs[0]);
    ValAtNat(bs, pos, cs[0], d.csz);
  }

  /** One code read back: what is left to show is about the rest. */
  lemma GoesOn(K: nat, m: nat, w: Writer, d: State, cs: seq<nat>, bs: seq<bit>, pos: nat, r: Turn)
    requires 2 <= m <= 8 && K == Pow2(m) && StateOk(K, m, d) && InStep(K, m, w, d) && Small(cs) && cs != []
    requires pos + d.csz <= |bs| && ValAt(bs, pos, d.csz) == cs[0] && TurnFor(K, m, d, cs[0]) == r && r.Go?
    ensures StateOk(K, m, r.d) && InStep(K, m, Wrote(K, w, cs[0]), r.d)
    ensures DecodeCodes(K, m, d, cs).ok == DecodeCodes(K, m, r.d, cs[1..]).ok
    ensures DecodeBits(K, m, r.d, bs, pos + d.csz) == DecodeCodes(K, m, r.d, cs[1..]) ==>
              DecodeBits(K, m, d, bs, pos) == DecodeCodes(K, m, d, cs)
  {
    CodesTurn(K, m, d, cs, r);
    BitsTurn(K, m, d, bs, pos, cs[0], r);
    StaysInStep(K, m, w, d, cs[0]);
  }

  /** Reading back the bits of a stream that ends gives its codes' indices, whatever bits follow. */
  lemma {:induction false} WriteBack(K: nat, m: nat, w: Writer, d: State, cs: seq<nat>, bs: seq<bit>, pos: nat)
    requires 2 <= m <= 8 && K == Pow2(m) && StateOk(K, m, d) && InStep(K, m, w, d) && WrittenAt(K, m, w, cs, bs, pos)
    requires Small(cs) && cs != [] && cs[|cs| - 1] == K + 1 && DecodeCodes(K, m, d, cs).ok
    ensures DecodeBits(K, m, d, bs, pos) == DecodeCodes(K, m, d, cs)
    decreases cs
  {
    hide StringFor, After, DecodeCodes, DecodeBits, TableOk, Known, Str, ValAt, Pow2, Grow;
    var r := TurnFor(K, m, d, cs[0]);
    assert !r.Malformed? by { CodesTurn(K, m, d, cs, r); }
    FirstCode(K, m, w, d, cs, bs, pos);
    if r.Go? {
      GoesOn(K, m, w, d, cs, bs, pos, r);
      WriteBack(K, m, Wrote(K, w, cs[0]), r.d, cs[1..], bs, pos + d.csz);
    } else {
      CodesTurn(K, m, d, cs, r);
      BitsTurn(K, m, d, bs, pos, cs[0], r);
    }
  }

  /** Any data, encoded and written as bits, is decoded back. */
  lemma LzwRoundTrip(m: nat, data: seq<byte>, clears: set<nat>, bs: seq<bit>)
    requires 2 <= m <= 8 && 4 <= Pow2(m) <= 256 && Indices(Pow2(m), data)
    requires Write(Pow2(m), m, Writer(false, 0), Encode(Pow2(m), data, clears)) <= bs
    ensures StateOk(Pow2(m), m, Start(m)) && DecodeBits(Pow2(m), m, Start(m), bs, 0) == Output(data, true)
  {
    var K, w, cs := Pow2(m), Writer(false, 0), Encode(Pow2(m), data, clears);
    CodesRoundTrip(K, m, data, clears);
    EncodeSmall(K, data, clears);
    assert Pow2(m + 1) == 2 * K;
    GrowIs(m + 1, K + 1, m + 1);
    WriteAt(K, m, w, cs, bs, 0);
    WriteBack(K, m, w, Start(m), cs, bs, 0);
  }
}
