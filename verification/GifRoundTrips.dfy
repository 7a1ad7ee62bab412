/** From palette indices to a GIF's sub-blocks and back. */
module GifRoundTrips {
  import opened Bits
  import opened Lzw
  import opened LzwEncoder
  import opened LzwBits
  import opened Gif

  /** Data as sub-blocks of at most 255 bytes and a terminator. */
  function SubBlocks(data: seq<byte>): (r: seq<byte>)
    ensures |r| > 0
  {
    if data == [] then [0]
    else
      var n := if |data| < 255 then |data| else 255;
      [n] + data[..n] + SubBlocks(data[n..])
  }

  lemma {:induction false} LeftRun(src: seq<byte>, dp: nat, n: nat)
    requires dp + n <= |src|
    ensures Left(src, dp, n) == src[dp..dp + n] + Left(src, dp + n, 0)
    decreases n
  {
    if n > 0 {
      LeftRun(src, dp + 1, n - 1);
      assert src[dp..dp + n] == [src[dp]] + src[dp + 1..dp + n];
    } else {
      assert src[dp..dp] == [];
    }
  }

  lemma SubSlice(s: seq<byte>, p: nat, n: nat, i: nat, j: nat)
    requires i <= j <= n && p + n <= |s|
    ensures s[p..p + n][i..j] == s[p + i..p + j]
  {
    var w := s[p..p + n];
    var x, y := w[i..j], s[p + i..p + j];
    forall k | 0 <= k < |x| ensures x[k] == y[k] { assert x[k] == w[i + k]; }
  }

  /** The bytes of sub-blocks are the data, whatever follows the terminator. */
  lemma {:induction false} SubBlocksBack(data: seq<byte>, src: seq<byte>, dp: nat)
    requires dp + |SubBlocks(data)| <= |src| && src[dp..dp + |SubBlocks(data)|] == SubBlocks(data)
    ensures Left(src, dp, 0) == data
    decreases |data|
  {
    var x := src[dp..dp + |SubBlocks(data)|];
    assert src[dp] == x[0];
    if data != [] {
      var n := if |data| < 255 then |data| else 255;
      var rest := SubBlocks(data[n..]);
      assert x == [n] + data[..n] + rest;
      SubSlice(src, dp, |x|, 1, 1 + n);
      SubSlice(src, dp, |x|, 1 + n, |x|);
      assert x[1..1 + n] == data[..n] && x[1 + n..|x|] == rest;
      SubBlocksBack(data[n..], src, dp + 1 + n);
      LeftRun(src, dp + 1, n);
      assert data[..n] + data[n..] == data;
    }
  }

  /** Zero bits up to a whole byte. */
  function Padded(bs: seq<bit>): (r: seq<bit>)
    ensures |r| % 8 == 0 && bs <= r
  {
    bs + NatBits(0, (8 - |bs| % 8) % 8)
  }

  lemma CodeSize(m: nat)
    requires 2 <= m <= 8
    ensures 4 <= Pow2(m) <= 256
  {
    Pow2Mono(2, m);
    Pow2Mono(m, 8);
    assert Pow2(2) == 4 && Pow2(8) == 256;
  }

  /** The image data of a GIF for the given indices. */
  ghost function ImageData(m: nat, data: seq<byte>, clears: set<nat>): seq<byte>
    requires 2 <= m <= 8 && 4 <= Pow2(m) <= 256 && Indices(Pow2(m), data)
  {
    SubBlocks(Pack(Padded(Write(Pow2(m), m, Writer(false, 0), Encode(Pow2(m), data, clears)))))
  }

  /** Every index sequence survives, for every code size the format allows and wherever the table is cleared. */
  lemma GifRoundTrip(m: nat, data: seq<byte>, clears: set<nat>, tail: seq<byte>)
    requires 2 <= m <= 8 && 4 <= Pow2(m) <= 256 && Indices(Pow2(m), data)
    ensures StateOk(Pow2(m), m, Start(m))
    ensures DecodeBits(Pow2(m), m, Start(m), Stream(Left(ImageData(m, data, clears) + tail, 0, 0)), 0)
            == Output(data, true)
  {
    var bits := Padded(Write(Pow2(m), m, Writer(false, 0), Encode(Pow2(m), data, clears)));
    var x := SubBlocks(Pack(bits));
    assert (x + tail)[0..|x|] == x;
    SubBlocksBack(Pack(bits), x + tail, 0);
    StreamPack(bits);
    LzwRoundTrip(m, data, clears, bits);
  }

  // ---- one-bit code sizes ----

  lemma NarrowCodes()
    ensures Indices(2, [0, 0]) && Encode(2, [0, 0], {}) == [2, 0, 0, 3]
  {
    var T := Table([0], [0]);
    var data: seq<byte> := [0, 0];
    assert Codes(2, T, 0, data, 2, {}) == [0, 3];
    assert Learn(2, Empty, 0, 0) == T;
    assert Codes(2, Empty, 0, data, 1, {}) == [0] + [0, 3];
  }

  lemma NarrowWidths()
    ensures Width(2, 1, Writer(false, 0)) == 2 && Width(2, 1, Writer(true, 0)) == 3 && Width(2, 1, Writer(true, 1)) == 3
  {
    assert Pow2(2) == 4 && Pow2(3) == 8;
    GrowIs(2, 3, 2);
    GrowIs(2, 4, 3);
    GrowIs(2, 5, 3);
  }

  lemma NarrowBits(bs: seq<bit>)
    requires bs == [0, 1, 0, 0, 0, 0, 0, 1, 1, 0]
    ensures Write(2, 1, Writer(false, 0), [2, 0, 0, 3]) == bs
  {
    NarrowWidths();
    assert Write(2, 1, Writer(true, 1), [3]) == NatBits(3, 3) == [1, 1, 0];
    assert Write(2, 1, Writer(true, 0), [0, 3]) == NatBits(0, 3) + [1, 1, 0] == [0, 0, 0, 1, 1, 0];
    assert Write(2, 1, Writer(false, 0), [0, 0, 3]) == NatBits(0, 2) + [0, 0, 0, 1, 1, 0] == [0, 0, 0, 0, 0, 1, 1, 0];
    assert NatBits(2, 2) == [0, 1];
  }

  lemma NarrowTurn(d: State, bs: seq<bit>, pos: nat, c: nat, d': State, s: seq<byte>, t: seq<byte>)
    requires StateOk(2, 1, d) && d.csz == 2 && pos + 2 <= |bs| && ValAt(bs, pos, 2) == c
             && TurnFor(2, 1, d, c) == Go(d', s)
    requires StateOk(2, 1, d') && DecodeBits(2, 1, d', bs, pos + 2) == Output(t, true)
    ensures DecodeBits(2, 1, d, bs, pos) == Output(s + t, true)
  {
    BitsTurn(2, 1, d, bs, pos, c, Go(d', s));
  }

  lemma Pair(bs: seq<bit>, pos: nat)
    requires pos + 2 <= |bs|
    ensures ValAt(bs, pos, 2) == (bs[pos] as int) + 2 * (bs[pos + 1] as int)
  {
    assert ValAt(bs, pos + 2, 0) == 0 && ValAt(bs, pos + 1, 1) == bs[pos + 1];
  }

  lemma NarrowVals(bs: seq<bit>)
    requires bs == [0, 1, 0, 0, 0, 0, 0, 1, 1, 0]
    ensures ValAt(bs, 0, 2) == 2 && ValAt(bs, 2, 2) == 0 && ValAt(bs, 4, 2) == 0 && ValAt(bs, 6, 2) == 2
            && ValAt(bs, 8, 2) == 1
  {
    Pair(bs, 0); Pair(bs, 2); Pair(bs, 4); Pair(bs, 6); Pair(bs, 8);
  }

  /** The decoder before its first code, after the first index, with one entry made, and after the last code. */
  const Fresh := State(2, Empty, None, 0)
  const OneRead := State(2, Empty, Some(0), 0)
  const OneMade := State(2, Table([0], [0]), Some(0), 0)
  const Misread := State(2, Empty, Some(1), 1)

  lemma NarrowStates()
    ensures StateOk(2, 1, Fresh) && StateOk(2, 1, OneRead) && StateOk(2, 1, OneMade) && StateOk(2, 1, Misread)
    ensures TurnFor(2, 1, Fresh, 2) == Go(Fresh, []) && TurnFor(2, 1, Fresh, 0) == Go(OneRead, [0])
    ensures TurnFor(2, 1, OneRead, 0) == Go(OneMade, [0]) && TurnFor(2, 1, OneMade, 2) == Go(Fresh, [])
    ensures TurnFor(2, 1, Fresh, 1) == Go(Misread, [1])
  {
    assert Pow2(2) == 4;
  }

  lemma NoBitsLeft(d: State, bs: seq<bit>, pos: nat)
    requires StateOk(2, 1, d) && pos == |bs|
    ensures DecodeBits(2, 1, d, bs, pos) == Output([], true)
  {}

  lemma NarrowDecode(bs: seq<bit>)
    requires bs == [0, 1, 0, 0, 0, 0, 0, 1, 1, 0]
    ensures StateOk(2, 1, Start(1)) && DecodeBits(2, 1, Start(1), bs, 0) == Output([0, 0, 1], true)
  {
    hide DecodeBits, ValAt, TurnFor, StateOk;
    NarrowStates();
    NarrowVals(bs);
    NoBitsLeft(Misread, bs, 10);
    NarrowTurn(Fresh, bs, 8, 1, Misread, [1], []);
    NarrowTurn(OneMade, bs, 6, 2, Fresh, [], [1]);
    NarrowTurn(OneRead, bs, 4, 0, OneMade, [0], [1]);
    NarrowTurn(Fresh, bs, 2, 0, OneRead, [0], [0, 1]);
    NarrowTurn(Fresh, bs, 0, 2, Fresh, [], [0, 0, 1]);
  }

  /** The writer's codes do grow, so indices 0, 0 come back as 0, 0, 1. */
  lemma NarrowFails()
    ensures StateOk(2, 1, Start(1)) && Indices(2, [0, 0])
    ensures DecodeBits(2, 1, Start(1), Write(2, 1, Writer(false, 0), Encode(2, [0, 0], {})), 0)
            == Output([0, 0, 1], true)
  {
    var bs: seq<bit> := [0, 1, 0, 0, 0, 0, 0, 1, 1, 0];
    NarrowCodes();
    NarrowBits(bs);
    NarrowDecode(bs);
  }

  /** The data comes back from its bits. */
  ghost predicate Survives(m: nat, data: seq<byte>, clears: set<nat>)
    requires m <= 8 && 2 <= Pow2(m) <= 256 && Indices(Pow2(m), data)
  {
    DecodeBits(Pow2(m), m, Start(m), Write(Pow2(m), m, Writer(false, 0), Encode(Pow2(m), data, clears)), 0)
    == Output(data, true)
  }

  /** Of the code sizes the decoder accepts, exactly those of at least two bring every index sequence back. */
  lemma CodeSizeIff(m: nat)
    requires 1 <= m <= 8
    ensures 2 <= Pow2(m) <= 256
    ensures (forall data: seq<byte>, clears: set<nat> :: Indices(Pow2(m), data) ==> Survives(m, data, clears))
            <==> m >= 2
  {
    assert Pow2(1) == 2;
    if m == 1 {
      NarrowFails();
      assert Indices(Pow2(1), [0, 0]) && !Survives(1, [0, 0], {});
    } else {
      CodeSize(m);
      forall data: seq<byte>, clears: set<nat> | Indices(Pow2(m), data) ensures Survives(m, data, clears) {
        LzwRoundTrip(m, data, clears, Write(Pow2(m), m, Writer(false, 0), Encode(Pow2(m), data, clears)));
      }
    }
  }

  // ---- one known stream ----

  const Before := State(3, Empty, None, 0)
  const After1 := State(3, Empty, Some(1), 1)
  const After6 := State(3, Table([1], [1]), Some(6), 1)
  const After2 := State(4, Table([1, 6], [1, 2]), Some(2), 2)
  const After7 := State(4, Table([1, 6, 2], [1, 2, 1]), Some(7), 1)

  lemma KnownStates()
    ensures StateOk(4, 2, Before) && StateOk(4, 2, After1) && StateOk(4, 2, After6)
    ensures StateOk(4, 2, After2) && StateOk(4, 2, After7) && Start(2) == Before
  {}

  lemma KnownTurns()
    requires StateOk(4, 2, Before) && StateOk(4, 2, After1) && StateOk(4, 2, After6)
    requires StateOk(4, 2, After2) && StateOk(4, 2, After7)
    ensures TurnFor(4, 2, Before, 4) == Go(Before, []) && TurnFor(4, 2, Before, 1) == Go(After1, [1])
    ensures TurnFor(4, 2, After1, 6) == Go(After6, [1, 1]) && TurnFor(4, 2, After6, 2) == Go(After2, [2])
    ensures TurnFor(4, 2, After2, 7) == Go(After7, [1, 1, 2]) && TurnFor(4, 2, After7, 5) == Stop
  {
    hide Pow2;
    SmallWidths();
    assert Str(4, After2.T, 6) == [1] + [1];
    assert Str(4, After2.T, 7) == [1, 1] + [2];
  }

  lemma SmallWidths()
    ensures Pow2(3) == 8 && Pow2(4) == 16
  {}

  lemma TurnThen(d: State, c: nat, cs: seq<nat>, d': State, s: seq<byte>, t: seq<byte>)
    requires StateOk(4, 2, d) && StateOk(4, 2, d') && c < 4096 && Small(cs) && TurnFor(4, 2, d, c) == Go(d', s)
    requires DecodeCodes(4, 2, d', cs) == Output(t, true)
    ensures Small([c] + cs) && DecodeCodes(4, 2, d, [c] + cs) == Output(s + t, true)
  {
    var all := [c] + cs;
    assert all[1..] == cs && all[0] == c;
  }

  lemma EndAt(d: State)
    requires StateOk(4, 2, d) && TurnFor(4, 2, d, 5) == Stop
    ensures Small([5]) && DecodeCodes(4, 2, d, [5]) == Output([], true)
  {}

  /**
    With four colours: clear, 1, the code about to be made, 2, and the code made
    by that, where the width has grown to four bits.
   */
  lemma KnownCodes()
    ensures StateOk(4, 2, Start(2)) && Small([4] + ([1] + ([6] + ([2] + ([7] + [5])))))
    ensures DecodeCodes(4, 2, Start(2), [4] + ([1] + ([6] + ([2] + ([7] + [5])))))
            == Output([1, 1, 1, 2, 1, 1, 2], true)
  {
    hide StateOk, TurnFor, DecodeCodes, Small;
    KnownStates();
    KnownTurns();
    EndAt(After7);
    TurnThen(After2, 7, [5], After7, [1, 1, 2], []);
    TurnThen(After6, 2, [7] + [5], After2, [2], [1, 1, 2] + []);
    TurnThen(After1, 6, [2] + ([7] + [5]), After6, [1, 1], [2] + ([1, 1, 2] + []));
    TurnThen(Before, 1, [6] + ([2] + ([7] + [5])), After1, [1], [1, 1] + ([2] + ([1, 1, 2] + [])));
    TurnThen(Before, 4, [1] + ([6] + ([2] + ([7] + [5]))), Before, [], [1] + ([1, 1] + ([2] + ([1, 1, 2] + []))));
    assert [] + ([1] + ([1, 1] + ([2] + ([1, 1, 2] + [])))) == [1, 1, 1, 2, 1, 1, 2];
  }
}
