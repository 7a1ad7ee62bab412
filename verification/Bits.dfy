/** Bytes, bits and the shifts that the decoders share. */
module Bits {

  type byte = b: int | 0 <= b < 256
  type bit = b: int | 0 <= b < 2

  datatype Option<+T> = None | Some(value: T)

  // ---- C's operators on unsigned values ----

  /** v << k, before any truncation. */
  function Shl(v: nat, k: nat): (r: nat)
    ensures r >= v
  {
    if k == 0 then v else 2 * Shl(v, k - 1)
  }

  /** v >> k. */
  function Shr(v: nat, k: nat): nat
  {
    if k == 0 then v else Shr(v, k - 1) / 2
  }

  /** v & ((1 << k) - 1). */
  function Low(v: nat, k: nat): nat
  {
    if k == 0 then 0 else v % 2 + 2 * Low(v / 2, k - 1)
  }

  /** x | y. */
  function Or(x: nat, y: nat): (r: nat)
    decreases x + y
  {
    if x == 0 && y == 0 then 0
    else 2 * Or(x / 2, y / 2) + (if x % 2 + y % 2 == 0 then 0 else 1)
  }

  /** Truncation to an unsigned int. */
  function U32(x: int): nat { x % 0x1_0000_0000 }

  function Pow2(n: nat): (r: nat)
    ensures r >= 1
  {
    if n == 0 then 1 else 2 * Pow2(n - 1)
  }

  lemma {:induction false} ShrHalf(v: nat, k: nat)
    ensures Shr(v / 2, k) == Shr(v, k + 1)
  {
    if k > 0 { ShrHalf(v, k - 1); }
  }

  lemma {:induction false} ShrSmall(v: nat, k: nat)
    requires v < Pow2(k)
    ensures Shr(v, k) == 0
  {
    if k > 0 {
      ShrSmall(v / 2, k - 1);
      ShrHalf(v, k - 1);
    }
  }

  lemma {:induction false} ShlMono(v: nat, w: nat, k: nat, m: nat)
    requires v <= w && k <= m
    ensures Shl(v, k) <= Shl(w, m)
  {
    if k > 0 { ShlMono(v, w, k - 1, m - 1); } else if m > 0 { ShlMono(v, w, 0, m - 1); }
  }

  lemma {:induction false} OrZero(y: nat)
    ensures Or(0, y) == y && Or(y, 0) == y
  {
    if y > 0 { OrZero(y / 2); }
  }

  /** OR-ing in a value shifted past every set bit of x is addition. */
  lemma {:induction false} OrDisjoint(x: nat, y: nat, n: nat)
    requires x < Pow2(n)
    ensures Or(x, Shl(y, n)) == x + Shl(y, n)
  {
    if n == 0 {
      OrZero(y);
    } else {
      OrDisjoint(x / 2, y, n - 1);
    }
  }

  lemma {:induction false} ShlPow(v: nat, k: nat)
    ensures Shl(v, k) == v * Pow2(k)
  {
    if k > 0 { ShlPow(v, k - 1); }
  }

  lemma {:induction false} ShlBound(v: nat, n: nat, k: nat)
    requires v < Pow2(n)
    ensures Shl(v, k) < Pow2(n + k)
  {
    if k > 0 { ShlBound(v, n, k - 1); }
  }

  lemma {:induction false} Pow2Mono(m: nat, n: nat)
    requires m <= n
    ensures Pow2(m) <= Pow2(n)
  {
    if m < n { Pow2Mono(m, n - 1); }
  }

  // ---- bit strings, least significant bit first ----

  /** The value of the n bits from lo on. */
  function ValAt(bs: seq<bit>, lo: nat, n: nat): (r: nat)
    requires lo + n <= |bs|
    decreases |bs| - lo
  {
    if n == 0 then 0 else bs[lo] + 2 * ValAt(bs, lo + 1, n - 1)
  }

  /** The low n bits of v. */
  function NatBits(v: nat, n: nat): (r: seq<bit>)
    ensures |r| == n
  {
    if n == 0 then [] else [v % 2] + NatBits(v / 2, n - 1)
  }

  lemma {:induction false} ValAtBound(bs: seq<bit>, lo: nat, n: nat)
    requires lo + n <= |bs|
    ensures ValAt(bs, lo, n) < Pow2(n)
    decreases n
  {
    if n > 0 { ValAtBound(bs, lo + 1, n - 1); }
  }

  lemma {:induction false} NatBitsAt(v: nat, n: nat, k: nat)
    requires k < n
    ensures NatBits(v, n)[k] == Shr(v, k) % 2
  {
    if k > 0 {
      NatBitsAt(v / 2, n - 1, k - 1);
      ShrHalf(v, k - 1);
    }
  }

  /** Reading back n bits that were written as v. */
  lemma {:induction false} ValAtNat(bs: seq<bit>, lo: nat, v: nat, n: nat)
    requires lo + n <= |bs| && v < Pow2(n) && bs[lo..lo + n] == NatBits(v, n)
    ensures ValAt(bs, lo, n) == v
    decreases n
  {
    if n > 0 {
      assert bs[lo + 1..lo + n] == bs[lo..lo + n][1..] == NatBits(v / 2, n - 1);
      ValAtNat(bs, lo + 1, v / 2, n - 1);
      assert bs[lo] == bs[lo..lo + n][0];
    }
  }

  lemma {:induction false} NatBitsValAt(bs: seq<bit>, lo: nat, n: nat)
    requires lo + n <= |bs|
    ensures NatBits(ValAt(bs, lo, n), n) == bs[lo..lo + n]
    decreases n
  {
    if n > 0 {
      NatBitsValAt(bs, lo + 1, n - 1);
      assert bs[lo..lo + n] == [bs[lo]] + bs[lo + 1..lo + n];
    }
  }

  lemma {:induction false} ValAtSplit(bs: seq<bit>, lo: nat, m: nat, n: nat)
    requires lo + m + n <= |bs|
    ensures ValAt(bs, lo, m + n) == ValAt(bs, lo, m) + Shl(ValAt(bs, lo + m, n), m)
    decreases m
  {
    if m > 0 { ValAtSplit(bs, lo + 1, m - 1, n); }
  }

  /** Masking keeps the first bits read. */
  lemma {:induction false} LowValAt(bs: seq<bit>, lo: nat, n: nat, k: nat)
    requires k <= n && lo + n <= |bs|
    ensures Low(ValAt(bs, lo, n), k) == ValAt(bs, lo, k)
    decreases k
  {
    if k > 0 { LowValAt(bs, lo + 1, n - 1, k - 1); }
  }

  /** Shifting right drops them. */
  lemma {:induction false} ShrValAt(bs: seq<bit>, lo: nat, n: nat, k: nat)
    requires k <= n && lo + n <= |bs|
    ensures Shr(ValAt(bs, lo, n), k) == ValAt(bs, lo + k, n - k)
    decreases k
  {
    if k > 0 { ShrValAt(bs, lo, n, k - 1); }
  }

  /** Adding a byte above the bits held, as the bit readers do. */
  lemma Refill(bs: seq<bit>, lo: nat, n: nat, b: byte)
    requires n < 16 && lo + n + 8 <= |bs| && ValAt(bs, lo + n, 8) == b
    ensures Or(ValAt(bs, lo, n), U32(Shl(b, n))) == ValAt(bs, lo, n + 8)
  {
    assert U32(Shl(b, n)) == Shl(b, n) by {
      assert Pow2(8) == 256 && Pow2(23) == 8388608;
      ShlBound(b, 8, n);
      Pow2Mono(8 + n, 23);
    }
    assert Or(ValAt(bs, lo, n), Shl(b, n)) == ValAt(bs, lo, n) + Shl(b, n) by {
      ValAtBound(bs, lo, n);
      OrDisjoint(ValAt(bs, lo, n), b, n);
    }
    ValAtSplit(bs, lo, n, 8);
  }

  // ---- byte strings as bit strings ----

  function StreamBit(s: seq<byte>, k: nat): bit
    requires k < 8 * |s|
  {
    Shr(s[k / 8], k % 8) % 2
  }

  /** The bits DEFLATE and GIF read from bytes: each byte low bit first. */
  function Stream(s: seq<byte>): (r: seq<bit>)
    ensures |r| == 8 * |s|
  {
    seq(8 * |s|, k requires 0 <= k < 8 * |s| => StreamBit(s, k))
  }

  lemma StreamConcat(a: seq<byte>, b: seq<byte>)
    ensures Stream(a + b) == Stream(a) + Stream(b)
  {
    var x, y := Stream(a + b), Stream(a) + Stream(b);
    forall k | 0 <= k < 8 * (|a| + |b|)
      ensures x[k] == y[k]
    {
      assert x[k] == StreamBit(a + b, k);
      if k < 8 * |a| { assert y[k] == StreamBit(a, k); } else { assert y[k] == StreamBit(b, k - 8 * |a|); }
    }
  }

  lemma StreamSlice(s: seq<byte>, i: nat, j: nat)
    requires i <= j <= |s|
    ensures Stream(s)[8 * i..8 * j] == Stream(s[i..j])
  {
    var x, y := Stream(s)[8 * i..8 * j], Stream(s[i..j]);
    forall k | 0 <= k < 8 * (j - i)
      ensures x[k] == y[k]
    {
      assert x[k] == StreamBit(s, 8 * i + k);
      assert y[k] == StreamBit(s[i..j], k);
    }
  }

  lemma StreamByte(s: seq<byte>, i: nat)
    requires i < |s|
    ensures Stream(s)[8 * i..8 * i + 8] == NatBits(s[i], 8)
  {
    var x, y := Stream(s)[8 * i..8 * i + 8], NatBits(s[i], 8);
    forall k: nat | k < 8
      ensures x[k] == y[k]
    {
      assert x[k] == StreamBit(s, 8 * i + k);
      NatBitsAt(s[i], 8, k);
    }
  }

  lemma StreamByteVal(s: seq<byte>, i: nat)
    requires i < |s|
    ensures ValAt(Stream(s), 8 * i, 8) == s[i]
  {
    StreamByte(s, i);
    assert Pow2(8) == 256;
    ValAtNat(Stream(s), 8 * i, s[i], 8);
  }

  lemma StreamBytes(s: seq<byte>)
    ensures forall i :: 0 <= i < |s| ==> s[i] == ValAt(Stream(s), 8 * i, 8)
  {
    forall i | 0 <= i < |s|
      ensures s[i] == ValAt(Stream(s), 8 * i, 8)
    {
      StreamByteVal(s, i);
    }
  }

  /** Groups bits into bytes, first bit lowest. */
  function Pack(bs: seq<bit>): (r: seq<byte>)
    requires |bs| % 8 == 0
  {
    if bs == [] then []
    else
      ValAtBound(bs, 0, 8);
      assert Pow2(8) == 256;
      [ValAt(bs, 0, 8)] + Pack(bs[8..])
  }

  lemma {:induction false} StreamPack(bs: seq<bit>)
    requires |bs| % 8 == 0
    ensures Stream(Pack(bs)) == bs
  {
    if bs != [] {
      var b := ValAt(bs, 0, 8);
      ValAtBound(bs, 0, 8);
      assert Pow2(8) == 256;
      StreamPack(bs[8..]);
      StreamConcat([b], Pack(bs[8..]));
      StreamByte([b], 0);
      NatBitsValAt(bs, 0, 8);
      assert bs == bs[..8] + bs[8..];
    }
  }

  // ---- codes, most significant bit first ----

  /** The n-bit code v as Huffman codes travel. */
  function CodeBits(v: nat, n: nat): (r: seq<bit>)
    ensures |r| == n
  {
    if n == 0 then [] else CodeBits(v / 2, n - 1) + [v % 2]
  }

  lemma {:induction false} CodeBitsAt(v: nat, n: nat, k: nat)
    requires k < n
    ensures CodeBits(v, n)[k] == Shr(v, n - 1 - k) % 2
  {
    if k < n - 1 {
      CodeBitsAt(v / 2, n - 1, k);
      ShrHalf(v, n - 2 - k);
    }
  }
}
