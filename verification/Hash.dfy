/**
  The streaming shell of sha256.c and md5.c around their compression steps.
  The two differ in the step, the initial value and the byte order of the
  length, so those are parameters: big is true for SHA-256 and false for MD5.
 */
module Hash {
  import opened Bits
  import opened Buffer

  /** One 64-byte block into the chaining value. */
  type Step<!H> = (H, seq<byte>) -> H

  /** The chaining value after whole blocks. */
  function Fold<H>(step: Step<H>, iv: H, s: seq<byte>): H
    decreases |s|
  {
    if |s| < 64 then iv else step(Fold(step, iv, s[..|s| - 64]), s[|s| - 64..])
  }

  lemma FoldSnoc<H>(step: Step<H>, iv: H, s: seq<byte>, block: seq<byte>)
    requires |block| == 64
    ensures Fold(step, iv, s + block) == step(Fold(step, iv, s), block)
  {
    assert (s + block)[..|s|] == s && (s + block)[|s|..] == block;
  }

  // ---- padding (section 4.1 of RFC 6234, sections 3.1 and 3.2 of RFC 1321) ----

  /** Byte i of v, least significant first. */
  function ByteOf(v: nat, i: nat): byte {
    if i == 0 then v % 256 else ByteOf(v / 256, i - 1)
  }

  function LengthByte(v: nat, big: bool, i: nat): byte
    requires i < 8
  {
    ByteOf(v, if big then 7 - i else i)
  }

  /** A 64-bit count in the hash's byte order. */
  function LengthBytes(v: nat, big: bool): (r: seq<byte>)
    ensures |r| == 8
  {
    seq(8, i requires 0 <= i < 8 => LengthByte(v, big, i))
  }

  const WORD64: nat := 0x1_0000_0000_0000_0000

  /** How many zero bytes the padding of n message bytes needs. */
  function ZeroCount(n: nat): (k: nat)
    ensures k < 64 && (n + 1 + k + 8) % 64 == 0
  {
    (119 - n % 64) % 64
  }

  function Padding(n: nat, big: bool): (r: seq<byte>)
    ensures |r| == 9 + ZeroCount(n)
  {
    [0x80] + Zeros(ZeroCount(n)) + LengthBytes(8 * n % WORD64, big)
  }

  function Pad(msg: seq<byte>, big: bool): (r: seq<byte>)
    ensures |r| % 64 == 0 && msg <= r
  {
    msg + Padding(|msg|, big)
  }

  function Pow256(n: nat): nat { if n == 0 then 1 else 256 * Pow256(n - 1) }

  lemma {:induction false} BytesDetermine(a: nat, b: nat, n: nat)
    requires a < Pow256(n) && b < Pow256(n) && forall i :: 0 <= i < n ==> ByteOf(a, i) == ByteOf(b, i)
    ensures a == b
  {
    if n > 0 {
      assert ByteOf(a, 0) == ByteOf(b, 0);
      forall i | 0 <= i < n - 1 ensures ByteOf(a / 256, i) == ByteOf(b / 256, i) {
        assert ByteOf(a, i + 1) == ByteOf(b, i + 1);
      }
      BytesDetermine(a / 256, b / 256, n - 1);
    }
  }

  lemma LengthDetermines(a: nat, b: nat, big: bool)
    requires a < WORD64 && b < WORD64 && LengthBytes(a, big) == LengthBytes(b, big)
    ensures a == b
  {
    var x, y := LengthBytes(a, big), LengthBytes(b, big);
    forall i | 0 <= i < 8 ensures ByteOf(a, i) == ByteOf(b, i) {
      var j := if big then 7 - i else i;
      assert x[j] == y[j] && x[j] == LengthByte(a, big, j) && y[j] == LengthByte(b, big, j);
    }
    WordSize();
    BytesDetermine(a, b, 8);
  }

  lemma PadTail(msg: seq<byte>, big: bool)
    ensures var p := Pad(msg, big);
            |p| >= 8 && p[|p| - 8..] == LengthBytes(8 * |msg| % WORD64, big)
  {}

  /** Different messages shorter than 2^61 bytes have different padded forms. */
  lemma PadInjective(a: seq<byte>, b: seq<byte>, big: bool)
    requires |a| < 0x2000_0000_0000_0000 && |b| < 0x2000_0000_0000_0000 && Pad(a, big) == Pad(b, big)
    ensures a == b
  {
    hide Padding, LengthBytes, ZeroCount;
    var p := Pad(a, big);
    PadTail(a, big);
    PadTail(b, big);
    LengthDetermines(8 * |a| % WORD64, 8 * |b| % WORD64, big);
    assert a == p[..|a|] && b == p[..|b|];
  }

  /** A number by its bytes, most significant first. */
  function BigEndian(s: seq<byte>): nat {
    if s == [] then 0 else 256 * BigEndian(s[..|s| - 1]) + (s[|s| - 1] as int)
  }

  /** A number by its bytes, least significant first. */
  function LittleEndian(s: seq<byte>): nat {
    if s == [] then 0 else (s[0] as int) + 256 * LittleEndian(s[1..])
  }

  lemma {:induction false} LittleBytes(v: nat, s: seq<byte>)
    requires v < Pow256(|s|) && forall i :: 0 <= i < |s| ==> s[i] == ByteOf(v, i)
    ensures LittleEndian(s) == v
    decreases |s|
  {
    if s != [] {
      var t := s[1..];
      forall i | 0 <= i < |t| ensures t[i] == ByteOf(v / 256, i) {
        assert t[i] == s[i + 1];
      }
      LittleBytes(v / 256, t);
      assert s[0] == v % 256;
    }
  }

  lemma {:induction false} BigBytes(v: nat, s: seq<byte>)
    requires v < Pow256(|s|) && forall i :: 0 <= i < |s| ==> s[i] == ByteOf(v, |s| - 1 - i)
    ensures BigEndian(s) == v
    decreases |s|
  {
    if s != [] {
      var n := |s| - 1;
      var t := s[..n];
      forall i | 0 <= i < n ensures t[i] == ByteOf(v / 256, n - 1 - i) {
        assert t[i] == s[i] == ByteOf(v, n - i);
      }
      BigBytes(v / 256, t);
      assert s[n] == ByteOf(v, 0) == v % 256;
    }
  }

  lemma LengthRead(v: nat, big: bool)
    requires v < WORD64
    ensures (if big then BigEndian(LengthBytes(v, big)) else LittleEndian(LengthBytes(v, big))) == v
  {
    hide BigEndian, LittleEndian, ByteOf;
    var s := LengthBytes(v, big);
    WordSize();
    assert forall i :: 0 <= i < 8 ==> s[i] == LengthByte(v, big, i);
    if big { BigBytes(v, s); } else { LittleBytes(v, s); }
  }

  lemma WordSize()
    ensures Pow256(8) == WORD64
  {
    assert Pow256(4) == 0x1_0000_0000;
  }

  /**
    The padded message: the message, one byte 0x80, as few zero bytes as fill
    whole blocks, and the number of message bits in eight bytes, most significant
    first for SHA-256 and least significant first for MD5.
   */
  lemma PadLayout(msg: seq<byte>, big: bool)
    ensures var p, n := Pad(msg, big), |msg|;
            && |p| % 64 == 0 && n + 9 <= |p| < n + 9 + 64
            && p[..n] == msg && p[n] == 0x80 && (forall i :: n < i < |p| - 8 ==> p[i] == 0)
            && (if big then BigEndian(p[|p| - 8..]) else LittleEndian(p[|p| - 8..])) == 8 * n % WORD64
  {
    hide BigEndian, LittleEndian, LengthBytes;
    PadTail(msg, big);
    LengthRead(8 * |msg| % WORD64, big);
    PadFront(msg, big);
  }

  lemma PadFront(msg: seq<byte>, big: bool)
    ensures var p, n := Pad(msg, big), |msg|;
            n + 9 <= |p| && p[..n] == msg && p[n] == 0x80 && forall i :: n < i < |p| - 8 ==> p[i] == 0
  {
    hide LengthBytes;
    var z := Zeros(ZeroCount(|msg|));
    assert forall i :: |msg| < i < |msg| + 1 + |z| ==> Pad(msg, big)[i] == z[i - |msg| - 1];
  }

  lemma Joined(before: seq<byte>, data: seq<byte>, i: nat, j: nat)
    requires i <= j <= |data|
    ensures (before + data[..i]) + data[i..j] == before + data[..j]
  {}

  /** The zero bytes that final writes: to 56, or past a block boundary and then to 56. */
  lemma ZerosWritten(n: nat, q: nat)
    requires 1 <= q <= 64 && q - 1 == n % 64
    ensures ZeroCount(n) == if q <= 56 then 56 - q else 64 - q + 56
  {}

  lemma ZerosSplit(a: nat, b: nat)
    ensures Zeros(a) + Zeros(b) == Zeros(a + b)
  {}

  lemma BitCount(a: nat, b: nat)
    ensures (a % WORD64 + b) % WORD64 == (a + b) % WORD64
  {}

  lemma PadIs(msg: seq<byte>, big: bool)
    ensures Pad(msg, big) == (msg + [0x80] + Zeros(ZeroCount(|msg|))) + LengthBytes(8 * |msg| % WORD64, big)
  {
    var z, l := Zeros(ZeroCount(|msg|)), LengthBytes(8 * |msg| % WORD64, big);
    assert msg + ([0x80] + z + l) == (msg + [0x80] + z) + l;
  }

  /** The bits of n blocks, counted up in 64 bits. */
  function BlockBits(n: nat): nat {
    if n == 0 then 0 else (BlockBits(n - 1) + 512) % WORD64
  }

  lemma {:induction false} BlockBitsIs(n: nat)
    ensures BlockBits(n) == 8 * (64 * n) % WORD64
  {
    if n > 0 {
      BlockBitsIs(n - 1);
      BitCount(512 * (n - 1), 512);
    }
  }

  // ---- the context ----

  class Context<!H> {
    const step: Step<H>
    const iv: H
    const big: bool
    const buf: array<byte>
    var h: H
    var bitlen: nat
    var buflen: nat
    ghost var done: seq<byte>
    ghost var blocks: nat

    /** The whole blocks of done are in h. */
    ghost predicate Folded()
      reads this
    {
      |done| == 64 * blocks && h == Fold(step, iv, done)
    }

    /** And buf holds the rest. */
    ghost predicate Valid()
      reads this, buf
    {
      buf.Length == 64 && buflen < 64 && Folded() && bitlen == BlockBits(blocks)
    }

    /** Everything hashed so far. */
    ghost function Message(): (s: seq<byte>)
      requires Valid()
      reads this, buf
    {
      done + buf[..buflen]
    }

    constructor (step: Step<H>, iv: H, big: bool)
      ensures Valid() && Message() == [] && fresh(buf) && this.step == step && this.iv == iv && this.big == big
    {
      this.step, this.iv, this.big := step, iv, big;
      buf := new byte[64];
      h, bitlen, buflen, done, blocks := iv, 0, 0, [], 0;
    }

    /** The full buffer goes into the chaining value. */
    method Compress()
      requires buf.Length == 64 && Folded()
      modifies this`h, this`done, this`blocks
      ensures done == old(done) + buf[..] && blocks == old(blocks) + 1 && Folded()
    {
      FoldSnoc(step, iv, done, buf[..]);
      h := step(h, buf[..]);
      done, blocks := done + buf[..], blocks + 1;
    }

    /** One turn of the update loop: copy a piece that fits, compress a full buffer. */
    method Absorb(s: seq<byte>)
      requires Valid() && buflen + |s| <= 64
      modifies this, buf
      ensures Valid() && Message() == old(Message()) + s
    {
      hide Fold;
      ghost var before := done + buf[..buflen];
      Copy(s);
      assert done + buf[..buflen] == before + s;
      if buflen == 64 {
        assert buf[..64] == buf[..];
        Compress();
        bitlen := (bitlen + 512) % WORD64;
        buflen := 0;
      }
    }

    /** The update loop. */
    method Update(data: seq<byte>)
      requires Valid()
      modifies this, buf
      ensures Valid() && Message() == old(Message()) + data
    {
      hide Fold, BlockBits;
      var i := 0;
      ghost var before := Message();
      while i < |data|
        invariant 0 <= i <= |data| && Valid() && Message() == before + data[..i]
      {
        var room := 64 - buflen;
        var take := if |data| - i < room then |data| - i else room;
        Absorb(data[i..i + take]);
        Joined(before, data, i, i + take);
        i := i + take;
      }
      assert data[..|data|] == data;
    }

    method Copy(s: seq<byte>)
      requires buf.Length == 64 && buflen + |s| <= 64
      modifies this`buflen, buf
      ensures buflen == old(buflen) + |s| && buf[..buflen] == old(buf[..buflen]) + s
    {
      var n := buflen;
      for k := 0 to |s|
        invariant forall j :: 0 <= j < n ==> buf[j] == old(buf[j])
        invariant forall j :: n <= j < n + k ==> buf[j] == s[j - n]
        invariant buflen == n
      {
        buf[n + k] := s[k];
      }
      buflen := n + |s|;
    }

    /** Zero bytes up to buffer position n. */
    method ZeroTo(n: nat)
      requires buf.Length == 64 && buflen <= n <= 64
      modifies this`buflen, buf
      ensures buflen == n && buf[..n] == old(buf[..buflen]) + Zeros(n - old(buflen))
    {
      ghost var k, was := buflen, buf[..buflen];
      while buflen < n
        invariant k <= buflen <= n && buf[..k] == was && forall j :: k <= j < buflen ==> buf[j] == 0
      {
        buf[buflen] := 0;
        buflen := buflen + 1;
      }
      assert buf[..n] == buf[..k] + buf[k..n];
    }

    /** The length bytes at the end of the buffer. */
    method PutLength(bits: nat)
      requires buf.Length == 64
      modifies buf
      ensures buf[..] == old(buf[..56]) + LengthBytes(bits, big)
    {
      for i := 0 to 8
        invariant forall j :: 0 <= j < 56 ==> buf[j] == old(buf[j])
        invariant forall j :: 56 <= j < 56 + i ==> buf[j] == LengthByte(bits, big, j - 56)
      {
        buf[56 + i] := LengthByte(bits, big, i);
      }
    }

    /** Blocks and buffer together, whatever the buffer's fill. */
    ghost predicate Partly(s: seq<byte>)
      reads this, buf
    {
      buf.Length == 64 && buflen <= 64 && |done| == 64 * blocks && h == Fold(step, iv, done)
      && s == done + buf[..buflen]
    }

    method PutMark(ghost s: seq<byte>)
      requires Partly(s) && buflen < 64
      modifies this`buflen, buf
      ensures Partly(s + [0x80]) && buflen == old(buflen) + 1
    {
      buf[buflen] := 0x80;
      buflen := buflen + 1;
      assert buf[..buflen] == old(buf[..buflen]) + [0x80];
    }

    method Fill(n: nat, ghost s: seq<byte>)
      requires Partly(s) && buflen <= n <= 64
      modifies this`buflen, buf
      ensures Partly(s + Zeros(n - old(buflen))) && buflen == n
    {
      ZeroTo(n);
    }

    method Flush(ghost s: seq<byte>)
      requires Partly(s) && buflen == 64
      modifies this
      ensures Partly(s) && buflen == 0
    {
      assert buf[..64] == buf[..];
      Compress();
      buflen := 0;
    }

    /** 0x80 and the zeros of the padding. */
    method PutZeros(ghost n: nat, ghost msg: seq<byte>)
      requires Partly(msg) && buflen < 64 && |msg| == n
      modifies this, buf
      ensures Partly(msg + [0x80] + Zeros(ZeroCount(n))) && buflen == 56
    {
      ghost var q := buflen + 1;
      ZerosWritten(n, q);
      PutMark(msg);
      ghost var s := msg + [0x80];
      if buflen > 56 {
        Fill(64, s);
        Flush(s + Zeros(64 - q));
        Fill(56, s + Zeros(64 - q));
        ZerosSplit(64 - q, 56);
        assert s + Zeros(64 - q) + Zeros(56) == s + (Zeros(64 - q) + Zeros(56));
      } else {
        Fill(56, s);
      }
    }

    /** The message length in bits, as a 64-bit count. */
    method BitLength() returns (bits: nat)
      requires Valid()
      ensures bits == 8 * |Message()| % WORD64
    {
      bits := (bitlen + 8 * buflen) % WORD64;
      BlockBitsIs(blocks);
      BitCount(8 * |done|, 8 * buflen);
    }

    /** The length goes into the last eight bytes, and the last block in. */
    method Close(bits: nat, ghost s: seq<byte>)
      requires Partly(s) && buflen == 56
      modifies this, buf
      ensures h == Fold(step, iv, s + LengthBytes(bits, big))
    {
      PutLength(bits);
      assert done + buf[..] == s + LengthBytes(bits, big);
      Compress();
    }

    /** final: the chaining value over the padded message. */
    method Final() returns (r: H)
      requires Valid()
      modifies this, buf
      ensures r == Fold(step, iv, Pad(old(Message()), big))
    {
      ghost var msg := Message();
      var bits := BitLength();
      PutZeros(|msg|, msg);
      Close(bits, msg + [0x80] + Zeros(ZeroCount(|msg|)));
      PadIs(msg, big);
      r := h;
    }
  }

  function Concat(pieces: seq<seq<byte>>): seq<byte> {
    if pieces == [] then [] else Concat(pieces[..|pieces| - 1]) + pieces[|pieces| - 1]
  }

  /** However the message is cut into updates, the digest is that of the whole. */
  method Digest<H>(step: Step<H>, iv: H, big: bool, pieces: seq<seq<byte>>) returns (r: H)
    ensures r == Fold(step, iv, Pad(Concat(pieces), big))
  {
    var c := new Context(step, iv, big);
    var i := 0;
    while i < |pieces|
      invariant 0 <= i <= |pieces| && c.Valid() && c.Message() == Concat(pieces[..i])
      invariant fresh(c) && fresh(c.buf) && c.step == step && c.iv == iv && c.big == big
    {
      c.Update(pieces[i]);
      assert pieces[..i + 1][..i] == pieces[..i];
      i := i + 1;
    }
    assert pieces[..|pieces|] == pieces;
    r := c.Final();
  }
}
