/** The bytes gz_wrap writes, against sections 2.3 of RFC 1952 and 3.2.4 of RFC 1951. */
module GzipBlocks {
  import opened Bits
  import opened Memory
  import opened InflateSpec
  import opened Deflate
  import opened Encoder
  import opened Gzip

  // ---- bytes as bits ----

  lemma {:induction false} NatBitsJoin(v: nat, m: nat, n: nat)
    ensures NatBits(v, m + n) == NatBits(v, m) + NatBits(Shr(v, m), n)
    decreases m
  {
    if m > 0 {
      NatBitsJoin(v / 2, m - 1, n);
      ShrHalf(v, m - 1);
    }
  }

  lemma {:induction false} NatBitsLow(v: nat, w: nat, n: nat, k: nat)
    requires w == v + k * Pow2(n)
    ensures NatBits(w, n) == NatBits(v, n)
    decreases n
  {
    if n > 0 {
      Halves(v, w, k, Pow2(n - 1));
      NatBitsLow(v / 2, w / 2, n - 1, k);
    }
  }

  lemma Halves(v: nat, w: nat, k: nat, p: nat)
    requires w == v + k * (2 * p)
    ensures w % 2 == v % 2 && w / 2 == v / 2 + k * p
  {
    assert k * (2 * p) == 2 * (k * p);
  }

  /** A sixteen-bit number, low byte first. */
  lemma TwoBytes(lo: byte, hi: byte)
    ensures NatBits((lo as int) + 256 * (hi as int), 16) == NatBits(lo, 8) + NatBits(hi, 8)
  {
    var v: nat := (lo as int) + 256 * (hi as int);
    assert Pow2(8) == 256;
    NatBitsJoin(v, 8, 8);
    NatBitsLow(lo, v, 8, hi);
    HighPart(v, lo, hi, 8);
  }

  lemma {:induction false} HighPart(v: nat, lo: nat, hi: nat, n: nat)
    requires lo < Pow2(n) && v == lo + hi * Pow2(n)
    ensures Shr(v, n) == hi
    decreases n
  {
    if n > 0 {
      Halves(lo, v, hi, Pow2(n - 1));
      HighPart(v / 2, lo / 2, hi, n - 1);
      ShrHalf(v, n - 1);
    }
  }

  lemma MarkBits(m: bit)
    ensures NatBits(m, 8) == [m] + (NatBits(0, 2) + NatBits(0, 5))
  {
    hide NatBits;
    BitFirst(m, 7);
    ZeroBits(7);
    ZeroBits(2);
    ZeroBits(5);
  }

  lemma BitFirst(m: bit, n: nat)
    ensures NatBits(m, n + 1) == [m] + NatBits(0, n)
  {
    var v: nat := m;
    assert v % 2 == m && v / 2 == 0;
    assert NatBits(v, n + 1) == [v % 2] + NatBits(v / 2, n);
  }

  lemma {:induction false} ZeroBits(n: nat)
    ensures forall i :: 0 <= i < n ==> NatBits(0, n)[i] == 0
  {
    if n > 0 { ZeroBits(n - 1); }
  }

  lemma ByteStream(b: byte, s: seq<byte>)
    ensures Stream([b] + s) == NatBits(b, 8) + Stream(s)
  {
    StreamConcat([b], s);
    StreamByte([b], 0);
    assert Stream([b])[0..8] == Stream([b]);
  }

  /** A stored block's five bytes: mark and kind, length, and its complement. */
  lemma HeaderStream(last: bool, n: nat, data: seq<byte>)
    requires n <= 65535
    ensures var m := if last then 1 else 0;
            Stream(StoredHeader(last, n) + data)
            == NatBits(m, 8) + (NatBits(n, 16) + (NatBits(65535 - n, 16) + Stream(data)))
  {
    hide NatBits, Stream;
    var h, lo, hi := StoredHeader(last, n), n % 256, n / 256;
    var s4 := [h[4]] + data;
    var s3 := [h[3]] + s4;
    var s2 := [h[2]] + s3;
    var s1 := [h[1]] + s2;
    assert h + data == [h[0]] + s1;
    ByteStream(h[4], data);
    ByteStream(h[3], s4);
    ByteStream(h[2], s3);
    ByteStream(h[1], s2);
    ByteStream(h[0], s1);
    TwoBytes(lo, hi);
    TwoBytes(255 - lo, 255 - hi);
    assert h[0] == (if last then 1 else 0) && h[1] == lo && h[2] == hi && h[3] == 255 - lo && h[4] == 255 - hi;
    Joined(NatBits(h[0], 8), NatBits(lo, 8), NatBits(hi, 8), NatBits(255 - lo, 8), NatBits(255 - hi, 8), Stream(data));
  }

  lemma Joined(a: seq<bit>, b: seq<bit>, c: seq<bit>, d: seq<bit>, e: seq<bit>, f: seq<bit>)
    ensures a + (b + (c + (d + (e + f)))) == a + ((b + c) + ((d + e) + f))
  {
    assert d + (e + f) == (d + e) + f;
    assert b + (c + ((d + e) + f)) == (b + c) + ((d + e) + f);
  }

  // ---- the blocks ----

  /** The chunks of d from off on, as blocks. */
  function Chunks(d: seq<byte>, off: nat): (r: seq<Blk>)
    requires off <= |d|
    ensures r != []
    decreases |d| - off
  {
    var e := off + Chunk(d, off);
    [StoredBlk(d[off..e])] + if e >= |d| then [] else Chunks(d, e)
  }

  lemma PieceBits(F: Format, d: seq<byte>, off: nat, n: nat, pos: nat)
    requires TablesOk(F.T) && off <= |d| && pos % 8 == 0
    ensures var e := off + Chunk(d, off);
            var b := StoredBlk(d[off..e]);
            Encodable(F, b, n) && Stream(Piece(d, off)) == MarkedBits(F, b, e >= |d|, n, pos)
  {
    hide NatBits, Stream, StoredHeader;
    var e := off + Chunk(d, off);
    var data, m: bit := d[off..e], if e >= |d| then 1 else 0;
    HeaderStream(e >= |d|, |data|, data);
    MarkBits(m);
    assert PadTo8(pos + 3) == 5;
    var rest := NatBits(|data|, 16) + (NatBits(65535 - |data|, 16) + Stream(data));
    assert ([m] + (NatBits(0, 2) + NatBits(0, 5))) + rest == [m] + (NatBits(0, 2) + (NatBits(0, 5) + rest));
  }

  lemma SegsCons(F: Format, b: Blk, blks: seq<Blk>, o: seq<byte>, pos: nat)
    requires TablesOk(F.T) && Encodable(F, b, |o|) && BlksOk(F, blks, BlkExpand(F, o, b)) && AllSpelled(F, blks)
    ensures BlksOk(F, [b] + blks, o) && AllSpelled(F, [b] + blks)
    ensures var x := MarkedBits(F, b, blks == [], |o|, pos);
            SegBits(SegsOf(F, [b] + blks, o, pos)) == x + SegBits(SegsOf(F, blks, BlkExpand(F, o, b), pos + |x|))
  {
    hide MarkedBits, BlkExpand, BlkOk, HeaderSpelled;
    var all := [b] + blks;
    assert all[1..] == blks && all[0] == b;
    var s := SegOf(F, b, blks == [], o, pos);
    var rest := SegsOf(F, blks, s.o, pos + |s.bits|);
    assert SegsOf(F, all, o, pos) == [s] + rest;
    assert ([s] + rest)[1..] == rest;
  }

  lemma {:induction false} ChunksBits(F: Format, d: seq<byte>, off: nat, o: seq<byte>, pos: nat)
    requires TablesOk(F.T) && off <= |d| && pos % 8 == 0
    ensures BlksOk(F, Chunks(d, off), o) && AllSpelled(F, Chunks(d, off))
    ensures SegBits(SegsOf(F, Chunks(d, off), o, pos)) == Stream(StoredBlocks(d, off))
    decreases |d| - off
  {
    hide MarkedBits, Stream, Piece, Encodable, SegsOf, SegBits, BlksOk, AllSpelled;
    var e, x := off + Chunk(d, off), Piece(d, off);
    var b := StoredBlk(d[off..e]);
    PieceBits(F, d, off, |o|, pos);
    StoredIs(F, b, o);
    if e >= |d| {
      NoSegs(F, BlkExpand(F, o, b), pos + |Stream(x)|);
      SegsCons(F, b, [], o, pos);
    } else {
      ChunksBits(F, d, e, BlkExpand(F, o, b), pos + |Stream(x)|);
      SegsCons(F, b, Chunks(d, e), o, pos);
      StreamConcat(x, StoredBlocks(d, e));
    }
  }

  lemma StoredIs(F: Format, b: Blk, o: seq<byte>)
    requires TablesOk(F.T) && b.StoredBlk? && |b.data| <= 65535
    ensures BlkOk(F, b, |o|) && Encodable(F, b, |o|)
  {}

  lemma NoSegs(F: Format, o: seq<byte>, pos: nat)
    requires TablesOk(F.T)
    ensures BlksOk(F, [], o) && AllSpelled(F, []) && SegBits(SegsOf(F, [], o, pos)) == []
  {}

  /** gz_wrap writes the bits any encoder writes for the chunks as stored blocks, complemented lengths included. */
  lemma StoredStream(F: Format, d: seq<byte>)
    requires TablesOk(F.T)
    ensures BlksOk(F, Chunks(d, 0), []) && AllSpelled(F, Chunks(d, 0))
    ensures Stream(StoredBlocks(d, 0)) == BlksBits(F, Chunks(d, 0))
  {
    ChunksBits(F, d, 0, [], 0);
  }

  /** The chunks are the data in order, all but the last of 65535 bytes and none longer. */
  lemma {:induction false} ChunksAre(d: seq<byte>, off: nat)
    requires off <= |d|
    ensures var c := Chunks(d, off);
            && (forall i :: 0 <= i < |c| ==> c[i].StoredBlk? && |c[i].data| <= 65535)
            && (forall i :: 0 <= i < |c| - 1 ==> |c[i].data| == 65535) && (|c| > 1 ==> c[|c| - 1].data != [])
            && Data(c) == d[off..]
    decreases |d| - off
  {
    hide Data, Chunks;
    var e := off + Chunk(d, off);
    var b := StoredBlk(d[off..e]);
    if e >= |d| {
      ChunksLast(d, off);
      DataCons(b, []);
    } else {
      ChunksMore(d, off);
      ChunksAre(d, e);
      DataCons(b, Chunks(d, e));
      assert d[off..e] + d[e..] == d[off..];
      if |Chunks(d, e)| == 1 { LoneChunk(d, e); }
    }
  }

  lemma ChunksLast(d: seq<byte>, off: nat)
    requires off <= |d| && off + Chunk(d, off) >= |d|
    ensures Chunks(d, off) == [StoredBlk(d[off..])] && Chunks(d, off) == [StoredBlk(d[off..off + Chunk(d, off)])] + []
    ensures Data([]) == [] && d[off..off + Chunk(d, off)] == d[off..]
  {
    assert d[off..off + Chunk(d, off)] == d[off..];
  }

  lemma ChunksMore(d: seq<byte>, off: nat)
    requires off <= |d| && off + Chunk(d, off) < |d|
    ensures Chunk(d, off) == 65535
    ensures Chunks(d, off) == [StoredBlk(d[off..off + Chunk(d, off)])] + Chunks(d, off + Chunk(d, off))
  {}

  lemma LoneChunk(d: seq<byte>, off: nat)
    requires off < |d| && |Chunks(d, off)| == 1
    ensures Chunks(d, off)[0].StoredBlk? && Chunks(d, off)[0].data != []
  {
    var b := StoredBlk(d[off..off + Chunk(d, off)]);
    assert Chunks(d, off)[0] == b && |b.data| == Chunk(d, off) > 0;
  }

  lemma DataCons(b: Blk, blks: seq<Blk>)
    requires b.StoredBlk?
    ensures Data([b] + blks) == b.data + Data(blks)
  {
    assert ([b] + blks)[1..] == blks;
  }

  function Data(blks: seq<Blk>): seq<byte> {
    if blks == [] then [] else (if blks[0].StoredBlk? then blks[0].data else []) + Data(blks[1..])
  }

  // ---- the member around them ----

  /**
    The member: magic and method, no flags, no time, no extra flags, an unknown
    system; then the blocks; then the CRC and the length.
   */
  lemma WrapLayout(d: seq<byte>, crc: nat)
    requires |d| < 0x1_0000_0000 && crc < 0x1_0000_0000
    ensures var g := Wrap(d, crc);
            && |g| >= 18 && g[..4] == [0x1f, 0x8b, 8, 0] && Word(g, 4) == 0 && g[8] == 0 && g[9] == 255
            && g[10..|g| - 8] == StoredBlocks(d, 0) && Word(g, |g| - 8) == crc && Word(g, |g| - 4) == |d|
  {
    hide Le32, StoredBlocks, Word, PlainHeader;
    var g, h := Wrap(d, crc), PlainHeader();
    Parts(h, StoredBlocks(d, 0), Le32(crc), Le32(|d|));
    Le32Back(crc, g, |g| - 8);
    Le32Back(|d|, g, |g| - 4);
    HeaderIs();
    NoTime(g, h);
  }

  lemma Parts(h: seq<byte>, z: seq<byte>, c: seq<byte>, l: seq<byte>)
    requires |h| == 10 && |c| == |l| == 4
    ensures var g := h + z + (c + l);
            && |g| == 18 + |z| && g[..10] == h && g[10..|g| - 8] == z
            && g[|g| - 8..|g| - 8 + 4] == c && g[|g| - 4..|g| - 4 + 4] == l
  {}

  lemma HeaderIs()
    ensures PlainHeader()[..4] == [0x1f, 0x8b, 8, 0] && PlainHeader()[8] == 0 && PlainHeader()[9] == 255
    ensures forall k :: 4 <= k < 8 ==> PlainHeader()[k] == 0
  {}

  lemma NoTime(g: seq<byte>, h: seq<byte>)
    requires |h| == 10 <= |g| && g[..10] == h && forall k :: 4 <= k < 8 ==> h[k] == 0
    ensures Word(g, 4) == 0 && g[8] == h[8] && g[9] == h[9] && g[..4] == h[..4]
  {
    hide Word;
    assert forall k :: 0 <= k < 10 ==> g[k] == g[..10][k] == h[k];
    ZeroWord(g, 4);
  }
}
