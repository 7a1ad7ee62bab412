/**
  The gzip wrapper of tar.c: gz_wrap writes stored blocks, gz_unwrap skips the
  optional header fields of section 2.3 of RFC 1952 and inflates what follows.
  The CRC is a parameter, since nothing reads it back.
 */
module Gzip {
  import opened Bits
  import opened Huffman
  import opened InflateSpec
  import opened Buffer
  import opened Memory
  import Inflater

  // ---- little-endian words ----

  function Le32(v: nat): (r: seq<byte>)
    requires v < 0x1_0000_0000
    ensures |r| == 4
  {
    seq(4, i requires 0 <= i < 4 => LeByte(v, i))
  }

  lemma Le32Back(v: nat, s: seq<byte>, i: nat)
    requires v < 0x1_0000_0000 && i + 4 <= |s| && s[i..i + 4] == Le32(v)
    ensures Word(s, i) == v
  {
    var x := s[i..i + 4];
    WordAt(s, i);
    assert s[i] == x[0] == LeByte(v, 0) && s[i + 1] == x[1] == LeByte(v, 1);
    assert s[i + 2] == x[2] == LeByte(v, 2) && s[i + 3] == x[3] == LeByte(v, 3);
    JoinBytes(v);
  }

  // ---- wrapping ----

  function HeaderByte(last: bool, n: nat, i: nat): byte
    requires n <= 65535
  {
    if i == 0 then (if last then 1 else 0)
    else if i == 1 then n % 256
    else if i == 2 then n / 256
    else if i == 3 then 255 - n % 256
    else 255 - n / 256
  }

  /** A stored block's mark, length and complemented length. */
  function StoredHeader(last: bool, n: nat): (r: seq<byte>)
    requires n <= 65535
    ensures |r| == 5
  {
    seq(5, i requires 0 <= i < 5 => HeaderByte(last, n, i))
  }

  function Chunk(d: seq<byte>, off: nat): (n: nat)
    requires off <= |d|
    ensures n <= 65535 && off + n <= |d|
  {
    if |d| - off > 65535 then 65535 else |d| - off
  }

  /** The stored block for the chunk at off, marked when it is the last. */
  function Piece(d: seq<byte>, off: nat): (r: seq<byte>)
    requires off <= |d|
    ensures |r| == 5 + Chunk(d, off)
  {
    StoredHeader(off + Chunk(d, off) >= |d|, Chunk(d, off)) + d[off..off + Chunk(d, off)]
  }

  /** d from off on, as stored blocks of at most 65535 bytes, at least one. */
  function StoredBlocks(d: seq<byte>, off: nat): (r: seq<byte>)
    requires off <= |d|
    ensures |r| >= 5 + |d| - off
    decreases |d| - off
  {
    var c := Chunk(d, off);
    if off + c >= |d| then Piece(d, off) else Piece(d, off) + StoredBlocks(d, off + c)
  }

  function PlainHeader(): (r: seq<byte>)
    ensures |r| == 10
  {
    [0x1f, 0x8b, 8, 0, 0, 0, 0, 0, 0, 0xff]
  }

  function Trailer(crc: nat, size: nat): (r: seq<byte>)
    requires crc < 0x1_0000_0000 && size < 0x1_0000_0000
    ensures |r| == 8
  {
    Le32(crc) + Le32(size)
  }

  function Wrap(d: seq<byte>, crc: nat): (r: seq<byte>)
    requires |d| < 0x1_0000_0000 && crc < 0x1_0000_0000
  {
    PlainHeader() + StoredBlocks(d, 0) + Trailer(crc, |d|)
  }

  function Rest(d: seq<byte>, off: nat, more: bool): seq<byte>
    requires off <= |d|
  {
    if more then StoredBlocks(d, off) else []
  }

  lemma RestStep(a: seq<byte>, d: seq<byte>, off: nat)
    requires off <= |d|
    ensures var e := off + Chunk(d, off);
            a + StoredBlocks(d, off) == (a + Piece(d, off)) + Rest(d, e, e < |d|)
  {}

  /** One turn of the loop of gz_wrap. */
  method PutPiece(b: Buf, d: seq<byte>, off: nat)
    requires off <= |d| && b.Valid() && b.len + |Piece(d, off)| <= 0x8000_0000
    modifies b, b.p
    ensures b.Valid() && (b.p == old(b.p) || fresh(b.p))
    ensures b.Contents() == old(b.Contents()) + Piece(d, off)
  {
    var chunk := |d| - off;
    if chunk > 65535 { chunk := 65535; }
    b.Put(StoredHeader(off + chunk >= |d|, chunk));
    if chunk > 0 { b.Put(d[off..off + chunk]); }
    assert b.Contents() == old(b.Contents()) + Piece(d, off);
  }

  /** The do-while loop of gz_wrap over chunks of at most 65535 bytes. */
  method PutBlocks(b: Buf, d: seq<byte>)
    requires b.Valid() && b.len + |StoredBlocks(d, 0)| <= 0x8000_0000
    modifies b, b.p
    ensures b.Valid() && (b.p == old(b.p) || fresh(b.p))
    ensures b.Contents() == old(b.Contents()) + StoredBlocks(d, 0)
  {
    ghost var goal := b.Contents() + StoredBlocks(d, 0);
    var off, more := 0, true;
    while more
      invariant 0 <= off <= |d| && b.Valid() && (b.p == old(b.p) || fresh(b.p))
      invariant goal == b.Contents() + Rest(d, off, more)
      decreases more, |d| - off
    {
      RestStep(b.Contents(), d, off);
      PutPiece(b, d, off);
      off := off + Chunk(d, off);
      more := off < |d|;
    }
  }

  /** gz_wrap appends exactly Wrap(d). */
  method GzWrap(b: Buf, d: seq<byte>, crc: nat)
    requires b.Valid() && |d| < 0x1_0000_0000 && crc < 0x1_0000_0000
    requires b.len + |Wrap(d, crc)| <= 0x8000_0000
    modifies b, b.p
    ensures b.Valid() && b.Contents() == old(b.Contents()) + Wrap(d, crc)
  {
    hide StoredBlocks, PlainHeader, Trailer, Settles, Doubled;
    b.Put(PlainHeader());
    PutBlocks(b, d);
    b.Put(Trailer(crc, |d|));
    assert b.Contents() == old(b.Contents()) + Wrap(d, crc);
  }

  // ---- unwrapping ----

  /** What gz_unwrap does with an input. */
  datatype Unwrapped =
    | Bad                      // NULL
    | Data(d: seq<byte>)
    | PastInput                // the length handed to inflate wraps and reaches past the input
    | PastTable                // inflate stores past its table of code lengths

  /** Just past the zero byte that ends a string, or one past the end. */
  function SkipString(g: seq<byte>, p: nat): (r: nat)
    ensures r > p
    decreases |g| - p
  {
    if p < |g| && g[p] != 0 then SkipString(g, p + 1) else p + 1
  }

  predicate Flag(g: seq<byte>, bit: nat)
    requires |g| >= 4 && bit > 0
  {
    (g[3] as int) / bit % 2 == 1
  }

  /** Where the deflate stream starts. */
  function DataStart(g: seq<byte>): (r: nat)
    requires |g| >= 18
    ensures r >= 10
  {
    var p0 := 10;
    var p1 := if Flag(g, 4) then p0 + 2 + (g[p0] as int) + 256 * (g[p0 + 1] as int) else p0;
    var p2 := if Flag(g, 8) then SkipString(g, p1) else p1;
    var p3 := if Flag(g, 16) then SkipString(g, p2) else p2;
    if Flag(g, 2) then p3 + 2 else p3
  }

  function OutSize(g: seq<byte>): (r: nat)
    requires |g| >= 18
    ensures r >= 1
  {
    var n := Word(g, |g| - 4);
    if n == 0 then 1 else n
  }

  /** What the decompressor makes of a stream, given room for so many bytes. */
  type Decompressor = (seq<byte>, nat) -> Read<seq<byte>>

  function InflateAll(T: Tables, z: seq<byte>, cap: nat): Read<seq<byte>>
    requires TablesOk(T)
  {
    Inflate(T, z, Stream(z), 0, [], cap)
  }

  function InflateBy(T: Tables): Decompressor
    requires TablesOk(T)
  {
    (z, cap) => InflateAll(T, z, cap)
  }

  predicate GoodHeader(g: seq<byte>) {
    |g| >= 18 && g[0] == 0x1f && g[1] == 0x8b && g[2] == 8
  }

  /** glen - p - 8 as an unsigned int. */
  function StreamLength(g: seq<byte>, p: nat): nat {
    U32(|g| - p - 8)
  }

  /** inflate answers with a 32-bit long, which is negative from 2 GiB on. */
  function Answer(r: Read<seq<byte>>): Unwrapped {
    match r
    case Got(o, _) => if |o| < 0x8000_0000 then Data(o) else Bad
    case Fail => Bad
    case Overrun => PastTable
  }

  function Unwrap(inf: Decompressor, g: seq<byte>): (r: Unwrapped)
  {
    if !GoodHeader(g) then Bad
    else
      var p := DataStart(g);
      var n := StreamLength(g, p);
      if p >= |g| then Bad
      else if p + n > |g| then PastInput
      else Answer(inf(g[p..p + n], OutSize(g)))
  }

  /**
    gz_unwrap hands inflate bytes of the file exactly when the stream starts at
    least eight bytes before the end, or the start is found to be no part of it.
   */
  lemma InputIff(inf: Decompressor, g: seq<byte>)
    requires GoodHeader(g) && |g| <= 0x8000_0000
    ensures Unwrap(inf, g) != PastInput <==> DataStart(g) + 8 <= |g| || DataStart(g) >= |g|
    ensures DataStart(g) + 8 <= |g| ==> StreamLength(g, DataStart(g)) == |g| - DataStart(g) - 8
  {}

  /** Eighteen bytes with only the header-CRC flag set: the length wraps to nearly 4 GiB. */
  lemma WrappingInput(inf: Decompressor)
    ensures var g := [0x1f, 0x8b, 8, 2] + Zeros(14);
            && GoodHeader(g) && DataStart(g) == 12 && StreamLength(g, 12) == 0xFFFF_FFFE
            && Unwrap(inf, g) == PastInput
  {
    var g := [0x1f, 0x8b, 8, 2] + Zeros(14);
    assert g[3] == 2 && !Flag(g, 4) && !Flag(g, 8) && !Flag(g, 16) && Flag(g, 2);
  }

  method Skip(g: seq<byte>, p: nat) returns (r: nat)
    ensures r == SkipString(g, p)
  {
    r := p;
    while r < |g| && g[r] != 0
      invariant SkipString(g, r) == SkipString(g, p)
      decreases |g| - r
    {
      r := r + 1;
    }
    r := r + 1;
  }

  method FindData(g: seq<byte>) returns (p: nat)
    requires |g| >= 18
    ensures p == DataStart(g)
  {
    p := 10;
    if Flag(g, 4) {
      var xl := (g[p] as int) + 256 * (g[p + 1] as int);
      p := p + 2 + xl;
    }
    if Flag(g, 8) { p := Skip(g, p); }
    if Flag(g, 16) { p := Skip(g, p); }
    if Flag(g, 2) { p := p + 2; }
  }

  method UnwrapWith(T: Tables, g: seq<byte>) returns (r: Unwrapped)
    requires TablesOk(T)
    ensures r == Unwrap(InflateBy(T), g)
  {
    hide Inflate, TablesOk, DataStart, OutSize, Stream;
    if |g| < 18 || g[0] != 0x1f || g[1] != 0x8b || g[2] != 8 { return Bad; }
    var p := FindData(g);
    if p >= |g| { return Bad; }
    var n := U32(|g| - p - 8);
    if p + n > |g| { return PastInput; }
    var o := new byte[OutSize(g)];
    var got := Inflater.InflateWith(T, g[p..p + n], o);
    if got == -2 { return PastTable; }
    if got < 0 || got >= 0x8000_0000 { return Bad; }
    return Data(o[..got]);
  }

  /** gz_unwrap, with allocation succeeding. */
  method GzUnwrap(g: seq<byte>) returns (r: Unwrapped)
    requires |g| <= 0x8000_0000
    ensures TablesOk(Rfc1951()) && r == Unwrap(InflateBy(Rfc1951()), g)
  {
    Rfc1951Ok();
    r := UnwrapWith(Rfc1951(), g);
  }
}
