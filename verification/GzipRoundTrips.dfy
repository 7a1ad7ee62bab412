/** The two halves of the gzip wrapper are inverse, and any gzip member is read. */
module GzipRoundTrips {
  import opened Bits
  import opened Huffman
  import opened InflateSpec
  import opened Deflate
  import opened Gzip
  import opened Slices

  lemma MarkByte(input: seq<byte>, bs: seq<bit>, i: nat)
    requires bs == Stream(input) && i < |input| && input[i] < 2
    ensures ReadBits(bs, 8 * i, 1).val == input[i] && ReadBits(bs, 8 * i + 1, 2).val == 0
  {
    var b := input[i];
    assert Shr(b, 0) == b && Shr(b, 1) == 0 && Shr(b, 2) == 0;
    assert StreamBit(input, 8 * i) == b && StreamBit(input, 8 * i + 1) == 0 && StreamBit(input, 8 * i + 2) == 0;
    assert ValAt(bs, 8 * i + 1, 0) == 0 && ValAt(bs, 8 * i + 1, 1) == 0;
    assert ValAt(bs, 8 * i + 3, 0) == 0 && ValAt(bs, 8 * i + 2, 1) == 0;
  }

  /** A stored block's header and data stand in input at i. */
  ghost predicate PieceAt(input: seq<byte>, i: nat, last: bool, data: seq<byte>)
    requires |data| <= 65535
  {
    && i + 5 + |data| <= |input| && input[i] == (if last then 1 else 0)
    && (input[i + 1] as int) + 256 * (input[i + 2] as int) == |data|
    && input[i + 5..i + 5 + |data|] == data
  }

  lemma PieceStands(input: seq<byte>, i: nat, d: seq<byte>, off: nat)
    requires off <= |d| && i + |Piece(d, off)| <= |input| && input[i..i + |Piece(d, off)|] == Piece(d, off)
    ensures PieceAt(input, i, off + Chunk(d, off) >= |d|, d[off..off + Chunk(d, off)])
  {
    var c := Chunk(d, off);
    var x, h := input[i..i + 5 + c], StoredHeader(off + c >= |d|, c);
    assert forall k :: 0 <= k < 5 ==> input[i + k] == x[k] == h[k] == HeaderByte(off + c >= |d|, c, k);
    assert input[i + 5..i + 5 + c] == x[5..] == d[off..off + c];
  }

  /** One stored block in the block loop. */
  lemma StoredStep(T: Tables, input: seq<byte>, bs: seq<bit>, pos: nat, o: seq<byte>, cap: nat, last: nat,
                   o': seq<byte>, p: nat)
    requires TablesOk(T) && |o| <= cap && bs == Stream(input) && pos + 3 <= |bs|
    requires ReadBits(bs, pos, 1).val == last && ReadBits(bs, pos + 1, 2).val == 0
    requires Stored(input, pos + 3, o, cap) == Got(o', p)
    ensures Inflate(T, input, bs, pos, o, cap) == if last == 1 then Got(o', p) else Inflate(T, input, bs, p, o', cap)
  {
    InflateStep(T, input, bs, pos, o, cap, last, 0);
  }

  function AtByte(run: Runner, i: nat, o: seq<byte>): Read<seq<byte>> { run(8 * i, o) }

  /** run takes a stored block standing at byte i in one turn. */
  ghost predicate TakesPieces(run: Runner, input: seq<byte>, cap: nat) {
    forall i: nat, last, data, o {:trigger PieceAt(input, i, last, data), AtByte(run, i, o)} ::
      |data| <= 65535 && |o| + |data| <= cap && PieceAt(input, i, last, data) ==>
        AtByte(run, i, o)
        == if last then Got(o + data, 8 * (i + 5 + |data|)) else AtByte(run, i + 5 + |data|, o + data)
  }

  lemma PieceStep(T: Tables, input: seq<byte>, i: nat, last: bool, data: seq<byte>, o: seq<byte>, cap: nat)
    requires TablesOk(T) && |data| <= 65535 && |o| + |data| <= cap && PieceAt(input, i, last, data)
    ensures From(T, input, cap, 8 * i, o)
            == if last then Got(o + data, 8 * (i + 5 + |data|)) else From(T, input, cap, 8 * (i + 5 + |data|), o + data)
  {
    MarkByte(input, Stream(input), i);
    assert Stored(input, 8 * i + 3, o, cap) == Got(o + data, 8 * (i + 5 + |data|)) by {
      StoredParts(input, data, 8 * i + 3, o, cap, i + 1);
    }
    StoredStep(T, input, Stream(input), 8 * i, o, cap, input[i], o + data, 8 * (i + 5 + |data|));
  }

  lemma InflateTakes(T: Tables, input: seq<byte>, cap: nat)
    requires TablesOk(T)
    ensures TakesPieces(RunnerOf(T, input, cap), input, cap)
  {
    hide PieceAt, Inflate, Stream, TablesOk;
    var run := RunnerOf(T, input, cap);
    forall i: nat, last, data, o | |data| <= 65535 && |o| + |data| <= cap && PieceAt(input, i, last, data)
      ensures AtByte(run, i, o)
              == if last then Got(o + data, 8 * (i + 5 + |data|)) else AtByte(run, i + 5 + |data|, o + data)
    {
      PieceStep(T, input, i, last, data, o, cap);
    }
  }

  /** The blocks of d from off on fill input from i to end. */
  ghost predicate BlocksAt(input: seq<byte>, i: nat, end: nat, d: seq<byte>, off: nat)
    requires off <= |d|
    decreases |d| - off
  {
    var e := off + Chunk(d, off);
    var j := i + 5 + Chunk(d, off);
    PieceAt(input, i, e >= |d|, d[off..e]) && if e >= |d| then j == end else BlocksAt(input, j, end, d, e)
  }

  lemma {:induction false} BlocksStand(input: seq<byte>, i: nat, d: seq<byte>, off: nat)
    requires off <= |d|
    requires i + |StoredBlocks(d, off)| <= |input| && input[i..i + |StoredBlocks(d, off)|] == StoredBlocks(d, off)
    ensures BlocksAt(input, i, i + |StoredBlocks(d, off)|, d, off)
    decreases |d| - off
  {
    hide PieceAt, StoredHeader, HeaderByte;
    var e, x := off + Chunk(d, off), Piece(d, off);
    var all := input[i..i + |StoredBlocks(d, off)|];
    assert input[i..i + |x|] == all[..|x|] == x;
    PieceStands(input, i, d, off);
    if e < |d| {
      var j, rest := i + |x|, StoredBlocks(d, e);
      assert input[j..j + |rest|] == all[|x|..] == rest;
      BlocksStand(input, j, d, e);
    }
  }

  /** Stored blocks decode to their bytes, however many blocks there are. */
  lemma {:induction false} BlocksBack(run: Runner, input: seq<byte>, i: nat, end: nat, d: seq<byte>, off: nat,
                                      o: seq<byte>, cap: nat)
    requires TakesPieces(run, input, cap) && off <= |d| && |o| + |d| - off <= cap && BlocksAt(input, i, end, d, off)
    ensures AtByte(run, i, o) == Got(o + d[off..], 8 * end)
    decreases |d| - off
  {
    var e := off + Chunk(d, off);
    var data := d[off..e];
    assert PieceAt(input, i, e >= |d|, data);
    if e < |d| {
      BlocksBack(run, input, i + 5 + |data|, end, d, e, o + data, cap);
      assert (o + data) + d[e..] == o + d[off..];
    } else {
      assert data == d[off..];
    }
  }

  /** The optional fields of a gzip header. */
  datatype Fields = Fields(text: bool, extra: Option<seq<byte>>, name: Option<seq<byte>>, comment: Option<seq<byte>>,
                           hcrc: Option<(byte, byte)>)

  predicate Text(s: seq<byte>) { 0 !in s }

  predicate FieldsOk(f: Fields) {
    && (f.extra.Some? ==> |f.extra.value| <= 65535)
    && (f.name.Some? ==> Text(f.name.value))
    && (f.comment.Some? ==> Text(f.comment.value))
  }

  function FlagByte(f: Fields): byte {
    (if f.text then 1 else 0) + (if f.hcrc.Some? then 2 else 0) + (if f.extra.Some? then 4 else 0)
    + (if f.name.Some? then 8 else 0) + (if f.comment.Some? then 16 else 0)
  }

  function ExtraBytes(f: Fields): seq<byte>
    requires FieldsOk(f)
  {
    if f.extra.Some? then [|f.extra.value| % 256, |f.extra.value| / 256] + f.extra.value else []
  }

  function StringBytes(s: Option<seq<byte>>): seq<byte> {
    if s.Some? then s.value + [0] else []
  }

  function CrcBytes(f: Fields): seq<byte> {
    if f.hcrc.Some? then [f.hcrc.value.0, f.hcrc.value.1] else []
  }

  /** A gzip member: header with its fields, deflate stream z, trailer. */
  predicate Member(g: seq<byte>, f: Fields, z: seq<byte>, size: nat)
    requires FieldsOk(f)
  {
    var p1 := 10 + |ExtraBytes(f)|;
    var p2 := p1 + |StringBytes(f.name)|;
    var p3 := p2 + |StringBytes(f.comment)|;
    var p4 := p3 + |CrcBytes(f)|;
    && size < 0x1_0000_0000 && |g| == p4 + |z| + 8
    && g[0] == 0x1f && g[1] == 0x8b && g[2] == 8 && g[3] == FlagByte(f)
    && Stands(g, 10, ExtraBytes(f)) && Stands(g, p1, StringBytes(f.name)) && Stands(g, p2, StringBytes(f.comment))
    && Stands(g, p3, CrcBytes(f)) && Stands(g, p4, z) && Stands(g, |g| - 4, Le32(size))
  }

  lemma FlagsRead(f: Fields)
    ensures var b := FlagByte(f) as int;
            && (b / 2 % 2 == 1 <==> f.hcrc.Some?) && (b / 4 % 2 == 1 <==> f.extra.Some?)
            && (b / 8 % 2 == 1 <==> f.name.Some?) && (b / 16 % 2 == 1 <==> f.comment.Some?)
  {}

  lemma {:induction false} SkipPast(g: seq<byte>, p: nat, s: seq<byte>)
    requires Text(s) && Stands(g, p, s + [0])
    ensures SkipString(g, p) == p + |s| + 1
    decreases s
  {
    var x := g[p..p + |s| + 1];
    assert g[p] == x[0];
    if s != [] {
      assert g[p] == s[0] && s[0] in s;
      assert g[p + 1..p + 1 + |s[1..] + [0]|] == x[1..] == s[1..] + [0];
      SkipPast(g, p + 1, s[1..]);
    }
  }

  lemma ExtraBack(g: seq<byte>, f: Fields)
    requires FieldsOk(f) && |g| >= 18 && Stands(g, 10, ExtraBytes(f))
    ensures (if f.extra.Some? then 12 + (g[10] as int) + 256 * (g[11] as int) else 10) == 10 + |ExtraBytes(f)|
  {
    if f.extra.Some? {
      StandsAt(g, 10, ExtraBytes(f), 0);
      StandsAt(g, 10, ExtraBytes(f), 1);
    }
  }

  lemma StringBack(g: seq<byte>, p: nat, s: Option<seq<byte>>)
    requires (s.Some? ==> Text(s.value)) && Stands(g, p, StringBytes(s))
    ensures (if s.Some? then SkipString(g, p) else p) == p + |StringBytes(s)|
  {
    if s.Some? { SkipPast(g, p, s.value); }
  }

  lemma StartBack(g: seq<byte>, f: Fields, z: seq<byte>, size: nat)
    requires FieldsOk(f) && Member(g, f, z, size)
    ensures DataStart(g) == |g| - 8 - |z|
  {
    hide Le32, FlagByte, SkipString, ExtraBytes, StringBytes, Stands, Text;
    FlagsRead(f);
    var p1 := 10 + |ExtraBytes(f)|;
    var p2 := p1 + |StringBytes(f.name)|;
    ExtraBack(g, f);
    StringBack(g, p1, f.name);
    StringBack(g, p2, f.comment);
  }

  /** Unwrapping any member gives what its deflate stream stands for, whatever its optional fields and CRC. */
  lemma MemberBack(inf: Decompressor, g: seq<byte>, f: Fields, z: seq<byte>, d: seq<byte>, end: nat)
    requires FieldsOk(f) && Member(g, f, z, |d|) && |g| <= 0x8000_0000
    requires inf(z, if |d| == 0 then 1 else |d|) == Got(d, end)
    ensures Unwrap(inf, g) == if |d| < 0x8000_0000 then Data(d) else Bad
  {
    hide DataStart, Le32, ExtraBytes, StringBytes, CrcBytes, FlagByte, FieldsOk;
    StartBack(g, f, z, |d|);
    assert OutSize(g) == (if |d| == 0 then 1 else |d|) by { Le32Back(|d|, g, |g| - 4); }
    var p := |g| - 8 - |z|;
    assert Stands(g, p, z) && StreamLength(g, p) == |z| && g[p..p + |z|] == z;
  }

  lemma PlainMember(h: seq<byte>, z: seq<byte>, c: seq<byte>, size: nat)
    requires |h| == 10 && h[0] == 0x1f && h[1] == 0x8b && h[2] == 8 && h[3] == 0
    requires |c| == 4 && size < 0x1_0000_0000
    ensures Member(h + z + (c + Le32(size)), Fields(false, None, None, None, None), z, size)
  {
    var g := h + z + (c + Le32(size));
    assert g[10..10 + |z|] == z;
    assert g[|g| - 4..|g| - 4 + 4] == Le32(size);
  }

  lemma StreamOfBlocks(T: Tables, d: seq<byte>, cap: nat)
    requires TablesOk(T) && |d| <= cap
    ensures InflateAll(T, StoredBlocks(d, 0), cap) == Got(d, 8 * |StoredBlocks(d, 0)|)
  {
    var z := StoredBlocks(d, 0);
    assert z[0..|z|] == z && d[0..] == d && [] + d == d;
    BlocksStand(z, 0, d, 0);
    InflateTakes(T, z, cap);
    BlocksBack(RunnerOf(T, z, cap), z, 0, |z|, d, 0, [], cap);
  }

  /** gz_unwrap undoes gz_wrap on every byte string whose wrapping fits the buffer. */
  lemma GzipRoundTrip(T: Tables, d: seq<byte>, crc: nat)
    requires TablesOk(T) && |d| < 0x1_0000_0000 && crc < 0x1_0000_0000 && |Wrap(d, crc)| <= 0x8000_0000
    ensures Unwrap(InflateBy(T), Wrap(d, crc)) == Data(d)
  {
    var z, f := StoredBlocks(d, 0), Fields(false, None, None, None, None);
    PlainMember(PlainHeader(), z, Le32(crc), |d|);
    StreamOfBlocks(T, d, if |d| == 0 then 1 else |d|);
    MemberBack(InflateBy(T), Wrap(d, crc), f, z, d, 8 * |z|);
  }
}
