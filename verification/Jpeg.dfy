/**
  The entropy-coded side of img_jpg.c: byte destuffing, the bit reader, and the
  mincode/maxcode/valptr Huffman decoder (Annex F of ITU-T T.81), proved equal
  to the counts/symbols decoder of inflate.h.
 */
module Jpeg {
  import opened Bits
  import opened Huffman

  // ---- destuffing ----

  function SkipFill(d: seq<byte>, pos: nat): (r: nat)
    ensures r >= pos
    decreases |d| - pos
  {
    if pos < |d| && d[pos] == 0xFF then SkipFill(d, pos + 1) else pos
  }

  /** The data bytes from pos on, up to a marker or the end. */
  function Destuff(d: seq<byte>, pos: nat): (r: seq<byte>)
    decreases |d| - pos
  {
    if pos >= |d| then []
    else if d[pos] != 0xFF then [d[pos]] + Destuff(d, pos + 1)
    else
      var q := SkipFill(d, pos + 1);
      if q < |d| && d[q] != 0 then [] else [0xFF] + Destuff(d, q + 1)
  }

  /** What a writer does: a zero byte after each 0xFF. */
  function Stuff(data: seq<byte>): (r: seq<byte>) {
    if data == [] then []
    else (if data[0] == 0xFF then [0xFF, 0] else [data[0]]) + Stuff(data[1..])
  }

  lemma DestuffStep(d: seq<byte>, pos: nat, n: nat)
    requires pos + n <= |d| && 1 <= n <= 2
    requires n == 1 ==> d[pos] != 0xFF
    requires n == 2 ==> d[pos] == 0xFF && d[pos + 1] == 0
    ensures Destuff(d, pos) == [d[pos]] + Destuff(d, pos + n)
  {}

  lemma DestuffMarker(d: seq<byte>, pos: nat)
    requires pos < |d| && d[pos] == 0xFF && var q := SkipFill(d, pos + 1); q < |d| && d[q] != 0
    ensures Destuff(d, pos) == []
  {}

  /** Stuffed data before a marker is read back, with any fill bytes in front of the marker. */
  lemma {:induction false} StuffBack(data: seq<byte>, d: seq<byte>, pos: nat)
    requires pos + |Stuff(data)| < |d| && d[pos..pos + |Stuff(data)|] == Stuff(data)
    requires d[pos + |Stuff(data)|] == 0xFF
    requires var q := SkipFill(d, pos + |Stuff(data)| + 1); q < |d| && d[q] != 0
    ensures Destuff(d, pos) == data
    decreases data
  {
    hide Destuff, SkipFill;
    if data == [] {
      DestuffMarker(d, pos);
    } else {
      var x := d[pos..pos + |Stuff(data)|];
      var n := if data[0] == 0xFF then 2 else 1;
      assert x[0] == d[pos] == data[0];
      assert d[pos + n..pos + |Stuff(data)|] == x[n..] == Stuff(data[1..]);
      assert n == 2 ==> x[1] == d[pos + 1] == 0;
      StuffBack(data[1..], d, pos + n);
      DestuffStep(d, pos, n);
    }
  }

  // ---- bits, most significant first, zeros after the data ----

  function BitAt(data: seq<byte>, k: nat): bit {
    if k / 8 < |data| then Shr(data[k / 8], 7 - k % 8) % 2 else 0
  }

  function FirstBits(data: seq<byte>, n: nat): (r: seq<bit>)
    ensures |r| == n && forall k :: 0 <= k < n ==> r[k] == BitAt(data, k)
  {
    seq(n, k requires 0 <= k < n => BitAt(data, k))
  }

  lemma BitIs(data: seq<byte>, i: nat, j: nat)
    requires i < |data| && j < 8
    ensures BitAt(data, 8 * i + j) == Shr(data[i], 7 - j) % 2
  {
    hide Shr;
    assert (8 * i + j) / 8 == i && (8 * i + j) % 8 == j;
  }

  lemma ShrNext(v: nat, k: nat)
    ensures Shr(v, k + 1) == Shr(v, k) / 2
  {}

  lemma {:induction false} ByteTop(data: seq<byte>, bs: seq<bit>, i: nat, k: nat)
    requires i < |data| && k <= 8 && bs == FirstBits(data, 8 * i + 8)
    ensures Value(bs, 8 * i, k) == Shr(data[i], 8 - k)
    decreases k
  {
    hide Shr, BitAt;
    if k == 0 {
      assert Pow2(8) == 256;
      ShrSmall(data[i], 8);
    } else {
      ByteTop(data, bs, i, k - 1);
      BitIs(data, i, k - 1);
      ShrNext(data[i], 8 - k);
    }
  }

  /** Each byte comes with its most significant bit first. */
  lemma ByteFirst(data: seq<byte>, i: nat)
    requires i < |data|
    ensures Value(FirstBits(data, 8 * i + 8), 8 * i, 8) == data[i]
  {
    hide Value;
    ByteTop(data, FirstBits(data, 8 * i + 8), i, 8);
    ShrNone(data[i]);
  }

  lemma ShrNone(v: nat)
    ensures Shr(v, 0) == v
  {}

  class BitReader {
    const d: seq<byte>
    ghost const data: seq<byte>
    var pos: nat
    var buf: nat
    var cnt: nat
    var marker: byte
    ghost var taken: nat

    ghost predicate Valid()
      reads this
    {
      && data == Destuff(d, 0) && cnt <= 8 && cnt <= 8 * taken
      && (if taken < |data| then marker == 0 && data[taken..] == Destuff(d, pos)
          else marker != 0 || Destuff(d, pos) == [])
      && (cnt > 0 ==> buf == if taken - 1 < |data| then data[taken - 1] as int else 0)
    }

    ghost function Cursor(): (r: int)
      reads this
    {
      8 * taken - cnt
    }

    constructor (d: seq<byte>)
      ensures Valid() && Cursor() == 0 && this.d == d && data == Destuff(d, 0)
    {
      this.d, data := d, Destuff(d, 0);
      pos, buf, cnt, marker, taken := 0, 0, 0, 0, 0;
    }

    method SkipFillBytes(p: nat) returns (q: nat)
      ensures q == SkipFill(d, p)
    {
      q := p;
      while q < |d| && d[q] == 0xFF
        invariant SkipFill(d, q) == SkipFill(d, p)
        decreases |d| - q
      {
        q := q + 1;
      }
    }

    /** jbyte: the next data byte, or zero for ever after the data. */
    method GetByte() returns (b: byte)
      requires Valid() && cnt == 0
      modifies this`pos, this`marker, this`taken
      ensures Valid() && taken == old(taken) + 1
      ensures b == if old(taken) < |data| then data[old(taken)] else 0
    {
      ghost var rest, n := Destuff(d, pos), taken;
      assert marker == 0 && n < |data| ==> rest == data[n..];
      taken := taken + 1;
      if marker != 0 { return 0; }
      if pos >= |d| { return 0; }
      var c := d[pos];
      var q := pos + 1;
      if c == 0xFF {
        q := SkipFillBytes(q);
        if q < |d| && d[q] != 0 {
          assert rest == [];
          pos, marker := q, d[q];
          return 0;
        }
        q := q + 1;
      }
      assert rest == [c] + Destuff(d, q);
      pos := q;
      assert data[n..][1..] == data[n + 1..];
      assert rest[1..] == Destuff(d, q);
      return c;
    }

    /** jbit: the next bit. */
    method GetBit() returns (b: bit)
      requires Valid()
      modifies this
      ensures Valid() && Cursor() == old(Cursor()) + 1 && b == BitAt(data, old(Cursor()))
    {
      if cnt == 0 {
        buf := GetByte();
        cnt := 8;
      }
      ghost var k := Cursor();
      assert k / 8 == taken - 1 && 7 - k % 8 == cnt - 1;
      cnt := cnt - 1;
      ShrZero(cnt);
      b := Shr(buf, cnt) % 2;
    }
  }

  lemma {:induction false} ShrZero(k: nat)
    ensures Shr(0, k) == 0
  {
    if k > 0 { ShrZero(k - 1); }
  }

  // ---- Huffman tables ----

  /** c[l] codes of length l, for l from 1 to 16. */
  function Lengths(counts: seq<byte>): (c: seq<nat>)
    requires |counts| == 16
    ensures |c| == 17 && c[0] == 0 && forall l :: 1 <= l <= 16 ==> c[l] == counts[l - 1]
  {
    seq(17, l requires 0 <= l < 17 => if l == 0 then 0 else counts[l - 1] as int)
  }

  /** What huff_build stores for length l: the first code, the last one or -1, and the place of its symbol. */
  ghost predicate Entry(c: seq<nat>, mincode: int, maxcode: int, valptr: int, l: nat)
    requires l < |c|
  {
    mincode == First(c, l) && valptr == Off(c, l) && maxcode == if c[l] == 0 then -1 else First(c, l) + c[l] - 1
  }

  class Table {
    const vals: array<byte>
    const mincode: array<int>
    const maxcode: array<int>
    const valptr: array<int>
    ghost const c: seq<nat>

    ghost predicate Built()
      reads mincode, maxcode, valptr
    {
      && |c| == 17 && vals.Length == 256 && mincode.Length == maxcode.Length == valptr.Length == 17
      && forall l :: 1 <= l <= 16 ==> Entry(c, mincode[l], maxcode[l], valptr[l], l)
    }

    /** huff_build. */
    constructor (counts: seq<byte>)
      requires |counts| == 16
      ensures Built() && c == Lengths(counts)
      ensures fresh(vals) && fresh(mincode) && fresh(maxcode) && fresh(valptr)
    {
      c := Lengths(counts);
      vals, mincode, maxcode, valptr := new byte[256], new int[17], new int[17], new int[17];
      new;
      var code: int, k: int := 0, 0;
      for l := 1 to 17
        invariant code == First(c, l) && k == Off(c, l)
        invariant forall j :: 1 <= j < l ==> Entry(c, mincode[j], maxcode[j], valptr[j], j)
        modifies mincode, maxcode, valptr
      {
        valptr[l], mincode[l] := k, code;
        if counts[l - 1] != 0 {
          code := code + counts[l - 1];
          k := k + counts[l - 1];
          maxcode[l] := code - 1;
        } else {
          maxcode[l] := -1;
        }
        code := 2 * code;
      }
    }
  }

  // ---- decoding ----

  /** The test of huff_decode: there are n-bit codes, and the bits read are not past the last of them. */
  predicate WithinLast(c: seq<nat>, bs: seq<bit>, pos: nat, n: nat)
    requires n < |c| && pos + n <= |bs|
  {
    c[n] > 0 && Value(bs, pos, n) <= First(c, n) + c[n] - 1
  }

  /** The length at which huff_decode's loop stops, or 17. */
  function Stops(c: seq<nat>, bs: seq<bit>, pos: nat, n: nat): (r: nat)
    requires |c| == 17 && 1 <= n <= 17 && pos + 16 <= |bs|
    ensures n <= r <= 17
    ensures r < 17 ==> WithinLast(c, bs, pos, r)
    ensures forall k :: n <= k < r ==> !WithinLast(c, bs, pos, k)
    decreases |c| - n
  {
    if n == 17 || WithinLast(c, bs, pos, n) then n else Stops(c, bs, pos, n + 1)
  }

  lemma {:induction false} NotBelowFirst(c: seq<nat>, bs: seq<bit>, pos: nat, n: nat)
    requires |c| == 17 && 1 <= n <= 16 && pos + 16 <= |bs| && forall k :: 1 <= k < n ==> !WithinLast(c, bs, pos, k)
    ensures Value(bs, pos, n) >= First(c, n)
  {
    if n > 1 {
      NotBelowFirst(c, bs, pos, n - 1);
      assert !WithinLast(c, bs, pos, n - 1);
    }
  }

  /** The index into vals stays inside its filled part. */
  lemma PlaceBound(c: seq<nat>, bs: seq<bit>, pos: nat, n: nat)
    requires |c| == 17 && 1 <= n <= 16 && pos + 16 <= |bs| && n == Stops(c, bs, pos, 1)
    ensures 0 <= Off(c, n) + Value(bs, pos, n) - First(c, n) < Off(c, 17)
  {
    NotBelowFirst(c, bs, pos, n);
    OffMono(c, n, 17);
  }

  /** The symbol huff_decode returns and where it leaves the reader. */
  function HuffDecode(c: seq<nat>, vals: seq<byte>, bs: seq<bit>, pos: nat): (r: (byte, nat))
    requires |c| == 17 && Off(c, 17) <= |vals| && pos + 16 <= |bs|
  {
    var n := Stops(c, bs, pos, 1);
    if n == 17 then (0, pos + 16)
    else
      PlaceBound(c, bs, pos, n);
      (vals[Off(c, n) + Value(bs, pos, n) - First(c, n)], pos + n)
  }

  /** (code << 1) | jbit(b) */
  method Extend(b: BitReader, code: nat, ghost bs: seq<bit>, ghost pos: nat, ghost l: nat) returns (code': nat)
    requires b.Valid() && b.Cursor() == pos + l && pos + l < |bs| && bs == FirstBits(b.data, |bs|)
             && code == Value(bs, pos, l)
    modifies b
    ensures b.Valid() && b.Cursor() == pos + l + 1 && code' == Value(bs, pos, l + 1)
  {
    var x := b.GetBit();
    code' := 2 * code + x;
  }

  lemma StopsStep(c: seq<nat>, bs: seq<bit>, pos: nat, l: nat, mincode: int, maxcode: int, valptr: int)
    requires |c| == 17 && 1 <= l <= 16 && pos + 16 <= |bs| && Entry(c, mincode, maxcode, valptr, l)
    ensures Stops(c, bs, pos, l)
            == if maxcode >= 0 && Value(bs, pos, l) <= maxcode then l
               else if l == 16 then 17 else Stops(c, bs, pos, l + 1)
  {}

  lemma Placed(c: seq<nat>, vals: seq<byte>, bs: seq<bit>, pos: nat, l: nat, mincode: int, maxcode: int, valptr: int)
    requires |c| == 17 && 1 <= l <= 16 && pos + 16 <= |bs| && Entry(c, mincode, maxcode, valptr, l)
    requires Stops(c, bs, pos, 1) == l && Off(c, 17) <= |vals|
    ensures 0 <= valptr + (Value(bs, pos, l) - mincode) < |vals|
    ensures HuffDecode(c, vals, bs, pos) == (vals[valptr + (Value(bs, pos, l) - mincode)], pos + l)
  {
    PlaceBound(c, bs, pos, l);
  }

  lemma NoCode(c: seq<nat>, vals: seq<byte>, bs: seq<bit>, pos: nat)
    requires |c| == 17 && Off(c, 17) <= |vals| && pos + 16 <= |bs| && Stops(c, bs, pos, 1) == 17
    ensures HuffDecode(c, vals, bs, pos) == (0, pos + 16)
  {}

  /** huff_decode on a reader. */
  method Decode(b: BitReader, h: Table) returns (v: byte)
    requires b.Valid() && h.Built() && Off(h.c, 17) <= 256
    modifies b
    ensures b.Valid() && old(b.Cursor()) >= 0
    ensures (v, b.Cursor()) == HuffDecode(h.c, h.vals[..], FirstBits(b.data, old(b.Cursor()) + 16), old(b.Cursor()))
  {
    ghost var pos: nat := b.Cursor();
    v := DecodeFrom(b, h, FirstBits(b.data, pos + 16), pos);
  }

  /** The loop of huff_decode: the length of the code at pos and its bits, 17 for none. */
  method FindLength(b: BitReader, h: Table, ghost bs: seq<bit>, ghost pos: nat) returns (l: nat, code: nat)
    requires b.Valid() && h.Built() && b.Cursor() == pos && |bs| == pos + 16 && bs == FirstBits(b.data, |bs|)
    modifies b
    ensures b.Valid() && l == Stops(h.c, bs, pos, 1)
    ensures l == 17 ==> b.Cursor() == pos + 16
    ensures l != 17 ==> b.Cursor() == pos + l && code == Value(bs, pos, l)
  {
    assert Value(bs, pos, 0) == 0;
    code := Extend(b, 0, bs, pos, 0);
    l := 1;
    while h.maxcode[l] < 0 || code > h.maxcode[l]
      invariant 1 <= l <= 16 && b.Valid() && b.Cursor() == pos + l && code == Value(bs, pos, l)
      invariant Stops(h.c, bs, pos, l) == Stops(h.c, bs, pos, 1)
      decreases 16 - l
    {
      StopsStep(h.c, bs, pos, l, h.mincode[l], h.maxcode[l], h.valptr[l]);
      if l >= 16 { return 17, code; }
      code := Extend(b, code, bs, pos, l);
      l := l + 1;
    }
    StopsStep(h.c, bs, pos, l, h.mincode[l], h.maxcode[l], h.valptr[l]);
  }

  method DecodeFrom(b: BitReader, h: Table, ghost bs: seq<bit>, ghost pos: nat) returns (v: byte)
    requires b.Valid() && h.Built() && Off(h.c, 17) <= 256
    requires b.Cursor() == pos && |bs| == pos + 16 && bs == FirstBits(b.data, |bs|)
    modifies b
    ensures b.Valid() && (v, b.Cursor()) == HuffDecode(h.c, h.vals[..], bs, pos)
  {
    hide HuffDecode, Stops, Value, FirstBits, BitAt;
    var l, code := FindLength(b, h, bs, pos);
    if l == 17 {
      NoCode(h.c, h.vals[..], bs, pos);
      return 0;
    }
    Placed(h.c, h.vals[..], bs, pos, l, h.mincode[l], h.maxcode[l], h.valptr[l]);
    v := h.vals[h.valptr[l] + (code - h.mincode[l])];
  }

  // ---- the two Huffman decoders agree ----

  lemma {:induction false} PrefixFirst(c: seq<nat>, c': seq<nat>, l: nat)
    requires l <= |c'| <= |c| && c[..|c'|] == c'
    ensures First(c, l) == First(c', l) && Off(c, l) == Off(c', l)
  {
    if l > 1 {
      PrefixFirst(c, c', l - 1);
      assert c[l - 1] == c[..|c'|][l - 1];
    }
  }

  /** Where shorter codes miss, the two tests for a length are the same. */
  lemma {:induction false} SameStop(c: seq<nat>, bs: seq<bit>, pos: nat, n: nat)
    requires |c| == 17 && 1 <= n <= 17 && pos + 16 <= |bs| && forall k :: 1 <= k < n ==> !WithinLast(c, bs, pos, k)
    ensures Stops(c, bs, pos, n) == Search(c, bs, pos, n)
    decreases 17 - n
  {
    if n <= 16 {
      NotBelowFirst(c, bs, pos, n);
      if !WithinLast(c, bs, pos, n) { SameStop(c, bs, pos, n + 1); }
    }
  }

  lemma {:induction false} SearchPrefix(c: seq<nat>, c': seq<nat>, bs: seq<bit>, pos: nat, n: nat)
    requires |c| == 17 && |c'| == 16 && c[..16] == c' && c[16] == 0 && pos + 16 <= |bs| && 1 <= n <= 16
    requires forall k :: 1 <= k < n ==> !Hits(c, bs, pos, k)
    ensures Search(c, bs, pos, n) == if Search(c', bs, pos, n) == 16 then 17 else Search(c', bs, pos, n)
    decreases 16 - n
  {
    PrefixFirst(c, c', n);
    if n == 16 {
      MissesBelow(c, bs, pos, 16);
    } else {
      assert c[n] == c[..16][n];
      if !Hits(c, bs, pos, n) { SearchPrefix(c, c', bs, pos, n + 1); }
    }
  }

  /** With no 16-bit codes and the same symbols, the JPEG decoder is the inflate decoder. */
  lemma SameDecoder(t: Tree, c: seq<nat>, vals: seq<byte>, bs: seq<bit>, pos: nat)
    requires WellFormed(t) && |c| == 17 && c[..16] == t.counts && c[16] == 0 && pos + 16 <= |bs|
    requires |t.symbols| <= |vals| && forall i :: 0 <= i < |t.symbols| ==> vals[i] == t.symbols[i]
    ensures Off(c, 17) == |t.symbols|
    ensures var r := HuffDecode(c, vals, bs, pos);
            match Huffman.Decode(t, bs, pos)
            case Got(s, p) => r.0 == s && r.1 == p
            case Fail => r == (0, pos + 16)
            case Overrun => false
  {
    PrefixFirst(c, t.counts, 16);
    SameStop(c, bs, pos, 1);
    SearchPrefix(c, t.counts, bs, pos, 1);
    var n := Stops(c, bs, pos, 1);
    if n <= 15 {
      PrefixFirst(c, t.counts, n);
      MissesBelow(t.counts, bs, pos, n);
      OffMono(t.counts, n, 16);
    }
  }

  /** A symbol inflate finds does not depend on the bits after it. */
  lemma DecodeAhead(t: Tree, bs: seq<bit>, more: seq<bit>, pos: nat)
    requires WellFormed(t) && Huffman.Decode(t, bs, pos).Got?
    ensures Huffman.Decode(t, bs + more, pos) == Huffman.Decode(t, bs, pos)
  {
    var n := Search(t.counts, bs, pos, 1);
    forall k: nat | k <= n ensures Value(bs + more, pos, k) == Value(bs, pos, k) { ValueAhead(bs, more, pos, k); }
    forall k | 1 <= k < n ensures !Hits(t.counts, bs + more, pos, k) { assert !Hits(t.counts, bs, pos, k); }
    DecodeFirstHit(t, bs + more, pos, n);
    DecodeFirstHit(t, bs, pos, n);
  }

  lemma {:induction false} ValueAhead(bs: seq<bit>, more: seq<bit>, pos: nat, n: nat)
    requires pos + n <= |bs|
    ensures Value(bs + more, pos, n) == Value(bs, pos, n)
  {
    if n > 0 { ValueAhead(bs, more, pos, n - 1); }
  }

  /** On every bit sequence inflate accepts, the JPEG decoder reads the same symbol from the same bits. */
  lemma AcceptedAlike(t: Tree, c: seq<nat>, vals: seq<byte>, bs: seq<bit>, pos: nat, more: seq<bit>)
    requires WellFormed(t) && |c| == 17 && c[..16] == t.counts && c[16] == 0 && |more| >= 16
    requires |t.symbols| <= |vals| && forall i :: 0 <= i < |t.symbols| ==> vals[i] == t.symbols[i]
    requires Huffman.Decode(t, bs, pos).Got?
    ensures Off(c, 17) <= |vals| && pos + 16 <= |bs + more|
    ensures var r, g := HuffDecode(c, vals, bs + more, pos), Huffman.Decode(t, bs, pos); r.0 == g.val && r.1 == g.pos
  {
    DecodeAhead(t, bs, more, pos);
    SameDecoder(t, c, vals, bs + more, pos);
  }
}
