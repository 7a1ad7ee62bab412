/**
  A DEFLATE encoder: any choice of blocks, codes and spellings becomes a bit
  string, and the decoder gives back what it stands for.
 */
module Encoder {
  import opened Bits
  import opened Slices
  import opened Huffman
  import opened InflateSpec
  import opened Deflate

  lemma StandsParts3(bs: seq<bit>, pos: nat, a: seq<bit>, b: seq<bit>, c: seq<bit>)
    requires Stands(bs, pos, a + (b + c))
    ensures Stands(bs, pos, a) && Stands(bs, pos + |a|, b) && Stands(bs, pos + |a| + |b|, c)
  {
    StandsParts(bs, pos, a, b + c);
    StandsParts(bs, pos + |a|, b, c);
  }

  // ---- dynamic headers ----

  /** The runs, read after acc, spell exactly ls. */
  ghost predicate Spells(cb: Book, runs: seq<Run>, acc: seq<nat>, ls: seq<nat>)
    decreases runs
  {
    if runs == [] then acc == ls
    else RunOk(runs[0], acc) && HasCode(cb, RunSymbol(runs[0])) && |RunExpand(runs[0], acc)| <= |ls|
         && Spells(cb, runs[1..], RunExpand(runs[0], acc), ls)
  }

  ghost function RunsBits(cb: Book, runs: seq<Run>, acc: seq<nat>, ls: seq<nat>): (r: seq<bit>)
    requires Spells(cb, runs, acc, ls)
    decreases runs
  {
    if runs == [] then []
    else cb[RunSymbol(runs[0])] + (RunExtra(runs[0]) + RunsBits(cb, runs[1..], RunExpand(runs[0], acc), ls))
  }

  lemma {:induction false} RunsOut(cb: Book, runs: seq<Run>, acc: seq<nat>, ls: seq<nat>, bs: seq<bit>, pos: nat)
    requires Spells(cb, runs, acc, ls) && Stands(bs, pos, RunsBits(cb, runs, acc, ls))
    ensures Spelt(cb, runs, acc, ls, bs, pos, pos + |RunsBits(cb, runs, acc, ls)|)
    decreases runs
  {
    hide Stands, RunExpand, RunExtra, RunSymbol, RunOk;
    if runs != [] {
      var x, y, acc' := cb[RunSymbol(runs[0])], RunExtra(runs[0]), RunExpand(runs[0], acc);
      var z := RunsBits(cb, runs[1..], acc', ls);
      StandsParts3(bs, pos, x, y, z);
      RunsOut(cb, runs[1..], acc', ls, bs, pos + |x| + |y|);
    }
  }

  ghost predicate HeaderSpelled(inv: seq<nat>, h: Header) {
    HeaderOk(inv, h) && Spells(h.cb, h.runs, [], h.ll + h.dl)
  }

  ghost function HeaderBits(T: Tables, inv: seq<nat>, h: Header): (r: seq<bit>)
    requires TablesOk(T) && HeaderSpelled(inv, h)
  {
    SizesBits(|h.ll|, |h.dl|, h.nclen) + (ClensBits(T, h.cl, 0, h.nclen) + RunsBits(h.cb, h.runs, [], h.ll + h.dl))
  }

  function SizesBits(a: nat, b: nat, c: nat): (r: seq<bit>)
    requires 257 <= a && 1 <= b && 4 <= c
    ensures |r| == 14
  {
    NatBits(a - 257, 5) + (NatBits(b - 1, 5) + NatBits(c - 4, 4))
  }

  lemma SizesOut(a: nat, b: nat, c: nat, bs: seq<bit>, pos: nat)
    requires 257 <= a && 1 <= b && 4 <= c && Stands(bs, pos, SizesBits(a, b, c))
    ensures Stands(bs, pos, NatBits(a - 257, 5)) && Stands(bs, pos + 5, NatBits(b - 1, 5))
            && Stands(bs, pos + 10, NatBits(c - 4, 4))
  {
    StandsParts3(bs, pos, NatBits(a - 257, 5), NatBits(b - 1, 5), NatBits(c - 4, 4));
  }

  lemma HeaderParts(T: Tables, inv: seq<nat>, h: Header, z: seq<bit>, bs: seq<bit>, pos: nat)
    requires TablesOk(T) && HeaderOk(inv, h)
    requires Stands(bs, pos, SizesBits(|h.ll|, |h.dl|, h.nclen) + (ClensBits(T, h.cl, 0, h.nclen) + z))
    ensures Stands(bs, pos, SizesBits(|h.ll|, |h.dl|, h.nclen))
    ensures Stands(bs, pos + 14, ClensBits(T, h.cl, 0, h.nclen)) && Stands(bs, pos + 14 + 3 * h.nclen, z)
  {
    StandsParts3(bs, pos, SizesBits(|h.ll|, |h.dl|, h.nclen), ClensBits(T, h.cl, 0, h.nclen), z);
  }

  lemma HeaderJoin(T: Tables, inv: seq<nat>, h: Header, bs: seq<bit>, pos: nat, end: nat)
    requires TablesOk(T) && HeaderOk(inv, h)
    requires Stands(bs, pos, NatBits(|h.ll| - 257, 5)) && Stands(bs, pos + 5, NatBits(|h.dl| - 1, 5))
             && Stands(bs, pos + 10, NatBits(h.nclen - 4, 4))
    requires Stands(bs, pos + 14, ClensBits(T, h.cl, 0, h.nclen))
    requires Spelt(h.cb, h.runs, [], h.ll + h.dl, bs, pos + 14 + 3 * h.nclen, end)
    ensures HeaderAt(T, inv, h, bs, pos, end)
  {}

  lemma HeaderOut(T: Tables, inv: seq<nat>, h: Header, bs: seq<bit>, pos: nat)
    requires TablesOk(T) && HeaderSpelled(inv, h) && Stands(bs, pos, HeaderBits(T, inv, h))
    ensures HeaderAt(T, inv, h, bs, pos, pos + |HeaderBits(T, inv, h)|)
  {
    hide Stands, Spelt, Spells, RunsBits, ClensBits, SizesBits, NatBits, HeaderAt, TablesOk;
    var z, p := RunsBits(h.cb, h.runs, [], h.ll + h.dl), pos + 14 + 3 * h.nclen;
    HeaderParts(T, inv, h, z, bs, pos);
    SizesOut(|h.ll|, |h.dl|, h.nclen, bs, pos);
    RunsOut(h.cb, h.runs, [], h.ll + h.dl, bs, p);
    HeaderJoin(T, inv, h, bs, pos, p + |z|);
  }

  // ---- stored blocks ----

  function StoredBits(data: seq<byte>, pos: nat): (r: seq<bit>)
    requires |data| <= 65535
  {
    NatBits(0, PadTo8(pos)) + (NatBits(|data|, 16) + (NatBits(65535 - |data|, 16) + Stream(data)))
  }

  lemma StoredOut(data: seq<byte>, bs: seq<bit>, pos: nat)
    requires |data| <= 65535 && Stands(bs, pos, StoredBits(data, pos))
    ensures StoredAt(data, bs, pos, pos + |StoredBits(data, pos)|)
  {
    var n := PadTo8(pos);
    var w, x, y, z := NatBits(0, n), NatBits(|data|, 16), NatBits(65535 - |data|, 16), Stream(data);
    StandsParts(bs, pos, w, x + (y + z));
    StandsParts(bs, pos + n, x, y + z);
    StandsParts(bs, pos + n + 16, y, z);
  }

  // ---- whole streams ----

  ghost predicate Encodable(F: Format, b: Blk, n: nat)
    requires TablesOk(F.T)
  {
    BlkOk(F, b, n) && (b.DynamicBlk? ==> HeaderSpelled(F.inv, b.h))
  }

  ghost function BlkBits(F: Format, b: Blk, n: nat, pos: nat): (r: seq<bit>)
    requires TablesOk(F.T) && Encodable(F, b, n)
  {
    match b
    case StoredBlk(data) => StoredBits(data, pos)
    case FixedBlk(ts) => TokensBits(F.T, F.lb, F.db, ts, n)
    case DynamicBlk(h, ts) => HeaderBits(F.T, F.inv, h) + TokensBits(F.T, h.lb, h.db, ts, n)
  }

  lemma BlkOut(F: Format, b: Blk, n: nat, bs: seq<bit>, pos: nat)
    requires TablesOk(F.T) && Encodable(F, b, n) && Stands(bs, pos, BlkBits(F, b, n, pos))
    ensures BlkAt(F, b, n, bs, pos, pos + |BlkBits(F, b, n, pos)|)
  {
    hide Stands, StoredBits, StoredAt, Laid, TokensBits, HeaderBits, HeaderAt, HeaderOk, Spells;
    match b
    case StoredBlk(data) => StoredOut(data, bs, pos);
    case FixedBlk(ts) => LaidOut(F.T, F.lb, F.db, ts, n, bs, pos);
    case DynamicBlk(h, ts) => DynamicOut(F, h, ts, n, bs, pos);
  }

  lemma DynamicOut(F: Format, h: Header, ts: seq<Token>, n: nat, bs: seq<bit>, pos: nat)
    requires TablesOk(F.T) && Encodable(F, DynamicBlk(h, ts), n)
             && Stands(bs, pos, BlkBits(F, DynamicBlk(h, ts), n, pos))
    ensures BlkAt(F, DynamicBlk(h, ts), n, bs, pos, pos + |BlkBits(F, DynamicBlk(h, ts), n, pos)|)
  {
    hide HeaderBits, TokensBits, HeaderAt, Laid, Stands, HeaderOk, Spells;
    var x, y := HeaderBits(F.T, F.inv, h), TokensBits(F.T, h.lb, h.db, ts, n);
    var mid := pos + |x|;
    StandsParts(bs, pos, x, y);
    assert HeaderAt(F.T, F.inv, h, bs, pos, mid) by { HeaderOut(F.T, F.inv, h, bs, pos); }
    LaidOut(F.T, h.lb, h.db, ts, n, bs, mid);
  }

  ghost function MarkedBits(F: Format, b: Blk, last: bool, n: nat, pos: nat): (r: seq<bit>)
    requires TablesOk(F.T) && Encodable(F, b, n)
  {
    [if last then 1 else 0] + (NatBits(Kind(b), 2) + BlkBits(F, b, n, pos + 3))
  }

  lemma MarkedOut(F: Format, b: Blk, last: bool, n: nat, bs: seq<bit>, pos: nat)
    requires TablesOk(F.T) && Encodable(F, b, n) && Stands(bs, pos, MarkedBits(F, b, last, n, pos))
    ensures MarkedAt(F, b, last, n, bs, pos, pos + |MarkedBits(F, b, last, n, pos)|)
  {
    hide Stands, BlkBits, BlkAt, BlkOk, NatBits, HeaderSpelled, TablesOk;
    var x: seq<bit> := [if last then 1 else 0];
    var y, z := NatBits(Kind(b), 2), BlkBits(F, b, n, pos + 3);
    StandsParts3(bs, pos, x, y, z);
    StandsAt(bs, pos, x, 0);
    StandsInside(bs, pos + 1, y);
    BlkOut(F, b, n, bs, pos + 3);
  }

  lemma LoneBlock(F: Format, b: Blk, bs: seq<bit>, tail: seq<bit>)
    requires TablesOk(F.T) && Encodable(F, b, 0) && bs == MarkedBits(F, b, true, 0, 0) + tail
    ensures MarkedAt(F, b, true, 0, bs, 0, |MarkedBits(F, b, true, 0, 0)|)
  {
    hide MarkedBits, MarkedAt, Encodable, BlkOk;
    MarkedOut(F, b, true, 0, bs, 0);
  }

  lemma LoneBack(F: Format, b: Blk, input: seq<byte>, end: nat, cap: nat)
    requires FormatOk(F) && BlkOk(F, b, 0) && BlkReads(b) && MarkedAt(F, b, true, 0, Stream(input), 0, end)
    ensures Inflate(F.T, input, Stream(input), 0, [], cap)
            == if |BlkExpand(F, [], b)| <= cap then Got(BlkExpand(F, [], b), end) else Fail
  {
    MarkedBack(F, b, true, input, Stream(input), 0, end, [], cap);
  }

  /** A stream of one encoded block, whatever bits follow it, decodes to what the block stands for. */
  lemma BlockRoundTrip(F: Format, b: Blk, input: seq<byte>, tail: seq<bit>, cap: nat)
    requires FormatOk(F) && Encodable(F, b, 0) && BlkReads(b)
    requires Stream(input) == MarkedBits(F, b, true, 0, 0) + tail
    ensures Inflate(F.T, input, Stream(input), 0, [], cap)
            == if |BlkExpand(F, [], b)| <= cap
               then Got(BlkExpand(F, [], b), |MarkedBits(F, b, true, 0, 0)|) else Fail
  {
    LoneBlock(F, b, Stream(input), tail);
    LoneBack(F, b, input, |MarkedBits(F, b, true, 0, 0)|, cap);
  }

  // ---- several blocks ----

  /** Some bits, the output after them, and whether they are the last. */
  datatype Seg = Seg(bits: seq<bit>, o: seq<byte>, last: bool)

  ghost function SegBits(segs: seq<Seg>): seq<bit> {
    if segs == [] then [] else segs[0].bits + SegBits(segs[1..])
  }

  ghost function Final(segs: seq<Seg>, o: seq<byte>): seq<byte> {
    if segs == [] then o else Final(segs[1..], segs[0].o)
  }

  /** run takes the segment in one turn. */
  ghost predicate Takes(run: Runner, bs: seq<bit>, s: Seg, pos: nat, o: seq<byte>, cap: nat) {
    |o| <= |s.o| && (Stands(bs, pos, s.bits) && |o| <= cap ==>
      run(pos, o) == if |s.o| > cap then Fail
                     else if s.last then Got(s.o, pos + |s.bits|) else run(pos + |s.bits|, s.o))
  }

  /** run takes all the segments one after the other; only the last one is last. */
  ghost predicate TakesAll(run: Runner, bs: seq<bit>, segs: seq<Seg>, pos: nat, o: seq<byte>, cap: nat)
    decreases segs
  {
    segs != [] && Takes(run, bs, segs[0], pos, o, cap) && segs[0].last == (|segs| == 1)
    && (|segs| > 1 ==> TakesAll(run, bs, segs[1..], pos + |segs[0].bits|, segs[0].o, cap))
  }

  lemma {:induction false} FinalGrows(run: Runner, bs: seq<bit>, segs: seq<Seg>, pos: nat, o: seq<byte>, cap: nat)
    requires TakesAll(run, bs, segs, pos, o, cap)
    ensures |segs[0].o| <= |Final(segs, o)|
    decreases segs
  {
    if |segs| > 1 { FinalGrows(run, bs, segs[1..], pos + |segs[0].bits|, segs[0].o, cap); }
  }

  lemma {:induction false} SegsBack(run: Runner, bs: seq<bit>, segs: seq<Seg>, pos: nat, o: seq<byte>, cap: nat)
    requires TakesAll(run, bs, segs, pos, o, cap) && Stands(bs, pos, SegBits(segs)) && |o| <= cap
    ensures run(pos, o) == if |Final(segs, o)| <= cap then Got(Final(segs, o), pos + |SegBits(segs)|) else Fail
    decreases segs
  {
    StandsParts(bs, pos, segs[0].bits, SegBits(segs[1..]));
    if |segs| > 1 {
      FinalGrows(run, bs, segs, pos, o, cap);
      if |segs[0].o| <= cap { SegsBack(run, bs, segs[1..], pos + |segs[0].bits|, segs[0].o, cap); }
    } else {
      assert SegBits(segs[1..]) == [] && Final(segs[1..], segs[0].o) == segs[0].o;
    }
  }

  ghost predicate AllSpelled(F: Format, blks: seq<Blk>) {
    blks == [] || ((blks[0].DynamicBlk? ==> HeaderSpelled(F.inv, blks[0].h)) && AllSpelled(F, blks[1..]))
  }

  ghost function SegOf(F: Format, b: Blk, last: bool, o: seq<byte>, pos: nat): (s: Seg)
    requires TablesOk(F.T) && Encodable(F, b, |o|)
  {
    Seg(MarkedBits(F, b, last, |o|, pos), BlkExpand(F, o, b), last)
  }

  /** The blocks one after the other, the last one marked, after o and from bit position pos on. */
  ghost function SegsOf(F: Format, blks: seq<Blk>, o: seq<byte>, pos: nat): (r: seq<Seg>)
    requires TablesOk(F.T) && BlksOk(F, blks, o) && AllSpelled(F, blks)
    ensures |r| == |blks|
    decreases blks
  {
    if blks == [] then []
    else
      var s := SegOf(F, blks[0], |blks| == 1, o, pos);
      [s] + SegsOf(F, blks[1..], s.o, pos + |s.bits|)
  }

  ghost function BlksBits(F: Format, blks: seq<Blk>): (r: seq<bit>)
    requires TablesOk(F.T) && BlksOk(F, blks, []) && AllSpelled(F, blks)
  {
    SegBits(SegsOf(F, blks, [], 0))
  }

  lemma {:induction false} SegsExpand(F: Format, blks: seq<Blk>, o: seq<byte>, pos: nat)
    requires TablesOk(F.T) && BlksOk(F, blks, o) && AllSpelled(F, blks)
    ensures Final(SegsOf(F, blks, o, pos), o) == BlksExpand(F, blks, o)
    decreases blks
  {
    hide MarkedBits, BlkExpand, BlkOk, HeaderSpelled;
    if blks != [] {
      var s := SegOf(F, blks[0], |blks| == 1, o, pos);
      SegsExpand(F, blks[1..], s.o, pos + |s.bits|);
      assert SegsOf(F, blks, o, pos)[1..] == SegsOf(F, blks[1..], s.o, pos + |s.bits|);
    }
  }

  /** The block loop takes an encoded block in one turn. */
  lemma BlockTaken(F: Format, b: Blk, last: bool, o: seq<byte>, pos: nat, input: seq<byte>, cap: nat)
    requires FormatOk(F) && Encodable(F, b, |o|) && BlkReads(b)
    ensures Takes(RunnerOf(F.T, input, cap), Stream(input), SegOf(F, b, last, o, pos), pos, o, cap)
  {
    hide MarkedBits, BlkExpand, BlkOk, HeaderSpelled, MarkedAt, Stands, FixedBooks, TablesOk, BlkReads, Inflate;
    var bs, s := Stream(input), SegOf(F, b, last, o, pos);
    if Stands(bs, pos, s.bits) && |o| <= cap {
      assert MarkedAt(F, b, last, |o|, bs, pos, pos + |s.bits|) by { MarkedOut(F, b, last, |o|, bs, pos); }
      MarkedBack(F, b, last, input, bs, pos, pos + |s.bits|, o, cap);
    }
  }

  lemma {:induction false} BlocksTaken(F: Format, blks: seq<Blk>, o: seq<byte>, pos: nat, input: seq<byte>, cap: nat)
    requires FormatOk(F) && blks != [] && BlksOk(F, blks, o) && AllSpelled(F, blks) && AllRead(blks)
    ensures TakesAll(RunnerOf(F.T, input, cap), Stream(input), SegsOf(F, blks, o, pos), pos, o, cap)
    decreases blks
  {
    hide MarkedBits, BlkExpand, BlkOk, HeaderSpelled, Takes, BlkReads, RunnerOf, FixedBooks, TablesOk;
    var s := SegOf(F, blks[0], |blks| == 1, o, pos);
    BlockTaken(F, blks[0], |blks| == 1, o, pos, input, cap);
    assert SegsOf(F, blks, o, pos)[1..] == SegsOf(F, blks[1..], s.o, pos + |s.bits|);
    if |blks| > 1 { BlocksTaken(F, blks[1..], s.o, pos + |s.bits|, input, cap); }
  }

  /** The header's three codes are the canonical ones of length vectors that are not over-subscribed. */
  ghost predicate CanonicalHeader(h: Header) {
    && GoodCode(h.ll) && h.lb == BookOf(h.ll) && GoodCode(h.dl) && h.db == BookOf(h.dl)
    && GoodCode(h.cl) && h.cb == BookOf(h.cl)
  }

  lemma CanonicalHeaderReads(h: Header)
    requires CanonicalHeader(h)
    ensures HeaderReads(h)
  {
    CanonicalReads(h.ll);
    CanonicalReads(h.dl);
    CanonicalReads(h.cl);
  }

  ghost predicate AllCanonical(blks: seq<Blk>) {
    blks == [] || ((blks[0].DynamicBlk? ==> CanonicalHeader(blks[0].h)) && AllCanonical(blks[1..]))
  }

  lemma {:induction false} CanonicalAllRead(blks: seq<Blk>)
    requires AllCanonical(blks)
    ensures AllRead(blks)
  {
    if blks != [] {
      if blks[0].DynamicBlk? { CanonicalHeaderReads(blks[0].h); }
      CanonicalAllRead(blks[1..]);
    }
  }

  /**
    Any stored, fixed and dynamic blocks, encoded one after the other and followed by
    any bits, decode to what they stand for.
   */
  lemma StreamRoundTrip(F: Format, blks: seq<Blk>, input: seq<byte>, tail: seq<bit>, cap: nat)
    requires FormatOk(F) && blks != [] && BlksOk(F, blks, []) && AllSpelled(F, blks) && AllCanonical(blks)
    requires Stream(input) == BlksBits(F, blks) + tail
    ensures Inflate(F.T, input, Stream(input), 0, [], cap)
            == if |BlksExpand(F, blks, [])| <= cap then Got(BlksExpand(F, blks, []), |BlksBits(F, blks)|) else Fail
  {
    hide SegsOf, SegBits, Final, BlksOk, BlksExpand, TakesAll, Inflate, FixedBooks, TablesOk, AllSpelled, AllCanonical;
    var segs, run := SegsOf(F, blks, [], 0), RunnerOf(F.T, input, cap);
    CanonicalAllRead(blks);
    BlocksTaken(F, blks, [], 0, input, cap);
    SegsExpand(F, blks, [], 0);
    SegsBack(run, Stream(input), segs, 0, [], cap);
  }

  /** A dynamic block of any canonical codes. */
  lemma DynamicRoundTrip(F: Format, h: Header, ts: seq<Token>, input: seq<byte>, tail: seq<bit>, cap: nat)
    requires FormatOk(F) && HeaderSpelled(F.inv, h) && CanonicalHeader(h)
    requires TokensOk(F.T, ts, 0) && AllCodable(h.lb, h.db, ts)
    requires Stream(input) == MarkedBits(F, DynamicBlk(h, ts), true, 0, 0) + tail
    ensures var o := Expand(F.T, [], ts);
            Inflate(F.T, input, Stream(input), 0, [], cap)
            == if |o| <= cap then Got(o, |MarkedBits(F, DynamicBlk(h, ts), true, 0, 0)|) else Fail
  {
    CanonicalHeaderReads(h);
    BlockRoundTrip(F, DynamicBlk(h, ts), input, tail, cap);
  }

  // ---- the standard format ----

  function Inv(): seq<nat> {
    [3, 17, 15, 13, 11, 9, 7, 5, 4, 6, 8, 10, 12, 14, 16, 18, 0, 1, 2]
  }

  lemma InvOfOrd()
    ensures |Inv()| == 19 && |Ord()| == 19
    ensures forall k :: 0 <= k < 19 ==> Inv()[k] < 19 && Ord()[Inv()[k]] == k
  {}

  lemma OrdOfInv()
    ensures |Inv()| == 19 && |Ord()| == 19
    ensures forall j :: 0 <= j < 19 ==> Ord()[j] < 19 && Inv()[Ord()[j]] == j
  {}

  /** The Kraft sum of the first n fixed literal/length codes. */
  function FixedKraft(n: nat): nat {
    if n <= 144 then 128 * n
    else if n <= 256 then 18432 + 64 * (n - 144)
    else if n <= 280 then 25600 + 256 * (n - 256)
    else 31744 + 128 * (n - 280)
  }

  lemma {:induction false} FixedLLKraft(ls: seq<nat>, n: nat)
    requires n <= |ls| == 288 && CodeLengths(ls) && forall s :: 0 <= s < 288 ==> ls[s] == FixedLength(s)
    ensures Kraft(ls[..n]) == FixedKraft(n)
  {
    if n > 0 {
      FixedLLKraft(ls, n - 1);
      assert ls[..n][..n - 1] == ls[..n - 1];
      assert Pow2(6) == 64 && Pow2(7) == 128 && Pow2(8) == 256;
    }
  }

  lemma {:induction false} FixedDLKraft(ls: seq<nat>, n: nat)
    requires n <= |ls| && CodeLengths(ls) && forall s :: 0 <= s < |ls| ==> ls[s] == 5
    ensures Kraft(ls[..n]) == 1024 * n
  {
    if n > 0 {
      FixedDLKraft(ls, n - 1);
      assert ls[..n][..n - 1] == ls[..n - 1];
      assert Pow2(10) == 1024;
    }
  }

  /** The fixed codes of inflate.h are codes its decoder reads. */
  lemma FixedCodesRead()
    ensures FixedBooks(BookOf(FixedLL()), BookOf(FixedDL()))
  {
    assert Pow2(15) == 32768;
    FixedLLKraft(FixedLL(), 288);
    assert FixedLL()[..288] == FixedLL();
    CanonicalReads(FixedLL());
    FixedDLKraft(FixedDL(), 30);
    assert FixedDL()[..30] == FixedDL();
    CanonicalReads(FixedDL());
  }

  function Standard(): Format {
    Format(Rfc1951(), Inv(), BookOf(FixedLL()), BookOf(FixedDL()))
  }

  lemma StandardOk()
    ensures FormatOk(Standard())
  {
    Rfc1951Ok();
    InvOfOrd();
    OrdOfInv();
    FixedCodesRead();
  }

  // ---- fixed blocks ----

  /** Every symbol a token can need has a code. */
  ghost predicate Complete(lb: Book, db: Book) {
    (forall s :: 0 <= s <= 285 ==> HasCode(lb, s)) && (forall d :: 0 <= d < 30 ==> HasCode(db, d))
  }

  lemma {:induction false} CompleteCodes(T: Tables, lb: Book, db: Book, ts: seq<Token>, n: nat)
    requires TablesOk(T) && Complete(lb, db) && TokensOk(T, ts, n)
    ensures AllCodable(lb, db, ts)
    decreases ts
  {
    if ts != [] {
      CompleteCodes(T, lb, db, ts[1..], n + Length(T, ts[0]));
    }
  }

  lemma FixedComplete()
    ensures Complete(BookOf(FixedLL()), BookOf(FixedDL()))
  {
    var lb, db := BookOf(FixedLL()), BookOf(FixedDL());
    forall s | 0 <= s <= 285 ensures HasCode(lb, s) { assert |lb[s]| == FixedLL()[s] == FixedLength(s); }
    forall d | 0 <= d < 30 ensures HasCode(db, d) { assert |db[d]| == FixedDL()[d]; }
  }

  /** A fixed block of any tokens, whatever bits follow it, decodes to their LZ77 expansion. */
  lemma FixedBack(F: Format, ts: seq<Token>, input: seq<byte>, tail: seq<bit>, cap: nat)
    requires FormatOk(F) && Complete(F.lb, F.db) && TokensOk(F.T, ts, 0) && AllCodable(F.lb, F.db, ts)
    requires Stream(input) == [1] + (NatBits(1, 2) + TokensBits(F.T, F.lb, F.db, ts, 0)) + tail
    ensures var o := Expand(F.T, [], ts);
            Inflate(F.T, input, Stream(input), 0, [], cap)
            == if |o| <= cap then Got(o, 3 + |TokensBits(F.T, F.lb, F.db, ts, 0)|) else Fail
  {
    var b := FixedBlk(ts);
    BlockRoundTrip(F, b, input, tail, cap);
  }

  lemma FixedRoundTrip(ts: seq<Token>, input: seq<byte>, tail: seq<bit>, cap: nat)
    requires TablesOk(Rfc1951()) && TokensOk(Rfc1951(), ts, 0)
    ensures AllCodable(BookOf(FixedLL()), BookOf(FixedDL()), ts)
    ensures var e := TokensBits(Rfc1951(), BookOf(FixedLL()), BookOf(FixedDL()), ts, 0);
            Stream(input) == [1] + (NatBits(1, 2) + e) + tail ==>
              var o := Expand(Rfc1951(), [], ts);
              Inflate(Rfc1951(), input, Stream(input), 0, [], cap) == if |o| <= cap then Got(o, 3 + |e|) else Fail
  {
    var F := Standard();
    StandardOk();
    FixedComplete();
    CompleteCodes(F.T, F.lb, F.db, ts, 0);
    if Stream(input) == [1] + (NatBits(1, 2) + TokensBits(F.T, F.lb, F.db, ts, 0)) + tail {
      FixedBack(F, ts, input, tail, cap);
    }
  }

  // ---- every length and distance has a spelling ----

  ghost predicate Gapless(base: seq<nat>, ext: seq<nat>) {
    0 < |base| == |ext| && forall k :: 0 < k < |base| ==> base[k] <= base[k - 1] + Pow2(ext[k - 1])
  }

  lemma {:induction false} Covering(base: seq<nat>, ext: seq<nat>, v: nat, k: nat) returns (j: nat)
    requires Gapless(base, ext) && k < |base| && base[0] <= v < base[k] + Pow2(ext[k])
    ensures j < |base| && base[j] <= v < base[j] + Pow2(ext[j])
  {
    if base[k] <= v { j := k; } else { j := Covering(base, ext, v, k - 1); }
  }

  lemma SmallPowers()
    ensures Pow2(0) == 1 && Pow2(1) == 2 && Pow2(2) == 4 && Pow2(3) == 8 && Pow2(4) == 16 && Pow2(5) == 32
            && Pow2(6) == 64
    ensures Pow2(7) == 128 && Pow2(8) == 256 && Pow2(9) == 512 && Pow2(10) == 1024 && Pow2(11) == 2048
    ensures Pow2(12) == 4096 && Pow2(13) == 8192
  {}

  lemma GaplessLengths()
    ensures Gapless(LBase(), LExt()) && LBase()[0] == 3 && LBase()[28] == 258
  {
    SmallPowers();
  }

  lemma GaplessDistances()
    ensures Gapless(DBase(), DExt()) && DBase()[0] == 1 && DBase()[29] + Pow2(DExt()[29]) == 32769
  {
    SmallPowers();
  }

  /** Every length 3..258 and distance 1..32768 can be written. */
  lemma EveryMatch(len: nat, dist: nat) returns (t: Token)
    requires 3 <= len <= 258 && 1 <= dist <= 32768
    ensures TablesOk(Rfc1951()) && t.Match? && Spelled(Rfc1951(), t)
    ensures Length(Rfc1951(), t) == len && Distance(Rfc1951(), t) == dist
  {
    Rfc1951Ok();
    GaplessLengths();
    GaplessDistances();
    var k := Covering(LBase(), LExt(), len, 28);
    var d := Covering(DBase(), DExt(), dist, 29);
    t := Match(k, len - LBase()[k], d, dist - DBase()[d]);
  }
}
