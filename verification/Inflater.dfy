/** The DEFLATE decoder of inflate.h as it runs: a mutable reader over two buffers. */
module Inflater {
  import opened Bits
  import opened Huffman
  import Spec = InflateSpec

  const MAXSYMS: nat := 288

  /** infl_htree: the two tables infl_build fills. */
  class HTree {
    const counts: array<int>
    const symbols: array<int>

    constructor ()
      ensures counts.Length == MAXBITS + 1 && symbols.Length == MAXSYMS
      ensures fresh(counts) && fresh(symbols)
    {
      counts := new int[MAXBITS + 1];
      symbols := new int[MAXSYMS];
    }

    ghost predicate Holds(t: Tree)
      reads counts, symbols
    {
      && counts.Length == MAXBITS + 1 && symbols.Length == MAXSYMS
      && WellFormed(t) && |t.symbols| <= MAXSYMS
      && (forall l :: 0 <= l <= MAXBITS ==> counts[l] == t.counts[l])
      && (forall j :: 0 <= j < |t.symbols| ==> symbols[j] == t.symbols[j])
    }

    method Build(lengths: seq<nat>)
      requires CodeLengths(lengths) && |lengths| <= MAXSYMS
      requires counts.Length == MAXBITS + 1 && symbols.Length == MAXSYMS
      modifies counts, symbols
      ensures Holds(TreeOf(lengths))
    {
      CountLengths(lengths);
      var offs := Offsets(Counts(lengths));
      FillSymbols(lengths, offs);
      var t := TreeOf(lengths);
      SymbolsBound(lengths);
      forall j | 0 <= j < |t.symbols|
        ensures symbols[j] == t.symbols[j]
      {
        SymbolPlace(lengths, 1, j);
        assert InPlace(lengths, symbols[..], t.symbols[j]);
      }
    }

    /** counts[l] becomes the number of codes of length l; absent symbols do not count. */
    method CountLengths(lengths: seq<nat>)
      requires CodeLengths(lengths) && counts.Length == MAXBITS + 1
      modifies counts
      ensures forall l :: 0 <= l <= MAXBITS ==> counts[l] == Counts(lengths)[l]
    {
      for i := 0 to MAXBITS + 1
        invariant forall l :: 0 <= l < i ==> counts[l] == 0
      {
        counts[i] := 0;
      }
      for i := 0 to |lengths|
        invariant forall l :: 0 <= l <= MAXBITS ==> counts[l] == Count(lengths[..i], l)
      {
        forall l ensures Count(lengths[..i + 1], l) == Count(lengths[..i], l) + (if lengths[i] == l then 1 else 0) {
          CountSnoc(lengths, i, l);
        }
        counts[lengths[i]] := counts[lengths[i]] + 1;
      }
      assert lengths[..|lengths|] == lengths;
      counts[0] := 0;
    }

    method Offsets(ghost c: seq<nat>) returns (offs: array<int>)
      requires |c| == counts.Length == MAXBITS + 1
      requires forall l :: 0 <= l <= MAXBITS ==> counts[l] == c[l]
      ensures fresh(offs) && offs.Length == MAXBITS + 1
      ensures forall l :: 1 <= l <= MAXBITS ==> offs[l] == Off(c, l)
    {
      offs := new int[MAXBITS + 1];
      offs[0], offs[1] := 0, 0;
      var i := 1;
      while i < MAXBITS
        invariant 1 <= i <= MAXBITS
        invariant forall l :: 1 <= l <= i ==> offs[l] == Off(c, l)
      {
        offs[i + 1] := offs[i] + counts[i];
        i := i + 1;
      }
    }

    method FillSymbols(lengths: seq<nat>, offs: array<int>)
      requires CodeLengths(lengths) && |lengths| <= MAXSYMS
      requires symbols.Length == MAXSYMS && offs.Length == MAXBITS + 1 && offs != symbols
      requires forall l :: 1 <= l <= MAXBITS ==> offs[l] == Off(Counts(lengths), l)
      modifies symbols, offs
      ensures Filled(lengths, offs[..], symbols[..], |lengths|)
    {
      for i := 0 to |lengths|
        invariant Filled(lengths, offs[..], symbols[..], i)
      {
        ghost var o, y := offs[..], symbols[..];
        FillStep(lengths, o, y, i);
        var l := lengths[i];
        if l != 0 {
          symbols[offs[l]] := i;
          offs[l] := offs[l] + 1;
          assert symbols[..] == y[o[l] := i] && offs[..] == o[l := o[l] + 1];
        }
      }
    }
  }

  /** The first k symbols are in place, and offs is where the next of each length goes. */
  ghost predicate Filled(ls: seq<nat>, offs: seq<int>, symbols: seq<int>, k: nat)
    requires CodeLengths(ls) && k <= |ls| && |offs| == MAXBITS + 1
  {
    && (forall l :: 1 <= l <= MAXBITS ==> offs[l] == Off(Counts(ls), l) + Count(ls[..k], l))
    && (forall s :: 0 <= s < k && ls[s] > 0 ==> InPlace(ls, symbols, s))
  }

  ghost predicate InPlace(ls: seq<nat>, symbols: seq<int>, s: nat)
    requires CodeLengths(ls) && s < |ls|
  {
    Place(ls, s) < |symbols| && symbols[Place(ls, s)] == s
  }

  lemma FillStep(ls: seq<nat>, offs: seq<int>, symbols: seq<int>, k: nat)
    requires CodeLengths(ls) && k < |ls| <= |symbols| && |offs| == MAXBITS + 1
    requires Filled(ls, offs, symbols, k)
    ensures var l := ls[k];
            if l == 0 then Filled(ls, offs, symbols, k + 1)
            else 0 <= offs[l] < |symbols|
                 && Filled(ls, offs[l := offs[l] + 1], symbols[offs[l] := k], k + 1)
  {
    var l := ls[k];
    forall m: nat ensures Count(ls[..k + 1], m) == Count(ls[..k], m) + (if l == m then 1 else 0) {
      CountSnoc(ls, k, m);
    }
    if l != 0 {
      PlaceBound(ls, k);
      var y := symbols[offs[l] := k];
      forall s | 0 <= s < k + 1 && ls[s] > 0
        ensures InPlace(ls, y, s)
      {
        if s < k {
          assert InPlace(ls, symbols, s);
          PlacesDiffer(ls, s, k);
        }
      }
    }
  }

  /** The infl struct: an input with a cursor and held bits, and an output with a fill mark. */
  class Infl {
    const input: seq<byte>
    const out: array<byte>
    const tables: Spec.Tables
    ghost const bs: seq<bit>
    var inpos: nat
    var bitbuf: nat
    var bitcnt: nat
    var outpos: nat

    constructor (input: seq<byte>, out: array<byte>, tables: Spec.Tables)
      requires Spec.TablesOk(tables)
      ensures this.input == input && this.out == out && this.tables == tables && bs == Stream(input)
      ensures Valid() && Cursor() == 0 && bitcnt == 0 && Emitted() == []
    {
      this.input := input;
      this.out := out;
      this.tables := tables;
      bs := Stream(input);
      inpos, bitbuf, bitcnt, outpos := 0, 0, 0, 0;
      StreamBytes(input);
    }

    /** The next unread bit of the input. */
    ghost function Cursor(): int
      reads this
    {
      8 * inpos - bitcnt
    }

    ghost function Emitted(): seq<byte>
      requires outpos <= out.Length
      reads this, out
    {
      out[..outpos]
    }

    ghost predicate Valid()
      reads this
    {
      && Spec.TablesOk(tables)
      && |bs| == 8 * |input|
      && (forall i :: 0 <= i < |input| ==> input[i] == ValAt(bs, 8 * i, 8))
      && inpos <= |input| && bitcnt <= 8 * inpos && bitcnt < 16
      && bitbuf == ValAt(bs, 8 * inpos - bitcnt, bitcnt)
      && outpos <= out.Length
    }

    /** infl_bits: the next n bits, low bit first, or -1 when the input runs dry. */
    method GetBits(n: nat) returns (v: int)
      requires Valid() && n <= 16
      modifies this`inpos, this`bitbuf, this`bitcnt
      ensures Valid()
      ensures v == -1 <==> Spec.ReadBits(bs, old(Cursor()), n).Fail?
      ensures v == -1 ==> Cursor() == old(Cursor())
      ensures v != -1 ==> Spec.ReadBits(bs, old(Cursor()), n) == Got(v, Cursor())
      ensures v != -1 && old(bitcnt) < 8 ==> bitcnt < 8
    {
      ghost var lo := Cursor();
      while bitcnt < n
        invariant inpos <= |input| && 0 <= lo == 8 * inpos - bitcnt
        invariant bitbuf == ValAt(bs, lo, bitcnt)
        invariant bitcnt < n + 8 || bitcnt == old(bitcnt)
        decreases n + 8 - bitcnt
      {
        if inpos >= |input| {
          return -1;
        }
        Refill(bs, lo, bitcnt, input[inpos]);
        bitbuf := Or(bitbuf, U32(Shl(input[inpos], bitcnt)));
        inpos := inpos + 1;
        bitcnt := bitcnt + 8;
      }
      LowValAt(bs, lo, bitcnt, n);
      ShrValAt(bs, lo, bitcnt, n);
      v := Low(bitbuf, n);
      bitbuf := Shr(bitbuf, n);
      bitcnt := bitcnt - n;
    }

    /** One bit, as a bit of the input. */
    method NextBit() returns (b: int)
      requires Valid()
      modifies this`inpos, this`bitbuf, this`bitcnt
      ensures Valid()
      ensures b == -1 <==> old(Cursor()) >= |bs|
      ensures b != -1 ==> b == bs[old(Cursor())] && Cursor() == old(Cursor()) + 1
      ensures b != -1 && old(bitcnt) < 8 ==> bitcnt < 8
    {
      b := GetBits(1);
    }

    /** infl_decode: one Huffman symbol, or -1. */
    method Decode(t: HTree, ghost tr: Tree) returns (sym: int)
      requires Valid() && t.Holds(tr)
      modifies this`inpos, this`bitbuf, this`bitcnt
      ensures Valid()
      ensures sym == -1 <==> Huffman.Decode(tr, bs, old(Cursor())).Fail?
      ensures sym != -1 ==> Huffman.Decode(tr, bs, old(Cursor())) == Got(sym, Cursor())
      ensures sym != -1 && old(bitcnt) < 8 ==> bitcnt < 8
    {
      ghost var c, pos := tr.counts, Cursor();
      var code, first, index := 0, 0, 0;
      var len := 1;
      while len <= MAXBITS
        invariant 1 <= len <= MAXBITS + 1
        invariant Valid() && Cursor() == pos + len - 1 <= |bs|
        invariant code == 2 * Value(bs, pos, len - 1)
        invariant first == First(c, len) && index == Off(c, len)
        invariant forall k :: 1 <= k < len ==> !Hits(c, bs, pos, k)
        invariant old(bitcnt) < 8 ==> bitcnt < 8
      {
        var b := NextBit();
        if b < 0 {
          return -1;
        }
        OrLowBit(Value(bs, pos, len - 1), b);
        code := Or(code, b);
        assert code == Value(bs, pos, len);
        MissesBelow(c, bs, pos, len);
        OffMono(c, len, MAXBITS + 1);
        var count := t.counts[len];
        if code - first < count {
          DecodeFirstHit(tr, bs, pos, len);
          return t.symbols[index + (code - first)];
        }
        index := index + count;
        first := 2 * (first + count);
        code := 2 * code;
        len := len + 1;
      }
      return -1;
    }

    method Emit(b: byte)
      requires Valid() && outpos < out.Length
      modifies this`outpos, out
      ensures Valid() && outpos == old(outpos) + 1
      ensures Emitted() == old(Emitted()) + [b]
    {
      out[outpos] := b;
      outpos := outpos + 1;
    }

    /** The copy loop of infl_codes: byte by byte, so a match may overlap its own output. */
    method CopyMatch(dist: nat, len: nat)
      requires Valid() && 1 <= dist <= outpos && outpos + len <= out.Length
      modifies this`outpos, out
      ensures Valid() && outpos == old(outpos) + len
      ensures Emitted() == Spec.Copy(old(Emitted()), dist, len)
      ensures old(Emitted()) <= Emitted()
    {
      hide Spec.TablesOk, ValAt, Stream, StreamBit;
      Spec.CopyPrefix(Emitted(), dist, len);
      var n := len;
      while n != 0
        invariant 0 <= n <= len && Valid() && outpos == old(outpos) + len - n
        invariant Spec.Copy(Emitted(), dist, n) == Spec.Copy(old(Emitted()), dist, len)
      {
        n := n - 1;
        Emit(out[outpos - dist]);
      }
    }

    /** A distance symbol and its extra bits; 0 on an error. */
    method GetDistance(dc: HTree, ghost dt: Tree) returns (dist: nat)
      requires Valid() && dc.Holds(dt)
      modifies this`inpos, this`bitbuf, this`bitcnt
      ensures Valid()
      ensures dist == 0 ==> Spec.ReadDistance(tables, Spec.DecoderOf(dt), bs, old(Cursor())).Fail?
      ensures dist != 0 ==> Spec.ReadDistance(tables, Spec.DecoderOf(dt), bs, old(Cursor())) == Got(dist, Cursor())
      ensures dist != 0 && old(bitcnt) < 8 ==> bitcnt < 8
    {
      var d := Decode(dc, dt);
      if d < 0 || d >= 30 { return 0; }
      var de := GetBits(tables.dext[d]);
      if de < 0 { return 0; }
      return tables.dbase[d] + de;
    }

    /** The extra bits, distance symbol and distance bits after length symbol k. */
    method GetMatch(k: nat, dc: HTree, ghost dt: Tree) returns (ok: bool, len: nat, dist: nat)
      requires Valid() && dc.Holds(dt) && k < 29
      modifies this`inpos, this`bitbuf, this`bitcnt
      ensures Valid()
      ensures !ok ==> Spec.ReadMatch(tables, Spec.DecoderOf(dt), bs, old(Cursor()), k).Fail?
      ensures ok ==> Spec.ReadMatch(tables, Spec.DecoderOf(dt), bs, old(Cursor()), k) == Got((len, dist), Cursor())
      ensures ok && old(bitcnt) < 8 ==> bitcnt < 8
    {
      ok, len, dist := false, 0, 0;
      var e := GetBits(tables.lext[k]);
      if e < 0 { return; }
      dist := GetDistance(dc, dt);
      if dist == 0 { return; }
      return true, tables.lbase[k] + e, dist;
    }

    /** One turn of the infl_codes loop; rc 1 means go on. */
    method Turn(lc: HTree, dc: HTree, ghost lt: Tree, ghost dt: Tree) returns (rc: int)
      requires Valid() && lc.Holds(lt) && dc.Holds(dt)
      modifies this`inpos, this`bitbuf, this`bitcnt, this`outpos, out
      ensures Valid() && old(Emitted()) <= Emitted()
      ensures match Spec.TurnOf(tables, Spec.DecoderOf(lt), Spec.DecoderOf(dt), bs, old(Cursor()), old(Emitted()),
                out.Length)
              case Done(r) => Agrees(rc, r)
              case More(o, p) => rc == 1 && Emitted() == o && Cursor() == p
      ensures rc != -1 && old(bitcnt) < 8 ==> bitcnt < 8
    {
      var sym := Decode(lc, lt);
      if sym < 0 { return -1; }
      if sym == 256 { return 0; }
      if sym < 256 {
        if outpos >= out.Length { return -1; }
        Emit(sym);
        return 1;
      }
      sym := sym - 257;
      if sym >= 29 { return -1; }
      var ok, len, dist := GetMatch(sym, dc, dt);
      if !ok { return -1; }
      if dist > outpos { return -1; }
      if outpos + len > out.Length { return -1; }
      CopyMatch(dist, len);
      return 1;
    }

    /** infl_codes: 0 at the end-of-block symbol, -1 on an error. */
    method Codes(lc: HTree, dc: HTree, ghost lt: Tree, ghost dt: Tree) returns (rc: int)
      requires Valid() && lc.Holds(lt) && dc.Holds(dt)
      modifies this`inpos, this`bitbuf, this`bitcnt, this`outpos, out
      ensures Valid() && old(Emitted()) <= Emitted()
      ensures Agrees(rc, Spec.Codes(tables, Spec.DecoderOf(lt), Spec.DecoderOf(dt), bs, old(Cursor()), old(Emitted()),
                out.Length))
      ensures rc == 0 && old(bitcnt) < 8 ==> bitcnt < 8
    {
      ghost var goal := Spec.Codes(tables, Spec.DecoderOf(lt), Spec.DecoderOf(dt), bs, Cursor(), Emitted(), out.Length);
      while true
        invariant Valid() && lc.Holds(lt) && dc.Holds(dt) && old(Emitted()) <= Emitted()
        invariant Spec.Codes(tables, Spec.DecoderOf(lt), Spec.DecoderOf(dt), bs, Cursor(), Emitted(), out.Length)
                  == goal
        invariant old(bitcnt) < 8 ==> bitcnt < 8
        decreases |bs| - Cursor()
      {
        rc := Turn(lc, dc, lt, dt);
        if rc != 1 { return; }
      }
    }

    /** rc is the source's return code for the outcome r, with r's output and position reached. */
    ghost predicate Agrees(rc: int, r: Read<seq<byte>>)
      requires outpos <= out.Length
      reads this, out
    {
      match r
      case Got(o, p) => rc == 0 && Emitted() == o && Cursor() == p
      case Fail => rc == -1
      case Overrun => rc == -2
    }

    /** infl_block_stored. */
    method Stored() returns (rc: int)
      requires Valid() && bitcnt < 8
      modifies this`inpos, this`bitbuf, this`bitcnt, this`outpos, out
      ensures Valid() && bitcnt == 0 && old(Emitted()) <= Emitted()
      ensures Agrees(rc, Spec.Stored(input, old(Cursor()), old(Emitted()), out.Length))
    {
      bitbuf, bitcnt := 0, 0;
      if inpos + 4 > |input| { return -1; }
      var len := Word16(input[inpos], input[inpos + 1]);
      inpos := inpos + 4;
      if inpos + len > |input| { return -1; }
      if outpos + len > out.Length { return -1; }
      CopyInput(len);
      return 0;
    }

    method CopyInput(len: nat)
      requires Valid() && bitcnt == 0 && inpos + len <= |input| && outpos + len <= out.Length
      modifies this`inpos, this`outpos, out
      ensures Valid() && inpos == old(inpos) + len
      ensures Emitted() == old(Emitted()) + input[old(inpos)..inpos]
    {
      var n := len;
      while n != 0
        invariant 0 <= n <= len && inpos == old(inpos) + len - n && outpos == old(outpos) + len - n
        invariant Valid()
        invariant Emitted() == old(Emitted()) + input[old(inpos)..inpos]
      {
        n := n - 1;
        Emit(input[inpos]);
        inpos := inpos + 1;
      }
    }

    /** infl_block_fixed. */
    method Fixed() returns (rc: int)
      requires Valid()
      modifies this`inpos, this`bitbuf, this`bitcnt, this`outpos, out
      ensures Valid() && old(Emitted()) <= Emitted()
      ensures Agrees(rc, Spec.Codes(tables, Spec.CodeDecoder(Spec.FixedLL()), Spec.CodeDecoder(Spec.FixedDL()), bs,
                                    old(Cursor()), old(Emitted()), out.Length))
      ensures rc == 0 && old(bitcnt) < 8 ==> bitcnt < 8
    {
      var ll, dl := FixedLengths();
      rc := CodesFor(ll[..], dl[..]);
    }

    /** The code-length code lengths of a dynamic header. */
    method GetClens(hclen: nat) returns (ok: bool, cl: seq<nat>)
      requires Valid() && hclen <= 19
      modifies this`inpos, this`bitbuf, this`bitcnt
      ensures Valid()
      ensures !ok ==> Spec.ReadClens(tables, bs, old(Cursor()), hclen, 0, Spec.Repeat(0, 19)).Fail?
      ensures ok ==> Spec.ReadClens(tables, bs, old(Cursor()), hclen, 0, Spec.Repeat(0, 19)) == Got(cl, Cursor())
      ensures ok && old(bitcnt) < 8 ==> bitcnt < 8
    {
      cl := Spec.Repeat(0, 19);
      ghost var goal := Spec.ReadClens(tables, bs, Cursor(), hclen, 0, cl);
      var i := 0;
      while i < hclen
        invariant 0 <= i <= hclen && Valid() && |cl| == 19
        invariant forall k :: 0 <= k < 19 ==> cl[k] <= 7
        invariant Spec.ReadClens(tables, bs, Cursor(), hclen, i, cl) == goal
        invariant old(bitcnt) < 8 ==> bitcnt < 8
      {
        var v := GetBits(3);
        if v < 0 { return false, cl; }
        assert Pow2(3) == 8;
        cl := cl[tables.order[i] := v];
        i := i + 1;
      }
      return true, cl;
    }

    /** A run symbol's value and count; count 0 on an error. */
    method GetRun(sym: nat, lengths: seq<nat>) returns (v: nat, n: nat)
      requires Valid() && sym >= 16
      modifies this`inpos, this`bitbuf, this`bitcnt
      ensures Valid()
      ensures n == 0 ==> Spec.ReadRun(bs, old(Cursor()), sym, lengths).Fail?
      ensures n != 0 ==> Spec.ReadRun(bs, old(Cursor()), sym, lengths) == Got((v, n), Cursor())
      ensures n != 0 && old(bitcnt) < 8 ==> bitcnt < 8
    {
      var r: int;
      v, n := 0, 0;
      if sym == 16 {
        if lengths == [] { return; }
        r := GetBits(2);
        if r < 0 { return; }
        return lengths[|lengths| - 1], r + 3;
      } else if sym == 17 {
        r := GetBits(3);
        if r < 0 { return; }
        return 0, r + 3;
      } else {
        r := GetBits(7);
        if r < 0 { return; }
        return 0, r + 11;
      }
    }

    /** The literal and distance code lengths, total of them. */
    method GetLengths(clc: HTree, ghost t: Tree, total: nat) returns (ok: bool, lengths: seq<nat>)
      requires Valid() && clc.Holds(t)
      modifies this`inpos, this`bitbuf, this`bitcnt
      ensures Valid()
      ensures !ok ==> Spec.ReadLengths(Spec.DecoderOf(t), bs, old(Cursor()), [], total).Fail?
      ensures ok ==> Spec.ReadLengths(Spec.DecoderOf(t), bs, old(Cursor()), [], total) == Got(lengths, Cursor())
      ensures ok && old(bitcnt) < 8 ==> bitcnt < 8
      ensures |lengths| == Spec.Reached(Spec.DecoderOf(t), bs, old(Cursor()), [], total)
    {
      lengths := [];
      ghost var goal := Spec.ReadLengths(Spec.DecoderOf(t), bs, Cursor(), [], total);
      ghost var most := Spec.Reached(Spec.DecoderOf(t), bs, Cursor(), [], total);
      while |lengths| < total
        invariant |lengths| <= total && CodeLengths(lengths) && Valid()
        invariant Spec.ReadLengths(Spec.DecoderOf(t), bs, Cursor(), lengths, total) == goal
        invariant Spec.Reached(Spec.DecoderOf(t), bs, Cursor(), lengths, total) == most
        invariant old(bitcnt) < 8 ==> bitcnt < 8
        decreases |bs| - Cursor()
      {
        var sym := Decode(clc, t);
        if sym < 0 { return false, lengths; }
        if sym < 16 {
          lengths := lengths + [sym];
        } else {
          var v, r := GetRun(sym, lengths);
          if r == 0 { return false, lengths; }
          lengths := Extend(lengths, v, r, total);
        }
      }
      return true, lengths;
    }

    method GetLengthsBy(cl: seq<nat>, total: nat) returns (ok: bool, lengths: seq<nat>)
      requires Valid() && CodeLengths(cl) && |cl| == 19
      modifies this`inpos, this`bitbuf, this`bitcnt
      ensures Valid()
      ensures !ok ==> Spec.ReadLengths(Spec.CodeDecoder(cl), bs, old(Cursor()), [], total).Fail?
      ensures ok ==> Spec.ReadLengths(Spec.CodeDecoder(cl), bs, old(Cursor()), [], total) == Got(lengths, Cursor())
      ensures ok && old(bitcnt) < 8 ==> bitcnt < 8
      ensures |lengths| == Spec.Reached(Spec.CodeDecoder(cl), bs, old(Cursor()), [], total)
    {
      var clc := NewTree(cl);
      ok, lengths := GetLengths(clc, TreeOf(cl), total);
    }

    /** infl_block_dynamic. */
    method Dynamic() returns (rc: int)
      requires Valid()
      modifies this`inpos, this`bitbuf, this`bitcnt, this`outpos, out
      ensures Valid() && old(Emitted()) <= Emitted()
      ensures Agrees(rc, Spec.Dynamic(tables, bs, old(Cursor()), old(Emitted()), out.Length))
      ensures rc == 0 && old(bitcnt) < 8 ==> bitcnt < 8
    {
      var ll, dl;
      rc, ll, dl := GetTables();
      if rc != 0 { return; }
      rc := CodesFor(ll, dl);
    }

    method GetTables() returns (rc: int, ll: seq<nat>, dl: seq<nat>)
      requires Valid()
      modifies this`inpos, this`bitbuf, this`bitcnt
      ensures Valid()
      ensures match Spec.ReadTables(tables, bs, old(Cursor()))
              case Got(t, p) => rc == 0 && t == (ll, dl) && p == Cursor()
              case Fail => rc == -1
              case Overrun => rc == -2
      ensures rc == 0 && old(bitcnt) < 8 ==> bitcnt < 8
    {
      rc, ll, dl := -1, [], [];
      var ok, hlit, hdist, cl := GetPrelude();
      if !ok { return; }
      Spec.TablesStep(tables, bs, old(Cursor()), hlit, hdist, cl, Cursor());
      var lengths;
      ok, lengths := GetLengthsBy(cl, hlit + hdist);
      if |lengths| > Spec.MAXLENGTHS { return -2, ll, dl; }
      if !ok { return; }
      return 0, lengths[..hlit], lengths[hlit..];
    }

    method GetPrelude() returns (ok: bool, hlit: nat, hdist: nat, cl: seq<nat>)
      requires Valid()
      modifies this`inpos, this`bitbuf, this`bitcnt
      ensures Valid()
      ensures !ok ==> Spec.ReadPrelude(tables, bs, old(Cursor())).Fail?
      ensures ok ==> Spec.ReadPrelude(tables, bs, old(Cursor())) == Got((hlit, hdist, cl), Cursor())
      ensures ok && old(bitcnt) < 8 ==> bitcnt < 8
    {
      var hclen;
      cl := [];
      ok, hlit, hdist, hclen := GetHeader();
      if !ok { return; }
      ok, cl := GetClens(hclen);
    }

    method GetHeader() returns (ok: bool, hlit: nat, hdist: nat, hclen: nat)
      requires Valid()
      modifies this`inpos, this`bitbuf, this`bitcnt
      ensures Valid()
      ensures !ok ==> Spec.ReadHeader(bs, old(Cursor())).Fail?
      ensures ok ==> Spec.ReadHeader(bs, old(Cursor())) == Got((hlit, hdist, hclen), Cursor())
      ensures ok && old(bitcnt) < 8 ==> bitcnt < 8
    {
      ok, hlit, hdist, hclen := false, 0, 0, 0;
      var a := GetBits(5);
      var b := GetBits(5);
      var c := GetBits(4);
      if a < 0 || b < 0 || c < 0 { return; }
      return true, a + 257, b + 1, c + 4;
    }

    /** The symbol loop under the codes of two length vectors. */
    method CodesFor(ll: seq<nat>, dl: seq<nat>) returns (rc: int)
      requires Valid() && CodeLengths(ll) && CodeLengths(dl) && |ll| <= MAXSYMS && |dl| <= MAXSYMS
      modifies this`inpos, this`bitbuf, this`bitcnt, this`outpos, out
      ensures Valid() && old(Emitted()) <= Emitted()
      ensures Agrees(rc, Spec.Codes(tables, Spec.CodeDecoder(ll), Spec.CodeDecoder(dl), bs, old(Cursor()),
                old(Emitted()), out.Length))
      ensures rc == 0 && old(bitcnt) < 8 ==> bitcnt < 8
    {
      var lc := NewTree(ll);
      var dc := NewTree(dl);
      rc := Codes(lc, dc, TreeOf(ll), TreeOf(dl));
    }

    method Block(kind: nat) returns (rc: int)
      requires Valid() && bitcnt < 8
      modifies this`inpos, this`bitbuf, this`bitcnt, this`outpos, out
      ensures Valid() && old(Emitted()) <= Emitted()
      ensures Agrees(rc, Spec.Block(tables, input, bs, kind, old(Cursor()), old(Emitted()), out.Length))
      ensures rc == 0 ==> bitcnt < 8
    {
      if kind == 0 {
        rc := Stored();
      } else if kind == 1 {
        rc := Fixed();
      } else if kind == 2 {
        rc := Dynamic();
      } else {
        rc := -1;
      }
    }
  }

  method NewTree(lengths: seq<nat>) returns (t: HTree)
    requires CodeLengths(lengths) && |lengths| <= MAXSYMS
    ensures fresh(t) && fresh(t.counts) && fresh(t.symbols) && t.Holds(TreeOf(lengths))
  {
    t := new HTree();
    t.Build(lengths);
  }

  /** n more copies of v, stopping at total. */
  method Extend(lengths: seq<nat>, v: nat, n: nat, total: nat) returns (r: seq<nat>)
    requires |lengths| <= total
    ensures r == lengths + Spec.Repeat(v, Spec.Min(n, total - |lengths|))
  {
    r := lengths;
    var k := n;
    while k != 0 && |r| < total
      invariant 0 <= k <= n && |lengths| <= |r| <= total && |r| == |lengths| + n - k
      invariant r == lengths + Spec.Repeat(v, |r| - |lengths|)
    {
      k := k - 1;
      RepeatSnoc(v, |r| - |lengths|);
      r := r + [v];
    }
  }

  lemma RepeatSnoc(v: nat, n: nat)
    ensures Spec.Repeat(v, n + 1) == Spec.Repeat(v, n) + [v]
  {}

  /** Inflate a whole stream into out: bytes produced, -1 on an error. */
  method Inflate(input: seq<byte>, out: array<byte>) returns (n: int)
    modifies out
    ensures Spec.TablesOk(Spec.Rfc1951())
    ensures match Spec.Inflate(Spec.Rfc1951(), input, Stream(input), 0, [], out.Length)
            case Got(o, _) => n == |o| && out[..n] == o
            case Fail => n == -1
            case Overrun => n == -2
  {
    Spec.Rfc1951Ok();
    n := InflateWith(Spec.Rfc1951(), input, out);
  }

  method InflateWith(tables: Spec.Tables, input: seq<byte>, out: array<byte>) returns (n: int)
    requires Spec.TablesOk(tables)
    modifies out
    ensures match Spec.Inflate(tables, input, Stream(input), 0, [], out.Length)
            case Got(o, _) => n == |o| && out[..n] == o
            case Fail => n == -1
            case Overrun => n == -2
  {
    var s := new Infl(input, out, tables);
    ghost var bs, goal := s.bs, Spec.Inflate(tables, input, s.bs, 0, [], out.Length);
    var last := 0;
    while last == 0
      invariant s.out == out && s.input == input && s.tables == tables && s.bs == bs && |bs| == 8 * |input|
      invariant s.Valid() && s.bitcnt < 8 && 0 <= last < 2
      invariant last == 0 ==> Spec.Inflate(tables, input, bs, s.Cursor(), s.Emitted(), out.Length) == goal
      invariant last == 1 ==> goal == Got(s.Emitted(), s.Cursor())
      decreases 1 - last, |bs| - s.Cursor()
    {
      last := s.GetBits(1);
      var kind := s.GetBits(2);
      if last < 0 || kind < 0 { return -1; }
      ghost var pos, o := s.Cursor(), s.Emitted();
      Spec.InflateStep(tables, input, bs, pos - 3, o, out.Length, last, kind);
      var rc := s.Block(kind);
      if rc != 0 { return rc; }
    }
    return s.outpos;
  }

  method FixedLengths() returns (ll: array<nat>, dl: array<nat>)
    ensures fresh(ll) && fresh(dl) && ll[..] == Spec.FixedLL() && dl[..] == Spec.FixedDL()
  {
    ll, dl := new nat[288], new nat[30];
    var i := 0;
    while i < 144
      invariant 0 <= i <= 144 && forall s :: 0 <= s < i ==> ll[s] == 8
    { ll[i] := 8; i := i + 1; }
    while i < 256
      invariant 144 <= i <= 256 && forall s :: 0 <= s < i ==> ll[s] == Spec.FixedLength(s)
    { ll[i] := 9; i := i + 1; }
    while i < 280
      invariant 256 <= i <= 280 && forall s :: 0 <= s < i ==> ll[s] == Spec.FixedLength(s)
    { ll[i] := 7; i := i + 1; }
    while i < 288
      invariant 280 <= i <= 288 && forall s :: 0 <= s < i ==> ll[s] == Spec.FixedLength(s)
    { ll[i] := 8; i := i + 1; }
    for j := 0 to 30
      invariant forall s :: 0 <= s < 288 ==> ll[s] == Spec.FixedLength(s)
      invariant forall s :: 0 <= s < j ==> dl[s] == 5
    { dl[j] := 5; }
  }

  /** A little-endian 16-bit word. */
  function Word16(lo: byte, hi: byte): (r: nat)
    ensures r == (lo as int) + 256 * (hi as int)
  {
    assert Pow2(8) == 256;
    OrDisjoint(lo, hi, 8);
    ShlPow(hi, 8);
    Or(lo, Shl(hi, 8))
  }

  /** Setting the low bit of an even number. */
  lemma OrLowBit(v: nat, b: nat)
    requires b < 2
    ensures Or(2 * v, b) == 2 * v + b
  {
    OrZero(v);
  }
}
