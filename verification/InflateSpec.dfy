/**
  What the DEFLATE decoder of inflate.h computes, as a function of the whole bit
  string: each reader takes a bit position and returns a value and the next
  position.  Fail is the source's -1.  Overrun is the moment a dynamic header
  makes the source store a 319th code length in its table of 318.
 */
module InflateSpec {
  import opened Bits
  import opened Huffman

  /** The fixed tables of the format: bases and extra bits of the length and distance symbols, and the
      order in which code-length code lengths are sent. */
  datatype Tables = Tables(lbase: seq<nat>, lext: seq<nat>, dbase: seq<nat>, dext: seq<nat>, order: seq<nat>)

  /** What the decoder and the encoder rely on. */
  ghost predicate TablesOk(T: Tables) {
    && |T.lbase| == |T.lext| == 29 && |T.dbase| == |T.dext| == 30 && |T.order| == 19
    && (forall k :: 0 <= k < 29 ==> 3 <= T.lbase[k] && T.lext[k] <= 5)
    && (forall k :: 0 <= k < 30 ==> 1 <= T.dbase[k] && T.dext[k] <= 13)
    && (forall k :: 0 <= k < 19 ==> T.order[k] < 19)
  }

  const MAXLENGTHS: nat := 318

  // INFL_L_BASE, INFL_L_EXT, INFL_D_BASE, INFL_D_EXT and ord of inflate.h

  function LBase(): seq<nat> {
    [3, 4, 5, 6, 7, 8, 9, 10, 11, 13, 15, 17, 19, 23, 27, 31, 35, 43,
     51, 59, 67, 83, 99, 115, 131, 163, 195, 227, 258]
  }

  function LExt(): seq<nat> {
    [0, 0, 0, 0, 0, 0, 0, 0, 1, 1, 1, 1, 2, 2, 2, 2, 3, 3, 3, 3, 4, 4, 4, 4, 5, 5, 5, 5, 0]
  }

  function DBase(): seq<nat> {
    [1, 2, 3, 4, 5, 7, 9, 13, 17, 25, 33, 49, 65, 97, 129, 193, 257, 385, 513, 769,
     1025, 1537, 2049, 3073, 4097, 6145, 8193, 12289, 16385, 24577]
  }

  function DExt(): seq<nat> {
    [0, 0, 0, 0, 1, 1, 2, 2, 3, 3, 4, 4, 5, 5, 6, 6, 7, 7, 8, 8, 9, 9, 10, 10, 11, 11, 12, 12, 13, 13]
  }

  function Ord(): seq<nat> {
    [16, 17, 18, 0, 8, 7, 9, 6, 10, 5, 11, 4, 12, 3, 13, 2, 14, 1, 15]
  }

  function Rfc1951(): (T: Tables)
  {
    Tables(LBase(), LExt(), DBase(), DExt(), Ord())
  }

  lemma LengthTables()
    ensures |LBase()| == |LExt()| == 29
    ensures forall k :: 0 <= k < 29 ==> 3 <= LBase()[k]
    ensures forall k :: 0 <= k < 29 ==> LExt()[k] <= 5
  {}

  lemma DistanceTables()
    ensures |DBase()| == |DExt()| == 30
    ensures forall k :: 0 <= k < 30 ==> 1 <= DBase()[k]
    ensures forall k :: 0 <= k < 30 ==> DExt()[k] <= 13
  {}

  lemma OrdTable()
    ensures |Ord()| == 19 && forall k :: 0 <= k < 19 ==> Ord()[k] < 19
  {}

  lemma Rfc1951Ok()
    ensures TablesOk(Rfc1951())
  {
    LengthTables();
    DistanceTables();
    OrdTable();
  }

  /** A way to read one symbol. */
  type Decoder = (seq<bit>, nat) -> Read<nat>

  ghost predicate Advances(d: Decoder) {
    forall bs, pos: nat {:trigger d(bs, pos)} ::
      match d(bs, pos)
      case Got(_, p) => pos < p <= |bs|
      case Fail => true
      case Overrun => false
  }

  function DecoderOf(t: Tree): (d: Decoder)
    requires WellFormed(t)
    ensures Advances(d)
  {
    (bs, pos) => Decode(t, bs, pos)
  }

  /** Decoding by the canonical code of a length vector. */
  function CodeDecoder(ls: seq<nat>): (d: Decoder)
    ensures Advances(d)
  {
    DecoderOf(TreeOf(ls))
  }

  function ReadBits(bs: seq<bit>, pos: nat, n: nat): (r: Read<nat>)
    ensures r.Got? ==> r.pos == pos + n <= |bs| && r.val < Pow2(n)
    ensures !r.Overrun?
  {
    if pos + n <= |bs| then
      ValAtBound(bs, pos, n);
      Got(ValAt(bs, pos, n), pos + n)
    else Fail
  }

  /** o followed by len bytes, each equal to the byte dist places before it. */
  function Copy(o: seq<byte>, dist: nat, len: nat): (r: seq<byte>)
    requires 1 <= dist <= |o|
    ensures |r| == |o| + len
    decreases len
  {
    if len == 0 then o else Copy(o + [o[|o| - dist]], dist, len - 1)
  }

  lemma {:induction false} CopyPrefix(o: seq<byte>, dist: nat, len: nat)
    requires 1 <= dist <= |o|
    ensures o <= Copy(o, dist, len)
    decreases len
  {
    if len > 0 { CopyPrefix(o + [o[|o| - dist]], dist, len - 1); }
  }

  function ReadDistance(T: Tables, dc: Decoder, bs: seq<bit>, pos: nat): (r: Read<nat>)
    requires TablesOk(T) && Advances(dc)
    ensures r.Got? ==> pos <= r.pos <= |bs| && r.val >= 1
    ensures !r.Overrun?
  {
    var d := dc(bs, pos);
    if !d.Got? || d.val >= 30 then Fail else
    var de := ReadBits(bs, d.pos, T.dext[d.val]);
    if !de.Got? then Fail else
    Got(T.dbase[d.val] + de.val, de.pos)
  }

  /** A back-reference after length symbol k: its length and distance. */
  function ReadMatch(T: Tables, dc: Decoder, bs: seq<bit>, pos: nat, k: nat): (r: Read<(nat, nat)>)
    requires TablesOk(T) && Advances(dc) && k < 29
    ensures r.Got? ==> pos <= r.pos <= |bs| && r.val.1 >= 1
    ensures !r.Overrun?
  {
    var e := ReadBits(bs, pos, T.lext[k]);
    if !e.Got? then Fail else
    var d := ReadDistance(T, dc, bs, e.pos);
    if !d.Got? then Fail else
    Got((T.lbase[k] + e.val, d.val), d.pos)
  }

  /** One turn of the symbol loop: an outcome, or output and position to go on from. */
  datatype Turn = Done(r: Read<seq<byte>>) | More(o: seq<byte>, pos: nat)

  function TurnOf(T: Tables, lc: Decoder, dc: Decoder, bs: seq<bit>, pos: nat, o: seq<byte>, cap: nat): (t: Turn)
    requires TablesOk(T) && Advances(lc) && Advances(dc) && |o| <= cap
    ensures t.Done? && t.r.Got? ==> pos < t.r.pos <= |bs| && t.r.val == o
    ensures t.Done? ==> !t.r.Overrun?
    ensures t.More? ==> pos < t.pos <= |bs| && |o| <= |t.o| <= cap
  {
    var s := lc(bs, pos);
    if !s.Got? then Done(Fail)
    else if s.val == 256 then Done(Got(o, s.pos))
    else if s.val < 256 then
      if |o| >= cap then Done(Fail) else More(o + [s.val], s.pos)
    else if s.val - 257 >= 29 then Done(Fail)
    else
      var m := ReadMatch(T, dc, bs, s.pos, s.val - 257);
      if !m.Got? || m.val.1 > |o| || |o| + m.val.0 > cap then Done(Fail)
      else More(Copy(o, m.val.1, m.val.0), m.pos)
  }

  /** Literals and back-references up to the end-of-block symbol, appended to o. */
  function Codes(T: Tables, lc: Decoder, dc: Decoder, bs: seq<bit>, pos: nat, o: seq<byte>,
                 cap: nat): (r: Read<seq<byte>>)
    requires TablesOk(T) && Advances(lc) && Advances(dc) && |o| <= cap
    ensures r.Got? ==> pos < r.pos <= |bs| && |o| <= |r.val| <= cap
    ensures !r.Overrun?
    decreases |bs| - pos
  {
    match TurnOf(T, lc, dc, bs, pos, o, cap)
    case Done(r) => r
    case More(o', p) => Codes(T, lc, dc, bs, p, o', cap)
  }

  /** A stored block: skip to a byte boundary, length, complement, bytes. */
  function Stored(input: seq<byte>, pos: nat, o: seq<byte>, cap: nat): (r: Read<seq<byte>>)
    requires |o| <= cap
    ensures r.Got? ==> pos < r.pos <= 8 * |input| && |o| <= |r.val| <= cap
    ensures !r.Overrun?
  {
    var i := (pos + 7) / 8;
    if i + 4 > |input| then Fail
    else
      var len: nat := (input[i] as int) + 256 * (input[i + 1] as int);
      if i + 4 + len > |input| || |o| + len > cap then Fail
      else Got(o + input[i + 4..i + 4 + len], 8 * (i + 4 + len))
  }

  function FixedLength(s: nat): nat {
    if s < 144 then 8 else if s < 256 then 9 else if s < 280 then 7 else 8
  }

  function Five(s: nat): nat { 5 }

  function FixedLL(): (r: seq<nat>)
    ensures |r| == 288 && CodeLengths(r) && forall s :: 0 <= s < 288 ==> r[s] == FixedLength(s)
  {
    seq(288, s requires 0 <= s < 288 => FixedLength(s))
  }

  function FixedDL(): (r: seq<nat>)
    ensures |r| == 30 && CodeLengths(r) && forall s :: 0 <= s < 30 ==> r[s] == 5
  {
    seq(30, s requires 0 <= s < 30 => Five(s))
  }

  function Repeat(v: nat, n: nat): (r: seq<nat>)
    ensures |r| == n && forall i :: 0 <= i < n ==> r[i] == v
  {
    seq(n, i => v)
  }

  /** The code-length code lengths, three bits each, in the order of the table. */
  function ReadClens(T: Tables, bs: seq<bit>, pos: nat, n: nat, i: nat, cl: seq<nat>): (r: Read<seq<nat>>)
    requires TablesOk(T) && i <= n <= 19 == |cl|
    requires forall k :: 0 <= k < 19 ==> cl[k] <= 7
    ensures r.Got? ==> pos <= r.pos && |r.val| == 19 && forall k :: 0 <= k < 19 ==> r.val[k] <= 7
    ensures r.Got? ==> pos <= |bs| ==> r.pos <= |bs|
    ensures !r.Overrun?
    decreases n - i
  {
    if i == n then Got(cl, pos)
    else
      var v := ReadBits(bs, pos, 3);
      if !v.Got? then Fail else
      assert Pow2(3) == 8;
      ReadClens(T, bs, v.pos, n, i + 1, cl[T.order[i] := v.val])
  }

  function Min(a: nat, b: nat): nat { if a < b then a else b }

  /** The run a code-length symbol 16, 17 or 18 stands for: its value and extra bits. */
  function ReadRun(bs: seq<bit>, pos: nat, sym: nat, acc: seq<nat>): (r: Read<(nat, nat)>)
    requires sym >= 16
    ensures r.Got? ==> pos <= r.pos <= |bs| && r.val.1 >= 3 && (r.val.0 == 0 || r.val.0 in acc)
    ensures !r.Overrun?
  {
    if sym == 16 && acc == [] then Fail
    else
      var n := ReadBits(bs, pos, if sym == 16 then 2 else if sym == 17 then 3 else 7);
      if !n.Got? then Fail
      else if sym == 16 then Got((acc[|acc| - 1], n.val + 3), n.pos)
      else Got((0, n.val + (if sym == 17 then 3 else 11)), n.pos)
  }

  /** Code lengths up to total of them; a run never goes past total. */
  function ReadLengths(t: Decoder, bs: seq<bit>, pos: nat, acc: seq<nat>, total: nat): (r: Read<seq<nat>>)
    requires Advances(t) && CodeLengths(acc) && |acc| <= total
    ensures r.Got? ==> pos <= r.pos && |r.val| == total && CodeLengths(r.val)
    ensures r.Got? ==> pos <= |bs| ==> r.pos <= |bs|
    ensures !r.Overrun?
    decreases |bs| - pos
  {
    if |acc| == total then Got(acc, pos)
    else
      var s := t(bs, pos);
      if !s.Got? then Fail
      else if s.val < 16 then ReadLengths(t, bs, s.pos, acc + [s.val], total)
      else
        var run := ReadRun(bs, s.pos, s.val, acc);
        if !run.Got? then Fail
        else ReadLengths(t, bs, run.pos, acc + Repeat(run.val.0, Min(run.val.1, total - |acc|)), total)
  }

  /** How many code lengths the loop stores before it is done or fails. */
  function Reached(t: Decoder, bs: seq<bit>, pos: nat, acc: seq<nat>, total: nat): (n: nat)
    requires Advances(t) && CodeLengths(acc) && |acc| <= total
    ensures |acc| <= n <= total
    decreases |bs| - pos
  {
    if |acc| == total then total
    else
      var s := t(bs, pos);
      if !s.Got? then |acc|
      else if s.val < 16 then Reached(t, bs, s.pos, acc + [s.val], total)
      else
        var run := ReadRun(bs, s.pos, s.val, acc);
        if !run.Got? then |acc|
        else Reached(t, bs, run.pos, acc + Repeat(run.val.0, Min(run.val.1, total - |acc|)), total)
  }

  /** The loop succeeds exactly when it stores them all. */
  lemma {:induction false} ReachedIff(t: Decoder, bs: seq<bit>, pos: nat, acc: seq<nat>, total: nat)
    requires Advances(t) && CodeLengths(acc) && |acc| <= total
    ensures ReadLengths(t, bs, pos, acc, total).Got? <==> Reached(t, bs, pos, acc, total) == total
    decreases |bs| - pos
  {
    if |acc| < total {
      var s := t(bs, pos);
      if s.Got? {
        if s.val < 16 {
          ReachedIff(t, bs, s.pos, acc + [s.val], total);
        } else {
          var run := ReadRun(bs, s.pos, s.val, acc);
          if run.Got? {
            ReachedIff(t, bs, run.pos, acc + Repeat(run.val.0, Min(run.val.1, total - |acc|)), total);
          }
        }
      }
    }
  }

  function ReadHeader(bs: seq<bit>, pos: nat): (r: Read<(nat, nat, nat)>)
    ensures r.Got? ==> pos <= r.pos <= |bs|
    ensures r.Got? ==> 257 <= r.val.0 <= 288 && 1 <= r.val.1 <= 32 && 4 <= r.val.2 <= 19
    ensures !r.Overrun?
  {
    assert Pow2(5) == 32 && Pow2(4) == 16;
    if pos + 14 <= |bs| then
      var a, b, c := ReadBits(bs, pos, 5).val, ReadBits(bs, pos + 5, 5).val, ReadBits(bs, pos + 10, 4).val;
      Got((a + 257, b + 1, c + 4), pos + 14)
    else Fail
  }

  /** The two table sizes and the code-length code of a dynamic header. */
  function ReadPrelude(T: Tables, bs: seq<bit>, pos: nat): (r: Read<(nat, nat, seq<nat>)>)
    requires TablesOk(T)
    ensures r.Got? ==> pos <= r.pos <= |bs| && CodeLengths(r.val.2) && |r.val.2| == 19
    ensures r.Got? ==> 257 <= r.val.0 <= 288 && 1 <= r.val.1 <= 32
    ensures !r.Overrun?
  {
    var h := ReadHeader(bs, pos);
    if !h.Got? then Fail else
    var cl := ReadClens(T, bs, h.pos, h.val.2, 0, Repeat(0, 19));
    if !cl.Got? then Fail else Got((h.val.0, h.val.1, cl.val), cl.pos)
  }

  /** A dynamic header: the literal/length and distance code lengths it carries. */
  function ReadTables(T: Tables, bs: seq<bit>, pos: nat): (r: Read<(seq<nat>, seq<nat>)>)
    requires TablesOk(T)
    ensures r.Got? ==> pos <= r.pos <= |bs|
    ensures r.Got? ==> 257 <= |r.val.0| <= 288 && 1 <= |r.val.1| <= 32
    ensures r.Got? ==> CodeLengths(r.val.0) && CodeLengths(r.val.1)
  {
    var h := ReadPrelude(T, bs, pos);
    if !h.Got? then Fail else
    var (hlit, hdist, cl) := h.val;
    if Reached(CodeDecoder(cl), bs, h.pos, [], hlit + hdist) > MAXLENGTHS then Overrun
    else
      var ls := ReadLengths(CodeDecoder(cl), bs, h.pos, [], hlit + hdist);
      if !ls.Got? then Fail else Got((ls.val[..hlit], ls.val[hlit..]), ls.pos)
  }

  lemma TablesStep(T: Tables, bs: seq<bit>, pos: nat, hlit: nat, hdist: nat, cl: seq<nat>, p: nat)
    requires TablesOk(T) && ReadPrelude(T, bs, pos) == Got((hlit, hdist, cl), p)
    ensures var ls := ReadLengths(CodeDecoder(cl), bs, p, [], hlit + hdist);
            ReadTables(T, bs, pos)
            == if Reached(CodeDecoder(cl), bs, p, [], hlit + hdist) > MAXLENGTHS then Overrun
               else if !ls.Got? then Fail else Got((ls.val[..hlit], ls.val[hlit..]), ls.pos)
  {}

  function Dynamic(T: Tables, bs: seq<bit>, pos: nat, o: seq<byte>, cap: nat): (r: Read<seq<byte>>)
    requires TablesOk(T) && |o| <= cap
    ensures r.Got? ==> pos < r.pos <= |bs| && |o| <= |r.val| <= cap
  {
    match ReadTables(T, bs, pos)
    case Got(t, p) => Codes(T, CodeDecoder(t.0), CodeDecoder(t.1), bs, p, o, cap)
    case Fail => Fail
    case Overrun => Overrun
  }

  function Block(T: Tables, input: seq<byte>, bs: seq<bit>, kind: nat, pos: nat, o: seq<byte>,
                 cap: nat): (r: Read<seq<byte>>)
    requires TablesOk(T) && |o| <= cap && |bs| == 8 * |input|
    ensures r.Got? ==> pos < r.pos <= |bs| && |o| <= |r.val| <= cap
  {
    if kind == 0 then Stored(input, pos, o, cap)
    else if kind == 1 then Codes(T, CodeDecoder(FixedLL()), CodeDecoder(FixedDL()), bs, pos, o, cap)
    else if kind == 2 then Dynamic(T, bs, pos, o, cap)
    else Fail
  }

  /** Blocks from pos to the one marked last; o is the output so far. */
  function Inflate(T: Tables, input: seq<byte>, bs: seq<bit>, pos: nat, o: seq<byte>, cap: nat): (r: Read<seq<byte>>)
    requires TablesOk(T) && |o| <= cap && |bs| == 8 * |input|
    ensures r.Got? ==> pos < r.pos <= |bs| && |o| <= |r.val| <= cap
    decreases |bs| - pos
  {
    if pos + 3 > |bs| then Fail
    else
      var r := Block(T, input, bs, ReadBits(bs, pos + 1, 2).val, pos + 3, o, cap);
      if !r.Got? || ReadBits(bs, pos, 1).val == 1 then r
      else Inflate(T, input, bs, r.pos, r.val, cap)
  }

  /** Decoding from a position on with some output, as a function of the two. */
  type Runner = (nat, seq<byte>) -> Read<seq<byte>>

  function From(T: Tables, input: seq<byte>, cap: nat, pos: nat, o: seq<byte>): Read<seq<byte>>
    requires TablesOk(T)
  {
    if |o| <= cap then Inflate(T, input, Stream(input), pos, o, cap) else Fail
  }

  function RunnerOf(T: Tables, input: seq<byte>, cap: nat): Runner
    requires TablesOk(T)
  {
    (pos: nat, o: seq<byte>) => From(T, input, cap, pos, o)
  }

  lemma InflateStep(T: Tables, input: seq<byte>, bs: seq<bit>, pos: nat, o: seq<byte>, cap: nat, last: nat, kind: nat)
    requires TablesOk(T) && |o| <= cap && |bs| == 8 * |input| && pos + 3 <= |bs|
    requires ReadBits(bs, pos, 1).val == last && ReadBits(bs, pos + 1, 2).val == kind
    ensures var r := Block(T, input, bs, kind, pos + 3, o, cap);
            Inflate(T, input, bs, pos, o, cap)
            == if !r.Got? || last == 1 then r else Inflate(T, input, bs, r.pos, r.val, cap)
  {}
}
