/**
  The DEFLATE format from the writing side (RFC 1951): how tokens and blocks are
  laid out as bits, and the proof that the decoder recovers what they stand for.
 */
module Deflate {
  import opened Bits
  import opened Slices
  import opened Huffman
  import opened InflateSpec

  // ---- LZ77 tokens and what they stand for ----

  /**
    A literal, or a back-reference spelled by length symbol 257 + k with extra
    bits e and distance symbol d with extra bits f.
   */
  datatype Token = Literal(b: byte) | Match(k: nat, e: nat, d: nat, f: nat)

  /** The symbols exist and the extra bits fit. */
  predicate Spelled(T: Tables, t: Token)
    requires TablesOk(T)
  {
    t.Match? ==> t.k < 29 && t.e < Pow2(T.lext[t.k]) && t.d < 30 && t.f < Pow2(T.dext[t.d])
  }

  function Length(T: Tables, t: Token): (r: nat)
    requires TablesOk(T) && Spelled(T, t)
  {
    if t.Literal? then 1 else T.lbase[t.k] + t.e
  }

  function Distance(T: Tables, t: Token): (r: nat)
    requires TablesOk(T) && Spelled(T, t)
  {
    if t.Literal? then 0 else T.dbase[t.d] + t.f
  }

  /** The token makes sense after n bytes of output. */
  predicate TokenOk(T: Tables, t: Token, n: nat)
    requires TablesOk(T)
  {
    Spelled(T, t) && Distance(T, t) <= n
  }

  function Apply(T: Tables, o: seq<byte>, t: Token): (r: seq<byte>)
    requires TablesOk(T) && TokenOk(T, t, |o|)
    ensures |r| == |o| + Length(T, t)
  {
    if t.Literal? then o + [t.b] else Copy(o, Distance(T, t), Length(T, t))
  }

  predicate TokensOk(T: Tables, ts: seq<Token>, n: nat)
    requires TablesOk(T)
  {
    ts == [] || (TokenOk(T, ts[0], n) && TokensOk(T, ts[1..], n + Length(T, ts[0])))
  }

  function Expand(T: Tables, o: seq<byte>, ts: seq<Token>): (r: seq<byte>)
    requires TablesOk(T) && TokensOk(T, ts, |o|)
    ensures |o| <= |r|
    decreases ts
  {
    if ts == [] then o else Expand(T, Apply(T, o, ts[0]), ts[1..])
  }

  /** A match repeats the last dist bytes, over and over when it is longer than they are. */
  lemma {:induction false} CopyRepeats(o: seq<byte>, dist: nat, len: nat, i: nat)
    requires 1 <= dist <= |o| && i < len
    ensures Copy(o, dist, len)[|o| + i] == Copy(o, dist, len)[|o| + i - dist]
    decreases len
  {
    var o' := o + [o[|o| - dist]];
    CopyPrefix(o', dist, len - 1);
    if i == 0 {
      assert Copy(o', dist, len - 1)[|o|] == o'[|o|] && Copy(o', dist, len - 1)[|o| - dist] == o'[|o| - dist];
    } else {
      CopyRepeats(o', dist, len - 1, i - 1);
    }
  }

  // ---- bits in place ----

  lemma ReadBack(bs: seq<bit>, pos: nat, v: nat, n: nat)
    requires v < Pow2(n) && Stands(bs, pos, NatBits(v, n))
    ensures ReadBits(bs, pos, n) == Got(v, pos + n)
  {
    ValAtNat(bs, pos, v, n);
  }

  // ---- code books ----

  /** The bits of each symbol; [] for a symbol without a code. */
  type Book = seq<seq<bit>>

  /** t decodes every code of the book, whatever follows it. */
  ghost predicate Reads(t: Decoder, book: Book) {
    Advances(t) &&
    forall s, bs, pos: nat {:trigger Stands(bs, pos, book[s])} ::
      0 <= s < |book| && book[s] != [] && Stands(bs, pos, book[s]) ==>
      t(bs, pos) == Got(s, pos + |book[s]|)
  }

  ghost predicate HasCode(book: Book, s: nat) {
    s < |book| && book[s] != []
  }

  lemma SymbolBack(t: Decoder, book: Book, bs: seq<bit>, pos: nat, s: nat)
    requires Reads(t, book) && HasCode(book, s) && Stands(bs, pos, book[s])
    ensures t(bs, pos) == Got(s, pos + |book[s]|)
  {}

  /** A code length vector that is not over-subscribed. */
  ghost predicate GoodCode(ls: seq<nat>) {
    CodeLengths(ls) && !Oversubscribed(ls)
  }

  function BookOf(ls: seq<nat>): (r: Book)
    requires CodeLengths(ls)
    ensures |r| == |ls| && forall s :: 0 <= s < |ls| ==> |r[s]| == ls[s]
  {
    seq(|ls|, s requires 0 <= s < |ls| => SymbolBits(ls, s))
  }

  /** The tables infl_build makes decode the canonical code of the lengths. */
  lemma CanonicalReads(ls: seq<nat>)
    requires GoodCode(ls)
    ensures Reads(CodeDecoder(ls), BookOf(ls))
  {
    var t, book := CodeDecoder(ls), BookOf(ls);
    forall s, bs, pos: nat | 0 <= s < |book| && book[s] != [] && Stands(bs, pos, book[s])
      ensures t(bs, pos) == Got(s, pos + |book[s]|)
    {
      DecodeCanonical(ls, bs, pos, s);
    }
  }

  // ---- tokens as bits (sections 3.2.5 and 3.2.6 of RFC 1951) ----

  /** Every symbol the token needs has a code. */
  ghost predicate Codable(lb: Book, db: Book, t: Token) {
    match t
    case Literal(b) => HasCode(lb, b)
    case Match(k, _, d, _) => HasCode(lb, 257 + k) && HasCode(db, d)
  }

  ghost predicate AllCodable(lb: Book, db: Book, ts: seq<Token>) {
    if ts == [] then HasCode(lb, 256) else Codable(lb, db, ts[0]) && AllCodable(lb, db, ts[1..])
  }

  ghost function DistanceBits(T: Tables, db: Book, t: Token): (r: seq<bit>)
    requires TablesOk(T) && Spelled(T, t) && t.Match? && HasCode(db, t.d)
  {
    db[t.d] + NatBits(t.f, T.dext[t.d])
  }

  ghost function TokenBits(T: Tables, lb: Book, db: Book, t: Token): (r: seq<bit>)
    requires TablesOk(T) && Spelled(T, t) && Codable(lb, db, t)
  {
    if t.Literal? then lb[t.b]
    else lb[257 + t.k] + (NatBits(t.e, T.lext[t.k]) + DistanceBits(T, db, t))
  }

  lemma DistanceBack(T: Tables, dt: Decoder, db: Book, bs: seq<bit>, pos: nat, t: Token)
    requires TablesOk(T) && Reads(dt, db) && Spelled(T, t) && t.Match? && HasCode(db, t.d)
    requires Stands(bs, pos, DistanceBits(T, db, t))
    ensures ReadDistance(T, dt, bs, pos) == Got(Distance(T, t), pos + |DistanceBits(T, db, t)|)
  {
    var x, y := db[t.d], NatBits(t.f, T.dext[t.d]);
    StandsParts(bs, pos, x, y);
    SymbolBack(dt, db, bs, pos, t.d);
    ReadBack(bs, pos + |x|, t.f, T.dext[t.d]);
  }

  lemma MatchBack(T: Tables, dt: Decoder, db: Book, bs: seq<bit>, pos: nat, t: Token)
    requires TablesOk(T) && Reads(dt, db) && Spelled(T, t) && t.Match? && HasCode(db, t.d)
    requires Stands(bs, pos, NatBits(t.e, T.lext[t.k])) && Stands(bs, pos + T.lext[t.k], DistanceBits(T, db, t))
    ensures ReadMatch(T, dt, bs, pos, t.k)
            == Got((Length(T, t), Distance(T, t)), pos + T.lext[t.k] + |DistanceBits(T, db, t)|)
  {
    hide Stands, NatBits, Reads, ReadBits, ReadDistance;
    ReadBack(bs, pos, t.e, T.lext[t.k]);
    DistanceBack(T, dt, db, bs, pos + T.lext[t.k], t);
  }

  lemma MatchTurn(T: Tables, lt: Decoder, dt: Decoder, bs: seq<bit>, pos: nat, o: seq<byte>, cap: nat,
                  k: nat, p: nat, len: nat, dist: nat, q: nat)
    requires TablesOk(T) && Advances(lt) && Advances(dt) && |o| <= cap && k < 29 && 1 <= dist <= |o|
    requires lt(bs, pos) == Got(257 + k, p) && ReadMatch(T, dt, bs, p, k) == Got((len, dist), q)
    ensures TurnOf(T, lt, dt, bs, pos, o, cap) == if |o| + len <= cap then More(Copy(o, dist, len), q) else Done(Fail)
  {}

  ghost function TurnFor(T: Tables, lb: Book, db: Book, t: Token, pos: nat, o: seq<byte>, cap: nat): (r: Turn)
    requires TablesOk(T) && TokenOk(T, t, |o|) && Codable(lb, db, t)
  {
    if |o| + Length(T, t) <= cap then More(Apply(T, o, t), pos + |TokenBits(T, lb, db, t)|) else Done(Fail)
  }

  lemma MatchTokenBack(T: Tables, lt: Decoder, lb: Book, dt: Decoder, db: Book, t: Token,
                       bs: seq<bit>, pos: nat, o: seq<byte>, cap: nat)
    requires TablesOk(T) && Reads(lt, lb) && Reads(dt, db) && t.Match? && Codable(lb, db, t)
    requires TokenOk(T, t, |o|) && |o| <= cap && Stands(bs, pos, TokenBits(T, lb, db, t))
    ensures TurnOf(T, lt, dt, bs, pos, o, cap) == TurnFor(T, lb, db, t, pos, o, cap)
  {
    var x, y, z := lb[257 + t.k], NatBits(t.e, T.lext[t.k]), DistanceBits(T, db, t);
    assert Stands(bs, pos, x) && Stands(bs, pos + |x|, y) && Stands(bs, pos + |x| + |y|, z) by {
      StandsParts(bs, pos, x, y + z);
      StandsParts(bs, pos + |x|, y, z);
    }
    SymbolBack(lt, lb, bs, pos, 257 + t.k);
    MatchBack(T, dt, db, bs, pos + |x|, t);
    MatchTurn(T, lt, dt, bs, pos, o, cap, t.k, pos + |x|, Length(T, t), Distance(T, t), pos + |x| + |y| + |z|);
  }

  /** One token is read back in one turn of the loop, if it fits. */
  lemma TokenBack(T: Tables, lt: Decoder, lb: Book, dt: Decoder, db: Book, t: Token,
                  bs: seq<bit>, pos: nat, o: seq<byte>, cap: nat)
    requires TablesOk(T) && Reads(lt, lb) && Reads(dt, db) && Codable(lb, db, t)
    requires TokenOk(T, t, |o|) && |o| <= cap && Stands(bs, pos, TokenBits(T, lb, db, t))
    ensures TurnOf(T, lt, dt, bs, pos, o, cap) == TurnFor(T, lb, db, t, pos, o, cap)
  {
    if t.Literal? {
      SymbolBack(lt, lb, bs, pos, t.b);
    } else {
      MatchTokenBack(T, lt, lb, dt, db, t, bs, pos, o, cap);
    }
  }

  lemma CodesTurn(T: Tables, lt: Decoder, dt: Decoder, bs: seq<bit>, pos: nat, o: seq<byte>, cap: nat, t: Turn)
    requires TablesOk(T) && Advances(lt) && Advances(dt) && |o| <= cap
    requires TurnOf(T, lt, dt, bs, pos, o, cap) == t
    ensures Codes(T, lt, dt, bs, pos, o, cap) == if t.Done? then t.r else Codes(T, lt, dt, bs, t.pos, t.o, cap)
  {}

  /** The tokens and an end-of-block symbol fill bs from pos to end. */
  ghost predicate Laid(T: Tables, lb: Book, db: Book, ts: seq<Token>, n: nat, bs: seq<bit>, pos: nat, end: nat)
    requires TablesOk(T) && AllCodable(lb, db, ts) && TokensOk(T, ts, n)
    decreases ts
  {
    if ts == [] then Stands(bs, pos, lb[256]) && end == pos + |lb[256]|
    else
      var e := TokenBits(T, lb, db, ts[0]);
      Stands(bs, pos, e) && Laid(T, lb, db, ts[1..], n + Length(T, ts[0]), bs, pos + |e|, end)
  }

  /** A coded block body decodes to its expansion when that fits, and fails otherwise. */
  lemma {:induction false} LaidBack(T: Tables, lt: Decoder, lb: Book, dt: Decoder, db: Book, ts: seq<Token>,
                                    bs: seq<bit>, pos: nat, end: nat, o: seq<byte>, cap: nat)
    requires TablesOk(T) && Reads(lt, lb) && Reads(dt, db) && AllCodable(lb, db, ts)
    requires TokensOk(T, ts, |o|) && |o| <= cap && Laid(T, lb, db, ts, |o|, bs, pos, end)
    ensures Codes(T, lt, dt, bs, pos, o, cap)
            == if |Expand(T, o, ts)| <= cap then Got(Expand(T, o, ts), end) else Fail
    decreases ts
  {
    if ts == [] {
      SymbolBack(lt, lb, bs, pos, 256);
      CodesTurn(T, lt, dt, bs, pos, o, cap, Done(Got(o, pos + |lb[256]|)));
    } else {
      var e, o' := TokenBits(T, lb, db, ts[0]), Apply(T, o, ts[0]);
      TokenStep(T, lt, lb, dt, db, ts[0], bs, pos, o, cap);
      if |o'| <= cap {
        LaidBack(T, lt, lb, dt, db, ts[1..], bs, pos + |e|, end, o', cap);
      }
    }
  }

  /** One token in the symbol loop. */
  lemma TokenStep(T: Tables, lt: Decoder, lb: Book, dt: Decoder, db: Book, t: Token,
                  bs: seq<bit>, pos: nat, o: seq<byte>, cap: nat)
    requires TablesOk(T) && Reads(lt, lb) && Reads(dt, db) && Codable(lb, db, t)
    requires TokenOk(T, t, |o|) && |o| <= cap && Stands(bs, pos, TokenBits(T, lb, db, t))
    ensures Codes(T, lt, dt, bs, pos, o, cap)
            == if |o| + Length(T, t) <= cap
               then Codes(T, lt, dt, bs, pos + |TokenBits(T, lb, db, t)|, Apply(T, o, t), cap) else Fail
  {
    TokenBack(T, lt, lb, dt, db, t, bs, pos, o, cap);
    CodesTurn(T, lt, dt, bs, pos, o, cap, TurnFor(T, lb, db, t, pos, o, cap));
  }

  ghost function TokensBits(T: Tables, lb: Book, db: Book, ts: seq<Token>, n: nat): (r: seq<bit>)
    requires TablesOk(T) && AllCodable(lb, db, ts) && TokensOk(T, ts, n)
    decreases ts
  {
    if ts == [] then lb[256]
    else TokenBits(T, lb, db, ts[0]) + TokensBits(T, lb, db, ts[1..], n + Length(T, ts[0]))
  }

  lemma {:induction false} LaidOut(T: Tables, lb: Book, db: Book, ts: seq<Token>, n: nat, bs: seq<bit>, pos: nat)
    requires TablesOk(T) && AllCodable(lb, db, ts) && TokensOk(T, ts, n)
             && Stands(bs, pos, TokensBits(T, lb, db, ts, n))
    ensures Laid(T, lb, db, ts, n, bs, pos, pos + |TokensBits(T, lb, db, ts, n)|)
    decreases ts
  {
    if ts != [] {
      var e, m := TokenBits(T, lb, db, ts[0]), n + Length(T, ts[0]);
      StandsParts(bs, pos, e, TokensBits(T, lb, db, ts[1..], m));
      LaidOut(T, lb, db, ts[1..], m, bs, pos + |e|);
    }
  }

  // ---- blocks (section 3.2.3 of RFC 1951) ----

  /** How a dynamic header spells its code lengths. */
  datatype Run =
    | One(l: nat)           // symbols 0..15: a length
    | Again(n: nat)         // symbol 16: the previous length, 3 to 6 more times
    | Zeros(n: nat)         // symbol 17: 3 to 10 zeros
    | ManyZeros(n: nat)     // symbol 18: 11 to 138 zeros

  predicate RunOk(r: Run, acc: seq<nat>) {
    match r
    case One(l) => l <= 15
    case Again(n) => acc != [] && 3 <= n <= 6
    case Zeros(n) => 3 <= n <= 10
    case ManyZeros(n) => 11 <= n <= 138
  }

  function RunSymbol(r: Run): nat {
    match r case One(l) => l case Again(_) => 16 case Zeros(_) => 17 case ManyZeros(_) => 18
  }

  function RunExpand(r: Run, acc: seq<nat>): (x: seq<nat>)
    requires RunOk(r, acc)
  {
    match r
    case One(l) => acc + [l]
    case Again(n) => acc + Repeat(acc[|acc| - 1], n)
    case Zeros(n) => acc + Repeat(0, n)
    case ManyZeros(n) => acc + Repeat(0, n)
  }

  function RunExtra(r: Run): (x: seq<bit>) {
    match r
    case One(_) => []
    case Again(n) => NatBits(if n < 3 then 0 else n - 3, 2)
    case Zeros(n) => NatBits(if n < 3 then 0 else n - 3, 3)
    case ManyZeros(n) => NatBits(if n < 11 then 0 else n - 11, 7)
  }

  /** The runs, read after acc, spell exactly ls, and fill bs from pos to end. */
  ghost predicate Spelt(cb: Book, runs: seq<Run>, acc: seq<nat>, ls: seq<nat>, bs: seq<bit>, pos: nat, end: nat)
    decreases runs
  {
    if runs == [] then acc == ls && end == pos
    else
      var r := runs[0];
      RunOk(r, acc) && HasCode(cb, RunSymbol(r)) && |RunExpand(r, acc)| <= |ls|
      && Stands(bs, pos, cb[RunSymbol(r)]) && Stands(bs, pos + |cb[RunSymbol(r)]|, RunExtra(r))
      && Spelt(cb, runs[1..], RunExpand(r, acc), ls, bs, pos + |cb[RunSymbol(r)]| + |RunExtra(r)|, end)
  }

  lemma RunBack(bs: seq<bit>, pos: nat, r: Run, acc: seq<nat>)
    requires RunOk(r, acc) && !r.One? && Stands(bs, pos, RunExtra(r))
    ensures ReadRun(bs, pos, RunSymbol(r), acc).Got?
    ensures var v := ReadRun(bs, pos, RunSymbol(r), acc).val;
            RunExpand(r, acc) == acc + Repeat(v.0, v.1)
    ensures ReadRun(bs, pos, RunSymbol(r), acc).pos == pos + |RunExtra(r)|
  {
    assert Pow2(2) == 4 && Pow2(3) == 8 && Pow2(7) == 128;
    match r
    case Again(n) => ReadBack(bs, pos, n - 3, 2);
    case Zeros(n) => ReadBack(bs, pos, n - 3, 3);
    case ManyZeros(n) => ReadBack(bs, pos, n - 11, 7);
  }

  lemma RunGrows(r: Run, acc: seq<nat>)
    requires RunOk(r, acc) && CodeLengths(acc)
    ensures |RunExpand(r, acc)| > |acc| && CodeLengths(RunExpand(r, acc))
  {}

  /** One run is one turn of the code-length loop. */
  lemma RunStep(t: Decoder, cb: Book, bs: seq<bit>, pos: nat, r: Run, acc: seq<nat>, total: nat)
    requires Reads(t, cb) && CodeLengths(acc) && |acc| < total && RunOk(r, acc) && HasCode(cb, RunSymbol(r))
    requires |RunExpand(r, acc)| <= total
    requires Stands(bs, pos, cb[RunSymbol(r)]) && Stands(bs, pos + |cb[RunSymbol(r)]|, RunExtra(r))
    ensures CodeLengths(RunExpand(r, acc))
    ensures ReadLengths(t, bs, pos, acc, total)
            == ReadLengths(t, bs, pos + |cb[RunSymbol(r)]| + |RunExtra(r)|, RunExpand(r, acc), total)
  {
    var s := RunSymbol(r);
    RunGrows(r, acc);
    SymbolBack(t, cb, bs, pos, s);
    if !r.One? {
      RunBack(bs, pos + |cb[s]|, r, acc);
      var v := ReadRun(bs, pos + |cb[s]|, s, acc).val;
      assert Min(v.1, total - |acc|) == v.1;
    }
  }

  lemma {:induction false} LengthsBack(t: Decoder, cb: Book, runs: seq<Run>, bs: seq<bit>, pos: nat, end: nat,
                                       acc: seq<nat>, ls: seq<nat>)
    requires Reads(t, cb) && CodeLengths(acc) && |acc| <= |ls| && Spelt(cb, runs, acc, ls, bs, pos, end)
    ensures ReadLengths(t, bs, pos, acc, |ls|) == Got(ls, end)
    decreases runs
  {
    hide Stands, RunExpand, RunExtra, RunSymbol, RunOk, Reads, CodeLengths;
    if runs != [] {
      var r := runs[0];
      RunGrows(r, acc);
      RunStep(t, cb, bs, pos, r, acc, |ls|);
      LengthsBack(t, cb, runs[1..], bs, pos + |cb[RunSymbol(r)]| + |RunExtra(r)|, end, RunExpand(r, acc), ls);
    }
  }

  // ---- the dynamic header (section 3.2.7 of RFC 1951) ----

  /** inv[k] is where the code-length code length of k is sent. */
  ghost predicate Inverse(T: Tables, inv: seq<nat>) {
    && TablesOk(T) && |inv| == 19
    && (forall k :: 0 <= k < 19 ==> inv[k] < 19 && T.order[inv[k]] == k)
    && (forall j :: 0 <= j < 19 ==> inv[T.order[j]] == j)
  }

  /** Only the first n code-length code lengths, in sending order, may be nonzero. */
  ghost predicate ClensOk(inv: seq<nat>, cl: seq<nat>, n: nat) {
    |cl| == |inv| == 19 && 4 <= n <= 19 && forall k :: 0 <= k < 19 ==> cl[k] <= 7 && (inv[k] >= n ==> cl[k] == 0)
  }

  ghost function ClensBits(T: Tables, cl: seq<nat>, i: nat, n: nat): (r: seq<bit>)
    requires TablesOk(T) && |cl| == 19 && i <= n <= 19
    ensures |r| == 3 * (n - i)
    decreases n - i
  {
    if i == n then [] else NatBits(cl[T.order[i]], 3) + ClensBits(T, cl, i + 1, n)
  }

  lemma {:induction false} ClensBack(T: Tables, inv: seq<nat>, cl: seq<nat>, n: nat, bs: seq<bit>, pos: nat, i: nat,
                                     acc: seq<nat>)
    requires Inverse(T, inv) && ClensOk(inv, cl, n) && i <= n && |acc| == 19
    requires forall k :: 0 <= k < 19 ==> acc[k] == if inv[k] < i then cl[k] else 0
    requires Stands(bs, pos, ClensBits(T, cl, i, n))
    ensures ReadClens(T, bs, pos, n, i, acc) == Got(cl, pos + 3 * (n - i))
    decreases n - i
  {
    if i == n {
      assert acc == cl;
    } else {
      var k := T.order[i];
      StandsParts(bs, pos, NatBits(cl[k], 3), ClensBits(T, cl, i + 1, n));
      assert Pow2(3) == 8;
      ReadBack(bs, pos, cl[k], 3);
      ClensBack(T, inv, cl, n, bs, pos + 3, i + 1, acc[k := cl[k]]);
    }
  }

  /** book is a code the decoder built from ls reads. */
  ghost predicate CodeFor(ls: seq<nat>, book: Book) {
    CodeLengths(ls) && Reads(CodeDecoder(ls), book)
  }

  /** What a dynamic header says: three codes, and the spelling of two of them in the third. */
  datatype Header = Header(ll: seq<nat>, lb: Book, dl: seq<nat>, db: Book, cl: seq<nat>, cb: Book, nclen: nat,
                           runs: seq<Run>)

  ghost predicate HeaderOk(inv: seq<nat>, h: Header) {
    && 257 <= |h.ll| <= 288 && 1 <= |h.dl| <= 32 && |h.ll| + |h.dl| <= MAXLENGTHS
    && ClensOk(inv, h.cl, h.nclen)
  }

  /** The decoders built from the three length vectors read the three codes. */
  ghost predicate HeaderReads(h: Header) {
    CodeFor(h.ll, h.lb) && CodeFor(h.dl, h.db) && CodeFor(h.cl, h.cb)
  }

  /** The header fills bs from pos to end. */
  ghost predicate HeaderAt(T: Tables, inv: seq<nat>, h: Header, bs: seq<bit>, pos: nat, end: nat)
    requires TablesOk(T) && HeaderOk(inv, h)
  {
    && Stands(bs, pos, NatBits(|h.ll| - 257, 5)) && Stands(bs, pos + 5, NatBits(|h.dl| - 1, 5))
    && Stands(bs, pos + 10, NatBits(h.nclen - 4, 4)) && Stands(bs, pos + 14, ClensBits(T, h.cl, 0, h.nclen))
    && Spelt(h.cb, h.runs, [], h.ll + h.dl, bs, pos + 14 + 3 * h.nclen, end)
  }

  lemma SizesBack(a: nat, b: nat, c: nat, bs: seq<bit>, pos: nat)
    requires 257 <= a <= 288 && 1 <= b <= 32 && 4 <= c <= 19
    requires Stands(bs, pos, NatBits(a - 257, 5)) && Stands(bs, pos + 5, NatBits(b - 1, 5))
             && Stands(bs, pos + 10, NatBits(c - 4, 4))
    ensures ReadHeader(bs, pos) == Got((a, b, c), pos + 14)
  {
    assert Pow2(5) == 32 && Pow2(4) == 16;
    ReadBack(bs, pos, a - 257, 5);
    ReadBack(bs, pos + 5, b - 1, 5);
    ReadBack(bs, pos + 10, c - 4, 4);
  }

  lemma PreludeBack(T: Tables, inv: seq<nat>, a: nat, b: nat, cl: seq<nat>, n: nat, bs: seq<bit>, pos: nat)
    requires Inverse(T, inv) && ClensOk(inv, cl, n) && ReadHeader(bs, pos) == Got((a, b, n), pos + 14)
    requires Stands(bs, pos + 14, ClensBits(T, cl, 0, n))
    ensures ReadPrelude(T, bs, pos) == Got((a, b, cl), pos + 14 + 3 * n)
  {
    ClensBack(T, inv, cl, n, bs, pos + 14, 0, Repeat(0, 19));
  }

  lemma TablesParts(T: Tables, bs: seq<bit>, pos: nat, hlit: nat, hdist: nat, cl: seq<nat>, p: nat, ls: seq<nat>,
                    q: nat)
    requires TablesOk(T) && hlit + hdist <= MAXLENGTHS && |ls| == hlit + hdist
    requires ReadPrelude(T, bs, pos) == Got((hlit, hdist, cl), p)
    requires ReadLengths(CodeDecoder(cl), bs, p, [], |ls|) == Got(ls, q)
    ensures ReadTables(T, bs, pos) == Got((ls[..hlit], ls[hlit..]), q)
  {}

  lemma SizesAndClensBack(T: Tables, inv: seq<nat>, h: Header, bs: seq<bit>, pos: nat, end: nat)
    requires Inverse(T, inv) && HeaderOk(inv, h) && HeaderAt(T, inv, h, bs, pos, end)
    ensures ReadPrelude(T, bs, pos) == Got((|h.ll|, |h.dl|, h.cl), pos + 14 + 3 * h.nclen)
  {
    hide Stands, NatBits, ClensBits, ReadPrelude, ReadHeader, Spelt, TablesOk;
    SizesBack(|h.ll|, |h.dl|, h.nclen, bs, pos);
    PreludeBack(T, inv, |h.ll|, |h.dl|, h.cl, h.nclen, bs, pos);
  }

  lemma HeaderBack(T: Tables, inv: seq<nat>, h: Header, bs: seq<bit>, pos: nat, end: nat)
    requires Inverse(T, inv) && HeaderOk(inv, h) && HeaderReads(h) && HeaderAt(T, inv, h, bs, pos, end)
    ensures ReadTables(T, bs, pos) == Got((h.ll, h.dl), end)
  {
    hide Stands, NatBits, ClensBits, ReadPrelude, ReadTables, ReadLengths, Spelt, TablesOk;
    var p, ls := pos + 14 + 3 * h.nclen, h.ll + h.dl;
    SizesAndClensBack(T, inv, h, bs, pos, end);
    LengthsBack(CodeDecoder(h.cl), h.cb, h.runs, bs, p, end, [], ls);
    TablesParts(T, bs, pos, |h.ll|, |h.dl|, h.cl, p, ls, end);
    assert ls[..|h.ll|] == h.ll && ls[|h.ll|..] == h.dl;
  }

  // ---- stored blocks (section 3.2.4 of RFC 1951) ----

  lemma StreamInjective(a: seq<byte>, b: seq<byte>)
    requires Stream(a) == Stream(b)
    ensures a == b
  {
    StreamBytes(a);
    StreamBytes(b);
  }

  lemma Word16Value(input: seq<byte>, i: nat)
    requires i + 1 < |input|
    ensures ValAt(Stream(input), 8 * i, 16) == (input[i] as int) + 256 * (input[i + 1] as int)
  {
    var bs := Stream(input);
    assert Pow2(8) == 256;
    ValAtSplit(bs, 8 * i, 8, 8);
    StreamByteVal(input, i);
    StreamByteVal(input, i + 1);
    ShlPow(input[i + 1], 8);
  }

  lemma Word16Back(input: seq<byte>, bs: seq<bit>, i: nat, v: nat)
    requires bs == Stream(input) && v < 65536 && Stands(bs, 8 * i, NatBits(v, 16))
    ensures i + 1 < |input| && (input[i] as int) + 256 * (input[i + 1] as int) == v
  {
    assert ValAt(bs, 8 * i, 16) == v by {
      assert Pow2(8) == 256;
      assert Pow2(16) == 65536;
      ValAtNat(bs, 8 * i, v, 16);
    }
    Word16Value(input, i);
  }

  lemma BytesBack(input: seq<byte>, i: nat, data: seq<byte>)
    requires Stands(Stream(input), 8 * i, Stream(data))
    ensures i + |data| <= |input| && input[i..i + |data|] == data
  {
    StreamSlice(input, i, i + |data|);
    StreamInjective(input[i..i + |data|], data);
  }

  function PadTo8(pos: nat): (n: nat)
    ensures n < 8 && (pos + n) % 8 == 0
  {
    (8 - pos % 8) % 8
  }

  /** Padding, length, complement and data fill bs from pos to end. */
  ghost predicate StoredAt(data: seq<byte>, bs: seq<bit>, pos: nat, end: nat) {
    var p := pos + PadTo8(pos);
    && |data| <= 65535 && Stands(bs, p, NatBits(|data|, 16)) && Stands(bs, p + 16, NatBits(65535 - |data|, 16))
    && Stands(bs, p + 32, Stream(data)) && end == p + 32 + 8 * |data|
  }

  lemma StoredParts(input: seq<byte>, data: seq<byte>, pos: nat, o: seq<byte>, cap: nat, i: nat)
    requires i == (pos + 7) / 8 && i + 4 + |data| <= |input| && |o| <= cap
    requires (input[i] as int) + 256 * (input[i + 1] as int) == |data| && input[i + 4..i + 4 + |data|] == data
    ensures Stored(input, pos, o, cap) == if |o| + |data| <= cap then Got(o + data, 8 * (i + 4 + |data|)) else Fail
  {}

  lemma StoredBack(input: seq<byte>, data: seq<byte>, bs: seq<bit>, pos: nat, end: nat, o: seq<byte>, cap: nat)
    requires bs == Stream(input) && |o| <= cap && StoredAt(data, bs, pos, end)
    ensures Stored(input, pos, o, cap) == if |o| + |data| <= cap then Got(o + data, end) else Fail
  {
    hide Stands, NatBits, Stored;
    var i := (pos + 7) / 8;
    assert pos + PadTo8(pos) == 8 * i;
    assert i + 1 < |input| && (input[i] as int) + 256 * (input[i + 1] as int) == |data| by {
      Word16Back(input, bs, i, |data|);
    }
    assert i + 4 + |data| <= |input| && input[i + 4..i + 4 + |data|] == data by {
      BytesBack(input, i + 4, data);
    }
    StoredParts(input, data, pos, o, cap, i);
  }

  // ---- whole streams ----

  datatype Blk = StoredBlk(data: seq<byte>) | FixedBlk(ts: seq<Token>) | DynamicBlk(h: Header, ts: seq<Token>)

  /** The fixed codes (section 3.2.6 of RFC 1951). */
  ghost predicate FixedBooks(lb: Book, db: Book) {
    CodeFor(FixedLL(), lb) && CodeFor(FixedDL(), db)
  }

  /** Everything the format fixes in advance: tables, sending order, fixed codes. */
  datatype Format = Format(T: Tables, inv: seq<nat>, lb: Book, db: Book)

  ghost predicate FormatOk(F: Format) {
    Inverse(F.T, F.inv) && FixedBooks(F.lb, F.db)
  }

  function Kind(b: Blk): nat { match b case StoredBlk(_) => 0 case FixedBlk(_) => 1 case DynamicBlk(_, _) => 2 }

  /** The block makes sense after n bytes of output. */
  ghost predicate BlkOk(F: Format, b: Blk, n: nat)
    requires TablesOk(F.T)
  {
    match b
    case StoredBlk(data) => |data| <= 65535
    case FixedBlk(ts) => TokensOk(F.T, ts, n) && AllCodable(F.lb, F.db, ts)
    case DynamicBlk(h, ts) => HeaderOk(F.inv, h) && TokensOk(F.T, ts, n) && AllCodable(h.lb, h.db, ts)
  }

  ghost predicate BlkReads(b: Blk) {
    b.DynamicBlk? ==> HeaderReads(b.h)
  }

  ghost function BlkExpand(F: Format, o: seq<byte>, b: Blk): (r: seq<byte>)
    requires TablesOk(F.T) && BlkOk(F, b, |o|)
    ensures |o| <= |r|
  {
    match b
    case StoredBlk(data) => o + data
    case FixedBlk(ts) => Expand(F.T, o, ts)
    case DynamicBlk(_, ts) => Expand(F.T, o, ts)
  }

  /** The block after its three header bits fills bs from pos to end. */
  ghost predicate BlkAt(F: Format, b: Blk, n: nat, bs: seq<bit>, pos: nat, end: nat)
    requires TablesOk(F.T) && BlkOk(F, b, n)
  {
    match b
    case StoredBlk(data) => StoredAt(data, bs, pos, end)
    case FixedBlk(ts) => Laid(F.T, F.lb, F.db, ts, n, bs, pos, end)
    case DynamicBlk(h, ts) =>
      exists mid: nat :: HeaderAt(F.T, F.inv, h, bs, pos, mid) && Laid(F.T, h.lb, h.db, ts, n, bs, mid, end)
  }

  lemma DynamicBack(F: Format, h: Header, ts: seq<Token>, bs: seq<bit>, pos: nat, mid: nat, end: nat, o: seq<byte>,
                    cap: nat)
    requires FormatOk(F) && BlkOk(F, DynamicBlk(h, ts), |o|) && HeaderReads(h) && |o| <= cap
    requires HeaderAt(F.T, F.inv, h, bs, pos, mid) && Laid(F.T, h.lb, h.db, ts, |o|, bs, mid, end)
    ensures Dynamic(F.T, bs, pos, o, cap)
            == if |Expand(F.T, o, ts)| <= cap then Got(Expand(F.T, o, ts), end) else Fail
  {
    HeaderBack(F.T, F.inv, h, bs, pos, mid);
    LaidBack(F.T, CodeDecoder(h.ll), h.lb, CodeDecoder(h.dl), h.db, ts, bs, mid, end, o, cap);
  }

  /** A block decodes to its expansion when that fits, and fails otherwise. */
  lemma BlkBack(F: Format, b: Blk, input: seq<byte>, bs: seq<bit>, pos: nat, end: nat, o: seq<byte>, cap: nat)
    requires FormatOk(F) && BlkOk(F, b, |o|) && BlkReads(b) && bs == Stream(input) && |o| <= cap
    requires BlkAt(F, b, |o|, bs, pos, end)
    ensures Block(F.T, input, bs, Kind(b), pos, o, cap)
            == if |BlkExpand(F, o, b)| <= cap then Got(BlkExpand(F, o, b), end) else Fail
  {
    match b
    case StoredBlk(data) =>
      StoredBack(input, data, bs, pos, end, o, cap);
    case FixedBlk(ts) =>
      LaidBack(F.T, CodeDecoder(FixedLL()), F.lb, CodeDecoder(FixedDL()), F.db, ts, bs, pos, end, o, cap);
    case DynamicBlk(h, ts) =>
      var mid: nat :| HeaderAt(F.T, F.inv, h, bs, pos, mid) && Laid(F.T, h.lb, h.db, ts, |o|, bs, mid, end);
      DynamicBack(F, h, ts, bs, pos, mid, end, o, cap);
  }

  /** The blocks make sense one after the other, after n bytes of output. */
  ghost predicate BlksOk(F: Format, blks: seq<Blk>, o: seq<byte>)
    requires TablesOk(F.T)
    decreases blks
  {
    blks == [] || (BlkOk(F, blks[0], |o|) && BlksOk(F, blks[1..], BlkExpand(F, o, blks[0])))
  }

  /** What the blocks stand for. */
  ghost function BlksExpand(F: Format, blks: seq<Blk>, o: seq<byte>): (r: seq<byte>)
    requires TablesOk(F.T) && BlksOk(F, blks, o)
    ensures |o| <= |r|
    decreases blks
  {
    if blks == [] then o else BlksExpand(F, blks[1..], BlkExpand(F, o, blks[0]))
  }

  /** One block with its header bits fills bs from pos to end. */
  ghost predicate MarkedAt(F: Format, b: Blk, last: bool, n: nat, bs: seq<bit>, pos: nat, end: nat)
    requires TablesOk(F.T) && BlkOk(F, b, n)
  {
    && pos + 3 <= |bs| && bs[pos] == (if last then 1 else 0)
    && Stands(bs, pos + 1, NatBits(Kind(b), 2)) && BlkAt(F, b, n, bs, pos + 3, end)
  }

  /** The blocks, the last one marked, fill bs from pos to end. */
  ghost predicate BlksAt(F: Format, blks: seq<Blk>, o: seq<byte>, bs: seq<bit>, pos: nat, end: nat)
    requires TablesOk(F.T) && BlksOk(F, blks, o) && blks != []
    decreases blks
  {
    if |blks| == 1 then MarkedAt(F, blks[0], true, |o|, bs, pos, end)
    else exists mid: nat :: MarkedAt(F, blks[0], false, |o|, bs, pos, mid)
                            && BlksAt(F, blks[1..], BlkExpand(F, o, blks[0]), bs, mid, end)
  }

  lemma MarksBack(bs: seq<bit>, pos: nat, m: nat, k: nat)
    requires pos + 3 <= |bs| && bs[pos] == m && k < 4 && Stands(bs, pos + 1, NatBits(k, 2))
    ensures ReadBits(bs, pos, 1) == Got(m, pos + 1) && ReadBits(bs, pos + 1, 2) == Got(k, pos + 3)
  {
    assert Pow2(2) == 4;
    ReadBack(bs, pos + 1, k, 2);
    assert ValAt(bs, pos + 1, 0) == 0;
  }

  lemma MarkedBack(F: Format, b: Blk, last: bool, input: seq<byte>, bs: seq<bit>, pos: nat, end: nat, o: seq<byte>,
                   cap: nat)
    requires FormatOk(F) && BlkOk(F, b, |o|) && BlkReads(b) && bs == Stream(input) && |o| <= cap
    requires MarkedAt(F, b, last, |o|, bs, pos, end)
    ensures Inflate(F.T, input, bs, pos, o, cap)
            == if |BlkExpand(F, o, b)| > cap then Fail
               else if last then Got(BlkExpand(F, o, b), end)
               else Inflate(F.T, input, bs, end, BlkExpand(F, o, b), cap)
  {
    var m, k := if last then 1 else 0, Kind(b);
    assert ReadBits(bs, pos, 1).val == m && ReadBits(bs, pos + 1, 2).val == k by { MarksBack(bs, pos, m, k); }
    InflateStep(F.T, input, bs, pos, o, cap, m, k);
    BlkBack(F, b, input, bs, pos + 3, end, o, cap);
  }

  /** Decoding inverts encoding: every stream of blocks whose codes are read yields its expansion, if that fits. */
  lemma {:induction false} StreamBack(F: Format, blks: seq<Blk>, input: seq<byte>, bs: seq<bit>, pos: nat, end: nat,
                                      o: seq<byte>, cap: nat)
    requires FormatOk(F) && blks != [] && BlksOk(F, blks, o) && bs == Stream(input) && |o| <= cap
    requires BlksAt(F, blks, o, bs, pos, end) && AllRead(blks)
    ensures Inflate(F.T, input, bs, pos, o, cap)
            == if |BlksExpand(F, blks, o)| <= cap then Got(BlksExpand(F, blks, o), end) else Fail
    decreases blks
  {
    var o' := BlkExpand(F, o, blks[0]);
    if |blks| == 1 {
      LastBack(F, blks, input, bs, pos, end, o, cap);
    } else {
      var mid: nat :| MarkedAt(F, blks[0], false, |o|, bs, pos, mid) && BlksAt(F, blks[1..], o', bs, mid, end);
      MarkedBack(F, blks[0], false, input, bs, pos, mid, o, cap);
      if |o'| <= cap {
        StreamBack(F, blks[1..], input, bs, mid, end, o', cap);
      }
    }
  }

  ghost predicate AllRead(blks: seq<Blk>) {
    blks == [] || (BlkReads(blks[0]) && AllRead(blks[1..]))
  }

  lemma LastBack(F: Format, blks: seq<Blk>, input: seq<byte>, bs: seq<bit>, pos: nat, end: nat, o: seq<byte>, cap: nat)
    requires FormatOk(F) && |blks| == 1 && BlksOk(F, blks, o) && bs == Stream(input) && |o| <= cap
    requires BlksAt(F, blks, o, bs, pos, end) && AllRead(blks)
    ensures Inflate(F.T, input, bs, pos, o, cap)
            == if |BlksExpand(F, blks, o)| <= cap then Got(BlksExpand(F, blks, o), end) else Fail
  {
    MarkedBack(F, blks[0], true, input, bs, pos, end, o, cap);
    assert BlksExpand(F, blks[1..], BlkExpand(F, o, blks[0])) == BlkExpand(F, o, blks[0]);
  }
}
