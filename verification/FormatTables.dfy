/**
  The constants of inflate.h against the rules of sections 3.2.5 to 3.2.7 of RFC
  1951, and one known stream decoded to its text.  Decoder and encoder share
  these constants, so no round trip says what they are.
 */
module FormatTables {
  import opened Bits
  import opened Huffman
  import opened InflateSpec
  import opened Deflate
  import opened Encoder

  // ---- lengths and distances ----

  /** Four length symbols for each number of extra bits, after eight with none; the last stands for 258 alone. */
  lemma LengthExtra(k: nat)
    requires k < 29
    ensures LExt()[k] == if k < 8 || k == 28 then 0 else k / 4 - 1
  {}

  /** Each length symbol starts where the one before it ends. */
  lemma LengthSpacing(k: nat)
    requires k < 27
    ensures LBase()[k + 1] == LBase()[k] + Pow2(LExt()[k])
    ensures LBase()[0] == 3 && LBase()[28] == 258
  {
    SmallPowers();
  }

  /** Two distance symbols for each number of extra bits, after two more with none. */
  lemma DistanceExtra(k: nat)
    requires k < 30
    ensures DExt()[k] == if k < 2 then 0 else k / 2 - 1
  {}

  lemma DistanceSpacing(k: nat)
    requires k < 29
    ensures DBase()[k + 1] == DBase()[k] + Pow2(DExt()[k])
    ensures DBase()[0] == 1
  {
    SmallPowers();
  }

  /** The order of code-length code lengths: the runs, zero, then outward from eight. */
  lemma OrderRule(j: nat)
    requires j < 8
    ensures Ord()[0] == 16 && Ord()[1] == 17 && Ord()[2] == 18 && Ord()[3] == 0
    ensures Ord()[4 + 2 * j] == 8 + j && (j < 7 ==> Ord()[5 + 2 * j] == 7 - j)
  {}

  // ---- the fixed codes ----

  /** How many of the first n fixed literal/length codes have l bits. */
  function FixedCount(n: nat, l: nat): nat {
    if l == 8 then (if n <= 144 then n else if n <= 280 then 144 else n - 136)
    else if l == 9 then (if n <= 144 then 0 else if n <= 256 then n - 144 else 112)
    else if l == 7 then (if n <= 256 then 0 else if n <= 280 then n - 256 else 24)
    else 0
  }

  lemma {:induction false} FixedCounted(ls: seq<nat>, n: nat, l: nat)
    requires n <= |ls| == 288 && l > 0 && forall s :: 0 <= s < 288 ==> ls[s] == FixedLength(s)
    ensures Count(ls[..n], l) == FixedCount(n, l)
    decreases n
  {
    if n > 0 {
      FixedCounted(ls, n - 1, l);
      assert ls[..n][..n - 1] == ls[..n - 1];
    }
  }

  lemma {:induction false} FivesCounted(ls: seq<nat>, n: nat, l: nat)
    requires n <= |ls| && l > 0 && forall s :: 0 <= s < |ls| ==> ls[s] == 5
    ensures Count(ls[..n], l) == if l == 5 then n else 0
    decreases n
  {
    if n > 0 {
      FivesCounted(ls, n - 1, l);
      assert ls[..n][..n - 1] == ls[..n - 1];
    }
  }

  lemma {:induction false} FirstZero(c: seq<nat>, l: nat)
    requires l <= |c| && forall k :: 1 <= k < l ==> c[k] == 0
    ensures First(c, l) == 0
  {
    if l > 1 { FirstZero(c, l - 1); }
  }

  lemma FirstNext(c: seq<nat>, l: nat)
    requires 1 <= l < |c|
    ensures First(c, l + 1) == 2 * (First(c, l) + c[l])
  {}

  lemma FirstCodes(c: seq<nat>)
    requires |c| == 16 && c[7] == 24 && c[8] == 152 && forall l :: 1 <= l < 7 ==> c[l] == 0
    ensures First(c, 7) == 0 && First(c, 8) == 48 && First(c, 9) == 400
  {
    hide First;
    FirstZero(c, 7);
    FirstNext(c, 7);
    FirstNext(c, 8);
  }

  lemma FixedFirsts()
    ensures var c := Counts(FixedLL()); First(c, 7) == 0 && First(c, 8) == 48 && First(c, 9) == 400
  {
    var ls, c := FixedLL(), Counts(FixedLL());
    assert ls[..288] == ls;
    forall l | 1 <= l <= 15 ensures c[l] == FixedCount(288, l) {
      FixedCounted(ls, 288, l);
    }
    FirstCodes(c);
  }

  /** The fixed literal/length code, from 00110000 on, 110010000 on, 0000000 on and 11000000 on. */
  lemma FixedCodes(s: nat)
    requires s < 288
    ensures SymbolBits(FixedLL(), s)
            == if s < 144 then CodeBits(48 + s, 8)
               else if s < 256 then CodeBits(256 + s, 9)
               else if s < 280 then CodeBits(s - 256, 7)
               else CodeBits(s - 88, 8)
  {
    hide First, CodeBits;
    FixedFirsts();
    FixedCounted(FixedLL(), s, FixedLength(s));
  }

  /** Distance symbols are their own five bits. */
  lemma FixedDistances(d: nat)
    requires d < 30
    ensures SymbolBits(FixedDL(), d) == CodeBits(d, 5)
  {
    hide CodeBits, First;
    var ls, c := FixedDL(), Counts(FixedDL());
    assert ls[..30] == ls;
    forall l | 1 <= l < 5 ensures c[l] == 0 {
      FivesCounted(ls, 30, l);
    }
    FirstZero(c, 5);
    FivesCounted(ls, d, 5);
  }

  // ---- one known stream ----

  /** Four bits as a number, lowest first. */
  function Nibble(a: bit, b: bit, c: bit, d: bit): nat {
    (a as int) + 2 * (b as int) + 4 * (c as int) + 8 * (d as int)
  }

  lemma BitCons(v: nat, b: bit, w: nat, n: nat)
    requires v == (b as int) + 2 * w
    ensures NatBits(v, n + 1) == [b] + NatBits(w, n)
  {}

  lemma NibbleBits(v: nat, w: nat, a: bit, b: bit, c: bit, d: bit, n: nat)
    requires v == Nibble(a, b, c, d) + 16 * w
    ensures NatBits(v, n + 4) == [a, b, c, d] + NatBits(w, n)
  {
    hide NatBits;
    var v3: nat := (d as int) + 2 * w;
    var v2: nat := (c as int) + 2 * v3;
    var v1: nat := (b as int) + 2 * v2;
    BitCons(v3, d, w, n);
    BitCons(v2, c, v3, n + 1);
    BitCons(v1, b, v2, n + 2);
    BitCons(v, a, v1, n + 3);
  }

  /** A byte by its bits, lowest first. */
  lemma ByteBits(v: nat, b: seq<bit>)
    requires |b| == 8 && v == Nibble(b[0], b[1], b[2], b[3]) + 16 * Nibble(b[4], b[5], b[6], b[7])
    ensures NatBits(v, 8) == b
  {
    hide NatBits, Nibble;
    var w := Nibble(b[4], b[5], b[6], b[7]);
    NibbleBits(v, w, b[0], b[1], b[2], b[3], 4);
    NibbleBits(w, 0, b[4], b[5], b[6], b[7], 0);
    NoneLeft();
  }

  lemma NoneLeft()
    ensures NatBits(0, 0) == []
  {}

  /** One more bit at the end of a code. */
  lemma CodeSnoc(v: nat, n: nat, b: bit)
    ensures CodeBits(2 * v + b, n + 1) == CodeBits(v, n) + [b]
  {}

  lemma {:induction false} ZeroCode(n: nat)
    ensures |CodeBits(0, n)| == n && forall i :: 0 <= i < n ==> CodeBits(0, n)[i] == 0
  {
    if n > 0 { ZeroCode(n - 1); }
  }

  lemma SmallCodes()
    ensures CodeBits(0, 7) == [0, 0, 0, 0, 0, 0, 0] && CodeBits(1, 7) == [0, 0, 0, 0, 0, 0, 1]
    ensures CodeBits(3, 5) == [0, 0, 0, 1, 1] && NatBits(1, 2) == [1, 0]
  {
    hide CodeBits;
    ZeroCode(7);
    ZeroCode(6);
    ZeroCode(3);
    CodeSnoc(0, 6, 1);
    CodeSnoc(0, 3, 1);
    CodeSnoc(1, 4, 1);
  }

  /** The codes of a, b, c and d: 100 and 10001 to 10100. */
  lemma LetterCodes()
    ensures CodeBits(145, 8) == [1, 0, 0, 1, 0, 0, 0, 1] && CodeBits(146, 8) == [1, 0, 0, 1, 0, 0, 1, 0]
    ensures CodeBits(147, 8) == [1, 0, 0, 1, 0, 0, 1, 1] && CodeBits(148, 8) == [1, 0, 0, 1, 0, 1, 0, 0]
  {
    hide CodeBits;
    NineCode();
    CodeSnoc(9, 4, 0);
    CodeSnoc(18, 5, 0);
    CodeSnoc(18, 5, 1);
    CodeSnoc(36, 6, 0);
    CodeSnoc(36, 6, 1);
    CodeSnoc(37, 6, 0);
    CodeSnoc(72, 7, 1);
    CodeSnoc(73, 7, 0);
    CodeSnoc(73, 7, 1);
    CodeSnoc(74, 7, 0);
  }

  lemma NineCode()
    ensures CodeBits(9, 4) == [1, 0, 0, 1]
  {
    assert CodeBits(1, 1) == [1] && CodeBits(2, 2) == [1, 0] && CodeBits(4, 3) == [1, 0, 0];
  }

  /** The byte with these bits, lowest first. */
  predicate Spells8(b: byte, x: seq<bit>) {
    |x| == 8 && b == Nibble(x[0], x[1], x[2], x[3]) + 16 * Nibble(x[4], x[5], x[6], x[7])
  }

  lemma StreamCons(b: byte, s: seq<byte>, x: seq<bit>)
    requires Spells8(b, x)
    ensures Stream([b] + s) == x + Stream(s)
  {
    StreamConcat([b], s);
    StreamByte([b], 0);
    ByteBits(b, x);
    assert Stream([b])[0..8] == Stream([b]);
  }

  /** Three bytes and what follows, as bits. */
  lemma ThreeBytes(a: byte, b: byte, c: byte, s: seq<byte>, x: seq<bit>, y: seq<bit>, z: seq<bit>)
    requires Spells8(a, x) && Spells8(b, y) && Spells8(c, z)
    ensures Stream([a, b, c] + s) == x + (y + (z + Stream(s)))
  {
    hide Stream, Spells8;
    assert [a, b, c] + s == [a] + ([b] + ([c] + s));
    StreamCons(c, s, z);
    StreamCons(b, [c] + s, y);
    StreamCons(a, [b] + ([c] + s), x);
  }

  function KnownInput(): seq<byte> { [0x4b, 0x4c, 0x4a, 0x4e, 0x01, 0x62, 0x00] }

  lemma FirstSpelled(x: seq<bit>, y: seq<bit>, z: seq<bit>)
    requires x == [1, 1, 0, 1, 0, 0, 1, 0] && y == [0, 0, 1, 1, 0, 0, 1, 0] && z == [0, 1, 0, 1, 0, 0, 1, 0]
    ensures Spells8(0x4b, x) && Spells8(0x4c, y) && Spells8(0x4a, z)
  {}

  lemma NextSpelled(x: seq<bit>, y: seq<bit>, z: seq<bit>)
    requires x == [0, 1, 1, 1, 0, 0, 1, 0] && y == [1, 0, 0, 0, 0, 0, 0, 0] && z == [0, 1, 0, 0, 0, 1, 1, 0]
    ensures Spells8(0x4e, x) && Spells8(0x01, y) && Spells8(0x62, z)
  {}

  lemma LastOne()
    ensures Stream([0x00]) == [0, 0, 0, 0, 0, 0, 0, 0]
  {
    hide Stream;
    assert [0x00] + [] == [0x00];
    StreamCons(0x00, [], [0, 0, 0, 0, 0, 0, 0, 0]);
    NoBits();
  }

  /** Its bits, byte by byte. */
  lemma KnownBits(x: seq<seq<bit>>)
    requires |x| == 7 && x[0] == [1, 1, 0, 1, 0, 0, 1, 0] && x[1] == [0, 0, 1, 1, 0, 0, 1, 0]
    requires x[2] == [0, 1, 0, 1, 0, 0, 1, 0] && x[3] == [0, 1, 1, 1, 0, 0, 1, 0] && x[4] == [1, 0, 0, 0, 0, 0, 0, 0]
    requires x[5] == [0, 1, 0, 0, 0, 1, 1, 0] && x[6] == [0, 0, 0, 0, 0, 0, 0, 0]
    ensures Stream(KnownInput()) == x[0] + (x[1] + (x[2] + (x[3] + (x[4] + (x[5] + x[6])))))
  {
    hide Stream, Spells8, KnownInput;
    FirstSpelled(x[0], x[1], x[2]);
    NextSpelled(x[3], x[4], x[5]);
    KnownJoin(x[0], x[1], x[2], x[3], x[4], x[5], x[6]);
  }

  lemma KnownJoin(a: seq<bit>, b: seq<bit>, c: seq<bit>, d: seq<bit>, e: seq<bit>, f: seq<bit>, g: seq<bit>)
    requires Spells8(0x4b, a) && Spells8(0x4c, b) && Spells8(0x4a, c) && Spells8(0x4e, d) && Spells8(0x01, e)
    requires Spells8(0x62, f) && g == [0, 0, 0, 0, 0, 0, 0, 0]
    ensures Stream(KnownInput()) == a + (b + (c + (d + (e + (f + g)))))
  {
    hide Stream, Spells8, KnownInput;
    var t := [0x00];
    var s := [0x4e, 0x01, 0x62] + t;
    ThreeBytes(0x4b, 0x4c, 0x4a, s, a, b, c);
    ThreeBytes(0x4e, 0x01, 0x62, t, d, e, f);
    LastOne();
    KnownIs();
  }

  lemma KnownIs()
    ensures KnownInput() == [0x4b, 0x4c, 0x4a] + ([0x4e, 0x01, 0x62] + [0x00])
  {}

  lemma NoBits()
    ensures Stream([]) == []
  {}

  lemma TokensCons(T: Tables, lb: Book, db: Book, t: Token, ts: seq<Token>, n: nat)
    requires TablesOk(T) && TokenOk(T, t, n) && TokensOk(T, ts, n + Length(T, t)) && AllCodable(lb, db, [t] + ts)
    ensures TokensOk(T, [t] + ts, n) && Codable(lb, db, t) && AllCodable(lb, db, ts)
    ensures TokensBits(T, lb, db, [t] + ts, n) == TokenBits(T, lb, db, t) + TokensBits(T, lb, db, ts, n + Length(T, t))
  {
    hide Codable, TokenBits, TokenOk;
    var all := [t] + ts;
    assert all[1..] == ts && all[0] == t;
  }

  lemma ExpandCons(T: Tables, o: seq<byte>, t: Token, ts: seq<Token>)
    requires TablesOk(T) && TokenOk(T, t, |o|) && TokensOk(T, ts, |o| + Length(T, t))
    ensures TokensOk(T, [t] + ts, |o|) && Expand(T, o, [t] + ts) == Expand(T, Apply(T, o, t), ts)
  {
    assert ([t] + ts)[1..] == ts;
  }

  const A: Token := Literal(97)
  const B: Token := Literal(98)
  const C: Token := Literal(99)
  const D: Token := Literal(100)

  /** Length 3 at distance 4. */
  const BACK: Token := Match(0, 0, 3, 0)

  lemma BackIs(T: Tables)
    requires T == Rfc1951() && TablesOk(T)
    ensures T.lext[0] == 0 && T.dext[3] == 0 && Spelled(T, BACK) && Length(T, BACK) == 3 && Distance(T, BACK) == 4
  {}

  /** The tokens of the known stream, as bits. */
  lemma KnownTokens(T: Tables, lb: Book, db: Book)
    requires T == Rfc1951() && TablesOk(T) && AllCodable(lb, db, [A] + ([B] + ([C] + ([D] + ([BACK] + [])))))
    ensures var ts := [A] + ([B] + ([C] + ([D] + ([BACK] + []))));
            && TokensOk(T, ts, 0) && |lb| > 257 && |db| > 3
            && TokensBits(T, lb, db, ts, 0)
               == lb[97] + (lb[98] + (lb[99] + (lb[100] + ((lb[257] + ([] + (db[3] + []))) + lb[256]))))
  {
    hide TablesOk, Rfc1951, TokensBits, TokensOk, AllCodable, TokenBits, HasCode;
    BackIs(T);
    Lone(T, lb, db, 7);
    CodableTails(lb, db);
    BackBits(T, lb, db);
    LetterBits(T, lb, db, 97);
    LetterBits(T, lb, db, 98);
    LetterBits(T, lb, db, 99);
    LetterBits(T, lb, db, 100);
    TokensCons(T, lb, db, BACK, [], 4);
    TokensCons(T, lb, db, D, [BACK] + [], 3);
    TokensCons(T, lb, db, C, [D] + ([BACK] + []), 2);
    TokensCons(T, lb, db, B, [C] + ([D] + ([BACK] + [])), 1);
    TokensCons(T, lb, db, A, [B] + ([C] + ([D] + ([BACK] + []))), 0);
  }

  lemma LetterBits(T: Tables, lb: Book, db: Book, b: byte)
    requires TablesOk(T) && HasCode(lb, b)
    ensures |lb| > b && TokenBits(T, lb, db, Literal(b)) == lb[b]
  {}

  lemma BackBits(T: Tables, lb: Book, db: Book)
    requires T == Rfc1951() && TablesOk(T) && HasCode(lb, 257) && HasCode(db, 3)
    ensures |lb| > 257 && |db| > 3 && Spelled(T, BACK)
    ensures TokenBits(T, lb, db, BACK) == lb[257] + ([] + (db[3] + []))
  {
    BackIs(T);
  }

  lemma CodableTail(lb: Book, db: Book, t: Token, ts: seq<Token>)
    requires AllCodable(lb, db, [t] + ts)
    ensures AllCodable(lb, db, ts) && Codable(lb, db, t)
  {
    assert ([t] + ts)[1..] == ts;
  }

  lemma CodableTails(lb: Book, db: Book)
    requires AllCodable(lb, db, [A] + ([B] + ([C] + ([D] + ([BACK] + [])))))
    ensures AllCodable(lb, db, [B] + ([C] + ([D] + ([BACK] + [])))) && AllCodable(lb, db, [C] + ([D] + ([BACK] + [])))
    ensures AllCodable(lb, db, [D] + ([BACK] + [])) && AllCodable(lb, db, [BACK] + []) && AllCodable(lb, db, [])
    ensures HasCode(lb, 97) && HasCode(lb, 98) && HasCode(lb, 99) && HasCode(lb, 100)
    ensures HasCode(lb, 257) && HasCode(db, 3) && HasCode(lb, 256)
  {
    hide AllCodable;
    CodableTail(lb, db, A, [B] + ([C] + ([D] + ([BACK] + []))));
    CodableTail(lb, db, B, [C] + ([D] + ([BACK] + [])));
    CodableTail(lb, db, C, [D] + ([BACK] + []));
    CodableTail(lb, db, D, [BACK] + []);
    CodableTail(lb, db, BACK, []);
    EndCodable(lb, db);
  }

  lemma EndCodable(lb: Book, db: Book)
    requires AllCodable(lb, db, [])
    ensures HasCode(lb, 256)
  {}

  lemma Lone(T: Tables, lb: Book, db: Book, n: nat)
    requires TablesOk(T)
    ensures TokensOk(T, [], n)
    ensures AllCodable(lb, db, []) ==> TokensBits(T, lb, db, [], n) == lb[256]
  {}

  lemma KnownText(T: Tables)
    requires T == Rfc1951() && TablesOk(T) && TokensOk(T, [A] + ([B] + ([C] + ([D] + ([BACK] + [])))), 0)
    ensures Expand(T, [], [A] + ([B] + ([C] + ([D] + ([BACK] + []))))) == [97, 98, 99, 100, 97, 98, 99]
  {
    hide TablesOk, Rfc1951, TokensOk, Expand;
    BackIs(T);
    TextTails(T);
    assert [] + [97] == [97] && [97] + [98] == [97, 98] && [97, 98] + [99] == [97, 98, 99];
    assert [97, 98, 99] + [100] == [97, 98, 99, 100];
    assert [97, 98, 99, 100] + [97, 98, 99] == [97, 98, 99, 100, 97, 98, 99];
    ExpandCons(T, [], A, [B] + ([C] + ([D] + ([BACK] + []))));
    ExpandCons(T, [97], B, [C] + ([D] + ([BACK] + [])));
    ExpandCons(T, [97, 98], C, [D] + ([BACK] + []));
    ExpandCons(T, [97, 98, 99], D, [BACK] + []);
    ExpandCons(T, [97, 98, 99, 100], BACK, []);
    CopyThree([97, 98, 99, 100]);
    ExpandNone(T, [97, 98, 99, 100, 97, 98, 99]);
  }

  lemma CopyThree(o: seq<byte>)
    requires |o| == 4
    ensures Copy(o, 4, 3) == o + [o[0], o[1], o[2]]
  {
    assert Copy(o, 4, 3) == Copy(o + [o[0]], 4, 2) == Copy(o + [o[0]] + [o[1]], 4, 1);
    assert Copy(o + [o[0]] + [o[1]] + [o[2]], 4, 0) == o + [o[0]] + [o[1]] + [o[2]];
  }

  lemma ExpandNone(T: Tables, o: seq<byte>)
    requires TablesOk(T)
    ensures TokensOk(T, [], |o|) && Expand(T, o, []) == o
  {}

  lemma TextTail(T: Tables, t: Token, ts: seq<Token>, n: nat)
    requires TablesOk(T) && TokensOk(T, [t] + ts, n)
    ensures TokenOk(T, t, n) && TokensOk(T, ts, n + Length(T, t))
  {
    assert ([t] + ts)[1..] == ts;
  }

  lemma TextTails(T: Tables)
    requires T == Rfc1951() && TablesOk(T) && TokensOk(T, [A] + ([B] + ([C] + ([D] + ([BACK] + [])))), 0)
    ensures TokensOk(T, [B] + ([C] + ([D] + ([BACK] + []))), 1) && TokensOk(T, [C] + ([D] + ([BACK] + [])), 2)
    ensures TokensOk(T, [D] + ([BACK] + []), 3) && TokensOk(T, [BACK] + [], 4) && TokensOk(T, [], 7)
  {
    hide TablesOk, Rfc1951, TokensOk;
    BackIs(T);
    TextTail(T, A, [B] + ([C] + ([D] + ([BACK] + []))), 0);
    TextTail(T, B, [C] + ([D] + ([BACK] + [])), 1);
    TextTail(T, C, [D] + ([BACK] + []), 2);
    TextTail(T, D, [BACK] + [], 3);
    TextTail(T, BACK, [], 4);
  }

  lemma KnownCodes(lb: Book, db: Book)
    requires lb == BookOf(FixedLL()) && db == BookOf(FixedDL())
    ensures |lb| == 288 && |db| == 30
    ensures lb[97] == [1, 0, 0, 1, 0, 0, 0, 1] && lb[98] == [1, 0, 0, 1, 0, 0, 1, 0]
    ensures lb[99] == [1, 0, 0, 1, 0, 0, 1, 1] && lb[100] == [1, 0, 0, 1, 0, 1, 0, 0]
    ensures lb[257] == [0, 0, 0, 0, 0, 0, 1] && lb[256] == [0, 0, 0, 0, 0, 0, 0] && db[3] == [0, 0, 0, 1, 1]
  {
    hide SymbolBits, CodeBits, FixedLL, FixedDL;
    FixedCodes(97);
    FixedCodes(98);
    FixedCodes(99);
    FixedCodes(100);
    FixedCodes(256);
    FixedCodes(257);
    FixedDistances(3);
    LetterCodes();
    SmallCodes();
  }

  /** The seven bytes 4b 4c 4a 4e 01 62 00 inflate to abcdabc wherever that fits. */
  lemma KnownInflates(cap: nat)
    ensures TablesOk(Rfc1951())
    ensures Inflate(Rfc1951(), KnownInput(), Stream(KnownInput()), 0, [], cap)
            == if cap >= 7 then Got([97, 98, 99, 100, 97, 98, 99], 54) else Fail
  {
    hide Inflate, Rfc1951, TablesOk, Stream, BookOf, TokensOk, TokensBits, Expand, AllCodable, NatBits, FixedLL,
         FixedDL, KnownInput;
    Rfc1951Ok();
    var T, lb, db := Rfc1951(), BookOf(FixedLL()), BookOf(FixedDL());
    var ts := [A] + ([B] + ([C] + ([D] + ([BACK] + []))));
    KnownOk(T);
    FixedRoundTrip(ts, KnownInput(), [0, 0], cap);
    KnownTokens(T, lb, db);
    KnownText(T);
    KnownCodes(lb, db);
    KnownBits([[1, 1, 0, 1, 0, 0, 1, 0], [0, 0, 1, 1, 0, 0, 1, 0], [0, 1, 0, 1, 0, 0, 1, 0], [0, 1, 1, 1, 0, 0, 1, 0],
               [1, 0, 0, 0, 0, 0, 0, 0], [0, 1, 0, 0, 0, 1, 1, 0], [0, 0, 0, 0, 0, 0, 0, 0]]);
    SmallCodes();
    SameBits();
  }

  /** The tokens' codes and the bytes' bits, side by side. */
  lemma SameBits()
    ensures [1, 1, 0, 1, 0, 0, 1, 0] + ([0, 0, 1, 1, 0, 0, 1, 0] + ([0, 1, 0, 1, 0, 0, 1, 0]
            + ([0, 1, 1, 1, 0, 0, 1, 0] + ([1, 0, 0, 0, 0, 0, 0, 0] + ([0, 1, 0, 0, 0, 1, 1, 0]
            + [0, 0, 0, 0, 0, 0, 0, 0])))))
            == [1] + ([1, 0] + ([1, 0, 0, 1, 0, 0, 0, 1] + ([1, 0, 0, 1, 0, 0, 1, 0] + ([1, 0, 0, 1, 0, 0, 1, 1]
               + ([1, 0, 0, 1, 0, 1, 0, 0] + (([0, 0, 0, 0, 0, 0, 1] + ([] + ([0, 0, 0, 1, 1] + [])))
               + [0, 0, 0, 0, 0, 0, 0])))))) + [0, 0]
  {}

  lemma KnownOk(T: Tables)
    requires T == Rfc1951() && TablesOk(T)
    ensures TokensOk(T, [A] + ([B] + ([C] + ([D] + ([BACK] + [])))), 0)
  {
    hide TablesOk, Rfc1951;
    BackIs(T);
    OkCons(T, BACK, [], 4);
    OkCons(T, D, [BACK] + [], 3);
    OkCons(T, C, [D] + ([BACK] + []), 2);
    OkCons(T, B, [C] + ([D] + ([BACK] + [])), 1);
    OkCons(T, A, [B] + ([C] + ([D] + ([BACK] + []))), 0);
  }

  lemma OkCons(T: Tables, t: Token, ts: seq<Token>, n: nat)
    requires TablesOk(T) && TokenOk(T, t, n) && TokensOk(T, ts, n + Length(T, t))
    ensures TokensOk(T, [t] + ts, n)
  {
    assert ([t] + ts)[1..] == ts;
  }
}
