/**
  Canonical Huffman codes (section 3.2.2 of RFC 1951) and the counts/symbols
  decoder of inflate.h.  A code is given by its vector of code lengths; length 0
  means the symbol is absent.
 */
module Huffman {
  import opened Bits

  const MAXBITS: nat := 15

  /** Outcome of reading something from a bit string at a position. */
  datatype Read<+T> = Fail | Got(val: T, pos: nat) | Overrun

  ghost predicate CodeLengths(ls: seq<nat>) {
    forall i :: 0 <= i < |ls| ==> ls[i] <= MAXBITS
  }

  /** How many symbols have length l. */
  function Count(ls: seq<nat>, l: nat): nat
  {
    if ls == [] then 0
    else
      var n := |ls| - 1;
      Count(ls[..n], l) + (if ls[n] == l then 1 else 0)
  }

  /** The symbol of length l with r symbols of that length before it. */
  function Nth(ls: seq<nat>, l: nat, r: nat): (s: nat)
    requires r < Count(ls, l)
    ensures s < |ls| && ls[s] == l && Count(ls[..s], l) == r
  {
    var n := |ls| - 1;
    if r == Count(ls[..n], l) then n
    else
      var s := Nth(ls[..n], l, r);
      assert ls[..n][..s] == ls[..s];
      s
  }

  // ---- the decoding tables ----

  /** counts[l] is how many codes have length l; symbols lists them by length. */
  datatype Tree = Tree(counts: seq<nat>, symbols: seq<nat>)

  /** Number of codes shorter than l. */
  function Off(c: seq<nat>, l: nat): nat
    requires l <= |c|
  {
    if l <= 1 then 0 else Off(c, l - 1) + c[l - 1]
  }

  /** The first (numerically least) code of length l. */
  function First(c: seq<nat>, l: nat): nat
    requires l <= |c|
  {
    if l <= 1 then 0 else 2 * (First(c, l - 1) + c[l - 1])
  }

  ghost predicate WellFormed(t: Tree) {
    |t.counts| == MAXBITS + 1 && |t.symbols| == Off(t.counts, MAXBITS + 1)
  }

  lemma {:induction false} OffMono(c: seq<nat>, l: nat, m: nat)
    requires 1 <= l < m <= |c|
    ensures Off(c, l) + c[l] <= Off(c, m)
  {
    if l + 1 < m { OffMono(c, l, m - 1); }
  }

  function Counts(ls: seq<nat>): (r: seq<nat>)
    ensures |r| == MAXBITS + 1
    ensures forall l :: 1 <= l <= MAXBITS ==> r[l] == Count(ls, l)
  {
    seq(MAXBITS + 1, l requires 0 <= l <= MAXBITS => if l == 0 then 0 else Count(ls, l))
  }

  /** The symbol at place i when shorter codes come first, then smaller symbols. */
  function SymbolAt(ls: seq<nat>, l: nat, i: nat): (s: nat)
    requires 1 <= l <= MAXBITS && Off(Counts(ls), l) <= i < Off(Counts(ls), MAXBITS + 1)
    decreases ls, MAXBITS - l
  {
    var d := i - Off(Counts(ls), l);
    if d < Count(ls, l) then Nth(ls, l, d) else SymbolAt(ls, l + 1, i)
  }

  function SymbolAtPlace(ls: seq<nat>, i: nat): (s: nat)
    requires i < Off(Counts(ls), MAXBITS + 1)
  {
    SymbolAt(ls, 1, i)
  }

  /** The tables of a length vector. */
  function TreeOf(ls: seq<nat>): (t: Tree)
    ensures WellFormed(t)
  {
    var c := Counts(ls);
    var n := Off(c, MAXBITS + 1);
    Tree(c, seq(n, i requires 0 <= i < n => SymbolAtPlace(ls, i)))
  }

  // ---- the decoder ----

  /** The value of the n bits at pos, first bit most significant. */
  function Value(bs: seq<bit>, pos: nat, n: nat): nat
    requires pos + n <= |bs|
  {
    if n == 0 then 0 else 2 * Value(bs, pos, n - 1) + bs[pos + n - 1]
  }

  /** The first n bits fall below the end of the n-bit codes. */
  predicate Hits(c: seq<nat>, bs: seq<bit>, pos: nat, n: nat)
    requires n < |c|
  {
    pos + n <= |bs| && Value(bs, pos, n) < First(c, n) + c[n]
  }

  /** The least length from n on that hits, or |c| when none does. */
  function Search(c: seq<nat>, bs: seq<bit>, pos: nat, n: nat): (r: nat)
    requires n <= |c|
    ensures n <= r <= |c|
    ensures r < |c| ==> Hits(c, bs, pos, r)
    ensures forall k :: n <= k < r ==> !Hits(c, bs, pos, k)
    decreases |c| - n
  {
    if n == |c| || Hits(c, bs, pos, n) then n else Search(c, bs, pos, n + 1)
  }

  /** Where no shorter length hits, the value read is not below the first code. */
  lemma {:induction false} MissesBelow(c: seq<nat>, bs: seq<bit>, pos: nat, n: nat)
    requires 1 <= n < |c| && pos + n <= |bs|
    requires forall k :: 1 <= k < n ==> !Hits(c, bs, pos, k)
    ensures Value(bs, pos, n) >= First(c, n)
  {
    if n > 1 {
      MissesBelow(c, bs, pos, n - 1);
      assert !Hits(c, bs, pos, n - 1);
    }
  }

  /** The symbol whose code is shortest among those the bits at pos start with. */
  function Decode(t: Tree, bs: seq<bit>, pos: nat): (r: Read<nat>)
    requires WellFormed(t)
    ensures r.Got? ==> pos < r.pos <= |bs|
    ensures !r.Overrun?
  {
    var n := Search(t.counts, bs, pos, 1);
    if n > MAXBITS then Fail
    else
      MissesBelow(t.counts, bs, pos, n);
      OffMono(t.counts, n, MAXBITS + 1);
      Got(t.symbols[Off(t.counts, n) + Value(bs, pos, n) - First(t.counts, n)], pos + n)
  }

  lemma DecodeFirstHit(t: Tree, bs: seq<bit>, pos: nat, n: nat)
    requires WellFormed(t) && 1 <= n <= MAXBITS && Hits(t.counts, bs, pos, n)
    requires forall k :: 1 <= k < n ==> !Hits(t.counts, bs, pos, k)
    ensures 0 <= Off(t.counts, n) + Value(bs, pos, n) - First(t.counts, n) < |t.symbols|
    ensures Decode(t, bs, pos)
            == Got(t.symbols[Off(t.counts, n) + Value(bs, pos, n) - First(t.counts, n)], pos + n)
  {
    MissesBelow(t.counts, bs, pos, n);
    OffMono(t.counts, n, MAXBITS + 1);
    assert Search(t.counts, bs, pos, 1) == n;
  }

  // ---- the code a length vector stands for ----

  /** How many earlier symbols share the length of s. */
  function Rank(ls: seq<nat>, s: nat): nat
    requires s < |ls|
  {
    Count(ls[..s], ls[s])
  }

  function Code(ls: seq<nat>, s: nat): nat
    requires CodeLengths(ls) && s < |ls|
  {
    First(Counts(ls), ls[s]) + Rank(ls, s)
  }

  /** The bits that stand for s. */
  function SymbolBits(ls: seq<nat>, s: nat): (r: seq<bit>)
    requires CodeLengths(ls) && s < |ls|
    ensures |r| == ls[s]
  {
    CodeBits(Code(ls, s), ls[s])
  }

  /** The Kraft sum, in units of 2^-15. */
  function Kraft(ls: seq<nat>): nat
    requires CodeLengths(ls)
  {
    if ls == [] then 0
    else
      var n := |ls| - 1;
      Kraft(ls[..n]) + (if ls[n] == 0 then 0 else Pow2(MAXBITS - ls[n]))
  }

  ghost predicate Oversubscribed(ls: seq<nat>)
    requires CodeLengths(ls)
  {
    Kraft(ls) > Pow2(MAXBITS)
  }

  // ---- position of a symbol in the tables ----

  lemma {:induction false} RankAt(ls: seq<nat>, s: nat)
    requires s < |ls|
    ensures Rank(ls, s) < Count(ls, ls[s]) && Nth(ls, ls[s], Rank(ls, s)) == s
  {
    var n := |ls| - 1;
    if s < n {
      RankAt(ls[..n], s);
      assert ls[..n][..s] == ls[..s];
    }
  }

  lemma {:induction false} SymbolAtOff(ls: seq<nat>, l: nat, m: nat, r: nat)
    requires 1 <= l <= m <= MAXBITS && r < Count(ls, m)
    ensures Off(Counts(ls), l) <= Off(Counts(ls), m) + r < Off(Counts(ls), MAXBITS + 1)
    ensures SymbolAt(ls, l, Off(Counts(ls), m) + r) == Nth(ls, m, r)
    decreases m - l
  {
    OffMono(Counts(ls), m, MAXBITS + 1);
    if l < m {
      SymbolAtOff(ls, l + 1, m, r);
    }
  }

  /** The symbol at place d of the l-bit codes has length l and code First + d. */
  lemma TableSymbol(ls: seq<nat>, l: nat, d: nat)
    requires CodeLengths(ls) && 1 <= l <= MAXBITS && d < Count(ls, l)
    ensures Off(Counts(ls), l) + d < |TreeOf(ls).symbols|
    ensures TreeOf(ls).symbols[Off(Counts(ls), l) + d] == Nth(ls, l, d)
    ensures SymbolBits(ls, Nth(ls, l, d)) == CodeBits(First(Counts(ls), l) + d, l)
  {
    SymbolAtOff(ls, 1, l, d);
  }

  // ---- the Kraft sum bounds every code ----

  function Weight(c: seq<nat>, l: nat): nat
    requires l < |c| && |c| == MAXBITS + 1
  {
    if l == 0 then 0 else Weight(c, l - 1) + c[l] * Pow2(MAXBITS - l)
  }

  lemma {:induction false} FirstWeight(c: seq<nat>, l: nat)
    requires |c| == MAXBITS + 1 && 1 <= l <= MAXBITS
    ensures (First(c, l) + c[l]) * Pow2(MAXBITS - l) == Weight(c, l)
  {
    var p := Pow2(MAXBITS - l);
    if l > 1 {
      FirstWeight(c, l - 1);
      assert Pow2(MAXBITS - (l - 1)) == 2 * p;
      var f := First(c, l - 1) + c[l - 1];
      assert f * (2 * p) == (2 * f) * p;
      assert (First(c, l) + c[l]) * p == First(c, l) * p + c[l] * p;
    } else {
      assert Weight(c, 0) == 0;
    }
  }

  lemma {:induction false} WeightMono(c: seq<nat>, l: nat, m: nat)
    requires |c| == MAXBITS + 1 && l <= m <= MAXBITS
    ensures Weight(c, l) <= Weight(c, m)
  {
    if l < m {
      WeightMono(c, l, m - 1);
      assert c[m] * Pow2(MAXBITS - m) >= 0;
    }
  }

  lemma Plus1(a: nat, p: nat)
    ensures (a + 1) * p == a * p + p
  {}

  /** Adding one symbol of length k adds its weight. */
  lemma {:induction false} WeightBump(c: seq<nat>, d: seq<nat>, k: nat, l: nat)
    requires |c| == |d| == MAXBITS + 1 && l <= MAXBITS
    requires forall i :: 1 <= i <= MAXBITS ==> d[i] == c[i] + (if i == k then 1 else 0)
    ensures Weight(d, l) == Weight(c, l) + (if 1 <= k <= l then Pow2(MAXBITS - k) else 0)
  {
    if l > 0 {
      WeightBump(c, d, k, l - 1);
      if l == k { Plus1(c[l], Pow2(MAXBITS - l)); }
    }
  }

  lemma {:induction false} WeightKraft(ls: seq<nat>)
    requires CodeLengths(ls)
    ensures Weight(Counts(ls), MAXBITS) == Kraft(ls)
  {
    if ls == [] {
      WeightZero(Counts(ls), MAXBITS);
    } else {
      var n := |ls| - 1;
      WeightKraft(ls[..n]);
      WeightBump(Counts(ls[..n]), Counts(ls), ls[n], MAXBITS);
    }
  }

  lemma {:induction false} WeightZero(c: seq<nat>, l: nat)
    requires |c| == MAXBITS + 1 && l <= MAXBITS
    requires forall i :: 1 <= i <= l ==> c[i] == 0
    ensures Weight(c, l) == 0
  {
    if l > 0 { WeightZero(c, l - 1); }
  }

  lemma {:induction false} Pow2Add(m: nat, n: nat)
    ensures Pow2(m + n) == Pow2(m) * Pow2(n)
  {
    if m > 0 { Pow2Add(m - 1, n); }
  }

  lemma MulStep(a: nat, b: nat, d: nat)
    requires a < b
    ensures a * d + d <= b * d
  {
    var k := b - a - 1;
    assert b == a + 1 + k;
    calc {
      b * d;
      (a + 1 + k) * d;
      a * d + d + k * d;
    }
  }

  lemma MulCancel(a: nat, b: nat, p: nat)
    requires p > 0 && a * p <= b * p
    ensures a <= b
  {
    if b < a { MulStep(b, a, p); }
  }

  lemma CodesFit(c: seq<nat>, l: nat)
    requires |c| == MAXBITS + 1 && Weight(c, MAXBITS) <= Pow2(MAXBITS) && 1 <= l <= MAXBITS
    ensures First(c, l) + c[l] <= Pow2(l)
  {
    var p := Pow2(MAXBITS - l);
    assert (First(c, l) + c[l]) * p <= Pow2(MAXBITS) by {
      FirstWeight(c, l);
      WeightMono(c, l, MAXBITS);
    }
    assert Pow2(MAXBITS) == Pow2(l) * p by { Pow2Add(l, MAXBITS - l); }
    MulCancel(First(c, l) + c[l], Pow2(l), p);
  }

  /** If some length is too full, the least such length has a code that does not fit. */
  lemma {:induction false} TooFull(c: seq<nat>, l: nat) returns (m: nat)
    requires l < |c| && 1 <= l && First(c, l) + c[l] > Pow2(l)
    ensures 1 <= m <= l && c[m] > 0 && First(c, m) + c[m] > Pow2(m)
  {
    if c[l] > 0 {
      m := l;
    } else {
      m := TooFull(c, l - 1);
    }
  }

  lemma CodeFits(ls: seq<nat>, s: nat)
    requires CodeLengths(ls) && !Oversubscribed(ls) && s < |ls| && ls[s] > 0
    ensures Code(ls, s) < Pow2(ls[s])
  {
    WeightKraft(ls);
    CodesFit(Counts(ls), ls[s]);
    RankAt(ls, s);
  }

  lemma CodeTooLong(ls: seq<nat>) returns (s: nat)
    requires CodeLengths(ls) && Oversubscribed(ls)
    ensures s < |ls| && ls[s] > 0 && Code(ls, s) >= Pow2(ls[s])
  {
    var c := Counts(ls);
    WeightKraft(ls);
    FirstWeight(c, MAXBITS);
    assert Pow2(0) == 1;
    var m := TooFull(c, MAXBITS);
    s := Nth(ls, m, c[m] - 1);
  }

  /** Every code fits in its own length exactly when the vector is not over-subscribed. */
  lemma CodesFitIff(ls: seq<nat>)
    requires CodeLengths(ls)
    ensures !Oversubscribed(ls) <==>
            forall s :: 0 <= s < |ls| && ls[s] > 0 ==> Code(ls, s) < Pow2(ls[s])
  {
    if Oversubscribed(ls) {
      var s := CodeTooLong(ls);
    } else {
      forall s | 0 <= s < |ls| && ls[s] > 0
        ensures Code(ls, s) < Pow2(ls[s])
      {
        CodeFits(ls, s);
      }
    }
  }

  // ---- decoding a canonical code ----

  /** A code of length L lies, cut to l bits, at or past the end of the l-bit codes. */
  lemma {:induction false} PrefixPastShorter(c: seq<nat>, l: nat, L: nat, v: nat)
    requires 1 <= l < L < |c| && First(c, L) <= v
    ensures Shr(v, L - l) >= First(c, l) + c[l]
    decreases L - l
  {
    if l + 1 < L { PrefixPastShorter(c, l + 1, L, v); }
  }

  /** The first n bits of a code are the code shifted right. */
  lemma {:induction false} ValueOfCode(bs: seq<bit>, pos: nat, v: nat, L: nat, n: nat)
    requires n <= L && pos + L <= |bs| && bs[pos..pos + L] == CodeBits(v, L) && v < Pow2(L)
    ensures Value(bs, pos, n) == Shr(v, L - n)
  {
    if n == 0 {
      ShrSmall(v, L);
    } else {
      ValueOfCode(bs, pos, v, L, n - 1);
      assert bs[pos + n - 1] == bs[pos..pos + L][n - 1];
      CodeBitsAt(v, L, n - 1);
    }
  }

  lemma {:induction false} BitsOfValue(bs: seq<bit>, pos: nat, n: nat)
    requires pos + n <= |bs|
    ensures bs[pos..pos + n] == CodeBits(Value(bs, pos, n), n)
  {
    if n > 0 {
      BitsOfValue(bs, pos, n - 1);
      assert bs[pos..pos + n] == bs[pos..pos + (n - 1)] + [bs[pos + n - 1]];
    }
  }

  lemma CodeHitsOnly(c: seq<nat>, bs: seq<bit>, pos: nat, v: nat, L: nat, n: nat)
    requires 1 <= n <= L < |c| && First(c, L) <= v < First(c, L) + c[L] && v < Pow2(L)
    requires pos + L <= |bs| && bs[pos..pos + L] == CodeBits(v, L)
    ensures Hits(c, bs, pos, n) <==> n == L
    ensures n == L ==> Value(bs, pos, n) == v
  {
    ValueOfCode(bs, pos, v, L, n);
    if n < L {
      PrefixPastShorter(c, n, L, v);
    }
  }

  lemma DecodeInTree(t: Tree, bs: seq<bit>, pos: nat, L: nat, d: nat)
    requires WellFormed(t) && 1 <= L <= MAXBITS && d < t.counts[L]
    requires First(t.counts, L) + d < Pow2(L)
    requires pos + L <= |bs| && bs[pos..pos + L] == CodeBits(First(t.counts, L) + d, L)
    ensures Off(t.counts, L) + d < |t.symbols|
    ensures Decode(t, bs, pos) == Got(t.symbols[Off(t.counts, L) + d], pos + L)
  {
    OffMono(t.counts, L, MAXBITS + 1);
    var n := Search(t.counts, bs, pos, 1);
    CodeHitsOnly(t.counts, bs, pos, First(t.counts, L) + d, L, L);
    if n < L {
      CodeHitsOnly(t.counts, bs, pos, First(t.counts, L) + d, L, n);
    }
  }

  /** The decoder inverts the canonical code, whatever bits follow. */
  lemma DecodeCanonical(ls: seq<nat>, bs: seq<bit>, pos: nat, s: nat)
    requires CodeLengths(ls) && !Oversubscribed(ls) && s < |ls| && ls[s] > 0
    requires pos + ls[s] <= |bs| && bs[pos..pos + ls[s]] == SymbolBits(ls, s)
    ensures Decode(TreeOf(ls), bs, pos) == Got(s, pos + ls[s])
  {
    CodeFits(ls, s);
    RankAt(ls, s);
    TableSymbol(ls, ls[s], Rank(ls, s));
    DecodeInTree(TreeOf(ls), bs, pos, ls[s], Rank(ls, s));
  }

  lemma DecodeHits(t: Tree, bs: seq<bit>, pos: nat) returns (L: nat, d: nat)
    requires WellFormed(t) && Decode(t, bs, pos).Got?
    ensures 1 <= L <= MAXBITS && d < t.counts[L] && Off(t.counts, L) + d < |t.symbols|
    ensures pos + L <= |bs| && bs[pos..pos + L] == CodeBits(First(t.counts, L) + d, L)
    ensures Decode(t, bs, pos) == Got(t.symbols[Off(t.counts, L) + d], pos + L)
  {
    L := Search(t.counts, bs, pos, 1);
    MissesBelow(t.counts, bs, pos, L);
    OffMono(t.counts, L, MAXBITS + 1);
    BitsOfValue(bs, pos, L);
    d := Value(bs, pos, L) - First(t.counts, L);
  }

  /** Whatever the vector, a decoded symbol's code is exactly the bits consumed. */
  lemma DecodeSound(ls: seq<nat>, bs: seq<bit>, pos: nat)
    requires CodeLengths(ls) && Decode(TreeOf(ls), bs, pos).Got?
    ensures var r := Decode(TreeOf(ls), bs, pos);
            r.val < |ls| && ls[r.val] > 0 && r.pos == pos + ls[r.val]
            && bs[pos..r.pos] == SymbolBits(ls, r.val)
  {
    var L, d := DecodeHits(TreeOf(ls), bs, pos);
    TableSymbol(ls, L, d);
  }

  // ---- building the tables ----

  lemma {:induction false} CountPrefix(ls: seq<nat>, k: nat, l: nat)
    requires k <= |ls|
    ensures Count(ls[..k], l) <= Count(ls, l)
  {
    var n := |ls| - 1;
    if k <= n {
      CountPrefix(ls[..n], k, l);
      assert ls[..n][..k] == ls[..k];
    } else {
      assert ls[..k] == ls;
    }
  }

  lemma CountSnoc(ls: seq<nat>, k: nat, l: nat)
    requires k < |ls|
    ensures Count(ls[..k + 1], l) == Count(ls[..k], l) + (if ls[k] == l then 1 else 0)
  {
    assert ls[..k + 1][..k] == ls[..k];
  }

  /** There are no more codes than symbols. */
  lemma {:induction false} SymbolsBound(ls: seq<nat>)
    ensures Off(Counts(ls), MAXBITS + 1) <= |ls|
  {
    if ls == [] {
      OffBump(Counts(ls), Counts(ls), 0, MAXBITS + 1);
      OffZero(Counts(ls), MAXBITS + 1);
    } else {
      var n := |ls| - 1;
      SymbolsBound(ls[..n]);
      OffBump(Counts(ls[..n]), Counts(ls), ls[n], MAXBITS + 1);
    }
  }

  lemma {:induction false} OffZero(c: seq<nat>, l: nat)
    requires l <= |c| && forall i :: 1 <= i < l ==> c[i] == 0
    ensures Off(c, l) == 0
  {
    if l > 1 { OffZero(c, l - 1); }
  }

  lemma {:induction false} OffBump(c: seq<nat>, d: seq<nat>, k: nat, l: nat)
    requires |c| == |d| && l <= |c|
    requires forall i :: 1 <= i < l ==> d[i] == c[i] + (if i == k && k > 0 then 1 else 0)
    ensures Off(d, l) <= Off(c, l) + 1
    ensures l <= k || k == 0 ==> Off(d, l) == Off(c, l)
  {
    if l > 1 { OffBump(c, d, k, l - 1); }
  }

  /** Where symbol s goes in the symbol table. */
  function Place(ls: seq<nat>, s: nat): nat
    requires CodeLengths(ls) && s < |ls|
  {
    Off(Counts(ls), ls[s]) + Rank(ls, s)
  }

  lemma PlaceBound(ls: seq<nat>, s: nat)
    requires CodeLengths(ls) && s < |ls| && ls[s] > 0
    ensures Place(ls, s) < Off(Counts(ls), ls[s]) + Count(ls, ls[s]) <= Off(Counts(ls), MAXBITS + 1) <= |ls|
  {
    RankAt(ls, s);
    OffMono(Counts(ls), ls[s], MAXBITS + 1);
    SymbolsBound(ls);
  }

  /** No two symbols share a place. */
  lemma PlacesDiffer(ls: seq<nat>, i: nat, k: nat)
    requires CodeLengths(ls) && i < k < |ls| && ls[i] > 0 && ls[k] > 0
    ensures Place(ls, i) != Place(ls, k)
  {
    var c := Counts(ls);
    PlaceBound(ls, i);
    PlaceBound(ls, k);
    if ls[i] == ls[k] {
      CountSnoc(ls[..k], i, ls[i]);
      CountPrefix(ls[..k], i + 1, ls[i]);
      assert ls[..k][..i + 1] == ls[..i + 1] && ls[..k][..i] == ls[..i];
    } else if ls[i] < ls[k] {
      OffMono(c, ls[i], ls[k]);
    } else {
      OffMono(c, ls[k], ls[i]);
    }
  }

  /** Every place of the table is the place of the symbol it holds. */
  lemma {:induction false} SymbolPlace(ls: seq<nat>, l: nat, j: nat)
    requires CodeLengths(ls) && 1 <= l <= MAXBITS
    requires Off(Counts(ls), l) <= j < Off(Counts(ls), MAXBITS + 1)
    ensures var s := SymbolAt(ls, l, j); s < |ls| && ls[s] > 0 && Place(ls, s) == j
    decreases MAXBITS - l
  {
    if j - Off(Counts(ls), l) >= Count(ls, l) {
      SymbolPlace(ls, l + 1, j);
    }
  }
}
