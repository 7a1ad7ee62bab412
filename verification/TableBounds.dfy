/** When a dynamic header overruns the decoder's table of 318 code lengths. */
module TableBounds {
  import opened Bits
  import opened Slices
  import opened Huffman
  import opened InflateSpec
  import opened Deflate
  import opened Encoder

  /** A code for the single code-length symbol 18. */
  function Only18(): (cl: seq<nat>)
    ensures |cl| == 19 && CodeLengths(cl) && cl[18] == 1 && forall k :: 0 <= k < 18 ==> cl[k] == 0
  {
    Repeat(0, 18) + [1]
  }

  lemma {:induction false} NoKraft(cl: seq<nat>, n: nat)
    requires n <= |cl| && CodeLengths(cl) && forall k :: 0 <= k < n ==> cl[k] == 0
    ensures Kraft(cl[..n]) == 0
  {
    if n > 0 {
      NoKraft(cl, n - 1);
      assert cl[..n][..n - 1] == cl[..n - 1];
    }
  }

  lemma Only18Good()
    ensures GoodCode(Only18())
  {
    var cl := Only18();
    NoKraft(cl, 18);
    assert Pow2(14) == 16384 && Pow2(15) == 32768;
  }

  /** total zeros in three runs. */
  function ZeroRuns(total: nat): seq<Run>
    requires total >= 276
  {
    [ManyZeros(138), ManyZeros(138), ManyZeros(total - 276)]
  }

  lemma ZeroRunsSpell(cb: Book, total: nat)
    requires 287 <= total <= 414 && HasCode(cb, 18)
    ensures Spells(cb, ZeroRuns(total), [], Repeat(0, total))
  {
    var rs, ls := ZeroRuns(total), Repeat(0, total);
    var a1, a2 := [] + Repeat(0, 138), ([] + Repeat(0, 138)) + Repeat(0, 138);
    assert rs[1..][1..][1..] == [];
    assert a2 + Repeat(0, total - 276) == ls;
    assert Spells(cb, rs[1..][1..][1..], a2 + Repeat(0, total - 276), ls);
    assert rs[1..][1..][0] == ManyZeros(total - 276);
    assert Spells(cb, rs[1..][1..], a2, ls);
    assert rs[1..][0] == ManyZeros(138);
    assert Spells(cb, rs[1..], a1, ls);
  }

  /** Where the runs of any lengths stand, all the lengths are stored. */
  lemma RunsStored(cl: seq<nat>, cb: Book, runs: seq<Run>, ls: seq<nat>, bs: seq<bit>, pos: nat)
    requires CodeFor(cl, cb) && Spells(cb, runs, [], ls) && Stands(bs, pos, RunsBits(cb, runs, [], ls))
    ensures Reached(CodeDecoder(cl), bs, pos, [], |ls|) == |ls|
  {
    hide Stands, Spells, Spelt, RunsBits, ReadLengths, Reached;
    var end := pos + |RunsBits(cb, runs, [], ls)|;
    assert Spelt(cb, runs, [], ls, bs, pos, end) by { RunsOut(cb, runs, [], ls, bs, pos); }
    LengthsBack(CodeDecoder(cl), cb, runs, bs, pos, end, [], ls);
    ReachedIff(CodeDecoder(cl), bs, pos, [], |ls|);
  }

  lemma Only18Reads()
    ensures CodeFor(Only18(), BookOf(Only18())) && HasCode(BookOf(Only18()), 18)
  {
    Only18Good();
    CanonicalReads(Only18());
    assert |BookOf(Only18())[18]| == Only18()[18];
  }

  /** Of the totals a header can announce, those up to 318 keep every store inside the table, whatever the bits. */
  lemma TableIff(total: nat)
    requires 258 <= total <= 320
    ensures (forall cl: seq<nat>, bs: seq<bit>, pos: nat :: Reached(CodeDecoder(cl), bs, pos, [], total) <= MAXLENGTHS)
            <==> total <= MAXLENGTHS
  {
    if total > MAXLENGTHS {
      var cl := Only18();
      var cb, runs, ls := BookOf(cl), ZeroRuns(total), Repeat(0, total);
      Only18Reads();
      ZeroRunsSpell(cb, total);
      var bs := RunsBits(cb, runs, [], ls);
      RunsStored(cl, cb, runs, ls, bs, 0);
      assert Reached(CodeDecoder(Only18()), bs, 0, [], total) > MAXLENGTHS;
    }
  }

  /** A dynamic header: its sizes, its code-length code and its runs. */
  ghost function Announcement(T: Tables, a: nat, b: nat, cl: seq<nat>, n: nat, runs: seq<bit>): seq<bit>
    requires TablesOk(T) && 257 <= a && 1 <= b && 4 <= n <= 19 == |cl|
  {
    SizesBits(a, b, n) + (ClensBits(T, cl, 0, n) + runs)
  }

  lemma Announces(T: Tables, inv: seq<nat>, a: nat, b: nat, cl: seq<nat>, n: nat, runs: seq<bit>, bs: seq<bit>,
                  pos: nat)
    requires Inverse(T, inv) && ClensOk(inv, cl, n) && 257 <= a <= 288 && 1 <= b <= 32
    requires Stands(bs, pos, Announcement(T, a, b, cl, n, runs))
    ensures ReadPrelude(T, bs, pos) == Got((a, b, cl), pos + 14 + 3 * n) && Stands(bs, pos + 14 + 3 * n, runs)
  {
    StandsParts3(bs, pos, SizesBits(a, b, n), ClensBits(T, cl, 0, n), runs);
    assert ReadHeader(bs, pos) == Got((a, b, n), pos + 14) by {
      SizesOut(a, b, n, bs, pos);
      SizesBack(a, b, n, bs, pos);
    }
    PreludeBack(T, inv, a, b, cl, n, bs, pos);
  }

  lemma Overran(T: Tables, bs: seq<bit>, pos: nat, a: nat, b: nat, cl: seq<nat>, p: nat, cap: nat)
    requires TablesOk(T) && ReadPrelude(T, bs, pos) == Got((a, b, cl), p)
    requires Reached(CodeDecoder(cl), bs, p, [], a + b) > MAXLENGTHS
    ensures Dynamic(T, bs, pos, [], cap) == Overrun
  {
    TablesStep(T, bs, pos, a, b, cl, p);
  }

  /** Any header that announces more than 318 lengths and sends them all overruns the table. */
  lemma HeaderOverruns(T: Tables, inv: seq<nat>, a: nat, b: nat, cl: seq<nat>, cb: Book, n: nat, runs: seq<Run>,
                       ls: seq<nat>, bs: seq<bit>, pos: nat, cap: nat)
    requires Inverse(T, inv) && ClensOk(inv, cl, n) && 257 <= a <= 288 && 1 <= b <= 32 && |ls| == a + b > MAXLENGTHS
    requires CodeFor(cl, cb) && Spells(cb, runs, [], ls)
    requires Stands(bs, pos, Announcement(T, a, b, cl, n, RunsBits(cb, runs, [], ls)))
    ensures Dynamic(T, bs, pos, [], cap) == Overrun
  {
    hide Stands, Spells, RunsBits, Announcement, ReadPrelude, Dynamic, CodeFor;
    Announces(T, inv, a, b, cl, n, RunsBits(cb, runs, [], ls), bs, pos);
    RunsStored(cl, cb, runs, ls, bs, pos + 14 + 3 * n);
    Overran(T, bs, pos, a, b, cl, pos + 14 + 3 * n, cap);
  }

  /** The bits of a dynamic header that announces 288 and 32 code lengths and sends 320. */
  lemma OverrunBits(T: Tables, inv: seq<nat>) returns (e: seq<bit>)
    requires Inverse(T, inv) && inv[18] < 4
    ensures forall bs: seq<bit>, pos: nat, cap: nat :: Stands(bs, pos, e) ==> Dynamic(T, bs, pos, [], cap) == Overrun
  {
    var cl := Only18();
    var cb, runs, ls := BookOf(cl), ZeroRuns(320), Repeat(0, 320);
    Only18Reads();
    ZeroRunsSpell(cb, 320);
    e := Announcement(T, 288, 32, cl, 4, RunsBits(cb, runs, [], ls));
    forall bs: seq<bit>, pos: nat, cap: nat | Stands(bs, pos, e)
      ensures Dynamic(T, bs, pos, [], cap) == Overrun
    {
      HeaderOverruns(T, inv, 288, 32, cl, cb, 4, runs, ls, bs, pos, cap);
    }
  }

  lemma LastBlockOverruns(T: Tables, input: seq<byte>, bs: seq<bit>, cap: nat)
    requires TablesOk(T) && bs == Stream(input) && |bs| >= 3 && bs[0] == 1 && Stands(bs, 1, NatBits(2, 2))
    requires Dynamic(T, bs, 3, [], cap) == Overrun
    ensures Inflate(T, input, bs, 0, [], cap) == Overrun
  {
    MarksBack(bs, 0, 1, 2);
    InflateStep(T, input, bs, 0, [], cap, 1, 2);
  }

  /** A last block of the dynamic kind that starts with e, in whole bytes. */
  lemma DynamicBytes(e: seq<bit>) returns (bs: seq<bit>)
    ensures |bs| % 8 == 0 && |bs| >= 3 && bs[0] == 1 && Stands(bs, 1, NatBits(2, 2)) && Stands(bs, 3, e)
  {
    var x := [1] + NatBits(2, 2) + e;
    bs := x + NatBits(0, PadTo8(|x|));
    assert bs[1..3] == NatBits(2, 2) && bs[3..3 + |e|] == e;
  }

  /** Bytes on which inflate stores past its table, whatever room the output has. */
  lemma OverrunInput() returns (input: seq<byte>)
    ensures TablesOk(Rfc1951())
    ensures forall cap: nat :: Inflate(Rfc1951(), input, Stream(input), 0, [], cap) == Overrun
  {
    hide Stands, Dynamic, Inflate, Rfc1951, TablesOk, Pack, Stream, NatBits, FixedBooks;
    StandardOk();
    var e := OverrunBits(Rfc1951(), Inv());
    var bs := DynamicBytes(e);
    input := Pack(bs);
    StreamPack(bs);
    forall cap: nat
      ensures Inflate(Rfc1951(), input, Stream(input), 0, [], cap) == Overrun
    {
      LastBlockOverruns(Rfc1951(), input, bs, cap);
    }
  }
}
