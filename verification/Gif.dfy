/**
  The LZW half of decode_gif in mximg.c: sub-blocks, the bit accumulator, and
  the decoder loop with its prefix, suffix and stack arrays.
 */
module Gif {
  import opened Bits
  import opened Lzw

  // ---- sub-blocks ----

  /** The data bytes from dp on, dsub of them left in the current sub-block. */
  function Left(src: seq<byte>, dp: nat, dsub: nat): (r: seq<byte>)
    decreases |src| - dp
  {
    if dp >= |src| then []
    else if dsub > 0 then [src[dp]] + Left(src, dp + 1, dsub - 1)
    else if src[dp] == 0 then []
    else Left(src, dp + 1, src[dp])
  }

  class Reader {
    const src: seq<byte>
    ghost const data: seq<byte>
    ghost const bs: seq<bit>
    var dp: nat
    var dsub: nat
    var acc: nat
    var nb: nat
    ghost var taken: nat

    /** The accumulator holds the nb bits before the next byte of data. */
    ghost predicate Valid()
      reads this
    {
      && bs == Stream(data) && taken <= |data| && data[taken..] == Left(src, dp, dsub)
      && nb < 20 && nb <= 8 * taken && acc == ValAt(bs, 8 * taken - nb, nb)
    }

    /** How many bits of the data have been used. */
    ghost function Cursor(): (r: int)
      reads this
    {
      8 * taken - nb
    }

    constructor (src: seq<byte>)
      ensures Valid() && Cursor() == 0 && this.src == src && data == Left(src, 0, 0) && nb == 0
    {
      this.src, data, bs := src, Left(src, 0, 0), Stream(Left(src, 0, 0));
      dp, dsub, acc, nb, taken := 0, 0, 0, 0, 0;
    }

    /** gbyte: the next data byte, or -1 at the end, after which nothing is read again. */
    method GetByte() returns (b: int)
      requires Valid()
      modifies this`dp, this`dsub, this`taken
      ensures b < 0 ==> old(taken) == taken == |data|
      ensures b >= 0 ==> taken == old(taken) + 1 <= |data| && b == data[old(taken)]
      ensures b >= 0 ==> data[taken..] == Left(src, dp, dsub)
    {
      ghost var rest := data[taken..];
      if dsub == 0 {
        if dp >= |src| { return -1; }
        dsub := src[dp];
        dp := dp + 1;
        if dsub == 0 { return -1; }
      }
      assert rest == Left(src, dp, dsub);
      if dp >= |src| { return -1; }
      assert rest == [src[dp]] + Left(src, dp + 1, dsub - 1);
      dsub := dsub - 1;
      b := src[dp];
      dp := dp + 1;
      taken := taken + 1;
      assert data[taken..] == rest[1..];
    }

    /** One byte more into the accumulator. */
    method Pull() returns (more: bool)
      requires Valid() && nb < 12
      modifies this`dp, this`dsub, this`taken, this`acc, this`nb
      ensures !more ==> old(taken) == |data| && nb == old(nb)
      ensures more ==> Valid() && Cursor() == old(Cursor()) && nb == old(nb) + 8
    {
      ghost var lo, k := Cursor(), taken;
      var b := GetByte();
      if b < 0 { return false; }
      StreamByteVal(data, k);
      Refill(bs, lo, nb, b);
      acc := Or(acc, U32(Shl(b, nb)));
      nb := nb + 8;
      return true;
    }

    /** gcode: the next code of w bits, or -1 when the data runs out. */
    method GetCode(w: nat) returns (c: int)
      requires Valid() && w <= 12
      modifies this`dp, this`dsub, this`taken, this`acc, this`nb
      ensures c < 0 ==> old(Cursor()) + w > |bs|
      ensures c >= 0 ==> Valid() && old(Cursor()) + w <= |bs| && c == ValAt(bs, old(Cursor()), w)
      ensures c >= 0 ==> Cursor() == old(Cursor()) + w
    {
      ghost var lo := Cursor();
      while nb < w
        invariant Valid() && Cursor() == lo
        decreases 20 - nb
      {
        var more := Pull();
        if !more { return -1; }
      }
      LowValAt(bs, lo, nb, w);
      ShrValAt(bs, lo, nb, w);
      c := Low(acc, w);
      acc := Shr(acc, w);
      nb := nb - w;
    }
  }

  // ---- the string stack ----

  function Rev(s: seq<byte>): (r: seq<byte>)
    ensures |r| == |s|
  {
    if s == [] then [] else [s[|s| - 1]] + Rev(s[..|s| - 1])
  }

  lemma RevPush(s: seq<byte>, b: byte)
    ensures Rev(s + [b]) == [b] + Rev(s)
  {
    assert (s + [b])[..|s|] == s;
  }

  /** The prefix and suffix arrays hold the table. */
  ghost predicate Holds(pfx: array<nat>, sfx: array<byte>, K: nat, T: Table)
    reads pfx, sfx
  {
    && pfx.Length == sfx.Length == 4096 && |T.P| == |T.S| && Avail(K, T) <= 4096
    && forall c :: K + 2 <= c < Avail(K, T) ==> pfx[c] == T.P[c - K - 2] && sfx[c] == T.S[c - K - 2]
  }

  lemma UnwindStep(K: nat, T: Table, c: nat, was: seq<byte>)
    requires TableOk(K, T) && Known(K, T, c) && K <= c
    ensures var p, b := T.P[c - K - 2], T.S[c - K - 2];
            && Known(K, T, p) && Str(K, T, p) + Rev(was + [b]) == Str(K, T, c) + Rev(was)
            && Str(K, T, p)[0] == Str(K, T, c)[0] && |Str(K, T, p)| + 1 == |Str(K, T, c)|
  {
    RevPush(was, T.S[c - K - 2]);
  }

  /** The chain walk: c's string goes on the stack, last index first, above what is there. */
  method Unwind(pfx: array<nat>, sfx: array<byte>, stk: array<byte>, sp0: nat, c0: nat, K: nat, ghost T: Table)
    returns (sp: nat, first: byte)
    requires TableOk(K, T) && Known(K, T, c0) && Holds(pfx, sfx, K, T) && stk.Length == 4096 && sp0 <= 1 && 2 <= K
    requires stk != sfx
    modifies stk
    ensures first == Str(K, T, c0)[0] && sp <= 4096
    ensures Rev(stk[..sp]) == Str(K, T, c0) + Rev(old(stk[..sp0]))
  {
    StrLength(K, T, c0);
    ghost var base := Rev(stk[..sp0]);
    ghost var whole := Str(K, T, c0);
    var c: nat := c0;
    sp := sp0;
    while c >= K
      invariant Known(K, T, c) && sp + |Str(K, T, c)| == sp0 + |whole|
      invariant Str(K, T, c) + Rev(stk[..sp]) == whole + base && Str(K, T, c)[0] == whole[0]
      decreases c
    {
      UnwindStep(K, T, c, stk[..sp]);
      ghost var was := stk[..sp];
      stk[sp] := sfx[c];
      sp := sp + 1;
      assert stk[..sp] == was + [sfx[c]];
      c := pfx[c];
    }
    first := c;
    RevPush(stk[..sp], c);
    ghost var was := stk[..sp];
    stk[sp] := c;
    sp := sp + 1;
    assert stk[..sp] == was + [c];
  }

  /** Popping the stack emits it in reverse. */
  method Emit(stk: array<byte>, sp0: nat, out: seq<byte>) returns (r: seq<byte>)
    requires sp0 <= stk.Length
    ensures r == out + Rev(stk[..sp0])
  {
    r := out;
    var sp: nat := sp0;
    while sp > 0
      invariant sp <= sp0 && r + Rev(stk[..sp]) == out + Rev(stk[..sp0])
    {
      assert stk[..sp][..sp - 1] == stk[..sp - 1];
      assert (r + [stk[sp - 1]]) + Rev(stk[..sp - 1]) == r + ([stk[sp - 1]] + Rev(stk[..sp - 1]));
      sp := sp - 1;
      r := r + [stk[sp]];
    }
  }

  // ---- the decoder loop ----

  /** The variables of decode_gif's loop. */
  class Decoder {
    const K: nat
    const m: nat
    const pfx: array<nat>
    const sfx: array<byte>
    const stk: array<byte>
    var csz: nat
    var avail: nat
    var prev: int
    var first: byte
    ghost var d: State

    ghost predicate Valid()
      reads this, pfx, sfx
    {
      && 1 <= m <= 8 && 2 <= K <= 256 && stk.Length == 4096 && stk != sfx
      && StateOk(K, m, d) && Holds(pfx, sfx, K, d.T) && csz == d.csz && avail == Avail(K, d.T)
      && prev == (if d.prev.Some? then d.prev.value else -1) && first == d.first
    }

    constructor (m: nat)
      requires 1 <= m <= 8
      ensures Valid() && d == Start(m) && K == Pow2(m) && this.m == m && fresh(pfx) && fresh(sfx) && fresh(stk)
    {
      Pow2Mono(1, m);
      Pow2Mono(m, 8);
      assert Pow2(1) == 2 && Pow2(8) == 256;
      this.m, K := m, Pow2(m);
      pfx, sfx, stk := new nat[4096], new byte[4096], new byte[4096];
      csz, avail, prev, first, d := m + 1, Pow2(m) + 2, -1, 0, Start(m);
    }

    /** A clear code. */
    method Clear()
      requires Valid()
      modifies this
      ensures Valid() && TurnFor(K, m, old(d), K) == Go(d, [])
    {
      csz, avail, prev, d := m + 1, K + 2, -1, State(m + 1, Empty, None, d.first);
    }

    /** The string of any other code, on the stack; None for a code no encoder sends. */
    method Look(code: nat) returns (sp: Option<nat>)
      requires Valid() && code < 4096 && code != K && code != K + 1
      modifies this`first, stk
      ensures sp.None? <==> StringFor(K, d, code).None?
      ensures sp.Some? ==> sp.value <= 4096 && StringFor(K, d, code).Some?
      ensures sp.Some? ==> Rev(stk[..sp.value]) == StringFor(K, d, code).value
      ensures sp.Some? ==> first == StringFor(K, d, code).value[0]
    {
      if prev < 0 {
        if code >= K { return None; }
        stk[0] := code;
        first := code;
        assert stk[..1] == [stk[0]] && [stk[0]][..0] == [];
        return Some(1);
      }
      var n, f := 0, first;
      if code < avail {
        assert stk[..0] == [];
        n, f := Unwind(pfx, sfx, stk, 0, code, K, d.T);
        assert Str(K, d.T, code) + [] == Str(K, d.T, code);
      } else if code == avail {
        stk[0] := first;
        assert stk[..1] == [first] && [first][..0] == [];
        n, f := Unwind(pfx, sfx, stk, 1, prev, K, d.T);
      } else {
        return None;
      }
      first := f;
      return Some(n);
    }

    /** The new table entry and code size after a code whose string starts with first. */
    method Record(code: nat, ghost s: seq<byte>)
      requires code < 4096 && code != K && code != K + 1 && s != [] && first == s[0] && d.first <= 255
      requires 1 <= m <= 8 && 2 <= K <= 256 && stk.Length == 4096 && stk != sfx
      requires StateOk(K, m, d) && Holds(pfx, sfx, K, d.T) && csz == d.csz && avail == Avail(K, d.T)
      requires prev == (if d.prev.Some? then d.prev.value else -1) && StringFor(K, d, code) == Some(s)
      modifies this, pfx, sfx
      ensures Valid() && TurnFor(K, m, old(d), code) == Go(d, s)
    {
      TurnOk(K, m, d, code);
      if prev >= 0 && avail < 4096 {
        pfx[avail] := prev;
        sfx[avail] := first;
        avail := avail + 1;
        if avail == Pow2(csz) && csz < 12 { csz := csz + 1; }
      }
      prev := code;
      d := After(K, d, code, s);
    }

    /** One turn of the loop: go on with more output, stop, or stop at a malformed code. */
    method Process(code: nat, out: seq<byte>) returns (out': seq<byte>, ghost r: Turn, on: bool, ok: bool)
      requires Valid() && code < 4096
      modifies this, pfx, sfx, stk
      ensures r == TurnFor(K, m, old(d), code) && on == r.Go? && ok == !r.Malformed?
      ensures on ==> Valid() && d == r.d && out' == out + r.s
      ensures !on ==> out' == out
    {
      r := TurnFor(K, m, d, code);
      out', on, ok := out, false, true;
      if code == K + 1 { return; }
      if code == K {
        Clear();
        on := true;
        return;
      }
      var sp := Look(code);
      if sp.None? {
        ok := false;
        return;
      }
      out' := Emit(stk, sp.value, out);
      Record(code, StringFor(K, d, code).value);
      on := true;
    }
  }

  /** What has been emitted and what is still to come. */
  function Joined(out: seq<byte>, rest: Output): Output { Output(out + rest.s, rest.ok) }

  /** The decoding of a bit string as a function of state and position. */
  type Runner = (State, nat) -> Output

  predicate Ask(d: State, pos: nat) { true }

  ghost function From(K: nat, m: nat, bs: seq<bit>, d: State, pos: nat): Output
    requires m <= 11
  {
    if StateOk(K, m, d) then DecodeBits(K, m, d, bs, pos) else Output([], false)
  }

  /** run decodes bs one code at a time. */
  ghost predicate Follows(run: Runner, K: nat, m: nat, bs: seq<bit>) {
    forall d, pos: nat {:trigger Ask(d, pos)} :: Ask(d, pos) && StateOk(K, m, d) ==> OneCode(run, K, m, bs, d, pos)
  }

  ghost predicate OneCode(run: Runner, K: nat, m: nat, bs: seq<bit>, d: State, pos: nat)
    requires StateOk(K, m, d)
  {
    if pos + d.csz > |bs| then run(d, pos) == Output([], true)
    else RunsAs(run, d, pos, TurnFor(K, m, d, ValAt(bs, pos, d.csz)))
  }

  ghost predicate RunsAs(run: Runner, d: State, pos: nat, r: Turn) {
    if r.Go? then run(d, pos) == Output(r.s + run(r.d, pos + d.csz).s, run(r.d, pos + d.csz).ok)
    else run(d, pos) == Output([], !r.Malformed?)
  }

  ghost function RunnerOf(K: nat, m: nat, bs: seq<bit>): Runner
    requires m <= 11
  {
    (d: State, pos: nat) => From(K, m, bs, d, pos)
  }

  lemma BitsFollow(K: nat, m: nat, bs: seq<bit>)
    requires m <= 11
    ensures Follows(RunnerOf(K, m, bs), K, m, bs)
  {
    var run := RunnerOf(K, m, bs);
    forall d, pos: nat {:trigger Ask(d, pos)} | StateOk(K, m, d) ensures OneCode(run, K, m, bs, d, pos) {
      if pos + d.csz <= |bs| {
        BitsTurn(K, m, d, bs, pos, ValAt(bs, pos, d.csz), TurnFor(K, m, d, ValAt(bs, pos, d.csz)));
      }
    }
  }

  lemma JoinedOnce(out: seq<byte>, s: seq<byte>, x: Output, y: Output)
    requires x == Output(s + y.s, y.ok)
    ensures Joined(out, x) == Joined(out + s, y)
  {
    assert out + (s + y.s) == (out + s) + y.s;
  }

  lemma RunTurn(run: Runner, K: nat, m: nat, d: State, bs: seq<bit>, pos: nat)
    requires Follows(run, K, m, bs) && StateOk(K, m, d) && pos + d.csz <= |bs|
    ensures RunsAs(run, d, pos, TurnFor(K, m, d, ValAt(bs, pos, d.csz)))
  {
    assert Ask(d, pos);
    assert OneCode(run, K, m, bs, d, pos);
  }

  lemma JoinedRun(run: Runner, d: State, pos: nat, r: Turn, out: seq<byte>)
    requires RunsAs(run, d, pos, r)
    ensures Joined(out, run(d, pos))
            == if r.Go? then Joined(out + r.s, run(r.d, pos + d.csz)) else Output(out, !r.Malformed?)
  {
    if r.Go? { JoinedOnce(out, r.s, run(d, pos), run(r.d, pos + d.csz)); }
  }

  lemma OutOfBits(run: Runner, K: nat, m: nat, d: State, bs: seq<bit>, pos: nat, out: seq<byte>)
    requires Follows(run, K, m, bs) && StateOk(K, m, d) && pos + d.csz > |bs|
    ensures Joined(out, run(d, pos)) == Output(out, true)
  {
    assert Ask(d, pos);
  }

  method DecodeLoop(z: Decoder, r: Reader, ghost run: Runner) returns (out: seq<byte>, ok: bool)
    requires z.Valid() && r.Valid() && r.Cursor() == 0 && Follows(run, z.K, z.m, r.bs)
    modifies z, z.pfx, z.sfx, z.stk, r
    ensures Output(out, ok) == run(old(z.d), 0)
  {
    hide TurnFor, RunsAs, Follows, ValAt, Str, TableOk;
    ghost var K, m, bs, goal := z.K, z.m, r.bs, run(z.d, 0);
    out, ok := [], true;
    assert Joined([], goal) == goal;
    var on := true;
    while on
      invariant on ==> ok && z.Valid() && r.Valid() && 0 <= r.Cursor() <= |bs|
      invariant on ==> goal == Joined(out, run(z.d, r.Cursor()))
      invariant !on ==> goal == Output(out, ok)
      decreases on, |bs| - r.Cursor()
    {
      ghost var d, pos, out0 := z.d, r.Cursor(), out;
      var code := r.GetCode(z.csz);
      if code < 0 {
        OutOfBits(run, K, m, d, bs, pos, out);
        return;
      }
      CodeFits(bs, pos, d.csz);
      ghost var t;
      out, t, on, ok := z.Process(code, out);
      RunTurn(run, K, m, d, bs, pos);
      JoinedRun(run, d, pos, t, out0);
    }
  }

  /** The decoder loop on the sub-blocks of src: every index it emits, and whether the stream was well formed. */
  method Decode(src: seq<byte>, m: nat) returns (out: seq<byte>, ok: bool)
    requires 1 <= m <= 8
    ensures StateOk(Pow2(m), m, Start(m))
    ensures Output(out, ok) == DecodeBits(Pow2(m), m, Start(m), Stream(Left(src, 0, 0)), 0)
  {
    var z := new Decoder(m);
    var r := new Reader(src);
    BitsFollow(z.K, m, r.bs);
    out, ok := DecodeLoop(z, r, RunnerOf(z.K, m, r.bs));
  }
}
