/** The LZW encoder of the GIF89a specification, and the proof that the decoder inverts it. */
module LzwEncoder {
  import opened Bits
  import opened Lzw

  // ---- greedy parsing ----

  /** The entry for the string of p followed by b, if there is one from j on. */
  function Find(T: Table, p: nat, b: byte, j: nat): (r: Option<nat>)
    requires |T.P| == |T.S|
    ensures r.Some? ==> r.value < |T.P| && T.P[r.value] == p && T.S[r.value] == b
    decreases |T.P| - j
  {
    if j >= |T.P| then None
    else if T.P[j] == p && T.S[j] == b then Some(j)
    else Find(T, p, b, j + 1)
  }

  /** The table with an entry for p followed by b, while there is room. */
  function Learn(K: nat, T: Table, p: nat, b: byte): Table {
    if Avail(K, T) < 4096 then Add(T, p, b) else T
  }

  /** Palette indices fit below the clear code. */
  predicate Indices(K: nat, data: seq<byte>) { forall i :: 0 <= i < |data| ==> data[i] < K }

  /** The codes for the string of w and then data from i on; the table may be cleared at any of the given places. */
  ghost function Codes(K: nat, T: Table, w: nat, data: seq<byte>, i: nat, clears: set<nat>): (r: seq<nat>)
    requires TableOk(K, T) && Known(K, T, w) && i <= |data| && Indices(K, data)
    decreases |data| - i
  {
    if i == |data| then [w, K + 1]
    else
      var f := Find(T, w, data[i], 0);
      if f.Some? then Codes(K, T, K + 2 + f.value, data, i + 1, clears)
      else if i in clears then [w, K] + Codes(K, Empty, data[i], data, i + 1, clears)
      else [w] + Codes(K, Learn(K, T, w, data[i]), data[i], data, i + 1, clears)
  }

  ghost function Encode(K: nat, data: seq<byte>, clears: set<nat>): (r: seq<nat>)
    requires 2 <= K <= 256 && Indices(K, data)
  {
    [K] + if data == [] then [K + 1] else Codes(K, Empty, data[0], data, 1, clears)
  }

  // ---- the decoder follows one entry behind ----

  /** The encoder's table is the decoder's and the entry the decoder is about to make. */
  ghost predicate Behind(K: nat, m: nat, T: Table, w: nat, d: State) {
    && TableOk(K, T) && Known(K, T, w) && StateOk(K, m, d)
    && if d.prev.None? then T == d.T == Empty
       else if Avail(K, d.T) == 4096 then T == d.T
       else T == Add(d.T, d.prev.value, Str(K, T, w)[0])
  }

  /** The decoder reads an emitted code as the encoder meant it, and catches up. */
  lemma EmitBack(K: nat, m: nat, T: Table, w: nat, d: State)
    requires Behind(K, m, T, w, d)
    ensures w < 4096 && TurnFor(K, m, d, w).Go?
    ensures var r := TurnFor(K, m, d, w); r.s == Str(K, T, w) && r.d.T == T && r.d.prev == Some(w)
  {
    if d.prev.Some? && Avail(K, d.T) < 4096 {
      var p, k := d.prev.value, Str(K, T, w)[0];
      if Known(K, d.T, w) {
        StrAdd(K, d.T, p, k, w);
      } else {
        StrAdd(K, d.T, p, k, p);
        assert w == Avail(K, d.T) && T.P[w - K - 2] == p && T.S[w - K - 2] == k;
        assert Str(K, T, w) == Str(K, d.T, p) + [k];
      }
    }
  }

  lemma NextBehind(K: nat, m: nat, T: Table, w: nat, d: State, k: byte)
    requires TableOk(K, T) && StateOk(K, m, d) && d.T == T && d.prev == Some(w) && k < K
    ensures Behind(K, m, Learn(K, T, w, k), k, d)
  {}

  lemma {:induction false} CodesSmall(K: nat, T: Table, w: nat, data: seq<byte>, i: nat, clears: set<nat>)
    requires TableOk(K, T) && Known(K, T, w) && i <= |data| && Indices(K, data)
    ensures var cs := Codes(K, T, w, data, i, clears);
            |cs| >= 2 && cs[|cs| - 1] == K + 1 && Small(cs)
    decreases |data| - i
  {
    if i < |data| {
      var f := Find(T, w, data[i], 0);
      if f.Some? {
        CodesSmall(K, T, K + 2 + f.value, data, i + 1, clears);
      } else if i in clears {
        CodesSmall(K, Empty, data[i], data, i + 1, clears);
      } else {
        CodesSmall(K, Learn(K, T, w, data[i]), data[i], data, i + 1, clears);
      }
    }
  }

  lemma EmitThen(K: nat, m: nat, T: Table, w: nat, d: State, d': State, cs: seq<nat>, t: seq<byte>)
    requires Behind(K, m, T, w, d) && m <= 11 && Small(cs) && TurnFor(K, m, d, w) == Go(d', Str(K, T, w))
    requires StateOk(K, m, d') && DecodeCodes(K, m, d', cs) == Output(t, true)
    ensures Small([w] + cs) && DecodeCodes(K, m, d, [w] + cs) == Output(Str(K, T, w) + t, true)
  {
    assert ([w] + cs)[1..] == cs;
  }

  /** The state after a clear code. */
  function Cleared(m: nat, d: State): State { State(m + 1, Empty, None, d.first) }

  lemma ClearThen(K: nat, m: nat, d: State, cs: seq<nat>, t: seq<byte>)
    requires K <= 256 && StateOk(K, m, d) && m <= 11 && Small(cs)
    requires DecodeCodes(K, m, Cleared(m, d), cs) == Output(t, true)
    ensures Small([K] + cs) && DecodeCodes(K, m, d, [K] + cs) == Output(t, true)
  {
    assert ([K] + cs)[1..] == cs;
    assert [] + t == t;
  }

  lemma EndStops(K: nat, m: nat, d: State)
    requires StateOk(K, m, d) && m <= 11
    ensures DecodeCodes(K, m, d, [K + 1]) == Output([], true)
  {}

  /** Decoding the codes of a string and the data after it gives that string and data. */
  lemma {:induction false} CodesBack(K: nat, m: nat, T: Table, w: nat, data: seq<byte>, i: nat, clears: set<nat>,
                                     d: State)
    requires Behind(K, m, T, w, d) && m <= 11 && i <= |data| && Indices(K, data)
    ensures Small(Codes(K, T, w, data, i, clears))
    ensures DecodeCodes(K, m, d, Codes(K, T, w, data, i, clears)) == Output(Str(K, T, w) + data[i..], true)
    decreases |data| - i, 1
  {
    if i < |data| && Find(T, w, data[i], 0).Some? {
      FoundBack(K, m, T, w, data, i, clears, d);
    } else {
      EmitBack(K, m, T, w, d);
      TurnOk(K, m, d, w);
      var d' := TurnFor(K, m, d, w).d;
      if i == |data| {
        EndStops(K, m, d');
        EmitThen(K, m, T, w, d, d', [K + 1], []);
        assert [w] + [K + 1] == [w, K + 1] && data[i..] == [];
      } else if i in clears {
        var cs := Codes(K, Empty, data[i], data, i + 1, clears);
        CodesBack(K, m, Empty, data[i], data, i + 1, clears, Cleared(m, d'));
        Split(data, i);
        ClearThen(K, m, d', cs, data[i..]);
        EmitThen(K, m, T, w, d, d', [K] + cs, data[i..]);
        assert [w] + ([K] + cs) == [w, K] + cs;
      } else {
        NextBehind(K, m, T, w, d', data[i]);
        CodesBack(K, m, Learn(K, T, w, data[i]), data[i], data, i + 1, clears, d');
        Split(data, i);
        EmitThen(K, m, T, w, d, d', Codes(K, Learn(K, T, w, data[i]), data[i], data, i + 1, clears), data[i..]);
      }
    }
  }

  lemma Split(data: seq<byte>, i: nat)
    requires i < |data|
    ensures [data[i]] + data[i + 1..] == data[i..]
  {}

  lemma {:induction false} FoundBack(K: nat, m: nat, T: Table, w: nat, data: seq<byte>, i: nat, clears: set<nat>,
                                     d: State)
    requires Behind(K, m, T, w, d) && m <= 11 && i < |data| && Indices(K, data) && Find(T, w, data[i], 0).Some?
    ensures Small(Codes(K, T, w, data, i, clears))
    ensures DecodeCodes(K, m, d, Codes(K, T, w, data, i, clears)) == Output(Str(K, T, w) + data[i..], true)
    decreases |data| - i, 0
  {
    hide DecodeCodes, Small;
    var e := K + 2 + Find(T, w, data[i], 0).value;
    assert Str(K, T, e) == Str(K, T, w) + [data[i]];
    FoundBehind(K, m, T, w, e, d);
    CodesBack(K, m, T, e, data, i + 1, clears, d);
    Split(data, i);
    assert Str(K, T, e) + data[i + 1..] == Str(K, T, w) + data[i..];
  }

  lemma FoundBehind(K: nat, m: nat, T: Table, w: nat, e: nat, d: State)
    requires Behind(K, m, T, w, d) && K + 2 <= e < Avail(K, T) && T.P[e - K - 2] == w
    ensures Behind(K, m, T, e, d)
  {
    assert Str(K, T, e)[0] == Str(K, T, w)[0];
  }

  lemma EncodeSmall(K: nat, data: seq<byte>, clears: set<nat>)
    requires 2 <= K <= 256 && Indices(K, data)
    ensures var cs := Encode(K, data, clears);
            |cs| >= 2 && cs[|cs| - 1] == K + 1 && Small(cs)
  {
    if data != [] { CodesSmall(K, Empty, data[0], data, 1, clears); }
  }

  /** The code stream of any data decodes to the data, wherever the encoder clears its table. */
  lemma CodesRoundTrip(K: nat, m: nat, data: seq<byte>, clears: set<nat>)
    requires 2 <= K <= 256 && m <= 11 && Indices(K, data)
    ensures Small(Encode(K, data, clears))
    ensures DecodeCodes(K, m, Start(m), Encode(K, data, clears)) == Output(data, true)
  {
    var d := Cleared(m, Start(m));
    if data == [] {
      EndStops(K, m, d);
      ClearThen(K, m, Start(m), [K + 1], []);
    } else {
      CodesBack(K, m, Empty, data[0], data, 1, clears, d);
      Split(data, 0);
      ClearThen(K, m, Start(m), Codes(K, Empty, data[0], data, 1, clears), data);
    }
  }
}
