/**
  GIF's variable-width LZW as the decoder loop of mximg.c runs it (Appendix F
  of the GIF89a specification).  K is the clear code; K + 1 ends the stream.
 */
module Lzw {
  import opened Bits

  // ---- the string table ----

  /** Entry j, code K + 2 + j, is the string of code P[j] followed by S[j]. */
  datatype Table = Table(P: seq<nat>, S: seq<byte>)

  const Empty := Table([], [])

  /** The next code to be assigned. */
  function Avail(K: nat, T: Table): nat { K + 2 + |T.P| }

  predicate Known(K: nat, T: Table, c: nat) {
    c < K || K + 2 <= c < Avail(K, T)
  }

  /** Every prefix link points to a smaller code. */
  ghost predicate TableOk(K: nat, T: Table) {
    && K <= 256 && |T.P| == |T.S| && Avail(K, T) <= 4096
    && forall j :: 0 <= j < |T.P| ==> (T.P[j] < K || K + 2 <= T.P[j]) && T.P[j] < K + 2 + j
  }

  /** The string a code stands for. */
  function Str(K: nat, T: Table, c: nat): (s: seq<byte>)
    requires TableOk(K, T) && Known(K, T, c)
    ensures s != []
    decreases c
  {
    if c < K then [c] else Str(K, T, T.P[c - K - 2]) + [T.S[c - K - 2]]
  }

  function Add(T: Table, p: nat, b: byte): Table {
    Table(T.P + [p], T.S + [b])
  }

  /** New entries do not change old strings. */
  lemma {:induction false} StrAdd(K: nat, T: Table, p: nat, b: byte, c: nat)
    requires TableOk(K, T) && TableOk(K, Add(T, p, b)) && Known(K, T, c)
    ensures Str(K, Add(T, p, b), c) == Str(K, T, c)
    decreases c
  {
    if c >= K { StrAdd(K, T, p, b, T.P[c - K - 2]); }
  }

  /** A chain walk visits fewer than 4096 codes. */
  lemma {:induction false} StrLength(K: nat, T: Table, c: nat)
    requires TableOk(K, T) && Known(K, T, c)
    ensures |Str(K, T, c)| <= if c < K then 1 else c - K
    decreases c
  {
    if c >= K { StrLength(K, T, T.P[c - K - 2]); }
  }

  // ---- decoding codes ----

  /** The decoder between codes: code size, table, previous code, first index of the previous string. */
  datatype State = State(csz: nat, T: Table, prev: Option<nat>, first: byte)

  ghost predicate StateOk(K: nat, m: nat, d: State) {
    && TableOk(K, d.T) && m + 1 <= d.csz <= 12
    && (d.prev.Some? ==> Known(K, d.T, d.prev.value) && d.first == Str(K, d.T, d.prev.value)[0])
  }

  function Start(m: nat): State { State(m + 1, Empty, None, 0) }

  /** One code: the end, a code no encoder sends, or indices and the next state. */
  datatype Turn = Stop | Malformed | Go(d: State, s: seq<byte>)

  /** The string a code stands for before its entry is made; the code may be the one to be assigned next. */
  function StringFor(K: nat, d: State, c: nat): (s: Option<seq<byte>>)
    requires TableOk(K, d.T) && (d.prev.Some? ==> Known(K, d.T, d.prev.value))
    ensures s.Some? ==> s.value != []
  {
    if d.prev.None? then (if c < K then Some([c]) else None)
    else if Known(K, d.T, c) then Some(Str(K, d.T, c))
    else if c == Avail(K, d.T) then Some(Str(K, d.T, d.prev.value) + [d.first])
    else None
  }

  /** The state after a code that stood for s. */
  function After(K: nat, d: State, c: nat, s: seq<byte>): State
    requires s != []
  {
    if d.prev.Some? && Avail(K, d.T) < 4096 then
      State(if Avail(K, d.T) + 1 == Pow2(d.csz) && d.csz < 12 then d.csz + 1 else d.csz,
            Add(d.T, d.prev.value, s[0]), Some(c), s[0])
    else State(d.csz, d.T, Some(c), s[0])
  }

  function TurnFor(K: nat, m: nat, d: State, c: nat): (r: Turn)
    requires TableOk(K, d.T) && (d.prev.Some? ==> Known(K, d.T, d.prev.value))
  {
    if c == K + 1 then Stop
    else if c == K then Go(State(m + 1, Empty, None, d.first), [])
    else
      var s := StringFor(K, d, c);
      if s.None? then Malformed else Go(After(K, d, c, s.value), s.value)
  }

  lemma TurnOk(K: nat, m: nat, d: State, c: nat)
    requires StateOk(K, m, d) && m + 1 <= 12 && c < 4096
    ensures var r := TurnFor(K, m, d, c); r.Go? ==> StateOk(K, m, r.d)
  {
    var r := TurnFor(K, m, d, c);
    if r.Go? && c != K && d.prev.Some? && Avail(K, d.T) < 4096 {
      var p, b := d.prev.value, r.s[0];
      StrAdd(K, d.T, p, b, p);
      if Known(K, d.T, c) { StrAdd(K, d.T, p, b, c); }
    }
  }

  /**
    Every code but the first makes one entry while fewer than 4096 codes are
    assigned: the previous code's string and the first index of this one's.
   */
  lemma EntryMade(K: nat, m: nat, d: State, c: nat)
    requires StateOk(K, m, d) && m <= 11 && c < 4096 && c != K && d.prev.Some? && TurnFor(K, m, d, c).Go?
    ensures var r := TurnFor(K, m, d, c);
            && StateOk(K, m, r.d) && r.d.prev == Some(c) && r.s != []
            && (K + 2 + |d.T.P| < 4096 ==>
                  && |r.d.T.P| == |d.T.P| + 1
                  && Str(K, r.d.T, K + 2 + |d.T.P|) == Str(K, d.T, d.prev.value) + [r.s[0]])
            && (K + 2 + |d.T.P| == 4096 ==> r.d.T == d.T)
  {
    TurnOk(K, m, d, c);
    var r := TurnFor(K, m, d, c);
    if K + 2 + |d.T.P| < 4096 {
      var p, b := d.prev.value, r.s[0];
      StrAdd(K, d.T, p, b, p);
      assert r.d.T.P[|d.T.P|] == p && r.d.T.S[|d.T.P|] == b;
    }
  }

  /** All indices of a code stream, and whether it was well formed. */
  datatype Output = Output(s: seq<byte>, ok: bool)

  /** Codes have at most twelve bits. */
  predicate Small(cs: seq<nat>) { forall i :: 0 <= i < |cs| ==> cs[i] < 4096 }

  function DecodeCodes(K: nat, m: nat, d: State, cs: seq<nat>): (r: Output)
    requires StateOk(K, m, d) && m <= 11 && Small(cs)
    decreases |cs|
  {
    if cs == [] then Output([], true)
    else
      TurnOk(K, m, d, cs[0]);
      match TurnFor(K, m, d, cs[0])
      case Stop => Output([], true)
      case Malformed => Output([], false)
      case Go(d', s) => var rest := DecodeCodes(K, m, d', cs[1..]); Output(s + rest.s, rest.ok)
  }

  // ---- decoding bits ----

  function DecodeBits(K: nat, m: nat, d: State, bs: seq<bit>, pos: nat): (r: Output)
    requires StateOk(K, m, d) && m <= 11
    decreases |bs| - pos
  {
    if pos + d.csz > |bs| then Output([], true)
    else
      var c := ValAt(bs, pos, d.csz);
      CodeFits(bs, pos, d.csz);
      TurnOk(K, m, d, c);
      match TurnFor(K, m, d, c)
      case Stop => Output([], true)
      case Malformed => Output([], false)
      case Go(d', s) => var rest := DecodeBits(K, m, d', bs, pos + d.csz); Output(s + rest.s, rest.ok)
  }

  lemma CodeFits(bs: seq<bit>, pos: nat, w: nat)
    requires pos + w <= |bs| && w <= 12
    ensures ValAt(bs, pos, w) < 4096
  {
    ValAtBound(bs, pos, w);
    Pow2Mono(w, 12);
    assert Pow2(12) == 4096;
  }

  lemma BitsTurn(K: nat, m: nat, d: State, bs: seq<bit>, pos: nat, c: nat, r: Turn)
    requires StateOk(K, m, d) && m <= 11 && pos + d.csz <= |bs| && ValAt(bs, pos, d.csz) == c
             && TurnFor(K, m, d, c) == r
    ensures r.Stop? ==> DecodeBits(K, m, d, bs, pos) == Output([], true)
    ensures r.Malformed? ==> DecodeBits(K, m, d, bs, pos) == Output([], false)
    ensures r.Go? ==> StateOk(K, m, r.d) && var rest := DecodeBits(K, m, r.d, bs, pos + d.csz);
                      DecodeBits(K, m, d, bs, pos) == Output(r.s + rest.s, rest.ok)
  {
    CodeFits(bs, pos, d.csz);
    TurnOk(K, m, d, c);
  }
}
