/** The scan line filters of PNG (section 9 of the PNG specification) and how img_png.c undoes them in place. */
module PngFilter {
  import opened Bits

  function Distance(p: int, q: int): (r: nat)
    ensures r == p - q || r == q - p
  {
    if p > q then p - q else q - p
  }

  /** Whichever of left, above and upper left is nearest to left + above - upper left, in that order on ties. */
  function Paeth(a: int, b: int, c: int): (r: int)
    ensures r == a || r == b || r == c
    ensures var p := a + b - c;
            && Distance(p, r) <= Distance(p, a) && Distance(p, r) <= Distance(p, b) && Distance(p, r) <= Distance(p, c)
            && (Distance(p, a) == Distance(p, r) ==> r == a)
            && (Distance(p, b) == Distance(p, r) ==> r == a || r == b)
  {
    var p := a + b - c;
    if Distance(p, a) <= Distance(p, b) && Distance(p, a) <= Distance(p, c) then a
    else if Distance(p, b) <= Distance(p, c) then b
    else c
  }

  function Predictor(f: byte, a: byte, b: byte, c: byte): (r: byte) {
    if f == 1 then a
    else if f == 2 then b
    else if f == 3 then ((a as int) + (b as int)) / 2
    else if f == 4 then Paeth(a, b, c)
    else 0
  }

  /** The byte i of a line, zero outside it. */
  function At(s: seq<byte>, i: int): byte { if 0 <= i < |s| then s[i] else 0 }

  /** The prediction for byte i from a line and the one above it, whose bytes before i are all it looks at. */
  function Guess(f: byte, line: seq<byte>, above: seq<byte>, bpp: nat, i: nat): byte {
    Predictor(f, At(line, i - bpp), At(above, i), At(above, i - bpp))
  }

  function FilteredByte(f: byte, line: seq<byte>, above: seq<byte>, bpp: nat, i: nat): byte
    requires i < |line|
  {
    ((line[i] as int) - (Guess(f, line, above, bpp, i) as int)) % 256
  }

  /** A line as the encoder stores it. */
  function Filtered(f: byte, line: seq<byte>, above: seq<byte>, bpp: nat): (r: seq<byte>)
    ensures |r| == |line|
  {
    seq(|line|, i requires 0 <= i < |line| => FilteredByte(f, line, above, bpp, i))
  }

  function RestoredByte(f: byte, x: byte, done: seq<byte>, above: seq<byte>, bpp: nat): byte {
    ((x as int) + (Guess(f, done, above, bpp, |done|) as int)) % 256
  }

  /** The first n bytes of a stored line, restored from left to right. */
  function Restored(f: byte, x: seq<byte>, above: seq<byte>, bpp: nat, n: nat): (r: seq<byte>)
    requires n <= |x|
    ensures |r| == n
  {
    if n == 0 then []
    else
      var done := Restored(f, x, above, bpp, n - 1);
      done + [RestoredByte(f, x[n - 1], done, above, bpp)]
  }

  lemma GuessPrefix(f: byte, line: seq<byte>, above: seq<byte>, bpp: nat, n: nat)
    requires n < |line| && bpp >= 1
    ensures Guess(f, line[..n], above, bpp, n) == Guess(f, line, above, bpp, n)
  {}

  /** Restoring a filtered line gives the line, whichever filter was chosen. */
  lemma {:induction false} LineBack(f: byte, line: seq<byte>, above: seq<byte>, bpp: nat, n: nat)
    requires n <= |line| && bpp >= 1
    ensures Restored(f, Filtered(f, line, above, bpp), above, bpp, n) == line[..n]
  {
    hide Predictor, At;
    if n > 0 {
      LineBack(f, line, above, bpp, n - 1);
      GuessPrefix(f, line, above, bpp, n - 1);
      assert line[..n] == line[..n - 1] + [line[n - 1]];
    }
  }

  // ---- what restoring means, filter by filter (section 9.2 of the PNG specification) ----

  /** q is the nearest to a + b - c of the three; a goes before b and b before c. */
  predicate Nearest(q: byte, a: byte, b: byte, c: byte) {
    var p := (a as int) + (b as int) - (c as int);
    var da, db, dc := Distance(p, a), Distance(p, b), Distance(p, c);
    if da <= db && da <= dc then q == a else if db <= dc then q == b else q == c
  }

  /** The restored byte v by the stored byte x and its neighbours. */
  predicate ByteRule(f: byte, x: byte, left: byte, up: byte, corner: byte, v: byte) {
    && (f == 0 ==> v == x)
    && (f == 1 ==> v == ((x as int) + (left as int)) % 256)
    && (f == 2 ==> v == ((x as int) + (up as int)) % 256)
    && (f == 3 ==> v == ((x as int) + ((left as int) + (up as int)) / 2) % 256)
    && (f == 4 ==> exists q: byte :: Nearest(q, left, up, corner) && v == ((x as int) + (q as int)) % 256)
  }

  /** Byte i of a restored line r by the stored line x and the line above; what lies outside counts as zero. */
  predicate Rule(f: byte, x: seq<byte>, above: seq<byte>, bpp: nat, r: seq<byte>, i: nat)
    requires i < |x| && i < |r|
  {
    var left := if bpp <= i then r[i - bpp] else 0;
    var up := if i < |above| then above[i] else 0;
    var corner := if bpp <= i && i - bpp < |above| then above[i - bpp] else 0;
    ByteRule(f, x[i], left, up, corner, r[i])
  }

  ghost predicate Rules(f: byte, x: seq<byte>, above: seq<byte>, bpp: nat, r: seq<byte>) {
    |r| == |x| && forall i :: 0 <= i < |x| ==> Rule(f, x, above, bpp, r, i)
  }

  lemma PaethNearest(a: byte, b: byte, c: byte)
    ensures Nearest(Paeth(a, b, c), a, b, c)
  {}

  lemma PredictorRule(f: byte, x: byte, a: byte, b: byte, c: byte)
    ensures ByteRule(f, x, a, b, c, ((x as int) + (Predictor(f, a, b, c) as int)) % 256)
  {
    hide Paeth, Nearest;
    if f == 4 {
      PaethNearest(a, b, c);
      var q: byte := Paeth(a, b, c);
      assert Nearest(q, a, b, c);
    }
  }

  lemma RuleLast(f: byte, x: seq<byte>, above: seq<byte>, bpp: nat, done: seq<byte>)
    requires |done| < |x| && bpp >= 1
    ensures Rule(f, x, above, bpp, done + [RestoredByte(f, x[|done|], done, above, bpp)], |done|)
  {
    hide Predictor, ByteRule;
    var i := |done|;
    PredictorRule(f, x[i], At(done, i - bpp), At(above, i), At(above, i - bpp));
  }

  lemma RuleKept(f: byte, x: seq<byte>, above: seq<byte>, bpp: nat, r: seq<byte>, b: byte, i: nat)
    requires i < |r| < |x| && Rule(f, x, above, bpp, r, i)
    ensures Rule(f, x, above, bpp, r + [b], i)
  {}

  /** Every byte of a restored line is what its filter says. */
  lemma {:induction false} RestoredRule(f: byte, x: seq<byte>, above: seq<byte>, bpp: nat, n: nat, i: nat)
    requires i < n <= |x| && bpp >= 1
    ensures Rule(f, x, above, bpp, Restored(f, x, above, bpp, n), i)
    decreases n
  {
    hide Rule, RestoredByte;
    var done := Restored(f, x, above, bpp, n - 1);
    if i == n - 1 {
      RuleLast(f, x, above, bpp, done);
    } else {
      RestoredRule(f, x, above, bpp, n - 1, i);
      RuleKept(f, x, above, bpp, done, RestoredByte(f, x[n - 1], done, above, bpp), i);
    }
  }

  lemma LineRules(f: byte, x: seq<byte>, above: seq<byte>, bpp: nat)
    requires bpp >= 1
    ensures Rules(f, x, above, bpp, Restored(f, x, above, bpp, |x|))
  {
    hide Rule;
    forall i | 0 <= i < |x| ensures Rule(f, x, above, bpp, Restored(f, x, above, bpp, |x|), i) {
      RestoredRule(f, x, above, bpp, |x|, i);
    }
  }

  lemma NearestOne(p: byte, q: byte, a: byte, b: byte, c: byte)
    requires Nearest(p, a, b, c) && Nearest(q, a, b, c)
    ensures p == q
  {}

  lemma RuleDetermines(f: byte, x: seq<byte>, above: seq<byte>, bpp: nat, r: seq<byte>, s: seq<byte>, i: nat)
    requires f <= 4 && i < |x| && i < |r| && i < |s| && (bpp <= i ==> r[i - bpp] == s[i - bpp])
    requires Rule(f, x, above, bpp, r, i) && Rule(f, x, above, bpp, s, i)
    ensures r[i] == s[i]
  {
    hide Nearest;
    if f == 4 {
      assert ByteRule(f, x[i], if bpp <= i then r[i - bpp] else 0, if i < |above| then above[i] else 0,
                      if bpp <= i && i - bpp < |above| then above[i - bpp] else 0, s[i]);
      var left := if bpp <= i then r[i - bpp] else 0;
      var up := if i < |above| then above[i] else 0;
      var corner := if bpp <= i && i - bpp < |above| then above[i - bpp] else 0;
      var p: byte :| Nearest(p, left, up, corner) && r[i] == ((x[i] as int) + (p as int)) % 256;
      var q: byte :| Nearest(q, left, up, corner) && s[i] == ((x[i] as int) + (q as int)) % 256;
      NearestOne(p, q, left, up, corner);
    } else {
      assert f == 0 || f == 1 || f == 2 || f == 3;
    }
  }

  /** The rules leave no choice. */
  lemma {:induction false} RulesDetermine(f: byte, x: seq<byte>, above: seq<byte>, bpp: nat, r: seq<byte>, s: seq<byte>,
                                          n: nat)
    requires f <= 4 && bpp >= 1 && n <= |x| && Rules(f, x, above, bpp, r) && Rules(f, x, above, bpp, s)
    ensures r[..n] == s[..n]
    decreases n
  {
    if n > 0 {
      RulesDetermine(f, x, above, bpp, r, s, n - 1);
      assert bpp <= n - 1 ==> r[n - 1 - bpp] == r[..n - 1][n - 1 - bpp] == s[n - 1 - bpp];
      RuleDetermines(f, x, above, bpp, r, s, n - 1);
      assert r[..n] == r[..n - 1] + [r[n - 1]] && s[..n] == s[..n - 1] + [s[n - 1]];
    }
  }

  // ---- whole images ----

  /** Line y of an image, behind its type byte. */
  predicate HasLine(s: seq<byte>, stride: nat, y: nat)
    decreases y
  {
    |s| > stride && (y == 0 || HasLine(s[stride + 1..], stride, y - 1))
  }

  function Line(s: seq<byte>, stride: nat, y: nat): (r: seq<byte>)
    requires HasLine(s, stride, y)
    ensures |r| == stride
    decreases y
  {
    if y == 0 then s[1..stride + 1] else Line(s[stride + 1..], stride, y - 1)
  }

  function Type(s: seq<byte>, stride: nat, y: nat): (r: byte)
    requires HasLine(s, stride, y)
    decreases y
  {
    if y == 0 then s[0] else Type(s[stride + 1..], stride, y - 1)
  }

  /** Every line has a filter type the decoder knows; without bytes in a line no type is looked at. */
  predicate Known(raw: seq<byte>, stride: nat) {
    |raw| <= stride || ((stride == 0 || raw[0] <= 4) && Known(raw[stride + 1..], stride))
  }

  predicate TypeOk(raw: seq<byte>, stride: nat, y: nat) { HasLine(raw, stride, y) ==> Type(raw, stride, y) <= 4 }

  /** That is: no line of the image has a type above four. */
  lemma {:induction false} KnownIff(raw: seq<byte>, stride: nat)
    requires stride > 0
    ensures Known(raw, stride) <==> forall y: nat :: TypeOk(raw, stride, y)
    decreases |raw|
  {
    if |raw| > stride {
      var rest := raw[stride + 1..];
      KnownIff(rest, stride);
      assert TypeOk(raw, stride, 0) <==> raw[0] <= 4;
      assert forall y: nat :: TypeOk(rest, stride, y) <==> TypeOk(raw, stride, y + 1);
      assert forall y: nat :: TypeOk(raw, stride, y) <==> if y == 0 then raw[0] <= 4 else TypeOk(rest, stride, y - 1);
    }
  }

  /** Each line behind its type byte, restored from the line above. */
  function Image(raw: seq<byte>, stride: nat, bpp: nat, above: seq<byte>): (r: seq<byte>)
    ensures |r| == |raw|
  {
    if |raw| <= stride then raw
    else
      var line := Restored(raw[0], raw[1..stride + 1], above, bpp, stride);
      [raw[0]] + line + Image(raw[stride + 1..], stride, bpp, line)
  }

  /** Each line of a decoded image follows from the stored one and the decoded line above it by the rules. */
  lemma {:induction false} ImageRules(raw: seq<byte>, stride: nat, bpp: nat, above: seq<byte>, y: nat)
    requires bpp >= 1 && HasLine(raw, stride, y)
    ensures var r := Image(raw, stride, bpp, above);
            && HasLine(r, stride, y) && Type(r, stride, y) == Type(raw, stride, y)
            && (y > 0 ==> HasLine(r, stride, y - 1))
            && Rules(Type(raw, stride, y), Line(raw, stride, y), if y == 0 then above else Line(r, stride, y - 1), bpp,
                     Line(r, stride, y))
    decreases y
  {
    hide Rules, Restored;
    var r, x := Image(raw, stride, bpp, above), raw[1..stride + 1];
    var line := Restored(raw[0], x, above, bpp, stride);
    var rest := Image(raw[stride + 1..], stride, bpp, line);
    assert r == [raw[0]] + line + rest;
    assert r[stride + 1..] == rest && r[1..stride + 1] == line;
    if y == 0 {
      LineRules(raw[0], x, above, bpp);
    } else {
      ImageRules(raw[stride + 1..], stride, bpp, line, y - 1);
      if y == 1 { assert Line(r, stride, 0) == line; }
    }
  }

  /** Lines behind their types, unfiltered. */
  function Plain(types: seq<byte>, lines: seq<seq<byte>>): seq<byte>
    requires |types| == |lines|
  {
    if lines == [] then [] else [types[0]] + lines[0] + Plain(types[1..], lines[1..])
  }

  /** Lines behind their types, filtered. */
  function Stored(types: seq<byte>, lines: seq<seq<byte>>, bpp: nat, above: seq<byte>): seq<byte>
    requires |types| == |lines|
  {
    if lines == [] then []
    else [types[0]] + Filtered(types[0], lines[0], above, bpp) + Stored(types[1..], lines[1..], bpp, lines[0])
  }

  lemma ImageStep(t: byte, x: seq<byte>, rest: seq<byte>, bpp: nat, above: seq<byte>)
    ensures var raw, line := [t] + x + rest, Restored(t, x, above, bpp, |x|);
            && Image(raw, |x|, bpp, above) == [t] + line + Image(rest, |x|, bpp, line)
            && (Known(raw, |x|) <==> (|x| == 0 || t <= 4) && Known(rest, |x|))
  {
    var raw := [t] + x + rest;
    assert raw[1..|x| + 1] == x && raw[|x| + 1..] == rest;
  }

  /** Every image comes back from its filtered form, whichever filter each line was given. */
  lemma {:induction false} ImageBack(types: seq<byte>, lines: seq<seq<byte>>, stride: nat, bpp: nat, above: seq<byte>)
    requires |types| == |lines| && bpp >= 1
    requires forall i :: 0 <= i < |lines| ==> types[i] <= 4 && |lines[i]| == stride
    ensures Known(Stored(types, lines, bpp, above), stride)
    ensures Image(Stored(types, lines, bpp, above), stride, bpp, above) == Plain(types, lines)
    decreases lines
  {
    if lines != [] {
      var x := Filtered(types[0], lines[0], above, bpp);
      LineBack(types[0], lines[0], above, bpp, stride);
      assert lines[0][..stride] == lines[0];
      ImageStep(types[0], x, Stored(types[1..], lines[1..], bpp, lines[0]), bpp, above);
      ImageBack(types[1..], lines[1..], stride, bpp, lines[0]);
    }
  }

  // ---- in place ----

  /** The filter types of the inner loop. */
  method UndoByte(f: byte, x: byte, a: byte, b: byte, c: byte) returns (ok: bool, r: byte)
    ensures ok <==> f <= 4
    ensures ok ==> r == ((x as int) + (Predictor(f, a, b, c) as int)) % 256
  {
    var v: int := x;
    if f == 0 {
    } else if f == 1 {
      v := v + a;
    } else if f == 2 {
      v := v + b;
    } else if f == 3 {
      v := v + ((a as int) + (b as int)) / 2;
    } else if f == 4 {
      v := v + Paeth(a, b, c);
    } else {
      return false, 0;
    }
    return true, v % 256;
  }

  lemma RestoredNone(f: byte, x: seq<byte>, above: seq<byte>, bpp: nat)
    ensures Restored(f, x, above, bpp, 0) == []
  {}

  lemma RestoredNext(f: byte, x: seq<byte>, above: seq<byte>, bpp: nat, i: nat, done: seq<byte>, v: byte)
    requires i < |x| && done == Restored(f, x, above, bpp, i) && v == RestoredByte(f, x[i], done, above, bpp)
    ensures done + [v] == Restored(f, x, above, bpp, i + 1)
  {}

  /**
    The bytes to the left of, above and to the upper left of byte i of the line behind
    off, zero where there is none.
   */
  method Neighbours(raw: array<byte>, off: nat, stride: nat, bpp: nat, i: nat, ghost done: seq<byte>,
                    ghost above: seq<byte>)
      returns (a: byte, b: byte, c: byte)
    requires bpp >= 1 && i < stride && off + 1 + stride <= raw.Length && (off == 0 || stride <= off)
    requires |done| == i && forall k :: 0 <= k < i ==> done[k] == raw[off + 1 + k]
    requires |above| == (if off == 0 then 0 else stride)
    requires forall k :: 0 <= k < |above| ==> above[k] == raw[off - stride + k]
    ensures a == At(done, i - bpp) && b == At(above, i) && c == At(above, i - bpp)
  {
    a := if i >= bpp then raw[off + 1 + i - bpp] else 0;
    b := if off > 0 then raw[off - stride + i] else 0;
    c := if off > 0 && i >= bpp then raw[off - stride + i - bpp] else 0;
  }

  /** What the inner loop makes of byte i. */
  method UndoNext(raw: array<byte>, f: byte, off: nat, stride: nat, bpp: nat, i: nat, ghost done: seq<byte>,
                  ghost above: seq<byte>)
    returns (ok: bool, v: byte)
    requires bpp >= 1 && i < stride && off + 1 + stride <= raw.Length && (off == 0 || stride <= off)
    requires |done| == i && forall k :: 0 <= k < i ==> done[k] == raw[off + 1 + k]
    requires |above| == (if off == 0 then 0 else stride)
    requires forall k :: 0 <= k < |above| ==> above[k] == raw[off - stride + k]
    ensures ok <==> f <= 4
    ensures ok ==> v == RestoredByte(f, raw[off + 1 + i], done, above, bpp)
  {
    hide Predictor, Paeth, At;
    var a, b, c := Neighbours(raw, off, stride, bpp, i, done, above);
    ok, v := UndoByte(f, raw[off + 1 + i], a, b, c);
  }

  /** The line starting behind the type byte at off; the line above stands just before that byte. */
  method UnfilterLine(raw: array<byte>, off: nat, stride: nat, bpp: nat) returns (ok: bool)
    requires bpp >= 1 && off + 1 + stride <= raw.Length && (off == 0 || stride <= off)
    modifies raw
    ensures ok <==> stride == 0 || old(raw[off]) <= 4
    ensures ok ==> var above := if off == 0 then [] else old(raw[off - stride..off]);
                   raw[off + 1..off + 1 + stride]
                   == Restored(old(raw[off]), old(raw[off + 1..off + 1 + stride]), above, bpp, stride)
    ensures forall k :: 0 <= k <= off || off + stride < k < raw.Length ==> raw[k] == old(raw[k])
  {
    hide Restored, RestoredByte;
    var f, cur := raw[off], off + 1;
    ghost var above := if off == 0 then [] else raw[off - stride..off];
    ghost var x := raw[cur..cur + stride];
    ghost var done: seq<byte> := [];
    RestoredNone(f, x, above, bpp);
    var i := 0;
    while i < stride
      invariant 0 <= i <= stride && (i > 0 ==> f <= 4)
      invariant forall k :: 0 <= k < cur || cur + i <= k < raw.Length ==> raw[k] == old(raw[k])
      invariant |done| == i && (forall k :: 0 <= k < i ==> done[k] == raw[cur + k])
                && done == Restored(f, x, above, bpp, i)
    {
      var good, v := UndoNext(raw, f, off, stride, bpp, i, done, above);
      if !good { return false; }
      RestoredNext(f, x, above, bpp, i, done, v);
      raw[cur + i] := v;
      done := done + [v];
      i := i + 1;
    }
    assert raw[cur..cur + stride] == done;
    return true;
  }

  lemma ImageAt(was: seq<byte>, stride: nat, bpp: nat, off: nat, above: seq<byte>)
    requires off + stride < |was|
    ensures var line := Restored(was[off], was[off + 1..off + 1 + stride], above, bpp, stride);
            && Image(was[off..], stride, bpp, above)
               == [was[off]] + line + Image(was[off + 1 + stride..], stride, bpp, line)
            && (Known(was[off..], stride) <==> (stride == 0 || was[off] <= 4) && Known(was[off + 1 + stride..], stride))
  {
    var raw := was[off..];
    assert raw[1..stride + 1] == was[off + 1..off + 1 + stride] && raw[stride + 1..] == was[off + 1 + stride..];
  }

  lemma ImageEnd(was: seq<byte>, stride: nat, bpp: nat, above: seq<byte>)
    ensures Image(was[|was|..], stride, bpp, above) == [] && Known(was[|was|..], stride)
  {}

  /** n lines fill len bytes. */
  ghost predicate Fill(n: nat, stride: nat, len: nat) { len == n * (stride + 1) }

  lemma FillNext(n: nat, stride: nat, len: nat)
    requires Fill(n, stride, len)
    ensures n == 0 ==> len == 0
    ensures n > 0 ==> len > stride && Fill(n - 1, stride, len - stride - 1)
  {}

  /** A stored image fills its buffer. */
  lemma {:induction false} StoredFills(types: seq<byte>, lines: seq<seq<byte>>, stride: nat, bpp: nat, above: seq<byte>)
    requires |types| == |lines| && forall i :: 0 <= i < |lines| ==> |lines[i]| == stride
    ensures Fill(|lines|, stride, |Stored(types, lines, bpp, above)|)
    decreases lines
  {
    if lines != [] { StoredFills(types[1..], lines[1..], stride, bpp, lines[0]); }
  }

  /** How far the row loop is: the lines before off restored, the rest untouched. */
  ghost predicate DoneTo(was: seq<byte>, now: seq<byte>, off: nat, stride: nat, bpp: nat, above: seq<byte>) {
    && off <= |was| == |now| && now[off..] == was[off..]
    && (off == 0 || stride <= off) && above == (if off == 0 then [] else now[off - stride..off])
    && (Known(was, stride) <==> Known(was[off..], stride))
    && now[..off] + Image(was[off..], stride, bpp, above) == Image(was, stride, bpp, [])
  }

  lemma StillStored(was: seq<byte>, now: seq<byte>, off: nat, stride: nat)
    requires off + stride < |was| == |now| && now[off..] == was[off..]
    ensures now[off] == was[off] && now[off + 1..off + 1 + stride] == was[off + 1..off + 1 + stride]
  {
    assert now[off] == now[off..][0];
    assert now[off + 1..off + 1 + stride] == now[off..][1..1 + stride];
  }

  lemma DoneStart(was: seq<byte>, stride: nat, bpp: nat)
    ensures DoneTo(was, was, 0, stride, bpp, [])
  {
    assert was[0..] == was;
  }

  lemma DoneStep(was: seq<byte>, now: seq<byte>, now': seq<byte>, off: nat, stride: nat, bpp: nat, above: seq<byte>,
                 line: seq<byte>)
    requires DoneTo(was, now, off, stride, bpp, above) && off + stride < |was| == |now'|
             && (stride == 0 || was[off] <= 4)
    requires line == Restored(was[off], was[off + 1..off + 1 + stride], above, bpp, stride)
    requires now'[off + 1..off + 1 + stride] == line && now'[..off + 1] == now[..off + 1]
    requires now'[off + 1 + stride..] == now[off + 1 + stride..]
    ensures DoneTo(was, now', off + 1 + stride, stride, bpp, line)
  {
    hide Image, Known, Restored;
    ImageAt(was, stride, bpp, off, above);
    var q := off + 1 + stride;
    assert now[off] == now[off..][0] == was[off] && now'[off] == now'[..off + 1][off] == now[off];
    assert now'[..off] == now'[..off + 1][..off] == now[..off];
    assert now'[..q] == now[..off] + ([was[off]] + line);
    assert now'[q..] == now[off..][stride + 1..] == was[q..];
  }

  lemma DoneEnd(was: seq<byte>, now: seq<byte>, off: nat, stride: nat, bpp: nat, above: seq<byte>)
    requires DoneTo(was, now, off, stride, bpp, above) && off == |was|
    ensures Known(was, stride) && now == Image(was, stride, bpp, [])
  {
    ImageEnd(was, stride, bpp, above);
    assert now[..off] == now;
  }

  /** The row loop of png_decode: true with every line restored, or false exactly when a line has an unknown filter. */
  method Unfilter(raw: array<byte>, stride: nat, ih: nat, bpp: nat) returns (ok: bool)
    requires bpp >= 1 && Fill(ih, stride, raw.Length)
    modifies raw
    ensures ok <==> Known(old(raw[..]), stride)
    ensures ok ==> raw[..] == Image(old(raw[..]), stride, bpp, [])
  {
    hide Fill, Restored, Image, Known;
    ghost var was := raw[..];
    var off := 0;
    ghost var above: seq<byte> := [];
    DoneStart(was, stride, bpp);
    for y := 0 to ih
      invariant 0 <= off <= raw.Length && Fill(ih - y, stride, raw.Length - off)
      invariant DoneTo(was, raw[..], off, stride, bpp, above)
    {
      FillNext(ih - y, stride, raw.Length - off);
      ghost var now := raw[..];
      ImageAt(was, stride, bpp, off, above);
      StillStored(was, now, off, stride);
      ok := UnfilterLine(raw, off, stride, bpp);
      if !ok { return; }
      ghost var line := raw[off + 1..off + 1 + stride];
      DoneStep(was, now, raw[..], off, stride, bpp, above, line);
      off, above := off + 1 + stride, line;
    }
    FillNext(0, stride, raw.Length - off);
    DoneEnd(was, raw[..], off, stride, bpp, above);
    return true;
  }
}
