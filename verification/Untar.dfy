/** Walking an archive, and the proof that walking undoes writing. */
module Untar {
  import opened Bits
  import opened Buffer
  import opened Orbits
  import opened Tar

  /** What extract does for one header. */
  datatype Act =
    | Mkdir(name: seq<byte>)
    | Write(name: seq<byte>, data: seq<byte>)
    | Cut(name: seq<byte>)                       // data runs past the archive: nothing is written
    | Spill(name: seq<byte>, size: nat)          // the 32-bit sum wraps: a write from past the archive

  /** How the walk stands after some turns. */
  datatype End =
    | Ended                                      // at a zero block or the end of the archive
    | Astray                                     // at a header outside the archive
    | Running

  datatype Walk = Walk(acts: seq<Act>, end: End)

  // ---- reading one header ----

  /** The length of the C string at the front of s. */
  function StringLength(s: seq<byte>, i: nat): (r: nat)
    requires i <= |s|
    ensures i <= r <= |s|
    decreases |s| - i
  {
    if i < |s| && s[i] != 0 then StringLength(s, i + 1) else i
  }

  function NameIn(h: seq<byte>): (r: seq<byte>)
    requires |h| == 512
  {
    h[..StringLength(h[..100], 0)]
  }

  predicate EndsInSlash(s: seq<byte>) { s != [] && s[|s| - 1] == 47 }

  /** The header's name, whether it is read as a directory, and its size. */
  function Parse(h: seq<byte>): (r: Head)
    requires |h| == 512
  {
    Head(NameIn(h), OctalValue(h[124..136]), h[156] == 53 || EndsInSlash(NameIn(h)))
  }

  /** The data and its padding, as the 32-bit sum has it. */
  function Padded(size: nat): (r: nat)
    ensures r % 512 == 0 && r <= 0xFFFF_FE00
  {
    U32(size + 511) / 512 * 512
  }

  predicate AllZero(s: seq<byte>) { forall i :: 0 <= i < |s| ==> s[i] == 0 }

  /** What is done for header h with its data at p. */
  function ActFor(h: Head, t: seq<byte>, p: nat): Act {
    if h.isdir then Mkdir(h.name)
    else if U32(p + h.size) > |t| then Cut(h.name)
    else if p + h.size > |t| then Spill(h.name, h.size)
    else Write(h.name, t[p..p + h.size])
  }

  /** One turn of the walk: the end, a header outside the archive, or an action and where to go on. */
  datatype Turn = Stop | Off | Go(act: Act, pos: nat)

  function TurnAt(t: seq<byte>, pos: nat): (r: Turn)
    ensures r.Go? ==> pos + 512 <= |t|
  {
    if U32(pos + 512) > |t| then Stop
    else if pos + 512 > |t| then Off
    else if AllZero(t[pos..pos + 512]) then Stop
    else
      var h := Parse(t[pos..pos + 512]);
      Go(ActFor(h, t, pos + 512), U32(pos + 512 + Padded(h.size)))
  }

  /** At most n turns of extract from pos on. */
  function Extract(t: seq<byte>, pos: nat, n: nat): (r: Walk)
    decreases n
  {
    if n == 0 then Walk([], Running)
    else match TurnAt(t, pos)
      case Stop => Walk([], Ended)
      case Off => Walk([], Astray)
      case Go(act, q) => Walk([act] + Extract(t, q, n - 1).acts, Extract(t, q, n - 1).end)
  }

  lemma ExtractStep(t: seq<byte>, pos: nat, n: nat, r: Turn)
    requires r == TurnAt(t, pos) && n > 0
    ensures Extract(t, pos, n)
            == match r
               case Stop => Walk([], Ended)
               case Off => Walk([], Astray)
               case Go(act, q) => Walk([act] + Extract(t, q, n - 1).acts, Extract(t, q, n - 1).end)
  {}

  // ---- extract itself ----

  method IsZero(t: seq<byte>, pos: nat) returns (zero: bool)
    requires pos + 512 <= |t|
    ensures zero == AllZero(t[pos..pos + 512])
  {
    zero := true;
    for i := 0 to 512
      invariant zero && forall k :: pos <= k < pos + i ==> t[k] == 0
    {
      if t[pos + i] != 0 {
        assert t[pos..pos + 512][i] != 0;
        return false;
      }
    }
  }

  method NameLength(h: seq<byte>) returns (n: nat)
    requires |h| == 512
    ensures n == StringLength(h[..100], 0)
  {
    var name := h[..100];
    n := 0;
    while n < 100 && name[n] != 0
      invariant 0 <= n <= 100 && StringLength(name, n) == StringLength(name, 0)
    {
      n := n + 1;
    }
  }

  method ReadHead(t: seq<byte>, pos: nat) returns (h: Head)
    requires pos + 512 <= |t|
    ensures h == Parse(t[pos..pos + 512])
  {
    var x := t[pos..pos + 512];
    var n := NameLength(x);
    var name := x[..n];
    var size := RdOctal(x[124..136]);
    return Head(name, size, x[156] == 53 || (n > 0 && name[n - 1] == 47));
  }

  /** extract has not returned after n turns. */
  predicate StillRunning(t: seq<byte>, n: nat) { Extract(t, 0, n).end.Running? }

  /** The body of the loop of extract. */
  method OneTurn(t: seq<byte>, pos: nat) returns (r: Turn)
    requires |t| < 0x1_0000_0000 && U32(pos + 512) <= |t|
    ensures r == TurnAt(t, pos)
  {
    hide Parse, AllZero;
    if pos + 512 > |t| { return Off; }
    var zero := IsZero(t, pos);
    if zero { return Stop; }
    var h := ReadHead(t, pos);
    var p := U32(pos + 512);
    var q := U32(p + U32(h.size + 511) / 512 * 512);
    if h.isdir { return Go(Mkdir(h.name), q); }
    if U32(p + h.size) <= |t| {
      if p + h.size > |t| { return Go(Spill(h.name, h.size), q); }
      return Go(Write(h.name, t[p..p + h.size]), q);
    }
    return Go(Cut(h.name), q);
  }

  lemma PastEnd(t: seq<byte>, pos: nat)
    requires U32(pos + 512) > |t|
    ensures TurnAt(t, pos) == Stop
  {}

  /** The loop of extract, watched for at most n turns. */
  method ExtractFor(t: seq<byte>, n: nat) returns (w: Walk)
    requires |t| < 0x1_0000_0000
    ensures w == Extract(t, 0, n)
  {
    hide TurnAt;
    ghost var goal := Extract(t, 0, n);
    var pos, acts, left := 0, [], n;
    while left > 0
      invariant 0 <= left <= n
      invariant goal == Walk(acts + Extract(t, pos, left).acts, Extract(t, pos, left).end)
    {
      if U32(pos + 512) > |t| {
        PastEnd(t, pos);
        return Walk(acts, Ended);
      }
      var r := OneTurn(t, pos);
      ExtractStep(t, pos, left, r);
      if r.Stop? { return Walk(acts, Ended); }
      if r.Off? { return Walk(acts, Astray); }
      assert acts + ([r.act] + Extract(t, r.pos, left - 1).acts) == (acts + [r.act]) + Extract(t, r.pos, left - 1).acts;
      acts, pos, left := acts + [r.act], r.pos, left - 1;
    }
    return Walk(acts, Running);
  }

  /** extract as far as it can be watched: one turn for every block of the archive and one more. */
  method ExtractAll(t: seq<byte>) returns (w: Walk)
    requires |t| < 0x1_0000_0000
    ensures w == Extract(t, 0, |t| / 512 + 1)
    ensures w.end.Running? <==> forall n: nat :: StillRunning(t, n)
  {
    w := ExtractFor(t, |t| / 512 + 1);
    WalkEndsIff(t);
  }

  // ---- where the walk goes ----

  /** The data and its padding, over all integers. */
  function FullLength(size: nat): (r: nat)
    ensures r >= size && r % 512 == 0
  {
    (size + 511) / 512 * 512
  }

  /**
    A turn goes on behind its data exactly when that ends below 4 GiB, and it
    goes forward at all exactly then or when the padding has wrapped to nothing.
   */
  lemma ForwardIff(t: seq<byte>, pos: nat)
    requires |t| < 0x1_0000_0000 && TurnAt(t, pos).Go?
    ensures var size := Parse(t[pos..pos + 512]).size;
            var end := pos + 512 + FullLength(size);
            && (TurnAt(t, pos).pos == end <==> end < 0x1_0000_0000)
            && (TurnAt(t, pos).pos > pos <==> end < 0x1_0000_0000 || size > 0xFFFF_FE00)
  {
    var size := Parse(t[pos..pos + 512]).size;
    SizeFits(t[pos..pos + 512]);
    PaddedIs(size);
    NextIs(pos + 512, Padded(size));
    assert size > 0xFFFF_FE00 ==> FullLength(size) >= 0x1_0000_0000;
  }

  lemma PaddedIs(size: nat)
    requires size < 0x1_0000_0000
    ensures Padded(size) == if size > 0xFFFF_FE00 then 0 else FullLength(size)
  {}

  lemma NextIs(p: nat, n: nat)
    requires p < 0x1_0000_0000 && n < 0x1_0000_0000
    ensures U32(p + n) == if p + n < 0x1_0000_0000 then p + n else p + n - 0x1_0000_0000
  {}

  lemma {:induction false} DigitsFit(f: seq<byte>, i: nat, v: nat)
    requires i <= |f| && v < 0x1_0000_0000
    ensures Digits(f, i, v) < 0x1_0000_0000
    decreases |f| - i
  {
    if i < |f| && OctalDigit(f[i]) {
      EightsFit(v);
      DigitsFit(f, i + 1, U32(8 * v) + (f[i] - 48));
    }
  }

  lemma EightsFit(v: nat)
    ensures U32(8 * v) <= 0xFFFF_FFF8
  {
    assert 0x1_0000_0000 == 8 * 0x2000_0000;
    var q := 8 * v / 0x1_0000_0000;
    assert U32(8 * v) == 8 * (v - q * 0x2000_0000);
  }

  /** Every size read fits 32 bits. */
  lemma SizeFits(h: seq<byte>)
    requires |h| == 512
    ensures Parse(h).size < 0x1_0000_0000
  {
    var f := h[124..136];
    DigitsFit(f, SkipBlanks(f, 0), 0);
  }

  /** From a whole block below 4 GiB the header is outside the archive exactly for the last such block. */
  lemma OffIff(t: seq<byte>, pos: nat)
    requires |t| < 0x1_0000_0000 && pos % 512 == 0 && pos < 0x1_0000_0000
    ensures TurnAt(t, pos).Off? <==> pos == 0xFFFF_FE00
  {}

  /** The bytes written come from the archive exactly when the 32-bit sum does not wrap into it. */
  lemma SpillIff(h: Head, t: seq<byte>, p: nat)
    requires p <= |t| < 0x1_0000_0000 && h.size < 0x1_0000_0000 && !h.isdir
    ensures ActFor(h, t, p).Spill? <==> 0x1_0000_0000 <= p + h.size <= 0x1_0000_0000 + |t|
    ensures ActFor(h, t, p).Write? <==> p + h.size <= |t|
  {}

  function Next(t: seq<byte>, pos: nat): Option<nat> {
    match TurnAt(t, pos) case Go(_, q) => Some(q) case _ => None
  }

  function NextIn(t: seq<byte>): Step { pos => Next(t, pos) }

  lemma {:induction false} NextShift(f: Step, x: nat, n: nat)
    requires f(x).Some?
    ensures After(f, x, n + 1) == After(f, f(x).value, n)
  {
    if n == 0 {
      assert After(f, x, 0) == Some(x);
    } else {
      NextShift(f, x, n - 1);
    }
  }

  lemma {:induction false} NoNext(f: Step, x: nat, n: nat)
    requires f(x).None? && n > 0
    ensures After(f, x, n).None?
  {
    if n == 1 { assert After(f, x, 0) == Some(x); } else { NoNext(f, x, n - 1); }
  }

  /** The walk is running after n turns exactly when n steps lead somewhere. */
  lemma {:induction false} RunningIff(t: seq<byte>, pos: nat, n: nat)
    ensures Extract(t, pos, n).end.Running? <==> After(NextIn(t), pos, n).Some?
    decreases n
  {
    hide TurnAt;
    if n > 0 {
      ExtractStep(t, pos, n, TurnAt(t, pos));
      if TurnAt(t, pos).Go? {
        NextShift(NextIn(t), pos, n - 1);
        RunningIff(t, TurnAt(t, pos).pos, n - 1);
      } else {
        NoNext(NextIn(t), pos, n);
      }
    }
  }

  lemma WrapAligned(x: nat)
    requires x % 512 == 0
    ensures U32(x) % 512 == 0
  {
    var a, q := x / 512, x / 0x1_0000_0000;
    assert U32(x) == x - q * 0x1_0000_0000 == 512 * (a - q * 0x80_0000);
  }

  lemma NextAligned(t: seq<byte>, pos: nat)
    requires pos % 512 == 0 && Next(t, pos).Some?
    ensures Next(t, pos).value % 512 == 0
  {
    hide U32, Padded, AllZero, Parse, ActFor;
    var size := Parse(t[pos..pos + 512]).size;
    WrapAligned(pos + 512 + Padded(size));
  }

  /** Every header is looked for at a whole block. */
  lemma {:induction false} Aligned(t: seq<byte>, n: nat)
    requires After(NextIn(t), 0, n).Some?
    ensures After(NextIn(t), 0, n).value % 512 == 0
  {
    hide TurnAt, Next;
    if n > 0 {
      Aligned(t, n - 1);
      NextAligned(t, After(NextIn(t), 0, n - 1).value);
    }
  }

  lemma FewHeaders(t: seq<byte>)
    ensures Few(NextIn(t), 0, 512, |t| / 512)
  {
    forall n: nat | After(NextIn(t), 0, n).Some? && NextIn(t)(After(NextIn(t), 0, n).value).Some?
      ensures After(NextIn(t), 0, n).value % 512 == 0 && After(NextIn(t), 0, n).value / 512 < |t| / 512
    {
      Aligned(t, n);
    }
  }

  lemma NextBelow(t: seq<byte>, n: nat)
    requires After(NextIn(t), 0, n).Some?
    ensures After(NextIn(t), 0, n).value < 0x1_0000_0000
  {}

  lemma WentOff(t: seq<byte>, n: nat)
    requires |t| < 0x1_0000_0000 && After(NextIn(t), 0, n).Some?
    ensures TurnAt(t, After(NextIn(t), 0, n).value).Off? <==> After(NextIn(t), 0, n) == Some(0xFFFF_FE00)
  {
    hide TurnAt, After;
    Aligned(t, n);
    NextBelow(t, n);
    OffIff(t, After(NextIn(t), 0, n).value);
  }

  /** The walk goes astray on its turn k. */
  ghost predicate StraysAt(t: seq<byte>, pos: nat, k: nat) {
    After(NextIn(t), pos, k).Some? && TurnAt(t, After(NextIn(t), pos, k).value).Off?
  }

  lemma {:induction false} AstrayAt(t: seq<byte>, pos: nat, n: nat)
    requires Extract(t, pos, n).end.Astray?
    ensures exists k: nat :: k < n && StraysAt(t, pos, k)
    decreases n
  {
    hide TurnAt;
    ExtractStep(t, pos, n, TurnAt(t, pos));
    if TurnAt(t, pos).Go? {
      AstrayAt(t, TurnAt(t, pos).pos, n - 1);
      var k: nat :| k < n - 1 && StraysAt(t, TurnAt(t, pos).pos, k);
      NextShift(NextIn(t), pos, k);
      assert StraysAt(t, pos, k + 1);
    } else {
      assert After(NextIn(t), pos, 0) == Some(pos);
      assert StraysAt(t, pos, 0);
    }
  }

  lemma {:induction false} AstrayFrom(t: seq<byte>, pos: nat, k: nat)
    requires StraysAt(t, pos, k)
    ensures Extract(t, pos, k + 1).end.Astray?
    decreases k
  {
    hide TurnAt;
    ExtractStep(t, pos, k + 1, TurnAt(t, pos));
    if k == 0 {
      assert After(NextIn(t), pos, 0) == Some(pos);
    } else if TurnAt(t, pos).Go? {
      NextShift(NextIn(t), pos, k - 1);
      AstrayFrom(t, TurnAt(t, pos).pos, k - 1);
    } else {
      NoNext(NextIn(t), pos, k);
    }
  }

  ghost predicate EndsAstray(t: seq<byte>, n: nat) { Extract(t, 0, n).end.Astray? }

  /** Turn k starts at this position. */
  ghost predicate Visits(t: seq<byte>, k: nat, pos: nat) { After(NextIn(t), 0, k) == Some(pos) }

  /** extract leaves the archive exactly when some turn goes on at the last block below 4 GiB. */
  lemma AstrayIff(t: seq<byte>)
    requires |t| < 0x1_0000_0000
    ensures (exists n: nat :: EndsAstray(t, n)) <==> exists k: nat :: Visits(t, k, 0xFFFF_FE00)
  {
    hide After, Extract, TurnAt, NextIn;
    if n: nat :| EndsAstray(t, n) {
      AstrayAt(t, 0, n);
      var k: nat :| k < n && StraysAt(t, 0, k);
      WentOff(t, k);
      assert Visits(t, k, 0xFFFF_FE00);
    }
    if k: nat :| Visits(t, k, 0xFFFF_FE00) {
      WentOff(t, k);
      AstrayFrom(t, 0, k);
      assert EndsAstray(t, k + 1);
    }
  }

  /** Turns i and j start at the same header. */
  ghost predicate SameHeader(t: seq<byte>, i: nat, j: nat) { Meets(NextIn(t), 0, i, j) }

  lemma EndlessWalk(t: seq<byte>)
    ensures Endless(NextIn(t), 0) <==> forall n: nat :: StillRunning(t, n)
  {
    hide TurnAt, Next, After, Extract;
    if Endless(NextIn(t), 0) {
      forall n: nat
        ensures StillRunning(t, n)
      {
        RunningIff(t, 0, n);
        assert After(NextIn(t), 0, n).Some?;
      }
    }
    if forall n: nat :: StillRunning(t, n) {
      forall n: nat
        ensures After(NextIn(t), 0, n).Some?
      {
        RunningIff(t, 0, n);
        assert StillRunning(t, n);
      }
    }
  }

  /**
    extract never returns exactly when it comes back to a header it has been at,
    which then happens within one turn for each block of the archive.
   */
  lemma WalkEndsIff(t: seq<byte>)
    ensures (forall n: nat :: StillRunning(t, n))
            <==> exists i: nat, j: nat :: i < j <= |t| / 512 && SameHeader(t, i, j)
    ensures (forall n: nat :: StillRunning(t, n)) <==> StillRunning(t, |t| / 512 + 1)
  {
    hide Endless, After, Few, Extract, TurnAt, Next, Meets, NextIn;
    EndlessWalk(t);
    FewHeaders(t);
    EndlessIff(NextIn(t), 0, 512, |t| / 512);
    RunningIff(t, 0, |t| / 512 + 1);
    if i: nat, j: nat :| i < j <= |t| / 512 && Meets(NextIn(t), 0, i, j) { assert SameHeader(t, i, j); }
  }

  // ---- walking undoes writing ----

  /** The part of a name that its field holds. */
  function Kept(name: seq<byte>): seq<byte> { if |name| < 99 then name else name[..99] }

  /** What extracting an entry's record does. */
  function ActOf(e: Entry): Act {
    var name := Kept(e.name);
    if e.Dir? || EndsInSlash(name) then Mkdir(name) else Write(name, e.data)
  }

  /** What the entry asks for. */
  function Intended(e: Entry): Act {
    match e case Dir(n) => Mkdir(n) case File(n, d) => Write(n, d)
  }

  /** An entry survives exactly when its name fits and a file's name does not end in a slash. */
  lemma FaithfulIff(e: Entry)
    ensures ActOf(e) == Intended(e) <==> |e.name| <= 99 && (e.Dir? || !EndsInSlash(e.name))
  {
    if |e.name| == 99 { assert e.name[..99] == e.name; }
  }

  lemma {:induction false} StringBack(s: seq<byte>, n: nat, i: nat)
    requires i <= n <= |s| && 0 !in s[..n] && (n == |s| || s[n] == 0)
    ensures StringLength(s, i) == n
    decreases n - i
  {
    if i < n {
      assert s[i] == s[..n][i];
      StringBack(s, n, i + 1);
    }
  }

  /** A header is read back up to the 99 bytes its name field holds. */
  lemma ParseBack(x: Head)
    requires CString(x.name) && x.size < 0x1_0000_0000
    ensures Parse(Header(x)) == Head(Kept(x.name), x.size, x.isdir || EndsInSlash(Kept(x.name)))
  {
    var h, name, sum := Header(x), Kept(x.name), Sum(Blank(x));
    var s := h[..100];
    assert forall i :: 0 <= i < |name| ==> s[i] == HeaderByte(x, sum, i) == name[i];
    assert s[..|name|] == name == h[..|name|];
    assert s[|name|] == HeaderByte(x, sum, |name|) == 0;
    StringBack(s, |name|, 0);
    var f := h[124..136];
    assert forall i :: 0 <= i < 12 ==> f[i] == HeaderByte(x, sum, 124 + i) == OctalByte(x.size, 12, i);
    assert f[..12] == Octal(x.size, 12);
    assert Pow8(11) == 8589934592;
    OctalBack(x.size, 12, f);
  }

  lemma HeaderNotZero(h: Head)
    ensures !AllZero(Header(h))
  {
    assert Header(h)[156] == HeaderByte(h, Sum(Blank(h)), 156) != 0;
  }

  lemma BodyPadded(e: Entry)
    requires EntryOk(e) && |Body(e)| < 0x1_0000_0000
    ensures |Body(e)| == Padded(HeadOf(e).size)
  {}

  /** The records of es stand in t from pos on, and two zero blocks end it. */
  ghost predicate RecordsAt(t: seq<byte>, pos: nat, es: seq<Entry>)
    decreases es
  {
    if es == [] then pos + 1024 == |t| && t[pos..] == Zeros(1024)
    else
      var n := 512 + |Body(es[0])|;
      pos + n <= |t| && t[pos..pos + n] == Record(es[0]) && RecordsAt(t, pos + n, es[1..])
  }

  lemma {:induction false} ArchiveAt(t: seq<byte>, pos: nat, es: seq<Entry>)
    requires pos <= |t| && t[pos..] == Records(es) + Zeros(1024)
    ensures RecordsAt(t, pos, es)
    decreases es
  {
    hide Record, Body;
    if es != [] {
      var r := Record(es[0]);
      var x := t[pos..];
      assert x == r + (Records(es[1..]) + Zeros(1024));
      assert t[pos..pos + |r|] == x[..|r|] == r;
      assert t[pos + |r|..] == x[|r|..] == Records(es[1..]) + Zeros(1024);
      ArchiveAt(t, pos + |r|, es[1..]);
    }
  }

  lemma RecordParts(t: seq<byte>, pos: nat, h: seq<byte>, b: seq<byte>)
    requires |h| == 512 && pos + 512 + |b| <= |t| && t[pos..pos + 512 + |b|] == h + b
    ensures t[pos..pos + 512] == h && t[pos + 512..pos + 512 + |b|] == b
  {
    var x := t[pos..pos + 512 + |b|];
    assert t[pos..pos + 512] == x[..512];
    assert t[pos + 512..pos + 512 + |b|] == x[512..];
  }

  lemma TurnParts(t: seq<byte>, pos: nat, x: seq<byte>, h: Head, q: nat)
    requires pos + 512 <= |t| && t[pos..pos + 512] == x && !AllZero(x) && Parse(x) == h
    requires q == pos + 512 + Padded(h.size) < 0x1_0000_0000 && |t| < 0x1_0000_0000
    ensures TurnAt(t, pos) == Go(ActFor(h, t, pos + 512), q)
  {}

  lemma ActBack(t: seq<byte>, p: nat, e: Entry)
    requires EntryOk(e) && p + |Body(e)| <= |t| < 0x1_0000_0000 && t[p..p + |Body(e)|] == Body(e)
    ensures var h := Parse(Header(HeadOf(e)));
            h.size == HeadOf(e).size && ActFor(h, t, p) == ActOf(e)
  {
    ParseBack(HeadOf(e));
    if e.File? {
      assert t[p..p + |e.data|] == t[p..p + |Body(e)|][..|e.data|] == e.data;
    }
  }

  /** One record is one turn of the walk. */
  lemma RecordTurn(t: seq<byte>, pos: nat, e: Entry)
    requires EntryOk(e) && pos + 512 + |Body(e)| <= |t| < 0x1_0000_0000
    requires t[pos..pos + 512 + |Body(e)|] == Record(e)
    ensures TurnAt(t, pos) == Go(ActOf(e), pos + 512 + |Body(e)|)
  {
    hide TurnAt, Parse, Header, Body, AllZero, Padded, ActFor, ActOf;
    RecordParts(t, pos, Header(HeadOf(e)), Body(e));
    HeaderNotZero(HeadOf(e));
    BodyPadded(e);
    ActBack(t, pos + 512, e);
    TurnParts(t, pos, Header(HeadOf(e)), Parse(Header(HeadOf(e))), pos + 512 + |Body(e)|);
  }

  function ActsOf(es: seq<Entry>): seq<Act> {
    if es == [] then [] else [ActOf(es[0])] + ActsOf(es[1..])
  }

  lemma ZeroStops(t: seq<byte>, pos: nat)
    requires pos + 1024 == |t| < 0x1_0000_0000 && t[pos..] == Zeros(1024)
    ensures TurnAt(t, pos) == Stop
  {
    assert t[pos..pos + 512] == t[pos..][..512];
  }

  lemma {:induction false} WalkBack(t: seq<byte>, pos: nat, es: seq<Entry>, n: nat)
    requires (forall e :: e in es ==> EntryOk(e)) && |t| < 0x1_0000_0000 && RecordsAt(t, pos, es) && n > |es|
    ensures Extract(t, pos, n) == Walk(ActsOf(es), Ended)
    decreases es
  {
    hide TurnAt, Record, Body, ActOf;
    if es == [] {
      ZeroStops(t, pos);
      ExtractStep(t, pos, n, Stop);
    } else {
      var q := pos + 512 + |Body(es[0])|;
      RecordTurn(t, pos, es[0]);
      ExtractStep(t, pos, n, Go(ActOf(es[0]), q));
      WalkBack(t, q, es[1..], n - 1);
    }
  }

  /** Every archive tar writes is walked back entry by entry, in order, and the walk ends. */
  lemma TarRoundTrip(es: seq<Entry>, n: nat)
    requires (forall e :: e in es ==> EntryOk(e)) && |Archive(es)| < 0x1_0000_0000 && n > |es|
    ensures Extract(Archive(es), 0, n) == Walk(ActsOf(es), Ended)
  {
    var t := Archive(es);
    assert t[0..] == t;
    ArchiveAt(t, 0, es);
    WalkBack(t, 0, es, n);
  }

  lemma {:induction false} FaithfulEach(es: seq<Entry>, i: nat)
    requires i < |es|
    ensures |ActsOf(es)| == |es| && ActsOf(es)[i] == ActOf(es[i])
    decreases es
  {
    if |es| > 1 { FaithfulEach(es[1..], if i == 0 then 0 else i - 1); }
  }

  /** The archive is read back as it was asked for exactly when every entry has a name tar can carry. */
  lemma ArchiveFaithfulIff(es: seq<Entry>, n: nat)
    requires (forall e :: e in es ==> EntryOk(e)) && |Archive(es)| < 0x1_0000_0000 && n > |es|
    ensures (|Extract(Archive(es), 0, n).acts| == |es|
             && forall i :: 0 <= i < |es| ==> Extract(Archive(es), 0, n).acts[i] == Intended(es[i]))
            <==> forall i :: 0 <= i < |es| ==> |es[i].name| <= 99 && (es[i].Dir? || !EndsInSlash(es[i].name))
  {
    TarRoundTrip(es, n);
    forall i | 0 <= i < |es|
      ensures |ActsOf(es)| == |es| && ActsOf(es)[i] == ActOf(es[i])
      ensures ActOf(es[i]) == Intended(es[i]) <==> |es[i].name| <= 99 && (es[i].Dir? || !EndsInSlash(es[i].name))
    {
      FaithfulEach(es, i);
      FaithfulIff(es[i]);
    }
  }

  /** A name of a hundred bytes loses its last, and a file whose name ends in a slash becomes a directory. */
  lemma CutName(name: seq<byte>, data: seq<byte>)
    requires |name| == 100 && (forall i :: 0 <= i < 100 ==> name[i] == 97) && |data| < 0x1000_0000
    ensures Extract(Archive([File(name, data)]), 0, 2) == Walk([Write(name[..99], data)], Ended)
    ensures Extract(Archive([File([97, 47], data)]), 0, 2) == Walk([Mkdir([97, 47])], Ended)
  {
    OneEntry(File(name, data));
    OneEntry(File([97, 47], data));
  }

  lemma OneEntry(e: Entry)
    requires EntryOk(e) && |Body(e)| < 0x2000_0000
    ensures Extract(Archive([e]), 0, 2) == Walk([ActOf(e)], Ended)
  {
    assert [e][1..] == [] && Records([]) == [] && Records([e]) == Record(e) + [];
    assert ActsOf([]) == [] && ActsOf([e]) == [ActOf(e)] + ActsOf([e][1..]);
    TarRoundTrip([e], 2);
  }

  // ---- sizes that wrap ----

  /** The one-header archive of a file that claims size bytes. */
  function Claiming(size: nat): (t: seq<byte>)
    ensures |t| == 512
  {
    Header(Head([97], size, false))
  }

  lemma ClaimingTurn(size: nat)
    requires size < 0x1_0000_0000
    ensures TurnAt(Claiming(size), 0)
            == Go(ActFor(Head([97], size, false), Claiming(size), 512), U32(512 + Padded(size)))
  {
    var t, x := Claiming(size), Head([97], size, false);
    ParseBack(x);
    HeaderNotZero(x);
    assert t[0..0 + 512] == t;
  }

  lemma NoTurns(t: seq<byte>, pos: nat)
    ensures Extract(t, pos, 0) == Walk([], Running)
  {}

  /**
    A size field of 37777777000 sends the walk back to its own header for ever, and
    passes the write test each time.
   */
  lemma {:induction false} EndlessArchive(n: nat)
    ensures Extract(Claiming(0xFFFF_FE00), 0, n).end.Running?
    ensures TurnAt(Claiming(0xFFFF_FE00), 0) == Go(Spill([97], 0xFFFF_FE00), 0)
  {
    hide TurnAt, Claiming, Extract;
    ClaimingTurn(0xFFFF_FE00);
    if n == 0 {
      NoTurns(Claiming(0xFFFF_FE00), 0);
    } else {
      ExtractStep(Claiming(0xFFFF_FE00), 0, n, Go(Spill([97], 0xFFFF_FE00), 0));
      EndlessArchive(n - 1);
    }
  }

  lemma LastBlock(t: seq<byte>)
    requires |t| < 0x1_0000_0000
    ensures TurnAt(t, 0xFFFF_FE00) == Off
  {}

  /** A size field of 37777777777 pads to nothing: the walk goes on inside the data the header claims. */
  lemma SelfReadingArchive()
    ensures Padded(0xFFFF_FFFF) == 0 && TurnAt(Claiming(0xFFFF_FFFF), 0) == Go(Spill([97], 0xFFFF_FFFF), 512)
  {
    hide TurnAt, Claiming;
    ClaimingTurn(0xFFFF_FFFF);
  }

  /** One block less, and the next header is looked for before the archive. */
  lemma AstrayArchive(n: nat)
    requires n >= 2
    ensures Extract(Claiming(0xFFFF_FC00), 0, n) == Walk([Cut([97])], Astray)
  {
    hide TurnAt, Claiming, Extract;
    var t := Claiming(0xFFFF_FC00);
    ClaimingTurn(0xFFFF_FC00);
    ExtractStep(t, 0, n, Go(Cut([97]), 0xFFFF_FE00));
    LastBlock(t);
    ExtractStep(t, 0xFFFF_FE00, n - 1, Off);
  }
}
