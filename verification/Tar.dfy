/** USTAR archives as tar.c writes and walks them. */
module Tar {
  import opened Bits
  import opened Buffer

  // ---- octal fields ----

  /** v >> 3k. */
  function High(v: nat, k: nat): nat {
    if k == 0 then v else High(v, k - 1) / 8
  }

  function OctalByte(v: nat, w: nat, i: nat): byte
    requires i < w
  {
    if i == w - 1 then 0 else 48 + High(v, w - 2 - i) % 8
  }

  /** What wr_octal leaves in a field of w bytes. */
  function Octal(v: nat, w: nat): (r: seq<byte>)
    ensures |r| == w
  {
    seq(w, i requires 0 <= i < w => OctalByte(v, w, i))
  }

  function SkipBlanks(f: seq<byte>, i: nat): (r: nat)
    requires i <= |f|
    ensures i <= r <= |f|
    decreases |f| - i
  {
    if i < |f| && (f[i] == 32 || f[i] == 0) then SkipBlanks(f, i + 1) else i
  }

  predicate OctalDigit(b: byte) { 48 <= b <= 55 }

  function Digits(f: seq<byte>, i: nat, v: nat): (r: nat)
    requires i <= |f|
    decreases |f| - i
  {
    if i < |f| && OctalDigit(f[i]) then Digits(f, i + 1, U32(8 * v) + (f[i] - 48)) else v
  }

  /** What rd_octal makes of a field. */
  function OctalValue(f: seq<byte>): nat {
    Digits(f, SkipBlanks(f, 0), 0)
  }

  function Pow8(k: nat): nat { if k == 0 then 1 else 8 * Pow8(k - 1) }

  lemma {:induction false} HighHalf(v: nat, k: nat)
    ensures High(v / 8, k) == High(v, k + 1)
  {
    if k > 0 { HighHalf(v, k - 1); }
  }

  lemma {:induction false} HighZero(v: nat, k: nat)
    requires v < Pow8(k)
    ensures High(v, k) == 0
  {
    if k > 0 {
      HighZero(v / 8, k - 1);
      HighHalf(v, k - 1);
    }
  }

  lemma {:induction false} HighBelow(v: nat, k: nat)
    ensures High(v, k) <= v
  {
    if k > 0 { HighBelow(v, k - 1); }
  }

  lemma {:induction false} DigitsBack(v: nat, w: nat, f: seq<byte>, i: nat)
    requires v < 0x1_0000_0000 && i < w <= |f| && f[..w] == Octal(v, w)
    ensures Digits(f, i, High(v, w - 1 - i)) == v
    decreases w - i
  {
    assert f[i] == f[..w][i] == OctalByte(v, w, i);
    if i < w - 1 {
      HighBelow(v, w - 2 - i);
      DigitsBack(v, w, f, i + 1);
    }
  }

  /** A number that fits its field is read back, whatever follows the field's NUL. */
  lemma OctalBack(v: nat, w: nat, f: seq<byte>)
    requires v < 0x1_0000_0000 && 2 <= w <= |f| && v < Pow8(w - 1) && f[..w] == Octal(v, w)
    ensures OctalValue(f) == v
  {
    assert f[0] == f[..w][0] == OctalByte(v, w, 0);
    HighZero(v, w - 1);
    DigitsBack(v, w, f, 0);
  }

  // ---- headers ----

  /** C strings: no byte is zero. */
  predicate CString(s: seq<byte>) { 0 !in s }

  datatype Head = Head(name: seq<byte>, size: nat, isdir: bool)

  /** Byte i of the header with its checksum field still blank. */
  function BlankByte(h: Head, i: nat): byte {
    if i < 99 then (if i < |h.name| then h.name[i] else 0)
    else if i < 100 then 0
    else if i < 108 then OctalByte(if h.isdir then 493 else 420, 8, i - 100)
    else if i < 116 then OctalByte(0, 8, i - 108)
    else if i < 124 then OctalByte(0, 8, i - 116)
    else if i < 136 then OctalByte(h.size, 12, i - 124)
    else if i < 148 then OctalByte(0, 12, i - 136)
    else if i < 156 then 32
    else if i == 156 then (if h.isdir then 53 else 48)
    else if i < 257 then 0
    else if i == 257 then 117 else if i == 258 then 115 else if i == 259 then 116
    else if i == 260 then 97 else if i == 261 then 114 else if i == 262 then 0
    else if i < 265 then 48
    else 0
  }

  function Blank(h: Head): (r: seq<byte>)
    ensures |r| == 512
  {
    seq(512, i requires 0 <= i < 512 => BlankByte(h, i))
  }

  function Sum(s: seq<byte>): nat {
    if s == [] then 0 else Sum(s[..|s| - 1]) + (s[|s| - 1] as int)
  }

  function HeaderByte(h: Head, sum: nat, i: nat): byte {
    if 148 <= i < 155 then OctalByte(sum, 7, i - 148) else BlankByte(h, i)
  }

  /** The header hdr_make builds. */
  function Header(h: Head): (r: seq<byte>)
    ensures |r| == 512
  {
    seq(512, i requires 0 <= i < 512 => HeaderByte(h, Sum(Blank(h)), i))
  }

  lemma {:induction false} SumBound(s: seq<byte>)
    ensures Sum(s) <= 255 * |s|
  {
    if s != [] { SumBound(s[..|s| - 1]); }
  }

  /** A header with its checksum field taken as spaces. */
  function Spaced(h: seq<byte>): seq<byte>
    requires |h| == 512
  {
    h[..148] + [32, 32, 32, 32, 32, 32, 32, 32] + h[156..]
  }

  /** The stored checksum is the byte sum of the header with its checksum field taken as spaces. */
  lemma Checksum(h: Head)
    ensures OctalValue(Header(h)[148..156]) == Sum(Spaced(Header(h)))
  {
    var sum, f := Sum(Blank(h)), Header(h)[148..156];
    SumBound(Blank(h));
    assert Pow8(6) == 262144;
    assert f[..7] == Octal(sum, 7);
    OctalBack(sum, 7, f);
    assert Spaced(Header(h)) == Blank(h);
  }

  lemma FieldIs(h: Head, at: nat, w: nat, v: nat)
    requires 2 <= w && at + w <= 512 && v < 0x1_0000_0000 && v < Pow8(w - 1)
    requires forall i :: 0 <= i < w ==> Header(h)[at + i] == OctalByte(v, w, i)
    ensures OctalValue(Header(h)[at..at + w]) == v && Header(h)[at + w - 1] == 0
  {
    hide Header, OctalByte, OctalValue;
    var f := Header(h)[at..at + w];
    assert forall i :: 0 <= i < w ==> f[i] == Header(h)[at + i];
    assert f[..w] == Octal(v, w);
    OctalBack(v, w, f);
    LastOctal(v, w);
  }

  lemma LastOctal(v: nat, w: nat)
    requires w >= 1
    ensures OctalByte(v, w, w - 1) == 0
  {}

  lemma HeaderAt(h: Head)
    ensures forall i {:trigger Header(h)[i]} :: 0 <= i < 512 ==> Header(h)[i] == HeaderByte(h, Sum(Blank(h)), i)
  {}

  lemma FieldAt(h: Head, at: nat, w: nat, v: nat)
    requires (at == 100 && w == 8 && v == if h.isdir then 493 else 420) || (at == 108 && w == 8 && v == 0)
             || (at == 116 && w == 8 && v == 0) || (at == 124 && w == 12 && v == h.size)
             || (at == 136 && w == 12 && v == 0)
    ensures forall i :: 0 <= i < w ==> Header(h)[at + i] == OctalByte(v, w, i)
  {
    hide OctalByte, Sum, Header;
    HeaderAt(h);
  }

  /**
    The header's fields: mode 0755 for a directory and 0644 for a file, owner and
    group 0, the size, time 0, type 5 or 0, magic ustar and version 00, and zeros.
   */
  lemma HeaderFields(h: Head)
    requires h.size < 0x1_0000_0000
    ensures var x := Header(h);
            && OctalValue(x[100..108]) == (if h.isdir then 493 else 420) && OctalValue(x[108..116]) == 0
            && OctalValue(x[116..124]) == 0 && OctalValue(x[124..136]) == h.size && OctalValue(x[136..148]) == 0
            && x[156] == (if h.isdir then 53 else 48)
            && x[257..265] == [117, 115, 116, 97, 114, 0, 48, 48]
            && forall i :: 157 <= i < 257 || 265 <= i < 512 ==> x[i] == 0
  {
    hide OctalValue, Header;
    assert Pow8(7) == 2097152 && Pow8(11) == 8589934592;
    FieldAt(h, 100, 8, if h.isdir then 493 else 420);
    FieldIs(h, 100, 8, if h.isdir then 493 else 420);
    FieldAt(h, 108, 8, 0);
    FieldIs(h, 108, 8, 0);
    FieldAt(h, 116, 8, 0);
    FieldIs(h, 116, 8, 0);
    FieldAt(h, 124, 12, h.size);
    FieldIs(h, 124, 12, h.size);
    FieldAt(h, 136, 12, 0);
    FieldIs(h, 136, 12, 0);
    PlainFields(h);
  }

  lemma Eight(s: seq<byte>, p: nat)
    requires p + 8 <= |s|
    ensures s[p..p + 8] == [s[p], s[p + 1], s[p + 2], s[p + 3], s[p + 4], s[p + 5], s[p + 6], s[p + 7]]
  {}

  lemma PlainFields(h: Head)
    ensures var x := Header(h);
            && x[156] == (if h.isdir then 53 else 48) && x[257..265] == [117, 115, 116, 97, 114, 0, 48, 48]
            && forall i :: 157 <= i < 257 || 265 <= i < 512 ==> x[i] == 0
  {
    hide OctalByte, Sum, Header;
    HeaderAt(h);
    Eight(Header(h), 257);
  }

  /** Sums add up, so a sum counts each byte once. */
  lemma {:induction false} SumAdds(a: seq<byte>, b: seq<byte>)
    ensures Sum(a + b) == Sum(a) + Sum(b) && (|b| == 1 ==> Sum(b) == b[0])
    decreases b
  {
    if b == [] {
      assert a + b == a;
    } else {
      var n := |b| - 1;
      assert (a + b)[..|a + b| - 1] == a + b[..n];
      SumAdds(a, b[..n]);
      assert |b| == 1 ==> b[..n] == [];
    }
  }

  /** wr_octal, writing digits from the right. */
  method WrOctal(h: array<byte>, at: nat, w: nat, v: nat)
    requires 1 <= w && at + w <= h.Length
    modifies h
    ensures forall k :: at <= k < at + w ==> h[k] == OctalByte(v, w, k - at)
    ensures forall k :: 0 <= k < at || at + w <= k < h.Length ==> h[k] == old(h[k])
  {
    h[at + w - 1] := 0;
    var i, x := w - 2, v;
    while i >= 0
      invariant -1 <= i <= w - 2 && x == High(v, w - 2 - i)
      invariant forall k :: 0 <= k < at || at + w <= k < h.Length ==> h[k] == old(h[k])
      invariant forall k :: at + i < k < at + w ==> h[k] == OctalByte(v, w, k - at)
    {
      h[at + i] := 48 + x % 8;
      x := x / 8;
      i := i - 1;
    }
  }

  method WrBytes(h: array<byte>, at: nat, s: seq<byte>)
    requires at + |s| <= h.Length
    modifies h
    ensures forall k :: at <= k < at + |s| ==> h[k] == s[k - at]
    ensures forall k :: 0 <= k < at || at + |s| <= k < h.Length ==> h[k] == old(h[k])
  {
    for i := 0 to |s|
      invariant forall k :: at <= k < at + i ==> h[k] == s[k - at]
      invariant forall k :: 0 <= k < at || at + i <= k < h.Length ==> h[k] == old(h[k])
    {
      h[at + i] := s[i];
    }
  }

  /** hdr_make up to the blank checksum field. */
  method Fill(h: array<byte>, name: seq<byte>, size: nat, isdir: bool)
    requires h.Length == 512 && CString(name)
    modifies h
    ensures h[..] == Blank(Head(name, size, isdir))
  {
    WrBytes(h, 0, Zeros(512));
    WrBytes(h, 0, if |name| < 99 then name else name[..99]);
    WrOctal(h, 100, 8, if isdir then 493 else 420);
    WrOctal(h, 108, 8, 0);
    WrOctal(h, 116, 8, 0);
    WrOctal(h, 124, 12, size);
    WrOctal(h, 136, 12, 0);
    h[156] := if isdir then 53 else 48;
    WrBytes(h, 257, [117, 115, 116, 97, 114, 0]);
    h[263], h[264] := 48, 48;
    WrBytes(h, 148, [32, 32, 32, 32, 32, 32, 32, 32]);
    ghost var x := Head(name, size, isdir);
    assert forall i :: 0 <= i < 512 ==> h[i] == BlankByte(x, i);
  }

  /** hdr_make. */
  method HdrMake(h: array<byte>, name: seq<byte>, size: nat, isdir: bool)
    requires h.Length == 512 && CString(name)
    modifies h
    ensures h[..] == Header(Head(name, size, isdir))
  {
    Fill(h, name, size, isdir);
    ghost var x := Head(name, size, isdir);
    ghost var blank := h[..];
    var sum, i := 0, 0;
    while i < 512
      invariant 0 <= i <= 512 && sum == Sum(h[..i]) && h[..] == blank
      modifies {}
    {
      assert h[..i + 1][..i] == h[..i];
      sum := sum + (h[i] as int);
      i := i + 1;
    }
    assert h[..512] == h[..];
    WrOctal(h, 148, 7, sum);
    h[155] := 32;
    assert forall i :: 0 <= i < 512 && !(148 <= i < 155) ==> h[i] == blank[i] == BlankByte(x, i);
    assert forall i :: 0 <= i < 512 ==> h[i] == HeaderByte(x, Sum(Blank(x)), i);
  }

  method RdOctal(f: seq<byte>) returns (v: nat)
    ensures v == OctalValue(f)
  {
    var i := 0;
    while i < |f| && (f[i] == 32 || f[i] == 0)
      invariant 0 <= i <= |f| && SkipBlanks(f, i) == SkipBlanks(f, 0)
    {
      i := i + 1;
    }
    v := 0;
    while i < |f| && OctalDigit(f[i])
      invariant 0 <= i <= |f| && Digits(f, i, v) == OctalValue(f)
    {
      v := U32(8 * v) + (f[i] - 48);
      i := i + 1;
    }
  }

  // ---- archives ----

  datatype Entry = Dir(name: seq<byte>) | File(name: seq<byte>, data: seq<byte>)

  predicate EntryOk(e: Entry) {
    CString(e.name) && (e.File? ==> |e.data| < 0x1_0000_0000)
  }

  /** The zeros after a file's data, up to a whole block. */
  function Pad(n: nat): (r: nat)
    ensures r < 512 && (n + r) % 512 == 0
  {
    (512 - n % 512) % 512
  }

  function HeadOf(e: Entry): Head {
    match e case Dir(n) => Head(n, 0, true) case File(n, d) => Head(n, |d|, false)
  }

  function Body(e: Entry): seq<byte> {
    match e case Dir(_) => [] case File(_, d) => d + Zeros(Pad(|d|))
  }

  function Record(e: Entry): (r: seq<byte>)
    ensures |r| == 512 + |Body(e)|
  {
    Header(HeadOf(e)) + Body(e)
  }

  function Records(es: seq<Entry>): seq<byte> {
    if es == [] then [] else Record(es[0]) + Records(es[1..])
  }

  /** Everything tar writes: the records and two zero blocks. */
  function Archive(es: seq<Entry>): seq<byte> {
    Records(es) + Zeros(1024)
  }

  /** The name add_path gives a directory: a slash is added where it fits. */
  function DirName(path: seq<byte>): (r: seq<byte>)
    requires CString(path)
    ensures CString(r) && |r| <= 99
  {
    var n := if |path| < 99 then path else path[..99];
    if n != [] && n[|n| - 1] != 47 && |n| < 99 then n + [47] else n
  }

  /** A short path gets a slash unless it has one; of a long one the first 99 bytes stay. */
  lemma DirNameIs(path: seq<byte>)
    requires CString(path)
    ensures path == [] ==> DirName(path) == []
    ensures 0 < |path| < 99 && path[|path| - 1] != 47 ==> DirName(path) == path + [47]
    ensures 0 < |path| < 99 && path[|path| - 1] == 47 ==> DirName(path) == path
    ensures |path| >= 99 ==> DirName(path) == path[..99]
  {}

  /** A file's record: its header, its data, and fewer than 512 zeros up to a whole block. */
  lemma FileRecord(name: seq<byte>, data: seq<byte>)
    ensures var r, n := Record(File(name, data)), |data|;
            && |r| % 512 == 0 && 512 + n <= |r| < 512 + n + 512
            && r[..512] == Header(Head(name, n, false)) && r[512..512 + n] == data
            && forall i :: 512 + n <= i < |r| ==> r[i] == 0
  {
    hide Header;
    var h, z, r := Header(Head(name, |data|, false)), Zeros(Pad(|data|)), Record(File(name, data));
    assert r == h + (data + z);
    assert forall i :: 512 + |data| <= i < |r| ==> r[i] == z[i - 512 - |data|];
  }

  lemma DirRecord(name: seq<byte>)
    ensures Record(Dir(name)) == Header(Head(name, 0, true))
  {
    hide Header;
  }

  /** An archive: the records in order, and 1024 zeros. */
  lemma ArchiveLayout(es: seq<Entry>, e: Entry)
    ensures Archive([]) == Zeros(1024) && Archive([e] + es) == Record(e) + Archive(es)
  {
    hide Record;
    assert ([e] + es)[1..] == es;
    assert Records([]) == [] && [] + Zeros(1024) == Zeros(1024);
    assert Record(e) + Records(es) + Zeros(1024) == Record(e) + (Records(es) + Zeros(1024));
  }

  /** The directory half of add_path, without its children. */
  method AddDir(b: Buf, path: seq<byte>)
    requires b.Valid() && CString(path) && b.len + 512 <= 0x8000_0000
    modifies b, b.p
    ensures b.Valid() && (b.p == old(b.p) || fresh(b.p))
    ensures b.Contents() == old(b.Contents()) + Record(Dir(DirName(path)))
  {
    var h := new byte[512];
    HdrMake(h, DirName(path), 0, true);
    b.Put(h[..]);
    assert Body(Dir(DirName(path))) == [];
    assert Record(Dir(DirName(path))) == h[..];
  }

  /** The file half of add_path. */
  method AddFile(b: Buf, path: seq<byte>, data: seq<byte>)
    requires b.Valid() && CString(path) && b.len + |Record(File(path, data))| <= 0x8000_0000
    modifies b, b.p
    ensures b.Valid() && (b.p == old(b.p) || fresh(b.p))
    ensures b.Contents() == old(b.Contents()) + Record(File(path, data))
  {
    hide Header, Settles, Doubled;
    var h := new byte[512];
    HdrMake(h, path, |data|, false);
    b.Put(h[..]);
    b.Put(data);
    var pad := (512 - |data| % 512) % 512;
    if pad > 0 { b.Put(Zeros(pad)); }
    assert Record(File(path, data)) == Header(Head(path, |data|, false)) + (data + Zeros(pad));
    assert b.Contents() == old(b.Contents()) + Record(File(path, data));
  }
}
