/** Byte memory with little-endian 32-bit words. */
module Memory {
  import opened Bits

  /** Byte k of a word. */
  function LeByte(v: nat, k: nat): byte {
    if k == 0 then v % 256
    else if k == 1 then v / 256 % 256
    else if k == 2 then v / 256 / 256 % 256
    else v / 256 / 256 / 256 % 256
  }

  function Join(a: byte, b: byte, c: byte, d: byte): (r: nat)
    ensures r < 0x1_0000_0000
  {
    (a as int) + 256 * (b as int) + 65536 * (c as int) + 16777216 * (d as int)
  }

  lemma JoinBytes(v: nat)
    requires v < 0x1_0000_0000
    ensures Join(LeByte(v, 0), LeByte(v, 1), LeByte(v, 2), LeByte(v, 3)) == v
  {
    var a := v / 256;
    var b := a / 256;
    var c := b / 256;
    Base256(v, a, b, c, v % 256, a % 256, b % 256, c % 256);
  }

  lemma Base256(v: nat, a: nat, b: nat, c: nat, p: nat, q: nat, r: nat, s: nat)
    requires v == p + 256 * a && a == q + 256 * b && b == r + 256 * c && c == s
    ensures v == p + 256 * q + 65536 * r + 16777216 * s
  {}

  /** The word at address x; zero where memory ends too soon. */
  function Word(mem: seq<byte>, x: nat): (r: nat)
    ensures r < 0x1_0000_0000
    decreases mem, x
  {
    if |mem| < x + 4 then 0
    else if x == 0 then Join(mem[0], mem[1], mem[2], mem[3])
    else Word(mem[1..], x - 1)
  }

  lemma {:induction false} WordAt(mem: seq<byte>, x: nat)
    requires x + 4 <= |mem|
    ensures Word(mem, x) == Join(mem[x], mem[x + 1], mem[x + 2], mem[x + 3])
    decreases mem, x
  {
    if x > 0 { WordAt(mem[1..], x - 1); }
  }

  /** Words are stored least significant byte first. */
  lemma WordDigits(mem: seq<byte>, x: nat)
    requires x + 4 <= |mem|
    ensures var w := Word(mem, x);
            && w % 256 == mem[x] && w / 256 % 256 == mem[x + 1]
            && w / 65536 % 256 == mem[x + 2] && w / 16777216 == mem[x + 3]
  {
    WordAt(mem, x);
    var a, b, c, d := mem[x] as int, mem[x + 1] as int, mem[x + 2] as int, mem[x + 3] as int;
    By256(Word(mem, x), b + 256 * c + 65536 * d, a);
    By65536(Word(mem, x), c + 256 * d, a + 256 * b);
    By16777216(Word(mem, x), d, a + 256 * b + 65536 * c);
    By256(b + 256 * c + 65536 * d, c + 256 * d, b);
    By256(c + 256 * d, d, c);
  }

  lemma By256(v: nat, q: nat, r: nat)
    requires v == 256 * q + r && r < 256
    ensures v / 256 == q && v % 256 == r
  {}

  lemma By65536(v: nat, q: nat, r: nat)
    requires v == 65536 * q + r && r < 65536
    ensures v / 65536 == q
  {}

  lemma By16777216(v: nat, q: nat, r: nat)
    requires v == 16777216 * q + r && r < 16777216
    ensures v / 16777216 == q
  {}

  lemma ZeroWord(mem: seq<byte>, x: nat)
    requires x + 4 <= |mem| && forall k :: x <= k < x + 4 ==> mem[k] == 0
    ensures Word(mem, x) == 0
  {
    WordAt(mem, x);
  }

  /** A word is determined by its four bytes. */
  lemma WordKept(mem: seq<byte>, mem': seq<byte>, y: nat)
    requires y + 4 <= |mem| && y + 4 <= |mem'| && forall k :: y <= k < y + 4 ==> mem'[k] == mem[k]
    ensures Word(mem', y) == Word(mem, y)
  {
    WordAt(mem, y);
    WordAt(mem', y);
  }

  /** mem' is mem after storing v at x. */
  ghost predicate Wrote(mem: seq<byte>, mem': seq<byte>, x: nat, v: nat) {
    && x + 4 <= |mem| == |mem'| && Word(mem', x) == v
    && forall k {:trigger mem'[k]} :: 0 <= k < |mem| && !(x <= k < x + 4) ==> mem'[k] == mem[k]
  }

  method Store(mem: seq<byte>, x: nat, v: nat) returns (mem': seq<byte>)
    requires x + 4 <= |mem| && v < 0x1_0000_0000
    ensures Wrote(mem, mem', x, v)
  {
    mem' := mem[x := LeByte(v, 0)][x + 1 := LeByte(v, 1)][x + 2 := LeByte(v, 2)][x + 3 := LeByte(v, 3)];
    WordAt(mem', x);
    JoinBytes(v);
  }
}
