/** tar c and then tar x: what is packed is what is unpacked. */
module TarRuns {
  import opened Bits
  import opened Buffer
  import opened Tar
  import opened Untar

  /** What the walk over the command line's paths meets, in order. */
  datatype Source = Folder(path: seq<byte>) | Plain(path: seq<byte>, data: seq<byte>)

  predicate AllPaths(xs: seq<Source>) { forall i :: 0 <= i < |xs| ==> CString(xs[i].path) }

  function EntryOf(x: Source): Entry
    requires CString(x.path)
  {
    match x case Folder(path) => Dir(DirName(path)) case Plain(path, data) => File(path, data)
  }

  function Entries(xs: seq<Source>): (r: seq<Entry>)
    requires AllPaths(xs)
    ensures |r| == |xs|
  {
    if xs == [] then [] else [EntryOf(xs[0])] + Entries(xs[1..])
  }

  lemma {:induction false} RecordsLength(es: seq<Entry>)
    ensures |Records(es)| >= 512 * |es|
    decreases es
  {
    if es != [] { RecordsLength(es[1..]); }
  }

  lemma {:induction false} EntriesOk(xs: seq<Source>)
    requires AllPaths(xs) && |Records(Entries(xs))| < 0x1_0000_0000
    ensures forall e :: e in Entries(xs) ==> EntryOk(e)
    decreases xs
  {
    if xs != [] {
      var e := EntryOf(xs[0]);
      assert Entries(xs)[1..] == Entries(xs[1..]);
      assert |Record(e)| <= |Records(Entries(xs))|;
      EntriesOk(xs[1..]);
    }
  }

  /** What is still to be written once i sources are. */
  function Rest(xs: seq<Source>, i: nat): seq<byte>
    requires AllPaths(xs) && i <= |xs|
  {
    Archive(Entries(xs[i..]))
  }

  lemma RestNext(xs: seq<Source>, i: nat)
    requires AllPaths(xs) && i < |xs|
    ensures Rest(xs, i) == Record(EntryOf(xs[i])) + Rest(xs, i + 1)
  {
    assert xs[i..][1..] == xs[i + 1..];
    var es := Entries(xs[i..]);
    assert es[1..] == Entries(xs[i + 1..]);
  }

  /** One path of add_path. */
  method AddSource(b: Buf, x: Source)
    requires b.Valid() && CString(x.path) && b.len + |Record(EntryOf(x))| <= 0x8000_0000
    modifies b, b.p
    ensures b.Valid() && (b.p == old(b.p) || fresh(b.p))
    ensures b.Contents() == old(b.Contents()) + Record(EntryOf(x))
  {
    match x
    case Folder(path) => AddDir(b, path);
    case Plain(path, data) => AddFile(b, path, data);
  }

  /** The paths one after the other, and two zero blocks. */
  method Create(b: Buf, xs: seq<Source>)
    requires b.Valid() && AllPaths(xs) && b.len + |Archive(Entries(xs))| <= 0x8000_0000
    modifies b, b.p
    ensures b.Valid() && b.Contents() == old(b.Contents()) + Archive(Entries(xs))
  {
    hide Record, Records, Archive;
    ghost var goal := b.Contents() + Rest(xs, 0);
    assert xs[0..] == xs;
    var i := 0;
    while i < |xs|
      invariant 0 <= i <= |xs| && b.Valid() && (b.p == old(b.p) || fresh(b.p)) && goal == b.Contents() + Rest(xs, i)
    {
      RestNext(xs, i);
      ghost var before := b.Contents();
      AddSource(b, xs[i]);
      assert before + (Record(EntryOf(xs[i])) + Rest(xs, i + 1)) == (before + Record(EntryOf(xs[i]))) + Rest(xs, i + 1);
      i := i + 1;
    }
    RestEnd(xs);
    b.Put(Zeros(1024));
  }

  lemma RestEnd(xs: seq<Source>)
    requires AllPaths(xs)
    ensures Rest(xs, |xs|) == Zeros(1024)
  {}

  /** Packing any sources and unpacking the archive does what their entries say, in order, and ends. */
  method CreateAndExtract(xs: seq<Source>) returns (w: Walk)
    requires AllPaths(xs) && |Archive(Entries(xs))| <= 0x8000_0000
    ensures w == Walk(ActsOf(Entries(xs)), Ended)
  {
    hide Extract, Settles, Doubled;
    var b := new Buf();
    Create(b, xs);
    var t := b.p[..b.len];
    assert [] + Archive(Entries(xs)) == Archive(Entries(xs));
    w := ExtractAll(t);
    EntriesOk(xs);
    RecordsLength(Entries(xs));
    TarRoundTrip(Entries(xs), |t| / 512 + 1);
  }
}
