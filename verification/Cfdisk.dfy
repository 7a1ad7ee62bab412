/** cfdisk.c's table editing on the bytes of the boot sector. */
module Cfdisk {
  import opened Bits
  import opened Memory
  import opened Partition

  function EntryAt(i: nat): nat { 446 + 16 * i }

  function PartAt(mbr: seq<byte>, i: nat): Part {
    Part(Word(mbr, EntryAt(i) + 8), Word(mbr, EntryAt(i) + 12))
  }

  /** The four entries of a boot sector. */
  function Table(mbr: seq<byte>): (ps: seq<Part>)
    ensures TableOk(ps)
  {
    seq(4, i requires 0 <= i < 4 => PartAt(mbr, i))
  }

  /** Bytes outside entry i are the same in both. */
  ghost predicate SameOutside(a: seq<byte>, b: seq<byte>, i: nat) {
    |a| == |b| == 512 && forall k {:trigger b[k]} :: 0 <= k < 512 && !(EntryAt(i) <= k < EntryAt(i) + 16) ==>
      b[k] == a[k]
  }

  lemma OtherEntries(a: seq<byte>, b: seq<byte>, i: nat)
    requires i < 4 && SameOutside(a, b, i)
    ensures Table(b) == Table(a)[i := PartAt(b, i)]
  {
    forall j | 0 <= j < 4 && j != i ensures PartAt(b, j) == PartAt(a, j) {
      WordKept(a, b, EntryAt(j) + 8);
      WordKept(a, b, EntryAt(j) + 12);
    }
  }

  /** Where the table stands: start and count of entry i at 454 + 16i and 458 + 16i. */
  lemma TableAt(mbr: seq<byte>, i: nat)
    requires i < 4
    ensures Table(mbr)[i] == Part(Word(mbr, 454 + 16 * i), Word(mbr, 458 + 16 * i))
  {}

  /** The sixteen bytes of entry i. */
  function Entry(mbr: seq<byte>, i: nat): (r: seq<byte>)
    requires |mbr| == 512 && i < 4
    ensures |r| == 16
  {
    mbr[446 + 16 * i..462 + 16 * i]
  }

  lemma EntryWords(mbr: seq<byte>, i: nat)
    requires |mbr| == 512 && i < 4
    ensures Word(Entry(mbr, i), 8) == Word(mbr, 454 + 16 * i) && Word(Entry(mbr, i), 12) == Word(mbr, 458 + 16 * i)
  {
    var e := Entry(mbr, i);
    WordAt(e, 8);
    WordAt(e, 12);
    WordAt(mbr, 454 + 16 * i);
    WordAt(mbr, 458 + 16 * i);
  }

  lemma FrontIs(mbr: seq<byte>, i: nat)
    requires |mbr| == 512 && i < 4
    ensures var e := EntryAt(i);
            Entry(mbr, i)[..8]
            == [mbr[e], mbr[e + 1], mbr[e + 2], mbr[e + 3], mbr[e + 4], mbr[e + 5], mbr[e + 6], mbr[e + 7]]
  {}

  lemma SameFront(a: seq<byte>, b: seq<byte>, i: nat)
    requires |a| == |b| == 512 && i < 4 && forall k :: EntryAt(i) <= k < EntryAt(i) + 8 ==> b[k] == a[k]
    ensures Entry(b, i)[..8] == Entry(a, i)[..8]
  {}

  /** Nothing but entry i differs. */
  ghost predicate OnlyEntry(a: seq<byte>, b: seq<byte>, i: nat)
    requires i < 4
  {
    |a| == |b| == 512 && a[..446 + 16 * i] == b[..446 + 16 * i] && a[462 + 16 * i..] == b[462 + 16 * i..]
  }

  // ---- sorting the populated slots ----

  /** The populated slots among the first n. */
  function Populated(ps: seq<Part>, n: nat): (r: seq<nat>)
    requires |ps| == 4 && n <= 4
    ensures |r| <= n && forall k :: 0 <= k < |r| ==> r[k] < 4
    decreases ps, n
  {
    if n == 0 then [] else if ps[n - 1].count == 0 then Populated(ps, n - 1) else Populated(ps, n - 1) + [n - 1]
  }

  predicate Slots(o: seq<nat>) { forall k :: 0 <= k < |o| ==> o[k] < 4 }

  /** Slots put in place one after the other. */
  function Sorted(ps: seq<Part>, o: seq<nat>): (r: seq<nat>)
    requires |ps| == 4 && Slots(o)
    ensures |r| == |o| && Slots(r)
  {
    if o == [] then [] else Place(ps, Sorted(ps, o[..|o| - 1]), o[|o| - 1])
  }

  lemma {:induction false} SortedPopulated(ps: seq<Part>, n: nat)
    requires |ps| == 4 && n <= 4
    ensures Sorted(ps, Populated(ps, n)) == Order(ps, n)
    decreases n
  {
    if n > 0 {
      SortedPopulated(ps, n - 1);
      if ps[n - 1].count != 0 {
        var o := Populated(ps, n);
        assert o[..|o| - 1] == Populated(ps, n - 1);
      }
    }
  }

  /** o is o0 with the entries from b + 1 to a - 1 moved up by one, on the way to placing key. */
  ghost predicate Shifted(ps: seq<Part>, o: seq<nat>, o0: seq<nat>, a: nat, b: int, key: nat)
    requires |ps| == 4
  {
    && |o| == |o0| == 4 && -1 <= b < a < 4 && key < 4 && Slots(o0[..a])
    && o[..b + 1] == o0[..b + 1] && o[b + 2..a + 1] == o0[b + 1..a] && o[a + 1..] == o0[a + 1..]
    && Place(ps, o0[..a], key) == Place(ps, o0[..b + 1], key) + o0[b + 1..a]
  }

  lemma ShiftStart(ps: seq<Part>, o: seq<nat>, a: nat, key: nat)
    requires |ps| == 4 && |o| == 4 && 0 < a < 4 && key < 4 && Slots(o[..a])
    ensures Shifted(ps, o, o, a, a - 1, key)
  {
    assert o[..a] == o[..(a - 1) + 1];
  }

  lemma PlaceLower(ps: seq<Part>, was: seq<nat>, b: nat, key: nat)
    requires |ps| == 4 && key < 4 && b < |was| && Slots(was) && ps[was[b]].start > ps[key].start
    ensures Place(ps, was[..b + 1], key) == Place(ps, was[..b], key) + [was[b]]
  {
    var x := was[..b + 1];
    assert x[..b] == was[..b] && x[b] == was[b];
  }

  lemma OneUp(o: seq<nat>, o0: seq<nat>, a: nat, b: nat)
    requires |o| == |o0| == 4 && b < a < 4
    requires o[..b + 1] == o0[..b + 1] && o[b + 2..a + 1] == o0[b + 1..a] && o[a + 1..] == o0[a + 1..]
    ensures o[b] == o0[b]
    ensures var o' := o[b + 1 := o[b]];
            o'[..b] == o0[..b] && o'[b + 1..a + 1] == o0[b..a] && o'[a + 1..] == o0[a + 1..]
  {
    assert o[b] == o[..b + 1][b];
    var o' := o[b + 1 := o[b]];
    forall k | 0 <= k < b ensures o'[k] == o0[k] { assert o[k] == o[..b + 1][k]; }
    forall k | b + 1 <= k < a + 1 ensures o'[k] == o0[k - 1] {
      if k > b + 1 { assert o[k] == o[b + 2..a + 1][k - b - 2] == o0[b + 1..a][k - b - 2]; }
    }
  }

  lemma ShiftStep(ps: seq<Part>, o: seq<nat>, o0: seq<nat>, a: nat, b: nat, key: nat)
    requires |ps| == 4 && Shifted(ps, o, o0, a, b, key) && o0[b] < 4 && ps[o0[b]].start > ps[key].start
    ensures o[b] == o0[b] && Shifted(ps, o[b + 1 := o[b]], o0, a, b - 1, key)
  {
    hide Place;
    var was := o0[..a];
    OneUp(o, o0, a, b);
    assert was[..b + 1] == o0[..b + 1] && was[..b] == o0[..b];
    PlaceLower(ps, was, b, key);
    assert [o0[b]] + o0[b + 1..a] == o0[b..a];
    assert Place(ps, o0[..b], key) + [o0[b]] + o0[b + 1..a] == Place(ps, o0[..b], key) + o0[b..a];
  }

  lemma PlaceHere(ps: seq<Part>, x: seq<nat>, key: nat)
    requires |ps| == 4 && key < 4 && Slots(x) && (x != [] ==> ps[x[|x| - 1]].start <= ps[key].start)
    ensures Place(ps, x, key) == x + [key]
  {}

  lemma Spliced(o: seq<nat>, o0: seq<nat>, a: nat, b: int, key: nat)
    requires |o| == |o0| == 4 && -1 <= b < a < 4
    requires o[..b + 1] == o0[..b + 1] && o[b + 2..a + 1] == o0[b + 1..a] && o[a + 1..] == o0[a + 1..]
    ensures var o' := o[b + 1 := key];
            o'[..a + 1] == (o0[..b + 1] + [key]) + o0[b + 1..a] && o'[a + 1..] == o0[a + 1..]
  {
    var o' := o[b + 1 := key];
    assert o'[..b + 1] == o[..b + 1] && o'[b + 2..a + 1] == o[b + 2..a + 1] && o'[a + 1..] == o[a + 1..];
    assert o'[..a + 1] == (o'[..b + 1] + [key]) + o'[b + 2..a + 1];
  }

  lemma EndsHere(ps: seq<Part>, o0: seq<nat>, a: nat, b: int, key: nat)
    requires |ps| == 4 && |o0| == 4 && -1 <= b < a < 4 && key < 4 && Slots(o0[..a])
    requires b >= 0 ==> o0[b] < 4 && ps[o0[b]].start <= ps[key].start
    ensures Slots(o0[..b + 1]) && Place(ps, o0[..b + 1], key) == o0[..b + 1] + [key]
  {
    hide Place;
    var x := o0[..b + 1];
    forall k | 0 <= k < |x| ensures x[k] < 4 { assert x[k] == o0[..a][k]; }
    assert x != [] ==> x[|x| - 1] == o0[b];
    PlaceHere(ps, x, key);
  }

  lemma ShiftEnd(ps: seq<Part>, o: seq<nat>, o0: seq<nat>, a: nat, b: int, key: nat)
    requires |ps| == 4 && Shifted(ps, o, o0, a, b, key)
    requires b >= 0 ==> o0[b] < 4 && ps[o0[b]].start <= ps[key].start
    ensures var o' := o[b + 1 := key]; o'[..a + 1] == Place(ps, o0[..a], key) && o'[a + 1..] == o0[a + 1..]
  {
    hide Place;
    var x := o0[..b + 1];
    EndsHere(ps, o0, a, b, key);
    Spliced(o, o0, a, b, key);
    var o', t := o[b + 1 := key], o0[b + 1..a];
    SameEnd(Place(ps, o0[..a], key), Place(ps, x, key), x + [key], t, o'[..a + 1]);
  }

  lemma SameEnd(w: seq<nat>, p: seq<nat>, q: seq<nat>, t: seq<nat>, u: seq<nat>)
    requires w == p + t && p == q && u == q + t
    ensures u == w
  {}

  // ---- the editor ----

  /** An editor on a boot sector; items are the rows on the screen. */
  class Editor {
    var mbr: seq<byte>
    const total: nat
    var items: seq<Row>

    ghost predicate Valid()
      reads this
    {
      |mbr| == 512 && total < 0x1_0000_0000
    }

    constructor (mbr: seq<byte>, total: nat)
      requires |mbr| == 512 && total < 0x1_0000_0000
      ensures Valid() && this.mbr == mbr && this.total == total
    {
      this.mbr, this.total, items := mbr, total, [];
    }

    // ---- entries ----

    /** Zeroes one entry. */
    method ZeroEntry(i: nat)
      requires Valid() && i < 4
      modifies this`mbr
      ensures Valid() && SameOutside(old(mbr), mbr, i)
      ensures forall k :: EntryAt(i) <= k < EntryAt(i) + 16 ==> mbr[k] == 0
    {
      var e := EntryAt(i);
      for k := 0 to 16
        invariant Valid() && SameOutside(old(mbr), mbr, i) && forall j :: e <= j < e + k ==> mbr[j] == 0
      {
        mbr := mbr[e + k := 0];
      }
    }

    /** Writes a new entry: type, geometry fillers, start and count. */
    method WriteEntry(i: nat, start: nat, count: nat)
      requires Valid() && i < 4 && start < 0x1_0000_0000 && count < 0x1_0000_0000
      modifies this`mbr
      ensures Valid() && OnlyEntry(old(mbr), mbr, i) && Table(mbr) == Table(old(mbr))[i := Part(start, count)]
      ensures Entry(mbr, i)[..8] == [0, 0xFE, 0xFF, 0xFF, 0x0C, 0xFE, 0xFF, 0xFF]
      ensures Word(Entry(mbr, i), 8) == start && Word(Entry(mbr, i), 12) == count
    {
      Fillers(i);
      var e := EntryAt(i);
      ghost var m0 := mbr;
      mbr := Store(mbr, e + 8, start);
      ghost var m1 := mbr;
      mbr := Store(mbr, e + 12, count);
      WordKept(m1, mbr, e + 8);
      assert SameOutside(old(mbr), mbr, i);
      OtherEntries(old(mbr), mbr, i);
      EntryWords(mbr, i);
      SameFront(m0, mbr, i);
    }

    /** The bytes of a new entry in front of its start and count. */
    method Fillers(i: nat)
      requires Valid() && i < 4
      modifies this`mbr
      ensures Valid() && SameOutside(old(mbr), mbr, i)
      ensures Entry(mbr, i)[..8] == [0, 0xFE, 0xFF, 0xFF, 0x0C, 0xFE, 0xFF, 0xFF]
    {
      ZeroEntry(i);
      var e := EntryAt(i);
      mbr := mbr[e + 4 := 0x0C][e + 1 := 0xFE][e + 2 := 0xFF][e + 3 := 0xFF];
      mbr := mbr[e + 5 := 0xFE][e + 6 := 0xFF][e + 7 := 0xFF];
      FrontIs(mbr, i);
    }

    method ClearEntry(i: nat)
      requires Valid() && i < 4
      modifies this`mbr
      ensures Valid() && OnlyEntry(old(mbr), mbr, i) && Table(mbr) == Table(old(mbr))[i := Part(0, 0)]
      ensures forall k :: 0 <= k < 16 ==> Entry(mbr, i)[k] == 0
    {
      ZeroEntry(i);
      ZeroWord(mbr, EntryAt(i) + 8);
      ZeroWord(mbr, EntryAt(i) + 12);
      OtherEntries(old(mbr), mbr, i);
    }

    method Start(i: nat) returns (v: nat)
      requires Valid() && i < 4
      ensures v == Table(mbr)[i].start
    {
      v := Word(mbr, EntryAt(i) + 8);
    }

    method Count(i: nat) returns (v: nat)
      requires Valid() && i < 4
      ensures v == Table(mbr)[i].count
    {
      v := Word(mbr, EntryAt(i) + 12);
    }

    /** first_free_slot; 4 for none. */
    method FirstFreeSlot() returns (i: nat)
      requires Valid()
      ensures i == FirstFree(Table(mbr), 0)
    {
      i := 0;
      while i < 4
        invariant i <= 4 && FirstFree(Table(mbr), i) == FirstFree(Table(mbr), 0)
      {
        var c := Count(i);
        if c == 0 { return; }
        i := i + 1;
      }
    }

    // ---- build_items ----

    /** The populated slots in slot order. */
    method Gather(order: array<nat>) returns (np: nat)
      requires Valid() && order.Length == 4
      modifies order
      ensures np <= 4 && order[..np] == Populated(Table(mbr), 4)
    {
      np := 0;
      for i := 0 to 4
        invariant np <= i && order[..np] == Populated(Table(mbr), i)
      {
        var c := Count(i);
        if c != 0 {
          order[np] := i;
          np := np + 1;
          assert order[..np] == order[..np - 1] + [i];
        }
      }
    }

    /** Whether the slot at b starts after key does. */
    method Later(order: array<nat>, b: int, key: nat) returns (r: bool)
      requires Valid() && order.Length == 4 && b < 4 && key < 4 && (b >= 0 ==> order[b] < 4)
      ensures r == (b >= 0 && Table(mbr)[order[b]].start > Table(mbr)[key].start)
    {
      if b < 0 { return false; }
      var s := Start(key);
      var t := Start(order[b]);
      return t > s;
    }

    /** One round of the insertion sort: the entry at a moves down to its place. */
    method InsertAt(order: array<nat>, a: nat)
      requires Valid() && order.Length == 4 && 0 < a < 4 && Slots(order[..a + 1])
      modifies order
      ensures order[..a + 1] == Place(Table(mbr), old(order[..a]), old(order[a]))
              && order[a + 1..] == old(order[a + 1..])
    {
      hide Place, PartAt, Table;
      ghost var ps, o0 := Table(mbr), order[..];
      var key := order[a];
      assert key == o0[..a + 1][a] && Slots(o0[..a]);
      var b := a - 1;
      ShiftStart(ps, o0, a, key);
      EntryThere(o0, o0, a, b);
      var more := Later(order, b, key);
      while more
        invariant Shifted(ps, order[..], o0, a, b, key) && (b >= 0 ==> order[b] == o0[b] < 4)
        invariant more == (b >= 0 && ps[order[b]].start > ps[key].start)
        decreases b
      {
        ShiftStep(ps, order[..], o0, a, b, key);
        order[b + 1] := order[b];
        b := b - 1;
        EntryThere(order[..], o0, a, b);
        more := Later(order, b, key);
      }
      ShiftEnd(ps, order[..], o0, a, b, key);
      order[b + 1] := key;
    }

    /** The slots of the populated entries by start. */
    method SortSlots(order: array<nat>) returns (np: nat)
      requires Valid() && order.Length == 4
      modifies order
      ensures np <= 4 && order[..np] == Order(Table(mbr), 4)
    {
      ghost var ps := Table(mbr);
      np := Gather(order);
      ghost var g := order[..np];
      SortedPopulated(ps, 4);
      if np == 0 { return; }
      SortStart(ps, order[..], g);
      var a := 1;
      while a < np
        invariant 1 <= a <= np && SortedTo(ps, order[..], g, a)
      {
        ghost var o := order[..];
        SortSlot(ps, o, g, a);
        InsertAt(order, a);
        SortStep(ps, o, order[..], g, a);
        a := a + 1;
      }
      assert g[..np] == g;
    }

    /** A free row from a to b, if it is long enough to show. */
    method AddGap(a: nat, b: nat)
      modifies this`items
      ensures items == old(items) + Gap(a, b)
    {
      if b > a && b - a >= ALIGN { items := items + [Free(a, b - a)]; }
    }

    /** The rows for one partition and the gap before it; the cursor after it. */
    method AddPart(i: nat, cursor: nat) returns (next: nat)
      requires Valid() && i < 4
      modifies this`items
      ensures var p := Table(mbr)[i];
              && items == old(items) + Gap(cursor, p.start) + [Used(i, p.start, p.count)]
              && next == Max(cursor, U32(p.start + p.count))
    {
      var st := Start(i);
      var ct := Count(i);
      AddGap(cursor, st);
      items := items + [Used(i, st, ct)];
      var end := U32(st + ct);
      next := if end > cursor then end else cursor;
    }

    method AddParts(order: array<nat>, np: nat) returns (cursor: nat)
      requires Valid() && np <= order.Length && Slots(order[..np])
      modifies this`items
      ensures var o := order[..np];
              items + Rows(Table(mbr), o, np, cursor, total) == Rows(Table(mbr), o, 0, ALIGN, total)
    {
      hide Rows, PartAt;
      ghost var ps, o := Table(mbr), order[..np];
      items := [];
      cursor := ALIGN;
      var k := 0;
      while k < np
        invariant 0 <= k <= np && items + Rows(ps, o, k, cursor, total) == Rows(ps, o, 0, ALIGN, total)
        modifies this`items
      {
        assert order[k] == o[k];
        RowsSnoc(items, ps, o, k, cursor, total);
        cursor := AddPart(order[k], cursor);
        k := k + 1;
      }
    }

    /** build_items: the rows for the table. */
    method BuildItems()
      requires Valid()
      modifies this`items
      ensures items == Items(Table(mbr), total)
    {
      var order := new nat[4];
      var np := SortSlots(order);
      var cursor := AddParts(order, np);
      AddGap(cursor, total);
      if items == [] { items := [Free(ALIGN, if total > ALIGN then total - ALIGN else 0)]; }
    }

    // ---- actions ----

    /** act_new on the selected row; input is what the prompt returns. */
    method ActNew(sel: nat, input: Option<string>)
      requires Valid() && items == Items(Table(mbr), total) && sel < |items|
      modifies this`mbr
      ensures Valid() && Table(mbr) == StepOn(Table(old(mbr)), items[sel], New(sel, input))
    {
      var it := items[sel];
      if it.Used? { return; }
      ItemsFit(Table(mbr), total);
      assert it in items && RowFits(it);
      var slot := FirstFreeSlot();
      if slot == 4 { return; }
      var x := U32(it.start + (ALIGN - 1));
      var start := x - x % ALIGN;
      var end := U32(it.start + it.sectors);
      assert x == it.start + (ALIGN - 1) && end == it.start + it.sectors;
      if start >= end || input.None? { return; }
      var n := SizeOf(input.value, end - start);
      if n == 0 { return; }
      WriteEntry(slot, start, n);
    }

    method ActDelete(sel: nat)
      requires Valid() && items == Items(Table(mbr), total) && sel < |items|
      modifies this`mbr
      ensures Valid() && Table(mbr) == StepOn(Table(old(mbr)), items[sel], Delete(sel))
    {
      var it := items[sel];
      if it.Free? { return; }
      UsedSlots(Table(mbr), total);
      assert it in items;
      ClearEntry(it.slot);
    }

    /** One round of the main loop. */
    method Act(a: Action)
      requires Valid()
      modifies this
      ensures Valid() && Table(mbr) == Step(Table(old(mbr)), total, a)
      ensures exists it :: Selects(Items(Table(old(mbr)), total), a.sel, it) && Done(Table(old(mbr)), it, a, Table(mbr))
    {
      ghost var it := StepIs(Table(mbr), total, a);
      BuildItems();
      var sel := Chosen(items, a.sel);
      match a
      case New(_, input) => ActNew(sel, input);
      case Delete(_) => ActDelete(sel);
    }

    /** A whole run: from a sound table, the bytes always hold a sound table. */
    method Session(acts: seq<Action>)
      requires Valid()
      modifies this
      ensures Valid() && Table(mbr) == Run(Table(old(mbr)), total, acts)
      ensures Sound(Table(old(mbr)), total) ==> Sound(Table(mbr), total)
    {
      ghost var ps := Table(mbr);
      var i := 0;
      while i < |acts|
        invariant 0 <= i <= |acts| && Valid() && Table(mbr) == Run(ps, total, acts[..i])
      {
        Act(acts[i]);
        assert acts[..i + 1][..i] == acts[..i];
        i := i + 1;
      }
      assert acts[..|acts|] == acts;
      if Sound(ps, total) { RunSound(ps, total, acts); }
    }
  }

  lemma EntryThere(o: seq<nat>, o0: seq<nat>, a: nat, b: int)
    requires |o| == |o0| == 4 && -1 <= b < a < 4 && o[..b + 1] == o0[..b + 1] && Slots(o0[..a])
    ensures b >= 0 ==> o[b] == o0[b] < 4
  {
    if b >= 0 { assert o[b] == o[..b + 1][b] && o0[b] == o0[..b + 1][b] && o0[b] == o0[..a][b]; }
  }

  /** The first a slots of g are sorted in o, the others untouched. */
  ghost predicate SortedTo(ps: seq<Part>, o: seq<nat>, g: seq<nat>, a: nat)
    requires |ps| == 4
  {
    a <= |g| <= |o| == 4 && Slots(g) && Slots(g[..a]) && o[..a] == Sorted(ps, g[..a]) && o[a..|g|] == g[a..]
  }

  lemma SortStart(ps: seq<Part>, o: seq<nat>, g: seq<nat>)
    requires |ps| == 4 && |o| == 4 && 0 < |g| <= 4 && Slots(g) && o[..|g|] == g
    ensures SortedTo(ps, o, g, 1)
  {
    var x := g[..1];
    assert x[..0] == [] && x == [g[0]];
    assert Sorted(ps, x) == Place(ps, [], g[0]) == x;
    assert o[..1] == o[..|g|][..1] && o[1..|g|] == o[..|g|][1..];
  }

  lemma SortSlot(ps: seq<Part>, o: seq<nat>, g: seq<nat>, a: nat)
    requires |ps| == 4 && a < |g| && SortedTo(ps, o, g, a)
    ensures o[a] == g[a] && Slots(o[..a + 1])
  {
    assert o[a] == o[a..|g|][0];
    assert o[..a + 1][..a] == o[..a];
    SlotsTo(o[..a + 1], Sorted(ps, g[..a]), g[a]);
  }

  lemma SortStep(ps: seq<Part>, o: seq<nat>, o': seq<nat>, g: seq<nat>, a: nat)
    requires |ps| == 4 && a < |g| && SortedTo(ps, o, g, a) && o[a] == g[a] && |o'| == 4
    requires Slots(o[..a]) && o'[..a + 1] == Place(ps, o[..a], o[a]) && o'[a + 1..] == o[a + 1..]
    ensures SortedTo(ps, o', g, a + 1)
  {
    SortedSnoc(ps, g, a);
    TailKept(o, o', g, a);
  }

  lemma SortedSnoc(ps: seq<Part>, g: seq<nat>, a: nat)
    requires |ps| == 4 && a < |g| && Slots(g)
    ensures Slots(g[..a]) && Slots(g[..a + 1]) && Sorted(ps, g[..a + 1]) == Place(ps, Sorted(ps, g[..a]), g[a])
  {
    var x := g[..a + 1];
    assert x[..a] == g[..a] && x[a] == g[a];
  }

  lemma TailKept(o: seq<nat>, o': seq<nat>, g: seq<nat>, a: nat)
    requires a < |g| <= |o| == |o'| == 4 && o[a..|g|] == g[a..] && o'[a + 1..] == o[a + 1..]
    ensures o'[a + 1..|g|] == g[a + 1..]
  {
    assert o'[a + 1..|g|] == o'[a + 1..][..|g| - a - 1];
    assert o[a + 1..|g|] == o[a + 1..][..|g| - a - 1] == o[a..|g|][1..];
    assert g[a..][1..] == g[a + 1..];
  }

  lemma SlotsTo(x: seq<nat>, y: seq<nat>, z: nat)
    requires Slots(y) && z < 4 && |x| == |y| + 1 && x[..|y|] == y && x[|y|] == z
    ensures Slots(x)
  {
    forall k | 0 <= k < |x| ensures x[k] < 4 { if k < |y| { assert x[k] == x[..|y|][k]; } }
  }

  lemma RowsSnoc(before: seq<Row>, ps: seq<Part>, o: seq<nat>, k: nat, cursor: nat, total: nat)
    requires |ps| == 4 && Slots(o) && k < |o|
    ensures var p := ps[o[k]];
            before + Rows(ps, o, k, cursor, total)
            == (before + Gap(cursor, p.start) + [Used(o[k], p.start, p.count)])
               + Rows(ps, o, k + 1, Max(cursor, U32(p.start + p.count)), total)
  {}

  lemma {:induction false} RowsUsed(ps: seq<Part>, order: seq<nat>, k: nat, cursor: nat, total: nat)
    requires |ps| == 4 && k <= |order| && Slots(order)
    ensures forall r :: r in Rows(ps, order, k, cursor, total) && r.Used? ==> r.slot < 4
    decreases |order| - k
  {
    if k < |order| {
      var p := ps[order[k]];
      RowsUsed(ps, order, k + 1, Max(cursor, U32(p.start + p.count)), total);
    }
  }

  lemma UsedSlots(ps: seq<Part>, total: nat)
    requires |ps| == 4
    ensures forall r :: r in Items(ps, total) && r.Used? ==> r.slot < 4
  {
    RowsUsed(ps, Order(ps, 4), 0, ALIGN, total);
  }

  // ---- parse_size ----

  method SkipSpacesFrom(s: string, p: nat) returns (q: nat)
    ensures q == SkipSpaces(s, p)
  {
    q := p;
    while At(s, q) == ' '
      invariant SkipSpaces(s, q) == SkipSpaces(s, p)
      decreases |s| - q
    {
      q := q + 1;
    }
  }

  /** parse_size. */
  method SizeOf(s: string, avail: nat) returns (n: nat)
    ensures n == ParseSize(s, avail)
  {
    var p := SkipSpacesFrom(s, 0);
    if SaysMax(s, p) { return avail; }
    var v: nat, q: nat := 0, p;
    while Digit(At(s, q))
      invariant q >= p && Digits(s, q, v) == Digits(s, p, 0)
      decreases |s| - q
    {
      v := U32(10 * v + (At(s, q) as int - '0' as int));
      q := q + 1;
    }
    if q == p { return 0; }
    q := SkipSpacesFrom(s, q);
    var u := At(s, q);
    if u == '%' {
      if v >= 100 { n := avail; } else { n := Percent(avail, v); }
    } else if u == 'g' || u == 'G' {
      n := U32(U32(v * ALIGN) * 1024);
    } else if u == 'm' || u == 'M' {
      n := U32(v * ALIGN);
    } else {
      n := v;
    }
    if n > avail { n := avail; }
  }
}
