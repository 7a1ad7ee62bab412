/** The partition table and the rows cfdisk.c shows for it, as values. */
module Partition {
  import opened Bits

  const ALIGN: nat := 2048

  /** A table entry; an entry without sectors is empty. */
  datatype Part = Part(start: nat, count: nat)

  datatype Row = Free(start: nat, sectors: nat) | Used(slot: nat, start: nat, sectors: nat)

  predicate TableOk(ps: seq<Part>) {
    |ps| == 4 && forall i :: 0 <= i < 4 ==> ps[i].start < 0x1_0000_0000 && ps[i].count < 0x1_0000_0000
  }

  predicate Clear(a: nat, n: nat, p: Part) { a + n <= p.start || p.start + p.count <= a }

  predicate Fits(p: Part, total: nat) { p.count > 0 ==> p.start + p.count <= total }

  predicate Disjoint(p: Part, q: Part) { p.count > 0 && q.count > 0 ==> Clear(p.start, p.count, q) }

  /** The populated entries lie on the disk and do not overlap. */
  ghost predicate Sound(ps: seq<Part>, total: nat) {
    && TableOk(ps) && total < 0x1_0000_0000
    && (forall i {:trigger ps[i]} :: 0 <= i < 4 ==> Fits(ps[i], total))
    && (forall i, j {:trigger Disjoint(ps[i], ps[j])} :: 0 <= i < 4 && 0 <= j < 4 && i != j ==> Disjoint(ps[i], ps[j]))
  }

  // ---- the populated slots in order of their start ----

  /** key goes after every slot that does not start later. */
  function Place(ps: seq<Part>, order: seq<nat>, key: nat): (r: seq<nat>)
    requires |ps| == 4 && key < 4 && forall k :: 0 <= k < |order| ==> order[k] < 4
    ensures |r| == |order| + 1 && forall k :: 0 <= k < |r| ==> r[k] < 4
  {
    if order == [] then [key]
    else
      var n := |order| - 1;
      if ps[order[n]].start > ps[key].start then Place(ps, order[..n], key) + [order[n]] else order + [key]
  }

  function Order(ps: seq<Part>, n: nat): (r: seq<nat>)
    requires |ps| == 4 && n <= 4
    ensures |r| <= n && forall k :: 0 <= k < |r| ==> r[k] < 4
    decreases ps, n
  {
    if n == 0 then []
    else if ps[n - 1].count == 0 then Order(ps, n - 1)
    else Place(ps, Order(ps, n - 1), n - 1)
  }

  ghost predicate ByStart(ps: seq<Part>, order: seq<nat>)
    requires |ps| == 4
  {
    && (forall k :: 0 <= k < |order| ==> order[k] < 4)
    && forall j, k :: 0 <= j < k < |order| ==> ps[order[j]].start <= ps[order[k]].start
  }

  lemma {:induction false} PlaceSorted(ps: seq<Part>, order: seq<nat>, key: nat)
    requires |ps| == 4 && key < 4 && ByStart(ps, order)
    ensures ByStart(ps, Place(ps, order, key))
    ensures forall x :: x in Place(ps, order, key) <==> x in order || x == key
  {
    if order != [] {
      var n := |order| - 1;
      if ps[order[n]].start > ps[key].start {
        PlaceSorted(ps, order[..n], key);
        var a := Place(ps, order[..n], key);
        forall k | 0 <= k < |a| ensures ps[a[k]].start <= ps[order[n]].start {
          assert a[k] in a;
          assert a[k] == key || a[k] in order[..n];
        }
        assert order == order[..n] + [order[n]];
      }
    }
  }

  /** order holds exactly the populated slots among the first n. */
  ghost predicate Exactly(ps: seq<Part>, order: seq<nat>, n: nat)
    requires |ps| == 4 && n <= 4
  {
    forall i: nat {:trigger i in order} :: i in order <==> i < n && ps[i].count > 0
  }

  lemma ExactlyStep(ps: seq<Part>, o: seq<nat>, o': seq<nat>, n: nat)
    requires |ps| == 4 && 0 < n <= 4 && Exactly(ps, o, n - 1)
    requires ps[n - 1].count == 0 ==> o' == o
    requires ps[n - 1].count > 0 ==> forall x :: x in o' <==> x in o || x == n - 1
    ensures Exactly(ps, o', n)
  {}

  /** The slots in order are exactly the populated ones. */
  lemma {:induction false} OrderOk(ps: seq<Part>, n: nat)
    requires |ps| == 4 && n <= 4
    ensures ByStart(ps, Order(ps, n)) && Exactly(ps, Order(ps, n), n)
    decreases n
  {
    if n > 0 {
      OrderOk(ps, n - 1);
      if ps[n - 1].count > 0 { PlaceSorted(ps, Order(ps, n - 1), n - 1); }
      ExactlyStep(ps, Order(ps, n - 1), Order(ps, n), n);
    }
  }

  // ---- rows ----

  /** A row for a stretch of free sectors, if it is long enough to show. */
  function Gap(a: nat, b: nat): seq<Row> {
    if b > a && b - a >= ALIGN then [Free(a, b - a)] else []
  }

  function Max(a: nat, b: nat): nat { if a > b then a else b }

  /** The rows from the kth slot in order on, free space starting at cursor. */
  function Rows(ps: seq<Part>, order: seq<nat>, k: nat, cursor: nat, total: nat): (r: seq<Row>)
    requires |ps| == 4 && k <= |order| && forall j :: 0 <= j < |order| ==> order[j] < 4
    ensures |r| <= 2 * (|order| - k) + 1
    decreases |order| - k
  {
    if k == |order| then Gap(cursor, total)
    else
      var p := ps[order[k]];
      Gap(cursor, p.start) + [Used(order[k], p.start, p.count)]
      + Rows(ps, order, k + 1, Max(cursor, U32(p.start + p.count)), total)
  }

  /** What build_items puts on the screen: at most nine rows, at least one. */
  function Items(ps: seq<Part>, total: nat): (r: seq<Row>)
    requires |ps| == 4
    ensures 1 <= |r| <= 9
  {
    var rows := Rows(ps, Order(ps, 4), 0, ALIGN, total);
    if rows == [] then [Free(ALIGN, if total > ALIGN then total - ALIGN else 0)] else rows
  }

  // ---- every partition is shown once, in its place ----

  ghost predicate Distinct(o: seq<nat>) { forall j, k :: 0 <= j < k < |o| ==> o[j] != o[k] }

  lemma DistinctSnoc(a: seq<nat>, x: nat)
    requires Distinct(a) && x !in a
    ensures Distinct(a + [x])
  {}

  lemma DistinctFront(o: seq<nat>)
    requires o != [] && Distinct(o)
    ensures var n := |o| - 1; Distinct(o[..n]) && o[n] !in o[..n] && forall x :: x in o <==> x in o[..n] || x == o[n]
  {
    var n := |o| - 1;
    assert o == o[..n] + [o[n]];
  }

  lemma FrontByStart(ps: seq<Part>, o: seq<nat>)
    requires |ps| == 4 && o != [] && ByStart(ps, o)
    ensures ByStart(ps, o[..|o| - 1])
  {}

  lemma {:induction false} PlaceDistinct(ps: seq<Part>, order: seq<nat>, key: nat)
    requires |ps| == 4 && key < 4 && ByStart(ps, order) && Distinct(order) && key !in order
    ensures Distinct(Place(ps, order, key))
    decreases |order|, 1
  {
    if order == [] {
      assert Distinct([key]);
    } else {
      var n := |order| - 1;
      DistinctFront(order);
      FrontByStart(ps, order);
      assert order[n] < 4;
      if ps[order[n]].start > ps[key].start {
        PlaceBefore(ps, order, key);
      } else {
        DistinctSnoc(order, key);
      }
    }
  }

  lemma PlaceBefore(ps: seq<Part>, order: seq<nat>, key: nat)
    requires |ps| == 4 && key < 4 && order != [] && ByStart(ps, order) && Distinct(order) && key !in order
    requires var n := |order| - 1; order[n] < 4 && ps[order[n]].start > ps[key].start
    ensures Distinct(Place(ps, order, key))
    decreases |order|, 0
  {
    hide Distinct;
    var n := |order| - 1;
    DistinctFront(order);
    FrontByStart(ps, order);
    PlaceDistinct(ps, order[..n], key);
    PlaceSorted(ps, order[..n], key);
    DistinctSnoc(Place(ps, order[..n], key), order[n]);
  }

  lemma {:induction false} OrderDistinct(ps: seq<Part>, n: nat)
    requires |ps| == 4 && n <= 4
    ensures Distinct(Order(ps, n))
    decreases n
  {
    hide ByStart, Distinct, Place;
    if n == 0 {
      NoneDistinct();
    } else {
      OrderDistinct(ps, n - 1);
      OrderOk(ps, n - 1);
      if ps[n - 1].count > 0 {
        assert n - 1 !in Order(ps, n - 1);
        PlaceDistinct(ps, Order(ps, n - 1), n - 1);
      }
    }
  }

  lemma NoneDistinct()
    ensures Distinct([])
  {}

  /** The slots of the partition rows, from the top. */
  function Shown(rows: seq<Row>): seq<nat> {
    if rows == [] then [] else (if rows[0].Used? then [rows[0].slot] else []) + Shown(rows[1..])
  }

  /** A partition row carries its entry's numbers, and a free row is worth showing. */
  ghost predicate Shows(ps: seq<Part>, r: Row)
    requires |ps| == 4
  {
    if r.Used? then r.slot < 4 && r.start == ps[r.slot].start && r.sectors == ps[r.slot].count else r.sectors >= 2048
  }

  lemma NoneShown()
    ensures Shown([]) == []
  {}

  lemma ShownFirst(rows: seq<Row>)
    requires rows != []
    ensures Shown(rows) == (if rows[0].Used? then [rows[0].slot] else []) + Shown(rows[1..])
  {}

  lemma {:induction false} ShownAppend(a: seq<Row>, b: seq<Row>)
    ensures Shown(a + b) == Shown(a) + Shown(b)
    decreases a
  {
    hide Shown;
    if a == [] {
      NoneShown();
      assert a + b == b;
    } else {
      var c := a + b;
      assert c[0] == a[0] && c[1..] == a[1..] + b;
      ShownAppend(a[1..], b);
      ShownFirst(a);
      ShownFirst(c);
    }
  }

  lemma GapShown(a: nat, b: nat)
    ensures Shown(Gap(a, b)) == []
  {}

  lemma OneShown(r: Row)
    requires r.Used?
    ensures Shown([r]) == [r.slot]
  {}

  lemma {:induction false} RowsShow(ps: seq<Part>, order: seq<nat>, k: nat, cursor: nat, total: nat)
    requires |ps| == 4 && k <= |order| && forall j :: 0 <= j < |order| ==> order[j] < 4
    ensures Shown(Rows(ps, order, k, cursor, total)) == order[k..]
    ensures forall r :: r in Rows(ps, order, k, cursor, total) ==> Shows(ps, r)
    decreases |order| - k
  {
    hide Shown;
    if k == |order| {
      GapShown(cursor, total);
    } else {
      var p := ps[order[k]];
      var c := Max(cursor, U32(p.start + p.count));
      var gap, used := Gap(cursor, p.start), Used(order[k], p.start, p.count);
      RowsShow(ps, order, k + 1, c, total);
      ShownAppend(gap + [used], Rows(ps, order, k + 1, c, total));
      ShownAppend(gap, [used]);
      GapShown(cursor, p.start);
      OneShown(used);
      assert order[k..] == [order[k]] + order[k + 1..];
    }
  }

  /**
    Of the rows on the screen for any table, those of partitions are the
    populated entries, each once, by start and with the entry's own numbers; a
    free row has at least 2048 sectors unless it is the only row.
   */
  lemma ItemsShow(ps: seq<Part>, total: nat)
    requires |ps| == 4
    ensures var o := Shown(Items(ps, total)); ByStart(ps, o) && Distinct(o) && Exactly(ps, o, 4)
    ensures forall r :: r in Items(ps, total) ==> Shows(ps, r) || (r.Free? && |Items(ps, total)| == 1)
  {
    var o := Order(ps, 4);
    OrderOk(ps, 4);
    OrderDistinct(ps, 4);
    RowsShow(ps, o, 0, ALIGN, total);
    assert o[0..] == o;
    if Rows(ps, o, 0, ALIGN, total) == [] { assert Shown(Items(ps, total)) == []; }
  }

  /** The rows follow one another on the disk, the first not before lo. */
  ghost predicate Ascends(rows: seq<Row>, lo: nat) {
    rows == [] || (lo <= rows[0].start && Ascends(rows[1..], rows[0].start + rows[0].sectors))
  }

  lemma AscendsCons(r: Row, rows: seq<Row>, lo: nat)
    requires lo <= r.start && Ascends(rows, r.start + r.sectors)
    ensures Ascends([r] + rows, lo)
  {
    assert ([r] + rows)[1..] == rows;
  }

  lemma GapAscends(cursor: nat, used: Row, rest: seq<Row>, lo: nat)
    requires lo <= cursor && lo <= used.start && Ascends(rest, used.start + used.sectors)
    ensures Ascends(Gap(cursor, used.start) + [used] + rest, lo)
  {
    hide Ascends;
    var gap := Gap(cursor, used.start);
    if gap == [] {
      AscendsCons(used, rest, lo);
      assert gap + [used] + rest == [used] + rest;
    } else {
      AscendsCons(used, rest, used.start);
      AscendsCons(gap[0], [used] + rest, lo);
      assert gap + [used] + rest == [gap[0]] + ([used] + rest);
    }
  }

  lemma LastAscends(cursor: nat, total: nat, lo: nat)
    requires lo <= cursor
    ensures Ascends(Gap(cursor, total), lo)
  {}

  /** What comes later in order starts behind the kth partition. */
  lemma LaterStarts(ps: seq<Part>, order: seq<nat>, k: nat, total: nat)
    requires Sound(ps, total) && k < |order| && ByStart(ps, order) && Distinct(order) && Exactly(ps, order, 4)
    ensures forall j :: k + 1 <= j < |order| ==> ps[order[k]].start + ps[order[k]].count <= ps[order[j]].start
  {
    var p := ps[order[k]];
    assert order[k] in order;
    forall j | k + 1 <= j < |order| ensures p.start + p.count <= ps[order[j]].start {
      assert order[j] in order && Disjoint(p, ps[order[j]]);
    }
  }

  lemma {:induction false} RowsAscend(ps: seq<Part>, order: seq<nat>, k: nat, cursor: nat, total: nat, lo: nat)
    requires Sound(ps, total) && k <= |order| && ByStart(ps, order) && Distinct(order) && Exactly(ps, order, 4)
    requires lo <= cursor && forall j :: k <= j < |order| ==> lo <= ps[order[j]].start
    ensures Ascends(Rows(ps, order, k, cursor, total), lo)
    decreases |order| - k
  {
    hide Distinct, Disjoint, Ascends;
    if k == |order| {
      LastAscends(cursor, total, lo);
    }
    if k < |order| {
      var p := ps[order[k]];
      assert order[k] in order && Fits(p, total);
      var c := Max(cursor, U32(p.start + p.count));
      LaterStarts(ps, order, k, total);
      var rest := Rows(ps, order, k + 1, c, total);
      RowsAscend(ps, order, k + 1, c, total, p.start + p.count);
      var used := Used(order[k], p.start, p.count);
      GapAscends(cursor, used, rest, lo);
    }
  }

  /** For a sound table the rows do not overlap and follow one another on the disk. */
  lemma ItemsAscend(ps: seq<Part>, total: nat)
    requires Sound(ps, total)
    ensures Ascends(Items(ps, total), 0)
  {
    OrderOk(ps, 4);
    OrderDistinct(ps, 4);
    RowsAscend(ps, Order(ps, 4), 0, ALIGN, total, 0);
  }

  // ---- free rows are free ----

  ghost predicate FreeOn(ps: seq<Part>, total: nat, r: Row)
    requires |ps| == 4
  {
    r.Free? ==> ALIGN <= r.start && r.start + r.sectors <= Max(total, ALIGN)
                && forall i :: 0 <= i < 4 && ps[i].count > 0 ==> Clear(r.start, r.sectors, ps[i])
  }

  /** Every slot before the kth ends at or before cursor. */
  ghost predicate Passed(ps: seq<Part>, order: seq<nat>, k: nat, cursor: nat)
    requires |ps| == 4 && k <= |order| && forall j :: 0 <= j < |order| ==> order[j] < 4
  {
    forall j :: 0 <= j < k ==> ps[order[j]].start + ps[order[j]].count <= cursor
  }

  /** The stretch from cursor to the kth start, or to the end of the disk, is free. */
  lemma GapFree(ps: seq<Part>, order: seq<nat>, k: nat, cursor: nat, total: nat, b: nat)
    requires Sound(ps, total) && k <= |order| && ByStart(ps, order) && Passed(ps, order, k, cursor)
             && ALIGN <= cursor < b
    requires Exactly(ps, order, 4) && b == if k == |order| then total else ps[order[k]].start
    ensures FreeOn(ps, total, Free(cursor, b - cursor))
  {
    forall i | 0 <= i < 4 && ps[i].count > 0 ensures Clear(cursor, b - cursor, ps[i]) {
      assert i in order && Fits(ps[i], total);
      var j :| 0 <= j < |order| && order[j] == i;
      assert k < j ==> ps[order[k]].start <= ps[order[j]].start;
    }
    if k < |order| { assert order[k] in order && Fits(ps[order[k]], total); }
  }

  lemma {:induction false} RowsFree(ps: seq<Part>, order: seq<nat>, k: nat, cursor: nat, total: nat)
    requires Sound(ps, total) && k <= |order| && ByStart(ps, order) && Passed(ps, order, k, cursor) && ALIGN <= cursor
    requires Exactly(ps, order, 4)
    ensures forall r :: r in Rows(ps, order, k, cursor, total) ==> FreeOn(ps, total, r)
    decreases |order| - k
  {
    var b := if k == |order| then total else ps[order[k]].start;
    if b > cursor { GapFree(ps, order, k, cursor, total, b); }
    if k < |order| {
      var p := ps[order[k]];
      assert order[k] in order && Fits(p, total);
      RowsFree(ps, order, k + 1, Max(cursor, U32(p.start + p.count)), total);
    }
  }

  /** Every free row shown for a sound table is disjoint from every partition and on the disk. */
  lemma ItemsFree(ps: seq<Part>, total: nat)
    requires Sound(ps, total)
    ensures forall r :: r in Items(ps, total) ==> FreeOn(ps, total, r)
  {
    var order := Order(ps, 4);
    var rows := Rows(ps, order, 0, ALIGN, total);
    OrderOk(ps, 4);
    RowsFree(ps, order, 0, ALIGN, total);
    if rows == [] {
      assert order == [] by { NoRows(ps, order, 0, ALIGN, total); }
      forall i | 0 <= i < 4 ensures ps[i].count == 0 { assert i !in order; }
    }
  }

  /** The free row holds a whole mebibyte from x on. */
  predicate Spans(r: Row, x: nat) { r.Free? && r.start <= x && x + ALIGN <= r.start + r.sectors }

  lemma NoRows(ps: seq<Part>, order: seq<nat>, k: nat, cursor: nat, total: nat)
    requires |ps| == 4 && k <= |order| && (forall j :: 0 <= j < |order| ==> order[j] < 4)
    requires Rows(ps, order, k, cursor, total) == []
    ensures k == |order|
  {}

  // ---- no free space is missed ----

  lemma {:induction false} RowsFind(ps: seq<Part>, order: seq<nat>, k: nat, cursor: nat, total: nat, x: nat)
    requires Sound(ps, total) && k <= |order| && (forall j :: 0 <= j < |order| ==> order[j] < 4)
    requires cursor <= x && x + ALIGN <= total
    requires Exactly(ps, order, 4)
    requires forall i :: 0 <= i < 4 && ps[i].count > 0 ==> Clear(x, ALIGN, ps[i])
    ensures exists r :: r in Rows(ps, order, k, cursor, total) && Spans(r, x)
    decreases |order| - k
  {
    if k == |order| {
      assert Free(cursor, total - cursor) in Rows(ps, order, k, cursor, total);
    } else {
      var p := ps[order[k]];
      assert order[k] in order && Clear(x, ALIGN, p) && Fits(p, total);
      var c := Max(cursor, U32(p.start + p.count));
      var rows := Rows(ps, order, k, cursor, total);
      if x + ALIGN <= p.start {
        assert Free(cursor, p.start - cursor) in Gap(cursor, p.start);
        assert Free(cursor, p.start - cursor) in rows;
      } else {
        RowsFind(ps, order, k + 1, c, total, x);
        var r :| r in Rows(ps, order, k + 1, c, total) && r.Free? && r.start <= x && x + ALIGN <= r.start + r.sectors;
        assert r in rows;
      }
    }
  }

  /** Every free megabyte past the first lies in one free row. */
  lemma ItemsFind(ps: seq<Part>, total: nat, x: nat)
    requires Sound(ps, total) && ALIGN <= x && x + ALIGN <= total
    requires forall i :: 0 <= i < 4 && ps[i].count > 0 ==> Clear(x, ALIGN, ps[i])
    ensures exists r :: r in Items(ps, total) && Spans(r, x)
  {
    OrderOk(ps, 4);
    RowsFind(ps, Order(ps, 4), 0, ALIGN, total, x);
  }

  // ---- sizes ----

  function At(s: string, p: nat): char { if p < |s| then s[p] else '\0' }

  function SkipSpaces(s: string, p: nat): (q: nat)
    ensures p <= q && At(s, q) != ' ' && forall k :: p <= k < q ==> At(s, k) == ' '
    decreases |s| - p
  {
    if At(s, p) == ' ' then SkipSpaces(s, p + 1) else p
  }

  predicate Digit(c: char) { '0' <= c <= '9' }

  /** The digits from p on, after the ones that made v, in 32 bits; and the position after them. */
  function Digits(s: string, p: nat, v: nat): (r: (nat, nat))
    ensures r.1 >= p
    decreases |s| - p
  {
    if Digit(At(s, p)) then Digits(s, p + 1, U32(10 * v + (At(s, p) as int - '0' as int))) else (v, p)
  }

  function Percent(avail: nat, v: nat): nat {
    avail / 100 * v + avail % 100 * v / 100
  }

  /** The split form is the percentage rounded down. */
  lemma PercentFloor(avail: nat, v: nat)
    ensures Percent(avail, v) == avail * v / 100
    ensures v <= 100 ==> Percent(avail, v) <= avail
  {
    var q, r := avail / 100, avail % 100;
    assert avail == 100 * q + r;
    Spread(q, r, v);
    DivShift(q * v, r * v);
    if v <= 100 { Below(q, r, v); }
  }

  lemma Spread(q: nat, r: nat, v: nat)
    ensures (100 * q + r) * v == 100 * (q * v) + r * v
  {}

  lemma DivShift(a: nat, b: nat)
    ensures (100 * a + b) / 100 == a + b / 100
  {}

  lemma Below(q: nat, r: nat, v: nat)
    requires v <= 100
    ensures q * v + r * v / 100 <= 100 * q + r
  {
    assert q * v <= 100 * q;
    assert r * v <= 100 * r;
  }

  predicate SaysMax(s: string, p: nat) {
    && (At(s, p) == 'm' || At(s, p) == 'M') && (At(s, p + 1) == 'a' || At(s, p + 1) == 'A')
    && (At(s, p + 2) == 'x' || At(s, p + 2) == 'X')
  }

  /** parse_size: never more than is available. */
  function ParseSize(s: string, avail: nat): (n: nat)
    ensures n <= avail
  {
    var p := SkipSpaces(s, 0);
    if SaysMax(s, p) then avail
    else
      var d := Digits(s, p, 0);
      if d.1 == p then 0
      else
        var u := At(s, SkipSpaces(s, d.1));
        var out := if u == '%' then (if d.0 >= 100 then avail else Percent(avail, d.0))
                   else if u == 'g' || u == 'G' then U32(U32(d.0 * ALIGN) * 1024)
                   else if u == 'm' || u == 'M' then U32(d.0 * ALIGN)
                   else d.0;
        if out > avail then avail else out
  }

  // ---- actions ----

  datatype Action = New(sel: nat, input: Option<string>) | Delete(sel: nat)

  function FirstFree(ps: seq<Part>, i: nat): (r: nat)
    requires |ps| == 4 && i <= 4
    ensures i <= r <= 4 && (r < 4 ==> ps[r].count == 0) && forall k :: i <= k < r ==> ps[k].count > 0
    decreases ps, 4 - i
  {
    if i == 4 || ps[i].count == 0 then i else FirstFree(ps, i + 1)
  }

  function AlignUp(v: nat): (r: nat)
    ensures v <= r < v + ALIGN && r % ALIGN == 0
  {
    var x := v + (ALIGN - 1);
    x - x % ALIGN
  }

  /** The table after act_new or act_delete on the selected row. */
  function Step(ps: seq<Part>, total: nat, a: Action): (r: seq<Part>)
    requires |ps| == 4
    ensures |r| == 4
  {
    var rows := Items(ps, total);
    StepOn(ps, rows[Chosen(rows, a.sel)], a)
  }

  /** The main loop pulls a selection past the last row back to it. */
  function Chosen(rows: seq<Row>, sel: nat): (k: nat)
    requires rows != []
    ensures k < |rows|
  {
    if sel < |rows| then sel else |rows| - 1
  }

  function StepOn(ps: seq<Part>, it: Row, a: Action): (r: seq<Part>)
    requires |ps| == 4
    ensures |r| == 4
  {
    match a
    case Delete(_) => if it.Used? && it.slot < 4 then ps[it.slot := Part(0, 0)] else ps
    case New(_, input) =>
      var slot := FirstFree(ps, 0);
      if it.Used? || slot == 4 || input.None? then ps
      else
        var start, end := AlignUp(it.start), it.start + it.sectors;
        if start >= end then ps
        else
          var n := ParseSize(input.value, end - start);
          if n == 0 then ps else ps[slot := Part(start, n)]
  }

  // ---- what the actions do ----

  /** The row an action is for: the selected one, or the last when fewer are left. */
  predicate Selects(rows: seq<Row>, sel: nat, it: Row) {
    rows != [] && it == if sel < |rows| then rows[sel] else rows[|rows| - 1]
  }

  ghost predicate SameBut(ps: seq<Part>, qs: seq<Part>, slot: nat) {
    |qs| == |ps| && slot < |ps| && forall i :: 0 <= i < |ps| && i != slot ==> qs[i] == ps[i]
  }

  /** Deleting a partition row empties the entry it shows and no other; a free row is refused. */
  ghost predicate DeletedRow(ps: seq<Part>, it: Row, qs: seq<Part>) {
    if it.Free? then qs == ps else SameBut(ps, qs, it.slot) && qs[it.slot].count == 0
  }

  /** start is the first multiple of 2048 not before v. */
  predicate Aligned(v: nat, start: nat) { v <= start < v + 2048 && start % 2048 == 0 }

  /** slot is the lowest empty one. */
  ghost predicate LowestEmpty(ps: seq<Part>, slot: nat) {
    slot < |ps| && ps[slot].count == 0 && forall i :: 0 <= i < slot ==> ps[i].count > 0
  }

  /**
    New puts a partition of the size typed at the first aligned sector of a free
    row into the lowest empty slot and changes no other; it is refused on a
    partition row, with no slot left, no aligned sector in the row, the prompt
    left, or no size typed.
   */
  ghost predicate NewIn(ps: seq<Part>, it: Row, input: Option<string>, qs: seq<Part>) {
    var end := it.start + it.sectors;
    if it.Used? || (forall i :: 0 <= i < |ps| ==> ps[i].count > 0) || input.None? then qs == ps
    else
      exists slot: nat, start: nat :: LowestEmpty(ps, slot) && Aligned(it.start, start)
        && if start >= end || ParseSize(input.value, end - start) == 0 then qs == ps
           else SameBut(ps, qs, slot) && qs[slot] == Part(start, ParseSize(input.value, end - start))
  }

  ghost predicate Done(ps: seq<Part>, it: Row, a: Action, qs: seq<Part>) {
    match a case Delete(_) => DeletedRow(ps, it, qs) case New(_, input) => NewIn(ps, it, input, qs)
  }

  lemma NewIs(ps: seq<Part>, it: Row, sel: nat, input: Option<string>)
    requires |ps| == 4
    ensures NewIn(ps, it, input, StepOn(ps, it, New(sel, input)))
  {
    hide ParseSize;
    var slot, start := FirstFree(ps, 0), AlignUp(it.start);
    if slot < 4 { assert LowestEmpty(ps, slot) && Aligned(it.start, start); }
  }

  /** Both actions, on any table. */
  lemma StepIs(ps: seq<Part>, total: nat, a: Action) returns (it: Row)
    requires |ps| == 4
    ensures Selects(Items(ps, total), a.sel, it) && Done(ps, it, a, Step(ps, total, a))
  {
    var rows := Items(ps, total);
    it := rows[Chosen(rows, a.sel)];
    ItemsShow(ps, total);
    assert it in rows;
    if a.New? { NewIs(ps, it, a.sel, a.input); }
  }

  lemma PutSound(ps: seq<Part>, total: nat, slot: nat, p: Part)
    requires Sound(ps, total) && slot < 4 && p.start < 0x1_0000_0000 && p.count < 0x1_0000_0000 && Fits(p, total)
    requires forall i :: 0 <= i < 4 && i != slot ==> Disjoint(p, ps[i])
    ensures Sound(ps[slot := p], total)
  {
    var qs := ps[slot := p];
    forall i, j {:trigger Disjoint(qs[i], qs[j])} | 0 <= i < 4 && 0 <= j < 4 && i != j ensures Disjoint(qs[i], qs[j]) {
      if i != slot && j != slot { assert Disjoint(ps[i], ps[j]); }
    }
  }

  lemma InRow(ps: seq<Part>, total: nat, r: Row, slot: nat, start: nat, n: nat)
    requires Sound(ps, total) && FreeOn(ps, total, r) && r.Free? && slot < 4 && ps[slot].count == 0
    requires r.start <= start && 0 < n && start + n <= r.start + r.sectors
    ensures Sound(ps[slot := Part(start, n)], total)
  {
    forall i | 0 <= i < 4 && i != slot ensures Disjoint(Part(start, n), ps[i]) {
      if ps[i].count > 0 { assert Clear(r.start, r.sectors, ps[i]); }
    }
    PutSound(ps, total, slot, Part(start, n));
  }

  /** Both actions keep the populated entries disjoint and on the disk. */
  lemma StepSound(ps: seq<Part>, total: nat, a: Action)
    requires Sound(ps, total)
    ensures Sound(Step(ps, total, a), total)
  {
    var rows := Items(ps, total);
    var it := rows[Chosen(rows, a.sel)];
    ItemsFree(ps, total);
    assert it in rows && FreeOn(ps, total, it);
    if a.Delete? {
      if it.Used? && it.slot < 4 { PutSound(ps, total, it.slot, Part(0, 0)); }
    } else if it.Free? && a.input.Some? && FirstFree(ps, 0) < 4 && AlignUp(it.start) < it.start + it.sectors {
      var start := AlignUp(it.start);
      var n := ParseSize(a.input.value, it.start + it.sectors - start);
      if n > 0 { InRow(ps, total, it, FirstFree(ps, 0), start, n); }
    }
  }

  // ---- 32 bits are enough for rows ----

  ghost predicate RowFits(r: Row) {
    r.Free? ==> r.start + r.sectors < 0x1_0000_0000 && r.start + ALIGN <= 0x1_0000_0000
  }

  lemma {:induction false} RowsFit(ps: seq<Part>, order: seq<nat>, k: nat, cursor: nat, total: nat)
    requires TableOk(ps) && total < 0x1_0000_0000 && k <= |order| && forall j :: 0 <= j < |order| ==> order[j] < 4
    ensures forall r :: r in Rows(ps, order, k, cursor, total) ==> RowFits(r)
    decreases |order| - k
  {
    if k < |order| {
      var p := ps[order[k]];
      RowsFit(ps, order, k + 1, Max(cursor, U32(p.start + p.count)), total);
    }
  }

  /** Aligning a free row's start and taking its end never wrap, on any table. */
  lemma ItemsFit(ps: seq<Part>, total: nat)
    requires TableOk(ps) && total < 0x1_0000_0000
    ensures forall r :: r in Items(ps, total) ==> RowFits(r)
  {
    RowsFit(ps, Order(ps, 4), 0, ALIGN, total);
  }

  // ---- what a size says ----

  function Capped(n: nat, avail: nat): nat { if n > avail then avail else n }

  /** The digits from p on, after the ones that made v, over all integers; and the position after them. */
  function Spelled(s: string, p: nat, v: nat): (r: (nat, nat))
    ensures r.1 >= p
    decreases |s| - p
  {
    if Digit(At(s, p)) then Spelled(s, p + 1, 10 * v + (At(s, p) as int - '0' as int)) else (v, p)
  }

  /** A text with a number in it, in front of its unit. */
  predicate Sized(s: string) {
    var p := SkipSpaces(s, 0);
    !SaysMax(s, p) && Digit(At(s, p))
  }

  /** The number it spells. */
  function Asked(s: string): nat { Spelled(s, SkipSpaces(s, 0), 0).0 }

  /** The character behind the number. */
  function UnitChar(s: string): char { At(s, SkipSpaces(s, Spelled(s, SkipSpaces(s, 0), 0).1)) }

  /** Sectors in a unit; a number without one counts sectors. */
  function Unit(u: char): (r: nat)
    ensures r >= 1
  {
    if u == 'g' || u == 'G' then 0x20_0000 else if u == 'm' || u == 'M' then ALIGN else 1
  }

  lemma U32Plus(h: int, b: int)
    ensures U32(0x1_0000_0000 * h + b) == U32(b)
  {}

  lemma Product(h: int, u: int, k: int)
    ensures (0x1_0000_0000 * h + u) * k == 0x1_0000_0000 * (h * k) + u * k
  {}

  /** Truncating a factor does not change the truncated product. */
  lemma U32Product(e: nat, k: nat)
    ensures U32(U32(e) * k) == U32(e * k)
  {
    var h := e / 0x1_0000_0000;
    Product(h, U32(e), k);
    U32Plus(h * k, U32(e) * k);
  }

  lemma U32Digit(v: nat, d: nat)
    ensures U32(10 * U32(v) + d) == U32(10 * v + d)
  {
    var h := v / 0x1_0000_0000;
    U32Plus(10 * h, 10 * U32(v) + d);
  }

  /** The digit loop keeps the number spelled, modulo 2^32. */
  lemma {:induction false} DigitsSpelled(s: string, p: nat, v: nat)
    ensures Digits(s, p, U32(v)) == (U32(Spelled(s, p, v).0), Spelled(s, p, v).1)
    decreases |s| - p
  {
    if Digit(At(s, p)) {
      var d := At(s, p) as int - '0' as int;
      U32Digit(v, d);
      DigitsSpelled(s, p + 1, 10 * v + d);
    }
  }

  lemma U32Twice(v: nat)
    ensures U32(U32(U32(v) * ALIGN) * 1024) == U32(v * 0x20_0000)
  {
    U32Product(v, ALIGN);
    U32Product(v * ALIGN, 1024);
    assert v * ALIGN * 1024 == v * 0x20_0000;
  }

  /** parse_size takes the number times its unit modulo 2^32, and at most what is available. */
  lemma SizeIs(s: string, avail: nat)
    requires Sized(s)
    ensures UnitChar(s) != '%' ==> ParseSize(s, avail) == Capped(U32(Asked(s) * Unit(UnitChar(s))), avail)
    ensures UnitChar(s) == '%' ==>
              ParseSize(s, avail) == if U32(Asked(s)) >= 100 then avail else Percent(avail, U32(Asked(s)))
  {
    var p := SkipSpaces(s, 0);
    DigitsSpelled(s, p, 0);
    assert Spelled(s, p, 0).1 > p;
    var u := UnitChar(s);
    if u == '%' {
      PercentFloor(avail, U32(Asked(s)));
    } else if u == 'g' || u == 'G' {
      U32Twice(Asked(s));
    } else {
      U32Product(Asked(s), Unit(u));
    }
  }

  /** The word max in any letter case asks for everything, and a text without a number for nothing. */
  lemma SizeWords(s: string, avail: nat)
    ensures var p := SkipSpaces(s, 0);
            && (At(s, p) in "mM" && At(s, p + 1) in "aA" && At(s, p + 2) in "xX" ==> ParseSize(s, avail) == avail)
            && (!(At(s, p) in "mM" && At(s, p + 1) in "aA" && At(s, p + 2) in "xX") && !('0' <= At(s, p) <= '9') ==>
                  ParseSize(s, avail) == 0)
  {}

  /**
    In one free space, a size is read as it is written exactly when it fits 32 bits or
    what is left still fills the space.
   */
  lemma SizeIff(s: string, avail: nat)
    requires Sized(s) && UnitChar(s) != '%' && avail < 0x1_0000_0000
    ensures var n := Asked(s) * Unit(UnitChar(s));
            ParseSize(s, avail) == Capped(n, avail) <==> n < 0x1_0000_0000 || U32(n) >= avail
  {
    SizeIs(s, avail);
  }

  lemma MultipleBelow(v: nat, unit: nat, q: nat)
    requires unit > 1 && 0x1_0000_0000 == unit * q && v * unit >= 0x1_0000_0000
    ensures U32(v * unit) != 0xFFFF_FFFF
  {
    var w := v * unit;
    var h := w / 0x1_0000_0000;
    assert w == 0x1_0000_0000 * h + U32(w);
    assert U32(w) == unit * (v - q * h) by { Distribute(unit, v, q, h); }
    NotOneLess(unit, v - q * h, q);
  }

  lemma Distribute(u: int, v: int, q: int, h: int)
    ensures u * (v - q * h) == v * u - (u * q) * h
  {}

  lemma Scaled(u: int, x: int, y: int)
    requires u > 0 && x <= y
    ensures u * x <= u * y
  {}

  lemma NotOneLess(u: int, x: int, q: int)
    requires u > 1
    ensures u * x != u * q - 1
  {
    if x >= q {
      Scaled(u, q, x);
    } else {
      Scaled(u, x, q - 1);
      assert u * (q - 1) == u * q - u;
    }
  }

  /** parse_size gives s its meaning in every free space. */
  ghost predicate ReadRight(s: string) {
    forall avail: nat :: avail < 0x1_0000_0000 ==> ParseSize(s, avail) == Capped(Asked(s) * Unit(UnitChar(s)), avail)
  }

  /**
    A size is read as it is written in every free space exactly when it fits 32
    bits; for bare sectors also when what is left of it is the largest size there is.
   */
  lemma UnitsIff(s: string)
    requires Sized(s) && UnitChar(s) != '%'
    ensures var n := Asked(s) * Unit(UnitChar(s));
            ReadRight(s) <==> n < 0x1_0000_0000 || (Unit(UnitChar(s)) == 1 && U32(n) == 0xFFFF_FFFF)
  {
    var unit := Unit(UnitChar(s));
    var n := Asked(s) * unit;
    forall avail: nat | avail < 0x1_0000_0000
      ensures ParseSize(s, avail) == Capped(n, avail) <==> n < 0x1_0000_0000 || U32(n) >= avail
    {
      SizeIff(s, avail);
    }
    if n >= 0x1_0000_0000 && unit > 1 { MultipleBelow(Asked(s), unit, 0x1_0000_0000 / unit); }
    if n >= 0x1_0000_0000 && U32(n) != 0xFFFF_FFFF {
      assert ParseSize(s, 0xFFFF_FFFF) != Capped(n, 0xFFFF_FFFF);
    }
  }

  /** So gibibytes are read right exactly when fewer than 2048 are written, and mebibytes when fewer than 2097152. */
  lemma GigabytesIff(s: string)
    requires Sized(s)
    ensures UnitChar(s) == 'g' || UnitChar(s) == 'G' ==> (ReadRight(s) <==> Asked(s) < 2048)
    ensures UnitChar(s) == 'm' || UnitChar(s) == 'M' ==> (ReadRight(s) <==> Asked(s) < 0x20_0000)
  {
    if UnitChar(s) != '%' { UnitsIff(s); }
  }

  /** A percentage is read right exactly when it is below 100 or what is left of it is not. */
  lemma PercentIff(s: string, avail: nat)
    requires Sized(s) && UnitChar(s) == '%' && avail > 0
    ensures ParseSize(s, avail) == (if Asked(s) >= 100 then avail else avail * Asked(s) / 100)
            <==> Asked(s) < 100 || U32(Asked(s)) >= 100
  {
    SizeIs(s, avail);
    PercentFloor(avail, U32(Asked(s)));
    if U32(Asked(s)) < 100 { BelowAll(avail, U32(Asked(s))); }
  }

  lemma BelowAll(avail: nat, v: nat)
    requires avail > 0 && v < 100
    ensures avail * v / 100 < avail
  {
    assert avail * v <= avail * 99;
  }

  lemma OneDigit(s: string, p: nat, v: nat, d: nat)
    requires p < |s| && Digit(s[p]) && d == s[p] as int - '0' as int
    ensures Spelled(s, p, v) == Spelled(s, p + 1, 10 * v + d)
  {}

  /** A number and a G, and nothing else. */
  lemma Gigabytes(s: string, k: nat, v: nat, avail: nat)
    requires 0 < k && |s| == k + 1 && s[k] == 'G' && Digit(s[0]) && Spelled(s, 0, 0) == Spelled(s, k, v)
    ensures Asked(s) == v && ParseSize(s, avail) == Capped(U32(v * 0x20_0000), avail)
  {
    assert SkipSpaces(s, 0) == 0 && Spelled(s, k, v) == (v, k) && SkipSpaces(s, k) == k;
    SizeIs(s, avail);
  }

  lemma SpellShort(s: string)
    requires s == "2048G"
    ensures Spelled(s, 0, 0) == Spelled(s, 4, 2048)
  {
    hide Spelled;
    OneDigit(s, 0, 0, 2);
    OneDigit(s, 1, 2, 0);
    OneDigit(s, 2, 20, 4);
    OneDigit(s, 3, 204, 8);
  }

  lemma SpellLong(s: string)
    requires s == "4294967297G"
    ensures Spelled(s, 0, 0) == Spelled(s, 10, 0x1_0000_0001)
  {
    hide Spelled;
    OneDigit(s, 0, 0, 4);
    OneDigit(s, 1, 4, 2);
    OneDigit(s, 2, 42, 9);
    OneDigit(s, 3, 429, 4);
    OneDigit(s, 4, 4294, 9);
    OneDigit(s, 5, 42949, 6);
    OneDigit(s, 6, 429496, 7);
    OneDigit(s, 7, 4294967, 2);
    OneDigit(s, 8, 42949672, 9);
    OneDigit(s, 9, 429496729, 7);
  }

  /** 2048G is read as nothing, and 4294967297G as one gibibyte. */
  lemma WrappingSizes(a: string, b: string, avail: nat)
    requires a == "2048G" && b == "4294967297G" && 0x20_0000 <= avail
    ensures Asked(a) == 2048 && ParseSize(a, avail) == 0
    ensures Asked(b) == 0x1_0000_0001 && ParseSize(b, avail) == 0x20_0000
  {
    hide Spelled, ParseSize, Asked;
    SpellShort(a);
    Gigabytes(a, 4, 2048, avail);
    SpellLong(b);
    Gigabytes(b, 10, 0x1_0000_0001, avail);
  }

  function Run(ps: seq<Part>, total: nat, acts: seq<Action>): (r: seq<Part>)
    requires |ps| == 4
    ensures |r| == 4
  {
    if acts == [] then ps else Step(Run(ps, total, acts[..|acts| - 1]), total, acts[|acts| - 1])
  }

  /** In every run from a sound table, every table is sound and every free row is free. */
  lemma {:induction false} RunSound(ps: seq<Part>, total: nat, acts: seq<Action>)
    requires Sound(ps, total)
    ensures Sound(Run(ps, total, acts), total)
    ensures forall r :: r in Items(Run(ps, total, acts), total) ==> FreeOn(Run(ps, total, acts), total, r)
  {
    if acts != [] {
      RunSound(ps, total, acts[..|acts| - 1]);
      StepSound(Run(ps, total, acts[..|acts| - 1]), total, acts[|acts| - 1]);
    }
    ItemsFree(Run(ps, total, acts), total);
  }
}
