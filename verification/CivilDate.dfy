/** The days-to-date arithmetic of fmt_date in mxfiles.c, against counting days by the calendar. */
module CivilDate {

  datatype Date = Date(y: int, m: int, d: int)

  // ---- the Gregorian calendar ----

  predicate Leap(y: int) { y % 4 == 0 && (y % 100 != 0 || y % 400 == 0) }

  function LeapDay(y: int): nat { if Leap(y) then 1 else 0 }

  function MonthDays(y: int, m: int): nat {
    if m == 2 then 28 + LeapDay(y) else if m == 4 || m == 6 || m == 9 || m == 11 then 30 else 31
  }

  predicate Valid(x: Date) { 1970 <= x.y && 1 <= x.m <= 12 && 1 <= x.d <= MonthDays(x.y, x.m) }

  /** Days from 1 January 1970 to 1 January of year y. */
  function YearStart(y: int): nat {
    if y <= 1970 then 0 else YearStart(y - 1) + 365 + LeapDay(y - 1)
  }

  /** Days from 1 January to the first of month m. */
  function MonthStart(y: int, m: int): nat {
    if m <= 1 then 0 else MonthStart(y, m - 1) + MonthDays(y, m - 1)
  }

  /** Days since 1 January 1970. */
  function Count(x: Date): nat
    requires Valid(x)
  {
    YearStart(x.y) + MonthStart(x.y, x.m) + x.d - 1
  }

  // ---- fmt_date ----

  function YearOfEra(doe: nat): nat
    requires doe <= 146096
  {
    (doe - doe / 1460 + doe / 36524 - doe / 146096) / 365
  }

  /** Days from 1 March of year 0 of an era to 1 March of year k. */
  function MarchOfEra(k: nat): nat {
    365 * k + k / 4 - k / 100
  }

  /** The date fmt_date prints for the day t / 86400. */
  function Civil(days: nat): Date {
    var z := days + 719468;
    var era, doe := z / 146097, z % 146097;
    var yoe := YearOfEra(doe);
    var doy := doe - MarchOfEra(yoe);
    var mp := (5 * doy + 2) / 153;
    var d := doy - (153 * mp + 2) / 5 + 1;
    var m := if mp < 10 then mp + 3 else mp - 9;
    var y := yoe + era * 400;
    Date(if m <= 2 then y + 1 else y, m, d)
  }

  // ---- years of an era: centuries, four-year groups and years in them ----

  /** Year 100c + 4q + r of an era, counted from March, ends with a leap day. */
  predicate LongYear(c: nat, q: nat, r: nat) { r == 3 && (q < 24 || c == 3) }

  predicate InYear(c: nat, q: nat, r: nat, doy: nat) {
    c <= 3 && q <= 24 && r <= 3 && doy <= (if LongYear(c, q, r) then 365 else 364)
  }

  lemma EraParts(doe: nat) returns (c: nat, q: nat, r: nat, doy: nat)
    requires doe <= 146096
    ensures InYear(c, q, r, doy) && doe == 36524 * c + 1461 * q + 365 * r + doy
  {
    c := if doe / 36524 < 3 then doe / 36524 else 3;
    var a := doe - 36524 * c;
    q := a / 1461;
    var b := a - 1461 * q;
    r := if b / 365 < 3 then b / 365 else 3;
    doy := b - 365 * r;
  }

  lemma MarchParts(c: nat, q: nat, r: nat)
    requires c <= 3 && q <= 24 && r <= 3
    ensures MarchOfEra(100 * c + 4 * q + r) == 36524 * c + 1461 * q + 365 * r
  {
    var k := 100 * c + 4 * q + r;
    assert k / 100 == c && k / 4 == 25 * c + q;
  }

  /** The quotients of the year formula. */
  lemma Quotients(c: nat, q: nat, r: nat, doy: nat, doe: nat)
    requires InYear(c, q, r, doy) && doe == 36524 * c + 1461 * q + 365 * r + doy
    ensures doe / 1460 == 25 * c + q + if 24 * c + q + 365 * r + doy >= 1460 then 1 else 0
    ensures doe / 36524 - doe / 146096 == c
  {}

  lemma YearFormula(c: nat, q: nat, r: nat, doy: nat, doe: nat)
    requires InYear(c, q, r, doy) && doe == 36524 * c + 1461 * q + 365 * r + doy
    ensures doe <= 146096 && YearOfEra(doe) == 100 * c + 4 * q + r
  {
    Quotients(c, q, r, doy, doe);
    var e := if 24 * c + q + 365 * r + doy >= 1460 then 1 else 0;
    assert 0 <= doy - e <= 364;
    assert doe - doe / 1460 + doe / 36524 - doe / 146096 == 365 * (100 * c + 4 * q + r) + (doy - e);
  }

  // ---- years from March to the calendar ----

  /** Days from 1 March of year 0 to 1 March of year y. */
  function March(y: nat): nat { 365 * y + y / 4 - y / 100 + y / 400 }

  lemma MarchStep(y: nat)
    ensures March(y + 1) == March(y) + 365 + LeapDay(y + 1)
  {
    assert (y + 1) / 4 == y / 4 + if (y + 1) % 4 == 0 then 1 else 0;
    assert (y + 1) / 100 == y / 100 + if (y + 1) % 100 == 0 then 1 else 0;
    assert (y + 1) / 400 == y / 400 + if (y + 1) % 400 == 0 then 1 else 0;
  }

  lemma MarchEra(era: nat, k: nat)
    requires k < 400
    ensures March(400 * era + k) == 146097 * era + MarchOfEra(k)
  {
    var y := 400 * era + k;
    assert y / 4 == 100 * era + k / 4 && y / 100 == 4 * era + k / 100 && y / 400 == era;
  }

  /** 1 January comes 306 days after 1 March of the year before. */
  lemma {:induction false} January(y: nat)
    requires y >= 1970
    ensures YearStart(y) + 719468 == March(y - 1) + 306
  {
    if y > 1970 {
      January(y - 1);
      MarchStep(y - 2);
    } else {
      assert 1969 / 4 == 492 && 1969 / 100 == 19 && 1969 / 400 == 4;
    }
  }

  /** The months from March on, and January and February of the next year. */
  lemma MonthTable(y: int)
    ensures MonthStart(y, 1) == 0 && MonthStart(y, 2) == 31 && MonthStart(y, 3) == 59 + LeapDay(y)
    ensures MonthStart(y, 4) == MonthStart(y, 3) + 31 && MonthStart(y, 5) == MonthStart(y, 3) + 61
    ensures MonthStart(y, 6) == MonthStart(y, 3) + 92 && MonthStart(y, 7) == MonthStart(y, 3) + 122
    ensures MonthStart(y, 8) == MonthStart(y, 3) + 153 && MonthStart(y, 9) == MonthStart(y, 3) + 184
    ensures MonthStart(y, 10) == MonthStart(y, 3) + 214 && MonthStart(y, 11) == MonthStart(y, 3) + 245
    ensures MonthStart(y, 12) == MonthStart(y, 3) + 275
  {}

  /** The month formula: mp months after March starts on day (153 mp + 2) / 5. */
  lemma MonthFormula(doy: nat)
    requires doy <= 365
    ensures var mp := (5 * doy + 2) / 153;
            && mp <= 11 && (153 * mp + 2) / 5 <= doy
            && (mp < 11 ==> doy < (153 * (mp + 1) + 2) / 5)
  {}

  /** Day doy of the March year y0 as a calendar date. */
  function FromMarch(y0: nat, doy: nat): Date {
    var mp := (5 * doy + 2) / 153;
    var m := if mp < 10 then mp + 3 else mp - 9;
    Date(if m <= 2 then y0 + 1 else y0, m, doy - (153 * mp + 2) / 5 + 1)
  }

  lemma MarchOn(y0: nat, doy: nat)
    requires 1970 <= y0 && doy < 306
    ensures Valid(FromMarch(y0, doy)) && Count(FromMarch(y0, doy)) == YearStart(y0) + 59 + LeapDay(y0) + doy
  {
    MonthFormula(doy);
    MonthTable(y0);
  }

  lemma WinterOn(y0: nat, doy: nat)
    requires 1969 <= y0 && 306 <= doy <= 364 + LeapDay(y0 + 1)
    ensures Valid(FromMarch(y0, doy)) && Count(FromMarch(y0, doy)) == YearStart(y0 + 1) + doy - 306
  {
    MonthFormula(doy);
    MonthTable(y0 + 1);
  }

  lemma FromMarchCount(y0: nat, doy: nat)
    requires 1969 <= y0 && doy <= 364 + LeapDay(y0 + 1) && (y0 == 1969 ==> doy >= 306)
    ensures Valid(FromMarch(y0, doy)) && Count(FromMarch(y0, doy)) + 719468 == March(y0) + doy
  {
    if doy < 306 {
      MarchOn(y0, doy);
      January(y0);
      MarchStep(y0 - 1);
    } else {
      WinterOn(y0, doy);
      January(y0 + 1);
    }
  }

  lemma Mod4(a: nat, b: nat)
    ensures (4 * a + b) % 4 == b % 4
  {}

  lemma Mod100(a: nat, b: nat)
    ensures (100 * a + b) % 100 == b % 100
  {}

  lemma Mod400(a: nat, b: nat)
    ensures (400 * a + b) % 400 == b % 400
  {}

  lemma LongYears(era: nat, c: nat, q: nat, r: nat)
    requires c <= 3 && q <= 24 && r <= 3
    ensures Leap(400 * era + 100 * c + 4 * q + r + 1) <==> LongYear(c, q, r)
  {
    var y := 400 * era + 100 * c + 4 * q + r + 1;
    Mod4(100 * era + 25 * c + q, r + 1);
    Mod100(4 * era + c, 4 * q + r + 1);
    Mod400(era, 100 * c + 4 * q + r + 1);
    assert y % 4 == 0 <==> r == 3;
    assert y % 100 == 0 <==> r == 3 && q == 24;
    assert y % 400 == 0 <==> r == 3 && q == 24 && c == 3;
  }

  /** The date printed for a day is a date, and counting the days to it gives the day back. */
  lemma CivilCounts(days: nat)
    ensures Valid(Civil(days)) && Count(Civil(days)) == days
  {
    hide YearStart, MonthStart, Count, Valid;
    var z := days + 719468;
    var era, doe := z / 146097, z % 146097;
    var c, q, r, doy := EraParts(doe);
    var k := 100 * c + 4 * q + r;
    YearFormula(c, q, r, doy, doe);
    MarchParts(c, q, r);
    MarchEra(era, k);
    LongYears(era, c, q, r);
    var y0 := 400 * era + k;
    EarlyYears(y0, z, doy);
    assert Civil(days) == FromMarch(y0, doy);
    FromMarchCount(y0, doy);
  }

  lemma EarlyYears(y0: nat, z: nat, doy: nat)
    requires z == March(y0) + doy && z >= 719468 && doy <= 365
    ensures y0 >= 1969 && (y0 == 1969 ==> doy >= 306)
  {}

  // ---- the only date ----

  lemma {:induction false} MonthsFit(y: int, m: int)
    requires 1 <= m <= 13
    ensures MonthStart(y, m) <= 365 + LeapDay(y)
  {
    MonthTable(y);
    assert MonthStart(y, 13) == MonthStart(y, 12) + 31;
  }

  lemma {:induction false} YearsGrow(a: int, b: int)
    requires 1970 <= a < b
    ensures YearStart(a) + 365 + LeapDay(a) <= YearStart(b)
    decreases b
  {
    if a < b - 1 { YearsGrow(a, b - 1); }
  }

  lemma {:induction false} MonthsGrow(y: int, a: int, b: int)
    requires 1 <= a < b
    ensures MonthStart(y, a) + MonthDays(y, a) <= MonthStart(y, b)
    decreases b
  {
    if a < b - 1 { MonthsGrow(y, a, b - 1); }
  }

  /** No two dates have the same day count. */
  lemma CountInjective(x: Date, x': Date)
    requires Valid(x) && Valid(x') && Count(x) == Count(x')
    ensures x == x'
  {
    MonthsGrow(x.y, x.m, 13);
    MonthsGrow(x'.y, x'.m, 13);
    MonthsFit(x.y, 13);
    MonthsFit(x'.y, 13);
    if x.y < x'.y { YearsGrow(x.y, x'.y); } else if x'.y < x.y { YearsGrow(x'.y, x.y); }
    else if x.m < x'.m { MonthsGrow(x.y, x.m, x'.m); } else if x'.m < x.m { MonthsGrow(x.y, x'.m, x.m); }
  }

  /** So the conversion is inverse to counting days: every date from 1970 on is printed for its own day. */
  lemma CivilOfCount(x: Date)
    requires Valid(x)
    ensures Civil(Count(x)) == x
  {
    CivilCounts(Count(x));
    CountInjective(Civil(Count(x)), x);
  }

  /** A timestamp is its day, hour, minute and the seconds the text leaves out. */
  lemma TimeOfDay(t: nat)
    ensures Valid(Civil(t / 86400))
    ensures var secs := t % 86400;
            var hh, mm := secs / 3600, secs / 60 % 60;
            && hh < 24 && mm < 60
            && 86400 * Count(Civil(t / 86400)) + 3600 * hh + 60 * mm <= t
            && t < 86400 * Count(Civil(t / 86400)) + 3600 * hh + 60 * mm + 60
  {
    CivilCounts(t / 86400);
    Clock(t);
  }

  lemma Clock(t: nat)
    ensures var secs := t % 86400;
            var hh, mm := secs / 3600, secs / 60 % 60;
            var start := 86400 * (t / 86400) + 3600 * hh + 60 * mm;
            hh < 24 && mm < 60 && start <= t < start + 60
  {
    var secs := t % 86400;
    assert secs / 60 == 60 * (secs / 3600) + secs / 60 % 60;
  }
}
