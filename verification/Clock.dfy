/** Civil time from epoch seconds (src/common/platform/clock/clock.c): the closed
    form against counting Gregorian days one at a time, and the packed decimal that
    certificate validity windows compare (src/crypto/pki/encoding/x509/validity.c). */
module Clock {
  import opened Arith

  datatype Date = Date(y: int, m: int, d: int)

  // ---- the calendar, one day at a time ----

  predicate IsLeap(y: int)
  {
    y % 4 == 0 && (y % 100 != 0 || y % 400 == 0)
  }

  function DaysInMonth(y: int, m: int): int
  {
    if m == 2 then (if IsLeap(y) then 29 else 28)
    else if m in {4, 6, 9, 11} then 30 else 31
  }

  function NextDay(t: Date): Date
  {
    if t.d < DaysInMonth(t.y, t.m) then Date(t.y, t.m, t.d + 1)
    else if t.m < 12 then Date(t.y, t.m + 1, 1)
    else Date(t.y + 1, 1, 1)
  }

  function DateAfter(days: nat): Date
  {
    if days == 0 then Date(1970, 1, 1) else NextDay(DateAfter(days - 1))
  }

  // ---- the closed form ----

  function YearOfDay(doe: int): int
  {
    (doe - doe / 1460 + doe / 36524 - doe / 146096) / 365
  }

  function Civil(days: nat): Date
  {
    var z := days + 719468;
    var era := z / 146097;
    var doe := z - era * 146097;
    var yoe := YearOfDay(doe);
    var doy := doe - (365 * yoe + yoe / 4 - yoe / 100);
    var mp := (5 * doy + 2) / 153;
    Date(yoe + era * 400 + (if mp >= 10 then 1 else 0),
         if mp < 10 then mp + 3 else mp - 9,
         doy - (153 * mp + 2) / 5 + 1)
  }

  // ---- positions in the March-based year ----

  /** Day t of the March-based year y (0..399) of a 400-year era. */
  datatype Position = Position(era: int, y: int, t: int)

  function YearLength(y: int): int
  {
    if IsLeap(y + 1) then 366 else 365
  }

  function YearStart(y: int): int
  {
    365 * y + y / 4 - y / 100
  }

  ghost predicate At(z: int, p: Position)
  {
    0 <= p.y < 400 && 0 <= p.t < YearLength(p.y) && z == 146097 * p.era + YearStart(p.y) + p.t
  }

  function FromMarch(p: Position): Date
  {
    var mp := (5 * p.t + 2) / 153;
    Date(p.y + p.era * 400 + (if mp >= 10 then 1 else 0),
         if mp < 10 then mp + 3 else mp - 9,
         p.t - (153 * mp + 2) / 5 + 1)
  }

  /** Within an era: a centuries, b four-year groups, e years, t days. */
  lemma {:induction false} YearOfEra(y: int, t: int, a: int, b: int, e: int)
    requires y == 100 * a + 4 * b + e && 0 <= a < 4 && 0 <= b < 25 && 0 <= e < 4 && 0 <= t < YearLength(y)
    ensures var doe := YearStart(y) + t;
      0 <= doe < 146097 && YearOfDay(doe) == y
  {
    assert y / 4 == 25 * a + b && y / 100 == a;
    LastDay(y, t, a, b, e);
    EraYear(a, b, e, t);
  }

  lemma {:induction false} EraYear(a: int, b: int, e: int, t: int)
    requires 0 <= a < 4 && 0 <= b < 25 && 0 <= e < 4 && 0 <= t <= 365 && (t == 365 ==> e == 3)
    requires 1461 * b + 365 * e + t <= 36524 && (1461 * b + 365 * e + t == 36524 ==> a == 3)
    ensures var doe := 36524 * a + 1461 * b + 365 * e + t;
      0 <= doe < 146097 && YearOfDay(doe) == 100 * a + 4 * b + e
  {
    var doe := 36524 * a + 1461 * b + 365 * e + t;
    Centuries(a, 1461 * b + 365 * e + t);
    var x := if 24 * a + b + 365 * e + t >= 1460 then 1 else 0;
    DivModUnique(doe, 1460, 25 * a + b + x, 24 * a + b + 365 * e + t - 1460 * x);
    if doe == 146096 {
      assert YearOfDay(146096) == 399;
    } else {
      DivModUnique(365 * (100 * a + 4 * b + e) + t - x, 365, 100 * a + 4 * b + e, t - x);
    }
  }

  lemma {:induction false} LastDay(y: int, t: int, a: int, b: int, e: int)
    requires y == 100 * a + 4 * b + e && 0 <= a < 4 && 0 <= b < 25 && 0 <= e < 4 && 0 <= t < YearLength(y)
    ensures t == 365 ==> e == 3
    ensures 1461 * b + 365 * e + t <= 36524
    ensures 1461 * b + 365 * e + t == 36524 ==> a == 3
  {
    assert (y + 1) % 4 == 0 <==> e == 3;
    assert (y + 1) % 100 == 0 <==> b == 24 && e == 3;
    assert (y + 1) % 400 == 0 <==> a == 3 && b == 24 && e == 3;
  }

  lemma {:induction false} Centuries(a: int, r: int)
    requires 0 <= a < 4 && 0 <= r <= 36524 && (r == 36524 ==> a == 3)
    ensures var doe := 36524 * a + r;
      doe == 146096 || (doe / 36524 == a && doe / 146096 == 0)
  {}

  lemma {:induction false} CivilUnfold(days: nat)
    ensures var z := days + 719468; var doe := z % 146097;
      Civil(days) == FromMarch(Position(z / 146097, YearOfDay(doe), doe - YearStart(YearOfDay(doe))))
  {
    hide YearOfDay;
    DivMod(days + 719468, 146097);
  }

  lemma {:induction false} YearParts(y: int)
    requires 0 <= y < 400
    ensures y == 100 * (y / 100) + 4 * ((y % 100) / 4) + y % 4
  {}

  /** The closed form reads off the position. */
  lemma {:induction false} CivilAt(days: nat, p: Position)
    requires At(days + 719468, p)
    ensures Civil(days) == FromMarch(p)
  {
    hide Civil, FromMarch, YearOfDay, YearStart, YearLength;
    YearParts(p.y);
    YearOfEra(p.y, p.t, p.y / 100, (p.y % 100) / 4, p.y % 4);
    DivModUnique(days + 719468, 146097, p.era, YearStart(p.y) + p.t);
    CivilUnfold(days);
  }

  function NextPosition(p: Position): Position
  {
    if p.t + 1 < YearLength(p.y) then p.(t := p.t + 1)
    else if p.y < 399 then Position(p.era, p.y + 1, 0)
    else Position(p.era + 1, 0, 0)
  }

  lemma {:induction false} PositionAdvances(z: int, p: Position)
    requires At(z, p)
    ensures At(z + 1, NextPosition(p))
  {
    hide YearStart, YearLength;
    EraEnds();
    YearNonempty(NextPosition(p).y);
    if p.t + 1 >= YearLength(p.y) && p.y < 399 {
      YearBoundary(p.y);
    }
  }

  lemma {:induction false} EraEnds()
    ensures YearStart(0) == 0 && YearStart(399) + YearLength(399) == 146097
  {
  }

  lemma {:induction false} YearNonempty(y: int)
    ensures YearLength(y) > 0
  {
  }

  lemma {:induction false} NextQuotient(y: int, d: int)
    requires d > 1
    ensures (y + 1) / d == y / d + if (y + 1) % d == 0 then 1 else 0
  {
    DivMod(y, d);
    if y % d == d - 1 {
      DivModUnique(y + 1, d, y / d + 1, 0);
    } else {
      DivModUnique(y + 1, d, y / d, y % d + 1);
    }
  }

  lemma {:induction false} YearBoundary(y: int)
    requires 0 <= y < 399
    ensures YearStart(y + 1) == YearStart(y) + YearLength(y)
  {
    NextQuotient(y, 4);
    NextQuotient(y, 100);
    assert (y + 1) % 100 == 0 ==> (y + 1) % 4 == 0;
  }

  function MonthStart(mp: int): int
  {
    (153 * mp + 2) / 5
  }

  function MonthNumber(mp: int): int
  {
    if mp < 10 then mp + 3 else mp - 9
  }

  /** Month mp (March is 0) covers the days from its start up to the next start. */
  lemma {:induction false} MonthSpan(t: int, mp: int)
    requires 0 <= t <= 365
    ensures mp == (5 * t + 2) / 153 <==> MonthStart(mp) <= t < MonthStart(mp + 1)
    ensures mp == (5 * t + 2) / 153 ==> 0 <= mp <= 11
  {}

  lemma {:induction false} MonthLength(y: int, mp: int)
    requires 0 <= mp < 11
    ensures DaysInMonth(y, MonthNumber(mp)) == MonthStart(mp + 1) - MonthStart(mp)
  {
    assert mp == 0 || mp == 1 || mp == 2 || mp == 3 || mp == 4 || mp == 5 || mp == 6 || mp == 7 || mp == 8 || mp == 9
           || mp == 10;
  }

  lemma {:induction false} MarchDate(p: Position, mp: int)
    requires 0 <= p.t <= 365 && 0 <= mp <= 11 && MonthStart(mp) <= p.t < MonthStart(mp + 1)
    ensures FromMarch(p)
            == Date(p.y + p.era * 400 + (if mp >= 10 then 1 else 0), MonthNumber(mp), p.t - MonthStart(mp) + 1)
  {
    MonthSpan(p.t, mp);
  }

  /** Stepping the position one day is stepping the calendar one day. */
  lemma {:induction false} MarchStep(p: Position)
    requires 0 <= p.y < 400 && 0 <= p.t < YearLength(p.y)
    ensures FromMarch(NextPosition(p)) == NextDay(FromMarch(p))
  {
    var mp := (5 * p.t + 2) / 153;
    MonthSpan(p.t, mp);
    MarchDate(p, mp);
    LeapShift(p.era, p.y);
    var q := NextPosition(p);
    assert MonthStart(0) == 0 && MonthStart(1) == 31 && MonthStart(11) == 337 && MonthStart(12) == 367;
    if mp < 11 {
      assert MonthStart(mp + 1) <= 337 by { MonthStartOrder(mp + 1, 11); }
      MonthLength(p.y + p.era * 400 + (if mp >= 10 then 1 else 0), mp);
      hide FromMarch, MonthStart;
      if p.t + 1 < MonthStart(mp + 1) {
        MarchDate(q, mp);
      } else {
        MonthStartOrder(mp + 2, mp + 1);
        MarchDate(q, mp + 1);
      }
    } else {
      hide FromMarch, MonthStart;
      if p.t + 1 < YearLength(p.y) {
        MarchDate(q, 11);
      } else {
        MarchDate(q, 0);
      }
    }
  }

  lemma {:induction false} MonthStartOrder(i: int, j: int)
    ensures i <= j ==> MonthStart(i) <= MonthStart(j)
    ensures i > j ==> MonthStart(i) > MonthStart(j)
  {}

  lemma {:induction false} LeapShift(era: int, y: int)
    requires 0 <= y < 400
    ensures IsLeap(y + era * 400 + 1) <==> IsLeap(y + 1)
  {
    assert (y + era * 400 + 1) % 4 == (y + 1) % 4 by { ModShift(y + 1, 100 * era, 4); }
    assert (y + era * 400 + 1) % 100 == (y + 1) % 100 by { ModShift(y + 1, 4 * era, 100); }
    assert (y + era * 400 + 1) % 400 == (y + 1) % 400 by { ModShift(y + 1, era, 400); }
  }

  /** Where the closed form stands after so many days. */
  function PositionOf(days: nat): (p: Position)
    ensures At(days + 719468, p)
  {
    if days == 0 then
      assert At(719468, Position(4, 369, 306));
      Position(4, 369, 306)
    else
      PositionAdvances(days - 1 + 719468, PositionOf(days - 1));
      NextPosition(PositionOf(days - 1))
  }

  lemma {:induction false} FirstDate()
    ensures FromMarch(Position(4, 369, 306)) == Date(1970, 1, 1)
  {}

  /** For every day count the closed form is the date reached by counting days. */
  lemma {:induction false} CivilIsCounting(days: nat)
    ensures Civil(days) == DateAfter(days)
  {
    hide Civil, FromMarch, NextDay, NextPosition, YearStart, YearLength;
    CivilAt(days, PositionOf(days));
    if days == 0 {
      FirstDate();
    } else {
      CivilIsCounting(days - 1);
      CivilAt(days - 1, PositionOf(days - 1));
      MarchStep(PositionOf(days - 1));
    }
  }

  // ---- the packed decimal ----

  ghost predicate ValidDate(t: Date)
  {
    1 <= t.m <= 12 && 1 <= t.d <= DaysInMonth(t.y, t.m) && t.y >= 1970
  }

  lemma {:induction false} DatesValid(days: nat)
    ensures ValidDate(DateAfter(days))
  {
    if days > 0 { DatesValid(days - 1); }
  }

  function DateKey(t: Date): int
  {
    (t.y * 100 + t.m) * 100 + t.d
  }

  lemma {:induction false} DateKeyIncreases(i: nat, j: nat)
    requires i < j
    ensures DateKey(DateAfter(i)) < DateKey(DateAfter(j))
    decreases j
  {
    DatesValid(j - 1);
    if i < j - 1 { DateKeyIncreases(i, j - 1); }
  }

  function TimeKey(rem: int): int
  {
    (rem / 3600) * 10000 + (rem / 60 % 60) * 100 + rem % 60
  }

  lemma {:induction false} TimeKeyIncreases(i: int, j: int)
    requires 0 <= i < j < 86400
    ensures TimeKey(i) < TimeKey(j)
  {
    DivDiv(i, 60, 60);
    DivDiv(j, 60, 60);
    DivMod(i, 60);
    DivMod(j, 60);
    DivMod(i / 60, 60);
    DivMod(j / 60, 60);
    DigitOrder(i / 3600, i / 60 % 60, i % 60, j / 3600, j / 60 % 60, j % 60);
  }

  /** Order by seconds is order by the decimal digits. */
  lemma {:induction false} DigitOrder(h: int, m: int, s: int, h': int, m': int, s': int)
    requires 0 <= m < 60 && 0 <= s < 60 && 0 <= m' < 60 && 0 <= s' < 60
    requires (h * 60 + m) * 60 + s < (h' * 60 + m') * 60 + s'
    ensures h * 10000 + m * 100 + s < h' * 10000 + m' * 100 + s'
  {
    assert h <= h';
    if h == h' {
      assert m <= m';
    } else {
      assert h + 1 <= h';
    }
  }

  lemma {:induction false} TimeKeyRange(i: int)
    requires 0 <= i < 86400
    ensures 0 <= TimeKey(i) < 1000000
  {}

  /** YYYYMMDDHHMMSS as an unbounded integer. */
  function Packed(secs: nat): int
  {
    DateKey(Civil(secs / 86400)) * 1000000 + TimeKey(secs % 86400)
  }

  /** Read two digits at a time from the right: second, minute, hour, day, month, and the year
      in what is left. */
  lemma {:induction false} PackedFields(secs: nat)
    ensures var p, t := Packed(secs), DateAfter(secs / 86400);
            p % 100 == secs % 60 && p / 100 % 100 == secs / 60 % 60 && p / 10000 % 100 == secs / 3600 % 24
            && p / 1000000 % 100 == t.d && p / 100000000 % 100 == t.m && p / 10000000000 == t.y
  {
    hide Civil, DateAfter;
    var t, rem := DateAfter(secs / 86400), secs % 86400;
    CivilIsCounting(secs / 86400);
    DatesValid(secs / 86400);
    ClockOfDay(secs);
    DecimalFields(t.y, t.m, t.d, rem / 3600, rem / 60 % 60, rem % 60);
  }

  lemma {:induction false} ClockOfDay(secs: nat)
    ensures var rem := secs % 86400;
            rem / 3600 == secs / 3600 % 24 && rem / 60 % 60 == secs / 60 % 60 && rem % 60 == secs % 60
            && 0 <= rem / 3600 < 24
  {
    var q, rem := secs / 86400, secs % 86400;
    var h, m, sec := rem / 3600, rem / 60 % 60, rem % 60;
    DivModUnique(secs, 60, 1440 * q + rem / 60, sec);
    DivModUnique(secs / 60, 60, 24 * q + rem / 60 / 60, m);
    DivModUnique(secs, 3600, 24 * q + h, rem % 3600);
    DivModUnique(secs / 3600, 24, q, h);
  }

  lemma {:induction false} DecimalFields(y: int, m: int, d: int, h: int, n: int, s: int)
    requires 0 <= m < 100 && 0 <= d < 100 && 0 <= h < 100 && 0 <= n < 100 && 0 <= s < 100
    ensures var p := ((y * 100 + m) * 100 + d) * 1000000 + h * 10000 + n * 100 + s;
            p % 100 == s && p / 100 % 100 == n && p / 10000 % 100 == h
            && p / 1000000 % 100 == d && p / 100000000 % 100 == m && p / 10000000000 == y
  {
    LowFields((y * 100 + m) * 100 + d, h, n, s);
    HighFields(y, m, d, h * 10000 + n * 100 + s);
  }

  lemma {:induction false} LowFields(date: int, h: int, n: int, s: int)
    requires 0 <= h < 100 && 0 <= n < 100 && 0 <= s < 100
    ensures var p := date * 1000000 + h * 10000 + n * 100 + s;
            p % 100 == s && p / 100 % 100 == n && p / 10000 % 100 == h
  {
    var p := date * 1000000 + h * 10000 + n * 100 + s;
    DivModUnique(p, 100, date * 10000 + h * 100 + n, s);
    DivModUnique(p, 10000, date * 100 + h, n * 100 + s);
  }

  lemma {:induction false} HighFields(y: int, m: int, d: int, time: int)
    requires 0 <= m < 100 && 0 <= d < 100 && 0 <= time < 1000000
    ensures var p := ((y * 100 + m) * 100 + d) * 1000000 + time;
            p / 1000000 % 100 == d && p / 100000000 % 100 == m && p / 10000000000 == y
  {
    var month := y * 100 + m;
    Dropped(month * 100 + d, time, 1000000);
    Dropped(month, d, 100);
    Dropped(y, m, 100);
    DivDiv((month * 100 + d) * 1000000 + time, 1000000, 100);
    DivDiv((month * 100 + d) * 1000000 + time, 100000000, 100);
  }

  /** The digits below a power of ten drop off. */
  lemma {:induction false} Dropped(high: int, low: int, ten: int)
    requires 0 <= low < ten
    ensures (high * ten + low) / ten == high && (high * ten + low) % ten == low
  {
    DivModUnique(high * ten + low, ten, high, low);
  }

  /** What the 64-bit code returns. */
  function EpochToYmdhms(secs: u64): u64
  {
    Packed(secs) % B64
  }

  lemma {:induction false} PackedIncreases(i: nat, j: nat)
    requires i < j
    ensures 0 <= Packed(i) < Packed(j)
  {
    hide Civil, DateKey, TimeKey;
    var di, dj := i / 86400, j / 86400;
    CivilIsCounting(di);
    CivilIsCounting(dj);
    TimeKeyRange(i % 86400);
    TimeKeyRange(j % 86400);
    DateKeyPositive(di);
    if di == dj {
      TimeKeyIncreases(i % 86400, j % 86400);
    } else {
      DateKeyIncreases(di, dj);
    }
  }

  lemma {:induction false} DateKeyPositive(days: nat)
    ensures DateKey(DateAfter(days)) > 0
  {
    DatesValid(days);
  }

  /** The decimal fits 64 bits exactly up to the end of year 1844674407. */
  lemma {:induction false} PackedFits(secs: nat)
    ensures Packed(secs) < B64 <==> DateAfter(secs / 86400).y <= 1844674407
  {
    CivilIsCounting(secs / 86400);
    DatesValid(secs / 86400);
    TimeKeyRange(secs % 86400);
  }

  /** The 64-bit value is strictly increasing up to a time exactly when that time's
      year is at most 1844674407; the next year wraps. */
  lemma {:induction false} StrictlyIncreasingIff(last: u64)
    ensures (forall i: u64, j: u64 :: i < j <= last ==> EpochToYmdhms(i) < EpochToYmdhms(j))
      <==> DateAfter(last / 86400).y <= 1844674407
  {
    hide Packed;
    PackedFits(last);
    if Packed(last) < B64 {
      forall i: u64, j: u64 | i < j <= last ensures EpochToYmdhms(i) < EpochToYmdhms(j) {
        PackedIncreases(i, j);
        if j < last { PackedIncreases(j, last); }
        ModSmall(Packed(i), B64);
        ModSmall(Packed(j), B64);
      }
    } else {
      var j := FirstWrap(last);
      PackedIncreases(j - 1, j);
      PackedStep(j - 1);
      ModSmall(Packed(j - 1), B64);
      DivModUnique(Packed(j), B64, 1, Packed(j) - B64);
      var i': u64, j': u64 := j - 1, j;
      assert i' < j' <= last && EpochToYmdhms(i') >= EpochToYmdhms(j');
    }
  }

  /** The last 64-bit second lies past that year, so over all of them the packed time does
      step down somewhere. */
  lemma {:induction false} StepsDown()
    ensures DateAfter(0xffff_ffff_ffff_ffff / 86400).y > 1844674407
    ensures exists i: u64, j: u64 :: i < j && EpochToYmdhms(i) >= EpochToYmdhms(j)
  {
    hide EpochToYmdhms;
    CivilIsCounting(0xffff_ffff_ffff_ffff / 86400);
    StrictlyIncreasingIff(0xffff_ffff_ffff_ffff);
  }

  lemma {:induction false} FirstWrap(last: nat) returns (j: nat)
    requires Packed(last) >= B64
    ensures 0 < j <= last && Packed(j - 1) < B64 <= Packed(j)
  {
    hide Packed;
    EpochFits();
    j := last;
    while Packed(j - 1) >= B64
      invariant 0 < j <= last && Packed(j) >= B64
      decreases j
    {
      j := j - 1;
    }
  }

  lemma {:induction false} EpochFits()
    ensures Packed(0) == 19700101000000
  {
    CivilIsCounting(0);
    hide Civil;
    assert Civil(0 / 86400) == Date(1970, 1, 1);
  }

  lemma {:induction false} NextKey(d: nat)
    ensures DateKey(DateAfter(d + 1)) <= DateKey(DateAfter(d)) + 10000
  {
    DatesValid(d);
  }

  lemma {:induction false} PackedStep(i: nat)
    ensures Packed(i + 1) <= Packed(i) + 100000000000
  {
    hide Civil, TimeKey;
    var d := i / 86400;
    CivilIsCounting(d);
    CivilIsCounting((i + 1) / 86400);
    TimeKeyRange(i % 86400);
    TimeKeyRange((i + 1) % 86400);
    NextKey(d);
    assert (i + 1) / 86400 == d || (i + 1) / 86400 == d + 1;
    hide DateKey, DateAfter;
  }

  function InWindow(nb: int, na: int, now: int): bool
  {
    nb <= now && now <= na
  }

  /** Comparing packed values decides the validity window on the times themselves. */
  lemma {:induction false} WindowOrdersTimes(from: u64, to: u64, now: u64)
    requires DateAfter(from / 86400).y <= 1844674407
    requires DateAfter(to / 86400).y <= 1844674407
    requires DateAfter(now / 86400).y <= 1844674407
    ensures InWindow(EpochToYmdhms(from), EpochToYmdhms(to), EpochToYmdhms(now)) <==> from <= now <= to
  {
    PackedOrder(from, now);
    PackedOrder(now, to);
  }

  lemma {:induction false} PackedOrder(i: u64, j: u64)
    requires DateAfter(i / 86400).y <= 1844674407 && DateAfter(j / 86400).y <= 1844674407
    ensures EpochToYmdhms(i) <= EpochToYmdhms(j) <==> i <= j
  {
    hide Packed;
    PackedFits(i);
    PackedFits(j);
    PackedIncreases(i, i + 1);
    PackedIncreases(j, j + 1);
    ModSmall(Packed(i), B64);
    ModSmall(Packed(j), B64);
    if i < j { PackedIncreases(i, j); } else if j < i { PackedIncreases(j, i); }
  }
}
