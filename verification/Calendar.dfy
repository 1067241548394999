/**
 The clock's timestamp text: its closed-form date arithmetic against stepping day by day through the proleptic
 Gregorian calendar (RFC 3339, section 5.6 and appendix C), and the text order pagination relies on.
 */
module Calendar {
  import opened Text

  datatype Date = Date(year: int, month: int, day: int)

  predicate Leap(year: int) {
    year % 4 == 0 && (year % 100 != 0 || year % 400 == 0)
  }

  function DaysInMonth(year: int, month: int): int {
    if month == 2 then (if Leap(year) then 29 else 28)
    else if month == 4 || month == 6 || month == 9 || month == 11 then 30
    else 31
  }

  predicate ValidDate(d: Date) {
    1 <= d.month <= 12 && 1 <= d.day <= DaysInMonth(d.year, d.month)
  }

  function NextDay(d: Date): Date {
    if d.day < DaysInMonth(d.year, d.month) then d.(day := d.day + 1)
    else if d.month < 12 then Date(d.year, d.month + 1, 1)
    else Date(d.year + 1, 1, 1)
  }

  const EPOCH := Date(1970, 1, 1)

  /** The date `n` days after the epoch, one step at a time. */
  function DateAfter(n: nat): Date {
    if n == 0 then EPOCH else NextDay(DateAfter(n - 1))
  }

  // ---- The closed form ----

  function DayOfEra(z: int): int {
    z - z / 146097 * 146097
  }

  function YearOfEra(doe: int): int {
    (doe - doe / 1460 + doe / 36524 - doe / 146096) / 365
  }

  /** First day of a March-based year within its 400-year era. */
  function YearStart(yoe: int): int {
    365 * yoe + yoe / 4 - yoe / 100
  }

  /** First day of a March-based month within its year. */
  function MonthStart(mp: int): int {
    (153 * mp + 2) / 5
  }

  /** A day as era, year of era and day of year, counted from the first of March of year zero. */
  datatype Spot = Spot(era: int, yoe: int, doy: int)

  function SpotOf(z: int): Spot {
    var doe := DayOfEra(z);
    var yoe := YearOfEra(doe);
    Spot(z / 146097, yoe, doe - YearStart(yoe))
  }

  function DateOf(s: Spot): Date {
    var mp := (5 * s.doy + 2) / 153;
    var month := mp + if mp < 10 then 3 else -9;
    Date(s.yoe + s.era * 400 + (if month <= 2 then 1 else 0), month, s.doy - MonthStart(mp) + 1)
  }

  /** The source's arithmetic from days since the epoch to a date. */
  function CivilFromDays(days: nat): Date {
    DateOf(SpotOf(days + 719468))
  }

  /** Length of the March-based year: its February belongs to the next civil year. */
  function YearLength(yoe: int): int {
    if yoe == 399 then 366 else YearStart(yoe + 1) - YearStart(yoe)
  }

  predicate ValidSpot(s: Spot) {
    0 <= s.yoe < 400 && 0 <= s.doy < YearLength(s.yoe)
  }

  function Position(s: Spot): int {
    s.era * 146097 + YearStart(s.yoe) + s.doy
  }

  /** Four-year blocks `a`, centuries `b`, and the last day of the era `c`, as the source's quotients see them. */
  predicate Blocks(doe: int, a: int, b: int, c: int, e: int) {
    && 0 <= doe < 146097
    && 1460 * a <= doe < 1460 * a + 1460
    && 36524 * b <= doe < 36524 * b + 36524
    && 146096 * c <= doe < 146096 * c + 146096
    && 365 * e <= doe - 1460 * a - a + b - c < 365 * e + 365
  }

  lemma BlocksOf(doe: int)
    requires 0 <= doe < 146097
    ensures var a, b, c := doe / 1460, doe / 36524, doe / 146096;
            Blocks(doe, a, b, c, YearOfEra(doe) - 4 * a)
  {
  }

  /** The correction terms count the centuries before the year. */
  lemma Century(doe: int, a: int, b: int, c: int, e: int)
    requires Blocks(doe, a, b, c, e)
    ensures -1 <= e <= 3 && 100 * (b - c) <= 4 * a + e < 100 * (b - c) + 100 && 0 <= b - c <= 3
  {
    assert 0 <= b <= 4 && 0 <= c <= 1;
    if b == 0 {
    } else if b == 1 {
    } else if b == 2 {
    } else if b == 3 {
    } else {
    }
  }

  lemma {:induction false} YearOfEraExact(doe: int)
    requires 0 <= doe < 146097
    ensures 0 <= YearOfEra(doe) < 400
    ensures YearStart(YearOfEra(doe)) <= doe < YearStart(YearOfEra(doe)) + YearLength(YearOfEra(doe))
  {
    hide YearOfEra, Blocks;
    var a, b, c, y := doe / 1460, doe / 36524, doe / 146096, YearOfEra(doe);
    BlocksOf(doe);
    Century(doe, a, b, c, y - 4 * a);
    YearBounds(doe, a, b, c, y - 4 * a);
  }

  lemma YearBounds(doe: int, a: int, b: int, c: int, e: int)
    requires Blocks(doe, a, b, c, e) && -1 <= e <= 3
    requires 100 * (b - c) <= 4 * a + e < 100 * (b - c) + 100 && 0 <= b - c <= 3
    ensures var y := 4 * a + e; 0 <= y < 400 && YearStart(y) <= doe < YearStart(y) + YearLength(y)
  {
    var y := 4 * a + e;
    assert y / 100 == b - c;
    assert y / 4 == if e == -1 then a - 1 else a;
    assert (y + 1) / 4 == if e == 3 then a + 1 else a;
    assert (y + 1) / 100 == if y + 1 == 100 * (b - c) + 100 then b - c + 1 else b - c;
  }

  lemma YearLengthIs(yoe: int)
    requires 0 <= yoe < 400
    ensures YearLength(yoe) == if Leap(yoe + 1) then 366 else 365
  {
    assert yoe + 1 == 400 ==> Leap(yoe + 1);
  }

  lemma {:induction false} SpotValid(z: nat)
    ensures ValidSpot(SpotOf(z)) && Position(SpotOf(z)) == z && SpotOf(z).era >= 0
  {
    YearOfEraExact(DayOfEra(z));
  }

  lemma {:induction false} YearStarts(a: int, b: int)
    requires 0 <= a < b <= 400
    ensures b < 400 ==> YearStart(a) + YearLength(a) <= YearStart(b)
    ensures b == 400 ==> YearStart(a) + YearLength(a) <= 146097
  {
  }

  lemma WithinEra(s: Spot)
    requires ValidSpot(s)
    ensures 0 <= YearStart(s.yoe) + s.doy < 146097
  {
    YearStarts(s.yoe, 400);
  }

  lemma SpotUnique(s: Spot, t: Spot)
    requires ValidSpot(s) && ValidSpot(t) && Position(s) == Position(t)
    ensures s == t
  {
    hide YearStart, YearLength;
    WithinEra(s);
    WithinEra(t);
    assert s.era == t.era;
    if s.yoe < t.yoe {
      YearStarts(s.yoe, t.yoe);
    } else if t.yoe < s.yoe {
      YearStarts(t.yoe, s.yoe);
    }
  }

  function NextSpot(s: Spot): Spot {
    if s.doy + 1 < YearLength(s.yoe) then s.(doy := s.doy + 1)
    else if s.yoe < 399 then Spot(s.era, s.yoe + 1, 0)
    else Spot(s.era + 1, 0, 0)
  }

  lemma NextSpotPosition(s: Spot)
    requires ValidSpot(s)
    ensures ValidSpot(NextSpot(s)) && Position(NextSpot(s)) == Position(s) + 1
  {
  }

  lemma MonthExact(doy: int)
    requires 0 <= doy < 366
    ensures var mp := (5 * doy + 2) / 153; 0 <= mp <= 11 && MonthStart(mp) <= doy < MonthStart(mp + 1)
  {
  }

  lemma LeapStep(year: int)
    ensures Leap(year + 400) == Leap(year)
  {
    assert (year + 400) % 4 == year % 4;
    assert (year + 400) % 100 == year % 100;
    assert (year + 400) % 400 == year % 400;
  }

  lemma {:induction false} LeapPeriod(year: int, era: nat)
    ensures Leap(year + era * 400) == Leap(year)
    decreases era
  {
    hide Leap;
    if era > 0 {
      LeapStep(year);
      LeapPeriod(year + 400, era - 1);
      assert year + 400 + (era - 1) * 400 == year + era * 400;
    }
  }

  lemma MonthLengths(mp: int)
    requires 0 <= mp < 11
    ensures var month := mp + if mp < 10 then 3 else -9;
            forall year :: DaysInMonth(year, month) == MonthStart(mp + 1) - MonthStart(mp)
  {
  }

  function MonthOf(mp: int): int {
    mp + if mp < 10 then 3 else -9
  }

  lemma SpotDate(s: Spot, mp: int)
    requires ValidSpot(s) && 0 <= mp <= 11 && MonthStart(mp) <= s.doy < MonthStart(mp + 1)
    ensures DateOf(s) == Date(s.yoe + s.era * 400 + (if mp >= 10
        then 1 else 0), MonthOf(mp), s.doy - MonthStart(mp) + 1)
  {
  }

  lemma {:induction false} FebruaryEnd(s: Spot)
    requires ValidSpot(s) && s.era >= 0
    ensures DaysInMonth(s.yoe + s.era * 400 + 1, 2) == YearLength(s.yoe) - MonthStart(11)
  {
    hide YearLength;
    YearLengthIs(s.yoe);
    LeapPeriod(s.yoe + 1, s.era);
    assert s.yoe + s.era * 400 + 1 == (s.yoe + 1) + s.era * 400;
    assert MonthStart(11) == 337;
  }

  /** Inside the year's first eleven months. */
  lemma {:induction false} NextInMonth(s: Spot, mp: int)
    requires ValidSpot(s) && 0 <= mp < 11 && MonthStart(mp) <= s.doy < MonthStart(mp + 1)
    requires s.doy + 1 < YearLength(s.yoe)
    ensures ValidDate(DateOf(s)) && NextDay(DateOf(s)) == DateOf(NextSpot(s))
  {
    hide YearLength, Leap, DateOf, MonthStart;
    SpotDate(s, mp);
    MonthLengths(mp);
    MonthStarts(mp);
    if s.doy + 1 < MonthStart(mp + 1) {
      SpotDate(NextSpot(s), mp);
    } else {
      SpotDate(NextSpot(s), mp + 1);
    }
  }

  lemma MonthStarts(mp: int)
    requires 0 <= mp <= 11
    ensures MonthStart(mp) + 28 <= MonthStart(mp + 1) && MonthStart(mp + 1) + 28 <= MonthStart(mp + 2)
  {
  }

  /** In the February that closes the year. */
  lemma {:induction false} NextInFebruary(s: Spot)
    requires ValidSpot(s) && s.era >= 0 && MonthStart(11) <= s.doy < MonthStart(12)
    ensures ValidDate(DateOf(s)) && NextDay(DateOf(s)) == DateOf(NextSpot(s))
  {
    hide YearLength, Leap, DateOf;
    SpotDate(s, 11);
    FebruaryEnd(s);
    if s.doy + 1 < YearLength(s.yoe) {
      assert s.doy + 1 < MonthStart(12) by { YearAtMost(s.yoe); }
      SpotDate(NextSpot(s), 11);
    } else {
      FirstOfMarch(s);
    }
  }

  lemma YearAtMost(yoe: int)
    requires 0 <= yoe < 400
    ensures 365 <= YearLength(yoe) <= 366
  {
  }

  lemma FirstOfMarch(s: Spot)
    requires ValidSpot(s) && s.doy + 1 == YearLength(s.yoe)
    ensures DateOf(NextSpot(s)) == Date(s.yoe + s.era * 400 + 1, 3, 1)
  {
    hide YearLength, DateOf;
    NextSpotPosition(s);
    SpotDate(NextSpot(s), 0);
  }

  /** Stepping the decomposition steps the date. */
  lemma {:induction false} NextSpotDate(s: Spot)
    requires ValidSpot(s) && s.era >= 0
    ensures ValidDate(DateOf(s)) && NextDay(DateOf(s)) == DateOf(NextSpot(s))
  {
    hide YearLength, Leap, DateOf, MonthStart, NextSpot, NextDay, ValidDate;
    YearAtMost(s.yoe);
    MonthExact(s.doy);
    var mp := (5 * s.doy + 2) / 153;
    if mp < 11 {
      BeforeFebruary(mp);
      NextInMonth(s, mp);
    } else {
      NextInFebruary(s);
    }
  }

  lemma BeforeFebruary(mp: int)
    requires 0 <= mp < 11
    ensures MonthStart(mp + 1) <= 337
  {
  }

  /** The closed form is the day-by-day calendar, for every day from the epoch on. */
  lemma {:induction false} CivilIsGregorian(days: nat)
    ensures CivilFromDays(days) == DateAfter(days) && ValidDate(DateAfter(days))
  {
    hide DateOf, SpotOf, ValidSpot, Position, NextSpot, ValidDate, NextDay;
    SpotValid(days + 719468);
    NextSpotDate(SpotOf(days + 719468));
    if days == 0 {
      EpochSpot();
    } else {
      CivilIsGregorian(days - 1);
      var before := SpotOf(days - 1 + 719468);
      SpotValid(days - 1 + 719468);
      NextSpotPosition(before);
      NextSpotDate(before);
      SpotUnique(NextSpot(before), SpotOf(days + 719468));
    }
  }

  lemma {:induction false} EpochSpot()
    ensures DateOf(SpotOf(719468)) == EPOCH
  {
    hide DateOf;
    assert DayOfEra(719468) == 135080;
    assert YearOfEra(135080) == 369 && YearStart(369) == 134774;
    assert SpotOf(719468) == Spot(4, 369, 306);
    EpochDate();
  }

  lemma EpochDate()
    ensures DateOf(Spot(4, 369, 306)) == EPOCH
  {
  }

  // ---- The text ----

  /** Second of the day. */
  datatype Time = Time(hour: int, minute: int, second: int)

  function TimeOf(seconds: nat): Time {
    Time(seconds / 3600, seconds / 60 % 60, seconds % 60)
  }

  function Field(n: int, w: nat): string {
    if n >= 0 then Padded(n, w) else ['-'] + Padded(-n, if w > 0 then w - 1 else 0)
  }

  /** `rfc3339_now` for a given second count. */
  function Timestamp(seconds: nat): string {
    var d := CivilFromDays(seconds / 86400);
    var t := TimeOf(seconds % 86400);
    Field(d.year, 4) + "-" + Field(d.month, 2) + "-" + Field(d.day, 2) + "T"
    + Field(t.hour, 2) + ":" + Field(t.minute, 2) + ":" + Field(t.second, 2) + "Z"
  }

  lemma TimeInRange(seconds: nat)
    requires seconds < 86400
    ensures var t := TimeOf(seconds);
            0 <= t.hour < 24 && 0 <= t.minute < 60 && 0 <= t.second < 60
            && seconds == t.hour * 3600 + t.minute * 60 + t.second
  {
    assert seconds / 60 == seconds / 3600 * 60 + seconds / 60 % 60;
  }

  // ---- Fixed-width numbers ----

  function Power10(w: nat): (r: nat)
    ensures r >= 1
  {
    if w == 0 then 1 else 10 * Power10(w - 1)
  }

  /** Exactly `w` digits. */
  function Fixed(n: nat, w: nat): (r: string)
    ensures |r| == w
  {
    if w == 0 then "" else Fixed(n / 10, w - 1) + [Digit(n % 10)]
  }

  lemma {:induction false} FixedZero(w: nat)
    ensures Fixed(0, w) == seq(w, _ => '0')
  {
    if w > 0 {
      FixedZero(w - 1);
      assert seq(w, _ => '0') == seq(w - 1, _ => '0') + ['0'];
    }
  }

  lemma {:induction false} PaddedIsFixed(n: nat, w: nat)
    requires n < Power10(w) && w >= 1
    ensures Padded(n, w) == Fixed(n, w) && |Decimal(n)| <= w
    decreases w
  {
    if n < 10 {
      FixedZero(w - 1);
      assert Fixed(n, w) == Fixed(0, w - 1) + [Digit(n)];
      assert Padded(n, w) == seq(w - 1, _ => '0') + [Digit(n)];
    } else {
      assert w > 1;
      PaddedIsFixed(n / 10, w - 1);
      var d := Decimal(n / 10);
      assert Decimal(n) == d + [Digit(n % 10)];
      assert Padded(n / 10, w - 1) == seq(w - 1 - |d|, _ => '0') + d;
      assert Padded(n, w) == seq(w - 1 - |d|, _ => '0') + (d + [Digit(n % 10)]);
    }
  }

  /** Texts of one width order as their numbers. */
  lemma {:induction false} FixedOrder(a: nat, b: nat, w: nat)
    requires a < Power10(w) && b < Power10(w)
    ensures CompareText(Fixed(a, w), Fixed(b, w)) == CompareInt(a, b)
    decreases w
  {
    if w > 0 {
      var p, q := Fixed(a / 10, w - 1), Fixed(b / 10, w - 1);
      FixedOrder(a / 10, b / 10, w - 1);
      if p != q {
        CompareTextDiffer(p, q, [Digit(a % 10)], [Digit(b % 10)]);
        CompareTextEqual(p, q);
      } else {
        CompareTextEqual(p, q);
        CompareTextPrefix(p, [Digit(a % 10)], [Digit(b % 10)]);
        DigitOrder(a % 10, b % 10);
      }
    }
  }

  lemma DigitOrder(a: nat, b: nat)
    requires a < 10 && b < 10
    ensures CompareText([Digit(a)], [Digit(b)]) == CompareInt(a, b)
  {
    assert [Digit(a)][1..] == [] && [Digit(b)][1..] == [];
  }

  lemma FieldOrder(a: int, b: int, w: nat, x: string, y: string)
    requires w >= 1 && 0 <= a < Power10(w) && 0 <= b < Power10(w)
    ensures CompareText(Field(a, w) + x, Field(b, w) + y) ==
            if a == b then CompareText(x, y) else CompareInt(a, b)
  {
    PaddedIsFixed(a, w);
    PaddedIsFixed(b, w);
    FixedOrder(a, b, w);
    if a == b {
      CompareTextPrefix(Field(a, w), x, y);
    } else {
      CompareTextEqual(Fixed(a, w), Fixed(b, w));
      CompareTextDiffer(Fixed(a, w), Fixed(b, w), x, y);
    }
  }

  /** A number behind a separator, then the rest. */
  lemma PartOrder(c: char, a: int, b: int, w: nat, x: string, y: string)
    requires w >= 1 && 0 <= a < Power10(w) && 0 <= b < Power10(w)
    ensures CompareText([c] + Field(a, w) + x, [c] + Field(b, w) + y) ==
            if a == b then CompareText(x, y) else CompareInt(a, b)
  {
    FieldOrder(a, b, w, x, y);
    CompareTextPrefix([c], Field(a, w) + x, Field(b, w) + y);
    assert [c] + (Field(a, w) + x) == [c] + Field(a, w) + x;
    assert [c] + (Field(b, w) + y) == [c] + Field(b, w) + y;
  }

  function CompareDate(a: Date, b: Date): Ordering {
    if a.year != b.year then CompareInt(a.year, b.year)
    else if a.month != b.month then CompareInt(a.month, b.month)
    else CompareInt(a.day, b.day)
  }

  function CompareTime(a: Time, b: Time): Ordering {
    if a.hour != b.hour then CompareInt(a.hour, b.hour)
    else if a.minute != b.minute then CompareInt(a.minute, b.minute)
    else CompareInt(a.second, b.second)
  }

  function TimeText(t: Time): string {
    "T" + Field(t.hour, 2) + (":" + Field(t.minute, 2) + (":" + Field(t.second, 2) + "Z"))
  }

  function DateText(d: Date, rest: string): string {
    Field(d.year, 4) + ("-" + Field(d.month, 2) + ("-" + Field(d.day, 2) + rest))
  }

  lemma {:induction false} TimestampParts(seconds: nat)
    ensures Timestamp(seconds) == DateText(CivilFromDays(seconds / 86400), TimeText(TimeOf(seconds % 86400)))
  {
    hide Field, CivilFromDays, TimeOf;
  }

  lemma Powers()
    ensures Power10(2) == 100 && Power10(4) == 10000
  {
    assert Power10(1) == 10;
    assert Power10(3) == 1000;
  }

  lemma TimeTextOrder(a: Time, b: Time)
    requires 0 <= a.hour < 24 && 0 <= a.minute < 60 && 0 <= a.second < 60
    requires 0 <= b.hour < 24 && 0 <= b.minute < 60 && 0 <= b.second < 60
    ensures CompareText(TimeText(a), TimeText(b)) == CompareTime(a, b)
  {
    hide Field, CompareText, Power10;
    Powers();
    CompareTextEqual("Z", "Z");
    var a2, b2 := ":" + Field(a.second, 2) + "Z", ":" + Field(b.second, 2) + "Z";
    PartOrder(':', a.second, b.second, 2, "Z", "Z");
    PartOrder(':', a.minute, b.minute, 2, a2, b2);
    PartOrder('T', a.hour, b.hour, 2, ":" + Field(a.minute, 2) + a2, ":" + Field(b.minute, 2) + b2);
  }

  /** Months and days of one year. */
  lemma DayTextOrder(a: Date, x: string, b: Date, y: string)
    requires 0 <= a.month < 100 && 0 <= a.day < 100 && 0 <= b.month < 100 && 0 <= b.day < 100 && a.year == b.year
    ensures CompareText(DateText(a, x), DateText(b, y)) == if a == b then CompareText(x, y) else CompareDate(a, b)
  {
    hide Field, CompareText, Power10;
    Powers();
    var a2, b2 := "-" + Field(a.day, 2) + x, "-" + Field(b.day, 2) + y;
    PartOrder('-', a.day, b.day, 2, x, y);
    PartOrder('-', a.month, b.month, 2, a2, b2);
    CompareTextPrefix(Field(a.year, 4), "-" + Field(a.month, 2) + a2, "-" + Field(b.month, 2) + b2);
  }

  // ---- Years of any length ----

  lemma {:induction false} DecimalIsFixed(n: nat)
    ensures n < Power10(|Decimal(n)|) && Decimal(n) == Fixed(n, |Decimal(n)|)
  {
    if n < 10 {
      assert Power10(1) == 10;
      assert Fixed(n, 1) == Fixed(0, 0) + [Digit(n)];
    } else {
      DecimalIsFixed(n / 10);
    }
  }

  lemma {:induction false} DigitsGrow(a: nat, b: nat)
    requires a <= b
    ensures |Decimal(a)| <= |Decimal(b)|
    decreases b
  {
    if a >= 10 {
      DigitsGrow(a / 10, b / 10);
    }
  }

  lemma FourDigitsFrom1000(n: nat)
    requires n >= 1000
    ensures |Decimal(n)| >= 4 && Field(n, 4) == Decimal(n)
  {
    assert |Decimal(1)| == 1 && |Decimal(10)| == 2 && |Decimal(100)| == 3 && |Decimal(1000)| == 4;
    DigitsGrow(1000, n);
  }

  /** The number without its last `k` digits. */
  function Leading(n: nat, k: nat): nat
    decreases k
  {
    if k == 0 then n else Leading(n / 10, k - 1)
  }

  /** The quotient by the power of ten, as multiplication states it. */
  lemma {:induction false} LeadingIsQuotient(n: nat, k: nat)
    ensures Leading(n, k) * Power10(k) <= n < (Leading(n, k) + 1) * Power10(k)
    decreases k
  {
    if k > 0 {
      var q, p := Leading(n / 10, k - 1), Power10(k - 1);
      LeadingIsQuotient(n / 10, k - 1);
      Tenfold(q, p);
      Tenfold(q + 1, p);
      TenTimes(n, q * p, (q + 1) * p);
    }
  }

  lemma Tenfold(q: nat, p: nat)
    ensures q * (10 * p) == 10 * (q * p)
  {
  }

  lemma TenTimes(n: nat, low: nat, high: nat)
    requires low <= n / 10 < high
    ensures 10 * low <= n < 10 * high
  {
  }

  lemma {:induction false} LeadingDigits(n: nat, k: nat)
    requires k < |Decimal(n)|
    ensures Decimal(n)[..|Decimal(n)| - k] == Decimal(Leading(n, k))
    decreases k
  {
    if k == 0 {
      assert Decimal(n)[..|Decimal(n)|] == Decimal(n);
    } else {
      LeadingDigits(n / 10, k - 1);
      assert Decimal(n) == Decimal(n / 10) + [Digit(n % 10)];
      assert Decimal(n)[..|Decimal(n)| - k] == Decimal(n / 10)[..|Decimal(n / 10)| - (k - 1)];
    }
  }

  /** A number against the first digits of a longer or equally long one; a separator ends the shorter. */
  lemma {:induction false} YearTextOrder(a: nat, b: nat, x: string, y: string)
    requires 1000 <= a < b && x != "" && x[0] == '-'
    ensures var k := |Decimal(b)| - |Decimal(a)|;
            && k >= 0
            && CompareText(Field(a, 4) + x, Field(b, 4) + y) == if a <= Leading(b, k) then Less else Greater
  {
    hide Decimal, Field, CompareText, Power10, Leading;
    FourDigitsFrom1000(a);
    FourDigitsFrom1000(b);
    DigitsGrow(a, b);
    var w := |Decimal(a)|;
    var k := |Decimal(b)| - w;
    LeadingDigits(b, k);
    var lead, rest := Leading(b, k), Decimal(b)[w..];
    assert Decimal(b) == Decimal(lead) + rest;
    DecimalIsFixed(a);
    DecimalIsFixed(lead);
    FixedOrder(a, lead, w);
    assert Decimal(b) + y == Decimal(lead) + (rest + y);
    if a == lead {
      CompareTextPrefix(Decimal(a), x, rest + y);
      ShorterFirst(a, b, k);
      assert rest[0] in Decimal(b);
      FirstCharacters(x, rest + y);
    } else {
      CompareTextEqual(Decimal(a), Decimal(lead));
      CompareTextDiffer(Decimal(a), Decimal(lead), x, rest + y);
    }
  }

  lemma ShorterFirst(a: nat, b: nat, k: nat)
    requires a < b && a == Leading(b, k)
    ensures k > 0
  {
  }

  // ---- Order ----

  lemma NextDayLater(d: Date)
    requires ValidDate(d)
    ensures CompareDate(d, NextDay(d)) == Less && d.year <= NextDay(d).year
  {
    hide DaysInMonth;
  }

  lemma CompareDateTransitive(a: Date, b: Date, c: Date)
    requires CompareDate(a, b) == Less && CompareDate(b, c) == Less
    ensures CompareDate(a, c) == Less
  {
  }

  lemma {:induction false} DatesIncrease(m: nat, n: nat)
    requires m < n
    ensures CompareDate(DateAfter(m), DateAfter(n)) == Less && 1970 <= DateAfter(m).year <= DateAfter(n).year
    decreases n
  {
    hide ValidDate, NextDay, CompareDate, CivilFromDays;
    CivilIsGregorian(n - 1);
    NextDayLater(DateAfter(n - 1));
    if m < n - 1 {
      DatesIncrease(m, n - 1);
      CompareDateTransitive(DateAfter(m), DateAfter(n - 1), DateAfter(n));
    } else {
      YearFromEpoch(m);
    }
  }

  lemma {:induction false} YearFromEpoch(n: nat)
    ensures 1970 <= DateAfter(n).year
  {
    if n > 0 {
      YearFromEpoch(n - 1);
    }
  }

  /** The first second of the year 10000. */
  const END: nat := 253402300800

  lemma LastSpots()
    ensures SpotOf(3652364) == Spot(24, 399, 305) && SpotOf(3652365) == Spot(24, 399, 306)
  {
    assert DayOfEra(3652364) == 146036 && DayOfEra(3652365) == 146037;
    assert YearOfEra(146036) == 399 && YearOfEra(146037) == 399;
    assert YearStart(399) == 145731;
  }

  lemma LastDates()
    ensures DateOf(Spot(24, 399, 305)) == Date(9999, 12, 31) && DateOf(Spot(24, 399, 306)) == Date(10000, 1, 1)
  {
  }

  lemma LastDays()
    ensures DateAfter(2932896) == Date(9999, 12, 31) && DateAfter(2932897) == Date(10000, 1, 1)
  {
    hide DateAfter, SpotOf, DateOf, ValidDate;
    CivilIsGregorian(2932896);
    CivilIsGregorian(2932897);
    LastSpots();
    LastDates();
  }

  lemma FourDigitYears(days: nat)
    ensures DateAfter(days).year <= 9999 <==> days <= 2932896
  {
    LastDays();
    if days < 2932896 {
      DatesIncrease(days, 2932896);
    } else if days > 2932897 {
      DatesIncrease(2932897, days);
    }
  }

  /** Every field is in its range, and the date is the calendar's. */
  lemma {:induction false} TimestampExact(seconds: nat)
    ensures var d := CivilFromDays(seconds / 86400);
            d == DateAfter(seconds / 86400) && ValidDate(d) && d.year >= 1970
            && (d.year <= 9999 <==> seconds < END)
  {
    CivilIsGregorian(seconds / 86400);
    YearFromEpoch(seconds / 86400);
    FourDigitYears(seconds / 86400);
  }

  lemma {:induction false} FixedValue(n: nat, w: nat)
    requires n < Power10(w)
    ensures AllDigits(Fixed(n, w)) && DigitsValue(Fixed(n, w)) == n
  {
    if w > 0 {
      FixedValue(n / 10, w - 1);
      var s := Fixed(n, w);
      assert s[..|s| - 1] == Fixed(n / 10, w - 1);
    }
  }

  lemma FieldValue(n: nat, w: nat)
    requires n < Power10(w) && w >= 1
    ensures |Field(n, w)| == w && AllDigits(Field(n, w)) && DigitsValue(Field(n, w)) == n
  {
    PaddedIsFixed(n, w);
    FixedValue(n, w);
  }

  /** `text` holds the number `n` in the digits from `i` to `j`. */
  predicate Holds(text: string, i: nat, j: nat, n: int) {
    i <= j <= |text| && AllDigits(text[i..j]) && DigitsValue(text[i..j]) == n
  }

  /**
   A timestamp before the year 10000 is `YYYY-MM-DDThh:mm:ssZ`: twenty characters whose numbers are the date of the
   day and the hour, minute and second that make up the time of day.
   */
  lemma {:induction false} TimestampReads(seconds: nat)
    requires seconds < END
    ensures var text, date := Timestamp(seconds), DateAfter(seconds / 86400);
            && |text| == 20 && text[4] == text[7] == '-' && text[10] == 'T' && text[13] == text[16] == ':'
            && text[19] == 'Z'
            && Holds(text, 0, 4, date.year) && Holds(text, 5, 7, date.month) && Holds(text, 8, 10, date.day)
            && exists hour, minute, second ::
                 && Holds(text, 11, 13, hour) && Holds(text, 14, 16, minute) && Holds(text, 17, 19, second)
                 && 0 <= hour < 24 && 0 <= minute < 60 && 0 <= second < 60
                 && seconds % 86400 == hour * 3600 + minute * 60 + second
  {
    hide CivilFromDays, DateAfter, Field, ValidDate, Power10, TimeOf, AllDigits, DigitsValue;
    TimestampExact(seconds);
    var d, t := CivilFromDays(seconds / 86400), TimeOf(seconds % 86400);
    FieldsBounded(d);
    TimeInRange(seconds % 86400);
    Powers();
    FieldValue(d.year, 4);
    FieldValue(d.month, 2);
    FieldValue(d.day, 2);
    FieldValue(t.hour, 2);
    FieldValue(t.minute, 2);
    FieldValue(t.second, 2);
    var text := Timestamp(seconds);
    assert text[0..4] == Field(d.year, 4) && text[5..7] == Field(d.month, 2) && text[8..10] == Field(d.day, 2);
    assert text[11..13] == Field(t.hour, 2) && text[14..16] == Field(t.minute, 2);
    assert text[17..19] == Field(t.second, 2);
    assert Holds(text, 11, 13, t.hour) && Holds(text, 14, 16, t.minute) && Holds(text, 17, 19, t.second);
  }

  function YearOf(seconds: nat): int {
    CivilFromDays(seconds / 86400).year
  }

  lemma FieldsBounded(d: Date)
    requires ValidDate(d)
    ensures 1 <= d.month <= 12 && 1 <= d.day <= 31
  {
  }

  /** Two times of one year order as their texts. */
  lemma {:induction false} YearOrder(s: nat, t: nat)
    requires s < t && YearOf(s) == YearOf(t)
    ensures CompareText(Timestamp(s), Timestamp(t)) == Less
  {
    hide CivilFromDays, DateAfter, DateText, TimeText, CompareText, TimeOf, Timestamp, ValidDate;
    TimestampExact(s);
    TimestampExact(t);
    FieldsBounded(CivilFromDays(s / 86400));
    FieldsBounded(CivilFromDays(t / 86400));
    TimestampParts(s);
    TimestampParts(t);
    var x, y := TimeText(TimeOf(s % 86400)), TimeText(TimeOf(t % 86400));
    DayTextOrder(CivilFromDays(s / 86400), x, CivilFromDays(t / 86400), y);
    TimeInRange(s % 86400);
    TimeInRange(t % 86400);
    TimeTextOrder(TimeOf(s % 86400), TimeOf(t % 86400));
    if s / 86400 < t / 86400 {
      DatesIncrease(s / 86400, t / 86400);
    }
  }

  lemma {:induction false} TimestampYear(seconds: nat) returns (rest: string)
    ensures YearOf(seconds) >= 1970 && rest != "" && rest[0] == '-'
    ensures Timestamp(seconds) == Field(YearOf(seconds), 4) + rest
  {
    hide CivilFromDays, Field, TimeText, TimeOf, Timestamp, ValidDate;
    TimestampExact(seconds);
    TimestampParts(seconds);
    var d := CivilFromDays(seconds / 86400);
    rest := "-" + Field(d.month, 2) + ("-" + Field(d.day, 2) + TimeText(TimeOf(seconds % 86400)));
  }

  lemma AllDigitsLead(n: nat)
    ensures Leading(n, 0) == n
  {
  }

  lemma {:induction false} YearsIncrease(s: nat, t: nat)
    requires s < t
    ensures 1970 <= YearOf(s) <= YearOf(t)
  {
    hide CivilFromDays, DateAfter, ValidDate;
    TimestampExact(s);
    TimestampExact(t);
    if s / 86400 < t / 86400 {
      DatesIncrease(s / 86400, t / 86400);
    }
  }

  /**
   The exact order of timestamp texts. For an earlier and a later time, with k the number of digits the later year has
   more, the texts are in time order if and only if the earlier year is at most the later year without its last k
   digits; otherwise they are in the opposite order, never equal.
   */
  lemma {:induction false} TextOrderExact(s: nat, t: nat)
    requires s < t
    ensures 0 <= YearOf(s) <= YearOf(t)
    ensures var k := |Decimal(YearOf(t))| - |Decimal(YearOf(s))|;
            && k >= 0
            && CompareText(Timestamp(s), Timestamp(t)) == (if YearOf(s) <= Leading(YearOf(t), k) then Less else Greater)
            && CompareText(Timestamp(t), Timestamp(s)) == (if YearOf(s) <= Leading(YearOf(t), k) then Greater else Less)
  {
    hide YearOf, Timestamp, CompareText, Field, Decimal, Leading;
    YearsIncrease(s, t);
    CompareTextReverse(Timestamp(s), Timestamp(t));
    if YearOf(s) == YearOf(t) {
      YearOrder(s, t);
      AllDigitsLead(YearOf(t));
    } else {
      var x := TimestampYear(s);
      var y := TimestampYear(t);
      YearTextOrder(YearOf(s), YearOf(t), x, y);
    }
  }

  /** Years of equally many digits always order correctly: what `compare_captured_at` relies on through 9999. */
  lemma {:induction false} TextOrderIsTimeOrder(s: nat, t: nat)
    requires s < END && t < END
    ensures CompareText(Timestamp(s), Timestamp(t)) == CompareInt(s, t)
  {
    hide CivilFromDays, Timestamp, CompareText, Decimal, DateAfter, ValidDate;
    FourDigits(s);
    FourDigits(t);
    if s < t {
      TextOrderExact(s, t);
    } else if t < s {
      TextOrderExact(t, s);
    } else {
      CompareTextEqual(Timestamp(s), Timestamp(t));
    }
  }

  lemma {:induction false} FourDigits(seconds: nat)
    requires seconds < END
    ensures 1970 <= YearOf(seconds) && |Decimal(YearOf(seconds))| == 4
  {
    hide CivilFromDays, DateAfter, ValidDate;
    TimestampExact(seconds);
    FourDigitsFrom1000(YearOf(seconds));
    DigitsGrow(YearOf(seconds), 9999);
    EndDigits();
  }

  lemma EndDigits()
    ensures |Decimal(9999)| == 4 && |Decimal(10000)| == 5
  {
    assert |Decimal(9)| == 1 && |Decimal(99)| == 2 && |Decimal(999)| == 3;
    assert |Decimal(1)| == 1 && |Decimal(10)| == 2 && |Decimal(100)| == 3 && |Decimal(1000)| == 4;
  }

  /** Text order is time order on all times before `n`. */
  ghost predicate OrderedBefore(n: nat) {
    forall s: nat, t: nat :: s < n && t < n ==> CompareText(Timestamp(s), Timestamp(t)) == CompareInt(s, t)
  }

  /** Sorting by the text is sorting by time for every set of times up to a bound exactly through the year 9999. */
  lemma {:induction false} OrderedThrough9999(n: nat)
    ensures OrderedBefore(n) <==> n <= END
  {
    hide CompareText, Timestamp;
    if n <= END {
      forall s: nat, t: nat | s < n && t < n ensures CompareText(Timestamp(s), Timestamp(t)) == CompareInt(s, t) {
        TextOrderIsTimeOrder(s, t);
      }
    } else {
      EndMisplaced();
      assert CompareInt(END - 1, END) == Less;
    }
  }

  lemma {:induction false} EndMisplaced()
    ensures CompareText(Timestamp(END - 1), Timestamp(END)) == Greater
  {
    hide CivilFromDays, DateAfter, ValidDate, Timestamp, CompareText, Decimal;
    LastDays();
    CivilIsGregorian(2932896);
    CivilIsGregorian(2932897);
    assert END / 86400 == 2932897 && (END - 1) / 86400 == 2932896;
    assert YearOf(END) == 10000 && YearOf(END - 1) == 9999;
    EndDigits();
    TextOrderExact(END - 1, END);
    assert Power10(1) == 10;
  }

  lemma FirstCharacters(a: string, b: string)
    requires a != "" && b != "" && a[0] < b[0]
    ensures CompareText(a, b) == Less
  {
  }
}
