/** The date a paired device was last connected, against the Gregorian calendar counted year by year. */
module CivilDates {
  import opened Results

  datatype Date = Date(year: int, month: int, day: int)

  // ----- The proleptic Gregorian calendar -----

  predicate Leap(y: int) {
    y % 4 == 0 && (y % 100 != 0 || y % 400 == 0)
  }

  function MonthLength(y: int, m: int): int {
    if m == 2 then (if Leap(y) then 29 else 28)
    else if m == 4 || m == 6 || m == 9 || m == 11 then 30
    else 31
  }

  function YearLength(y: int): int {
    if Leap(y) then 366 else 365
  }

  predicate Valid(a: Date) {
    1970 <= a.year && 1 <= a.month <= 12 && 1 <= a.day <= MonthLength(a.year, a.month)
  }

  function DaysBeforeYear(y: int): int
    requires 1970 <= y
    decreases y
  {
    if y == 1970 then 0 else DaysBeforeYear(y - 1) + YearLength(y - 1)
  }

  function DaysBeforeMonth(y: int, m: int): int
    requires 1 <= m <= 12
    decreases m
  {
    if m == 1 then 0 else DaysBeforeMonth(y, m - 1) + MonthLength(y, m - 1)
  }

  /** Days from 1970-01-01. */
  function DayNumber(a: Date): int
    requires Valid(a)
  {
    DaysBeforeYear(a.year) + DaysBeforeMonth(a.year, a.month) + a.day - 1
  }

  predicate Before(a: Date, b: Date) {
    a.year < b.year || (a.year == b.year && (a.month < b.month || (a.month == b.month && a.day < b.day)))
  }

  // ----- The computation -----

  const DAY_MS: nat := 86_400_000

  /** Years since March of year 0 within a 400-year era, for the doe-th day of the era. */
  function YearOfEra(doe: nat): int {
    (doe - doe / 1460 + doe / 36524 - doe / 146_096) / 365
  }

  function DayOfYear(doe: nat): int {
    var yoe := YearOfEra(doe);
    doe - (365 * yoe + yoe / 4 - yoe / 100)
  }

  function FromMarch(y: int, doy: int): Date {
    var mp := (5 * doy + 2) / 153;
    var d := doy - (153 * mp + 2) / 5 + 1;
    var m := if mp < 10 then mp + 3 else mp - 9;
    Date(if m <= 2 then y + 1 else y, m, d)
  }

  function Civil(days: nat): Date {
    var z := days + 719_468;
    var era := z / 146_097;
    var doe := z - era * 146_097;
    FromMarch(YearOfEra(doe) + era * 400, DayOfYear(doe))
  }

  // ----- The text -----

  const UNKNOWN := "\U{2014}"

  function Digit(n: nat): char
    requires n < 10
  {
    "0123456789"[n]
  }

  /** n in decimal, with leading zeros up to the width. */
  function Padded(n: nat, width: nat): (text: string)
    ensures |text| >= width && |text| > 0
    decreases n, width
  {
    if n < 10 && width <= 1 then [Digit(n)]
    else Padded(n / 10, if width == 0 then 0 else width - 1) + [Digit(n % 10)]
  }

  function Text(a: Date): string
    requires a.year >= 0 && a.month >= 0 && a.day >= 0
  {
    Padded(a.year, 4) + "-" + Padded(a.month, 2) + "-" + Padded(a.day, 2)
  }

  /** The value of a digit, and of a string of digits. */
  function DigitValue(c: char): nat {
    if '0' <= c <= '9' then (c - '0') as nat else 0
  }

  function Number(s: string): nat {
    if s == [] then 0 else 10 * Number(s[..|s| - 1]) + DigitValue(s[|s| - 1])
  }

  /** The date a text of at least ten characters spells, by its two separators from the end. */
  function ReadDate(text: string): Date
    requires |text| >= 10
  {
    var n := |text|;
    Date(Number(text[..n - 6]), Number(text[n - 5..n - 3]), Number(text[n - 2..]))
  }

  predicate Spelled(text: string) {
    |text| >= 10 && text[|text| - 3] == '-' && text[|text| - 6] == '-'
  }

  /** The em dash when the device never connected; otherwise the day of that time, spelled as a date. */
  function FormatLastConnectedMs(ms: nat): (text: string)
    requires ms < U64
    ensures ms == 0 ==> text == UNKNOWN
    ensures ms > 0 ==> Spelled(text) && Valid(ReadDate(text)) && DayNumber(ReadDate(text)) == ms / DAY_MS
  {
    if ms == 0 then UNKNOWN
    else
      CivilIsTheDay(ms / DAY_MS);
      TextIsRead(Civil(ms / DAY_MS));
      Text(Civil(ms / DAY_MS))
  }

  lemma {:induction false} PaddedIsRead(n: nat, width: nat)
    ensures Number(Padded(n, width)) == n
    decreases n, width
  {
    DigitsRead(n % 10);
    if n < 10 && width <= 1 {
      assert [Digit(n)][..0] == [];
    } else {
      var w := if width == 0 then 0 else width - 1;
      PaddedIsRead(n / 10, w);
      assert Padded(n, width)[..|Padded(n / 10, w)|] == Padded(n / 10, w);
    }
  }

  lemma DigitsRead(n: nat)
    requires n < 10
    ensures DigitValue(Digit(n)) == n
  {
  }

  lemma TwoDigits(n: nat)
    requires n < 100
    ensures |Padded(n, 2)| == 2
  {
  }

  lemma DatePartsAreShort(a: Date)
    requires Valid(a)
    ensures a.month < 100 && a.day < 100
  {
  }

  /** A date is read back from its text. */
  lemma TextIsRead(a: Date)
    requires Valid(a)
    ensures Spelled(Text(a)) && ReadDate(Text(a)) == a
  {
    DatePartsAreShort(a);
    hide Padded, Number, Valid;
    var y, m, d := Padded(a.year, 4), Padded(a.month, 2), Padded(a.day, 2);
    TwoDigits(a.month);
    TwoDigits(a.day);
    PaddedIsRead(a.year, 4);
    PaddedIsRead(a.month, 2);
    PaddedIsRead(a.day, 2);
    TextParts(y, m, d);
  }

  lemma TextParts(y: string, m: string, d: string)
    requires |y| >= 4 && |m| == |d| == 2
    ensures var text := y + "-" + m + "-" + d; var n := |text|;
            Spelled(text) && text[..n - 6] == y && text[n - 5..n - 3] == m && text[n - 2..] == d
  {
  }

  // ----- The closed forms -----

  lemma Multiples(y: int, k: int)
    requires k == 4 || k == 100 || k == 400
    ensures y / k - (y - 1) / k == if y % k == 0 then 1 else 0
  {
  }

  lemma Nested(y: int, k: int, n: int)
    requires (k == 4 && n == 25) || (k == 100 && n == 4)
    ensures y % (k * n) == 0 ==> y % k == 0
  {
    if y % (k * n) == 0 {
      var q := y / (k * n);
      assert y == k * (n * q);
    }
  }

  lemma LeapCounts(y: int)
    ensures y / 4 - y / 100 + y / 400 - ((y - 1) / 4 - (y - 1) / 100 + (y - 1) / 400) == if Leap(y) then 1 else 0
  {
    Multiples(y, 4);
    Multiples(y, 100);
    Multiples(y, 400);
    Nested(y, 4, 25);
    Nested(y, 100, 4);
  }

  lemma {:induction false} DaysBeforeYearClosed(y: int)
    requires 1970 <= y
    ensures DaysBeforeYear(y) == 365 * (y - 1970) + (y - 1) / 4 - (y - 1) / 100 + (y - 1) / 400 - 477
    decreases y
  {
    if y > 1970 {
      DaysBeforeYearClosed(y - 1);
      LeapCounts(y - 1);
      hide Leap;
      assert DaysBeforeYear(y) == DaysBeforeYear(y - 1) + YearLength(y - 1);
    }
  }

  lemma MonthsClosed(y: int)
    ensures DaysBeforeMonth(y, 2) == 31
    ensures var l := if Leap(y) then 1 else 0;
            && DaysBeforeMonth(y, 3) == 59 + l && DaysBeforeMonth(y, 4) == 90 + l && DaysBeforeMonth(y, 5) == 120 + l
            && DaysBeforeMonth(y, 6) == 151 + l && DaysBeforeMonth(y, 7) == 181 + l && DaysBeforeMonth(y, 8) == 212 + l
            && DaysBeforeMonth(y, 9) == 243 + l && DaysBeforeMonth(y, 10) == 273 + l
            && DaysBeforeMonth(y, 11) == 304 + l && DaysBeforeMonth(y, 12) == 334 + l
  {
    assert DaysBeforeMonth(y, 3) == DaysBeforeMonth(y, 2) + MonthLength(y, 2);
    assert DaysBeforeMonth(y, 5) == DaysBeforeMonth(y, 4) + MonthLength(y, 4);
    assert DaysBeforeMonth(y, 7) == DaysBeforeMonth(y, 6) + MonthLength(y, 6);
    assert DaysBeforeMonth(y, 9) == DaysBeforeMonth(y, 8) + MonthLength(y, 8);
    assert DaysBeforeMonth(y, 11) == DaysBeforeMonth(y, 10) + MonthLength(y, 10);
  }

  /** A year that begins in March is long when the February that ends it has 29 days. */
  predicate LongYear(yoe: int) {
    Leap(yoe + 1)
  }

  /** Century, four-year cycle and year of the doe-th day of an era. */
  lemma EraDay(doe: nat, c: int, q: int, s: int, doy: int)
    requires 0 <= c <= 3 && 0 <= q <= 24 && 0 <= s <= 3 && 0 <= doy <= 365
    requires doy == 365 ==> s == 3 && (q != 24 || c == 3)
    requires doe == 36524 * c + 1461 * q + 365 * s + doy
    ensures YearOfEra(doe) == 100 * c + 4 * q + s && DayOfYear(doe) == doy
  {
    var x := if 24 * c + q + 365 * s + doy >= 1460 then 1 else 0;
    var w := if doe == 146_096 then 1 else 0;
    assert doe / 1460 == 25 * c + q + x by {
      assert doe == 1460 * (25 * c + q) + (24 * c + q + 365 * s + doy);
    }
    assert doe / 146_096 == w && doe / 36524 == c + w;
    var y := 100 * c + 4 * q + s;
    assert YearOfEra(doe) == y by {
      assert doe - doe / 1460 + doe / 36524 - doe / 146_096 == 365 * y + (doy - x);
      assert 0 <= doy - x < 365;
    }
    assert y / 4 == 25 * c + q && y / 100 == c;
  }

  /** The formulas find the March-based year and the day within it. */
  lemma EraSplits(doe: nat)
    requires doe < 146_097
    ensures var y := YearOfEra(doe); var doy := DayOfYear(doe);
            0 <= y < 400 && 0 <= doy <= 365 && (doy == 365 ==> LongYear(y))
            && doe == 365 * y + y / 4 - y / 100 + doy
  {
    var c := if doe == 146_096 then 3 else doe / 36524;
    var inCentury := doe - 36524 * c;
    var q := inCentury / 1461;
    var inCycle := inCentury - 1461 * q;
    var s := if inCycle == 1460 then 3 else inCycle / 365;
    var doy := inCycle - 365 * s;
    EraDay(doe, c, q, s, doy);
  }

  /** Days from 1 March to the start of the mp-th month after it. */
  function MonthStart(mp: int): int {
    (153 * mp + 2) / 5
  }

  /** The month lengths from March on follow the 153-days-in-five-months rule. */
  lemma MonthStarts(y: int, m: int)
    requires 1 <= m <= 12
    ensures m >= 3 ==> DaysBeforeMonth(y, m) == 31 + MonthLength(y, 2) + MonthStart(m - 3)
    ensures m <= 2 ==> DaysBeforeMonth(y, m) == MonthStart(m + 9) - 306
  {
    MonthsClosed(y);
    MonthStartTable();
  }

  lemma MonthLengths(y: int, m: int)
    requires 1 <= m <= 12 && m != 2
    ensures MonthLength(y, m) == if m >= 3 then MonthStart(m - 2) - MonthStart(m - 3) else MonthStart(11) - MonthStart(10)
  {
    MonthStartTable();
  }

  lemma MonthStartTable()
    ensures MonthStart(0) == 0 && MonthStart(1) == 31 && MonthStart(2) == 61 && MonthStart(3) == 92
            && MonthStart(4) == 122 && MonthStart(5) == 153 && MonthStart(6) == 184 && MonthStart(7) == 214
            && MonthStart(8) == 245 && MonthStart(9) == 275 && MonthStart(10) == 306 && MonthStart(11) == 337
  {
  }

  /** The month index is the one whose span holds the day. */
  lemma MonthIndex(doy: int)
    requires 0 <= doy <= 365
    ensures var mp := (5 * doy + 2) / 153; 0 <= mp <= 11 && MonthStart(mp) <= doy && (mp < 11 ==> doy < MonthStart(mp + 1))
  {
    var mp := (5 * doy + 2) / 153;
    assert 153 * mp <= 5 * doy + 2 < 153 * (mp + 1);
  }

  lemma MarchDateValid(y: int, doy: int)
    requires 1969 <= y && 0 <= doy <= 365 && (doy == 365 ==> Leap(y + 1)) && (y == 1969 ==> doy >= 306)
    ensures Valid(FromMarch(y, doy))
  {
    var mp := (5 * doy + 2) / 153;
    var a := FromMarch(y, doy);
    MonthIndex(doy);
    MonthStartTable();
    if mp != 11 {
      MonthLengths(a.year, a.month);
    }
    hide MonthStart;
    assert a.day == doy - MonthStart(mp) + 1;
    if mp != 11 {
      assert a.day <= MonthStart(mp + 1) - MonthStart(mp);
    }
  }

  /** The day within a March-based year, counted in calendar months. */
  lemma MarchDate(y: int, doy: int)
    requires 1969 <= y && 0 <= doy <= 365 && (doy == 365 ==> Leap(y + 1)) && (y == 1969 ==> doy >= 306)
    ensures Valid(FromMarch(y, doy))
    ensures DayNumber(FromMarch(y, doy)) == 365 * y + y / 4 - y / 100 + y / 400 + doy - 719_468
  {
    var a := FromMarch(y, doy);
    MarchDateValid(y, doy);
    MonthIndex(doy);
    MonthStarts(a.year, a.month);
    DaysBeforeYearClosed(a.year);
    LeapCounts(y);
    assert MonthStart(0) == 0;
    hide Leap, MonthStart, DaysBeforeYear, DaysBeforeMonth;
    assert a.day == doy - MonthStart((5 * doy + 2) / 153) + 1;
  }

  lemma CivilIsTheDay(days: nat)
    ensures Valid(Civil(days)) && DayNumber(Civil(days)) == days
  {
    hide YearOfEra, DayOfYear, FromMarch, DayNumber, Valid;
    var z := days + 719_468;
    var era := z / 146_097;
    var doe := z - era * 146_097;
    EraSplits(doe);
    var yoe, doy := YearOfEra(doe), DayOfYear(doe);
    EraYear(era, yoe);
    MarchDate(yoe + era * 400, doy);
  }

  lemma EraQuotient(era: nat, yoe: nat, k: nat, n: nat)
    requires (k == 4 && n == 100) || (k == 100 && n == 4) || (k == 400 && n == 1)
    ensures (yoe + era * 400) / k == yoe / k + era * n && (yoe + era * 400) % k == yoe % k
  {
    assert yoe + era * 400 == k * (yoe / k + era * n) + yoe % k;
  }

  lemma EraLeap(era: nat, yoe: nat)
    ensures Leap(yoe + 1) <==> Leap(yoe + era * 400 + 1)
  {
    EraQuotient(era, yoe + 1, 4, 100);
    EraQuotient(era, yoe + 1, 100, 4);
    EraQuotient(era, yoe + 1, 400, 1);
  }

  lemma EraYear(era: nat, yoe: nat)
    requires yoe < 400
    ensures var y := yoe + era * 400;
            y / 4 == yoe / 4 + era * 100 && y / 100 == yoe / 100 + era * 4 && y / 400 == era
            && (LongYear(yoe) <==> Leap(y + 1))
  {
    hide Leap;
    EraLeap(era, yoe);
    EraQuotient(era, yoe, 4, 100);
    EraQuotient(era, yoe, 100, 4);
    EraQuotient(era, yoe, 400, 1);
  }

  // ----- What the dates promise -----

  lemma MonthsWithinYear(y: int, m: int)
    requires 1 <= m <= 12
    ensures 0 <= DaysBeforeMonth(y, m) && DaysBeforeMonth(y, m) + MonthLength(y, m) <= YearLength(y)
  {
    MonthsClosed(y);
  }

  lemma {:induction false} LaterMonth(y: int, m: int, n: int)
    requires 1 <= m < n <= 12
    ensures DaysBeforeMonth(y, m) + MonthLength(y, m) <= DaysBeforeMonth(y, n)
    decreases n
  {
    if m < n - 1 {
      LaterMonth(y, m, n - 1);
    }
  }

  lemma {:induction false} LaterYear(y: int, z: int)
    requires 1970 <= y < z
    ensures DaysBeforeYear(y) + YearLength(y) <= DaysBeforeYear(z)
    decreases z
  {
    if y < z - 1 {
      LaterYear(y, z - 1);
    }
  }

  /** The calendar count orders dates as their year, month and day do. */
  lemma DayNumberIncreases(a: Date, b: Date)
    requires Valid(a) && Valid(b) && Before(a, b)
    ensures DayNumber(a) < DayNumber(b)
  {
    MonthsWithinYear(a.year, a.month);
    MonthsWithinYear(b.year, b.month);
    if a.year < b.year {
      LaterYear(a.year, b.year);
    } else if a.month < b.month {
      LaterMonth(a.year, a.month, b.month);
    }
  }

  /** Later days give later dates. */
  lemma LaterDaysLaterDates(m: nat, n: nat)
    ensures m < n <==> Before(Civil(m), Civil(n))
  {
    CivilIsTheDay(m);
    CivilIsTheDay(n);
    var a, b := Civil(m), Civil(n);
    if Before(a, b) {
      DayNumberIncreases(a, b);
    } else if Before(b, a) {
      DayNumberIncreases(b, a);
    } else {
      assert a == b;
    }
  }

  /** One text of the same length comes before another: the first difference is a smaller character. */
  ghost predicate TextBefore(s: string, t: string) {
    |s| == |t| && exists i | 0 <= i < |s| :: s[..i] == t[..i] && s[i] < t[i]
  }

  lemma OneDigit(n: nat)
    requires |Padded(n, 1)| == 1
    ensures n < 10 && Padded(n, 1) == "" + [Digit(n)]
  {
  }

  lemma DigitSplit(m: nat, n: nat)
    requires m < n
    ensures m / 10 < n / 10 || (m / 10 == n / 10 && m % 10 < n % 10)
  {
  }

  lemma {:induction false} PaddedOrder(m: nat, n: nat, width: nat)
    requires m < n && |Padded(n, width)| == width && |Padded(m, width)| == width
    ensures TextBefore(Padded(m, width), Padded(n, width))
    decreases width
  {
    hide Padded, TextBefore, Digit;
    if width == 1 {
      OneDigit(m);
      OneDigit(n);
      DigitOrder(m, n);
      LastBefore("", Digit(m), Digit(n));
    } else {
      PaddedMore(m, width);
      PaddedMore(n, width);
      DigitSplit(m, n);
      var s, t := Padded(m / 10, width - 1), Padded(n / 10, width - 1);
      if m / 10 < n / 10 {
        PaddedOrder(m / 10, n / 10, width - 1);
        LaterCharacter(s, t, Digit(m % 10), Digit(n % 10));
      } else {
        DigitOrder(m % 10, n % 10);
        LastBefore(s, Digit(m % 10), Digit(n % 10));
      }
    }
  }

  lemma PaddedMore(n: nat, width: nat)
    requires width > 1
    ensures Padded(n, width) == Padded(n / 10, width - 1) + [Digit(n % 10)]
  {
  }

  lemma LastBefore(s: string, c: char, d: char)
    requires c < d
    ensures TextBefore(s + [c], s + [d])
  {
    var t, u, i := s + [c], s + [d], |s|;
    assert t[..i] == s && u[..i] == s && t[i] < u[i];
  }

  lemma LaterCharacter(s: string, t: string, c: char, d: char)
    requires TextBefore(s, t)
    ensures TextBefore(s + [c], t + [d])
  {
    var u, v := s + [c], t + [d];
    var i :| 0 <= i < |s| && s[..i] == t[..i] && s[i] < t[i];
    assert u[..i] == s[..i] && v[..i] == t[..i] && u[i] < v[i];
  }

  lemma DigitOrder(m: nat, n: nat)
    requires m < n < 10
    ensures Digit(m) < Digit(n)
  {
  }

  lemma FourDigits(n: nat)
    ensures |Padded(n, 4)| == 4 <==> n < 10_000
  {
    assert |Padded(n / 1000, 1)| == 1 <==> n / 1000 < 10;
    assert |Padded(n, 4)| == 1 + |Padded(n / 10, 3)| && |Padded(n / 10, 3)| == 1 + |Padded(n / 10 / 10, 2)|;
    assert |Padded(n / 10 / 10, 2)| == 1 + |Padded(n / 10 / 10 / 10, 1)|;
    assert n / 10 / 10 / 10 == n / 1000;
  }

  lemma BeforeInside(p: string, s: string, t: string, u: string, v: string)
    requires TextBefore(s, t) && |u| == |v|
    ensures TextBefore(p + s + u, p + t + v)
  {
    var i :| 0 <= i < |s| && s[..i] == t[..i] && s[i] < t[i];
    var x, y, j := p + s + u, p + t + v, |p| + i;
    assert x[..j] == p + s[..i] && y[..j] == p + t[..i];
    assert x[j] < y[j];
  }

  /** Up to the year 9999 the texts sort as the days do. */
  lemma LaterDaysLaterTexts(m: nat, n: nat)
    requires m < n && Civil(n).year < 10_000
    ensures Valid(Civil(m)) && Valid(Civil(n)) && TextBefore(Text(Civil(m)), Text(Civil(n)))
  {
    CivilIsTheDay(m);
    CivilIsTheDay(n);
    LaterDaysLaterDates(m, n);
    hide Civil;
    var a, b := Civil(m), Civil(n);
    DatePartsAreShort(a);
    DatePartsAreShort(b);
    LaterTexts(a, b);
  }

  lemma LaterTexts(a: Date, b: Date)
    requires Valid(a) && Valid(b) && Before(a, b) && b.year < 10_000
    ensures TextBefore(Text(a), Text(b))
  {
    DatePartsAreShort(a);
    DatePartsAreShort(b);
    FourDigits(a.year);
    FourDigits(b.year);
    TwoDigits(a.month);
    TwoDigits(b.month);
    TwoDigits(a.day);
    TwoDigits(b.day);
    hide Padded, Valid, TextBefore;
    var (y, m, d) := (Padded(a.year, 4), Padded(a.month, 2), Padded(a.day, 2));
    var (z, n, e) := (Padded(b.year, 4), Padded(b.month, 2), Padded(b.day, 2));
    if a.year < b.year {
      PaddedOrder(a.year, b.year, 4);
      BeforeInside("", y, z, "-" + m + "-" + d, "-" + n + "-" + e);
      Regroup("", y, "-", m, "-", d);
      Regroup("", z, "-", n, "-", e);
    } else if a.month < b.month {
      PaddedOrder(a.month, b.month, 2);
      BeforeInside(y + "-", m, n, "-" + d, "-" + e);
      assert y + "-" + m + ("-" + d) == y + "-" + m + "-" + d && y + "-" + n + ("-" + e) == y + "-" + n + "-" + e;
    } else {
      PaddedOrder(a.day, b.day, 2);
      BeforeInside(y + "-" + m + "-", d, e, "", "");
      assert y + "-" + m + "-" + d + "" == y + "-" + m + "-" + d && y + "-" + m + "-" + e + "" == y + "-" + m + "-" + e;
    }
  }

  lemma Regroup(p: string, y: string, s: string, m: string, t: string, d: string)
    requires p == ""
    ensures p + y + (s + m + t + d) == y + s + m + t + d
  {
  }

  /** The computation inverts the calendar count: every date from 1970 on is the date of its day. */
  lemma EveryDateIsReached(a: Date)
    requires Valid(a)
    ensures DayNumber(a) >= 0 && Civil(DayNumber(a)) == a
  {
    DaysBeforeYearClosed(a.year);
    MonthsWithinYear(a.year, a.month);
    CivilIsTheDay(DayNumber(a));
    var b := Civil(DayNumber(a));
    if Before(a, b) {
      DayNumberIncreases(a, b);
    } else if Before(b, a) {
      DayNumberIncreases(b, a);
    }
  }
}
