/**
 * Calendar dates at day granularity, as the data service handles them: the
 * `yyyyMMdd` integer encoding stored in Client_Trip.RegisteredAt and
 * Client_Trip.PaymentDate, the `yyyy-MM-dd` text that trip dates are shown
 * in (the calendar date complete representation of section 4.1.2.2 of
 * ISO 8601:2004, extended format; `yyyyMMdd` is its basic format), and the
 * exact parse of a payment date against four fixed-width layouts.
 */
module Dates {
  import opened Wrappers

  datatype Date = Date(year: int, month: int, day: int)

  predicate IsLeapYear(y: int) {
    y % 4 == 0 && (y % 100 != 0 || y % 400 == 0)
  }

  /** Length of a month in the proleptic Gregorian calendar. */
  function DaysInMonth(y: int, m: int): (n: int)
    requires 1 <= m <= 12
    ensures 28 <= n <= 31
    ensures n == 29 <==> m == 2 && IsLeapYear(y)
    ensures n == 28 <==> m == 2 && !IsLeapYear(y)
    ensures n == 30 <==> m in {4, 6, 9, 11}
  {
    if m == 2 then (if IsLeapYear(y) then 29 else 28)
    else if m == 4 || m == 6 || m == 9 || m == 11 then 30
    else 31
  }

  /** The days a .NET DateTime can denote: years 1 to 9999. */
  predicate IsValid(d: Date) {
    1 <= d.year <= 9999 && 1 <= d.month <= 12 && 1 <= d.day <= DaysInMonth(d.year, d.month)
  }

  type CalendarDate = d: Date | IsValid(d) witness Date(1, 1, 1)

  /** Strict chronological order of days. */
  predicate Before(a: Date, b: Date) {
    || a.year < b.year
    || (a.year == b.year && a.month < b.month)
    || (a.year == b.year && a.month == b.month && a.day < b.day)
  }

  // ---------------------------------------------------------------------
  // The yyyyMMdd integer encoding

  /** `int.Parse(d.ToString("yyyyMMdd"))`. */
  function Encode(d: CalendarDate): (n: int)
    ensures 10101 <= n <= 99991231
  {
    d.year * 10000 + d.month * 100 + d.day
  }

  /** Reads the three fields back out of an encoded day. */
  function Decode(n: int): Date {
    Date(n / 10000, n / 100 % 100, n % 100)
  }

  /** Decoding undoes encoding; encodings lie between those of 0001-01-01
      and 9999-12-31. */
  lemma EncodeRoundTrip(d: CalendarDate)
    ensures Decode(Encode(d)) == d
    ensures 10101 <= Encode(d) <= 99991231
  {
    var n := Encode(d);
    assert n / 10000 == d.year;
    assert n / 100 == d.year * 100 + d.month;
    assert n / 100 % 100 == d.month;
    assert n % 100 == d.day;
  }

  /** Distinct days have distinct encodings. */
  lemma EncodeInjective(a: CalendarDate, b: CalendarDate)
    ensures Encode(a) == Encode(b) ==> a == b
  {
    EncodeRoundTrip(a);
    EncodeRoundTrip(b);
  }

  /** Comparing encodings as integers is comparing days chronologically. */
  lemma EncodeMonotonic(a: CalendarDate, b: CalendarDate)
    ensures Before(a, b) <==> Encode(a) < Encode(b)
  {
    if a.year < b.year {
      assert Encode(a) < (a.year + 1) * 10000 <= Encode(b);
    } else if a.year > b.year {
      assert Encode(b) < (b.year + 1) * 10000 <= Encode(a);
    }
  }

  // ---------------------------------------------------------------------
  // Fixed-width decimal text

  predicate IsDigit(c: char) {
    '0' <= c <= '9'
  }

  predicate AllDigits(s: string) {
    forall i :: 0 <= i < |s| ==> IsDigit(s[i])
  }

  function DigitChar(n: int): (c: char)
    requires 0 <= n <= 9
    ensures IsDigit(c)
  {
    (n + '0' as int) as char
  }

  function DigitValue(c: char): (n: int)
    requires IsDigit(c)
    ensures 0 <= n <= 9
  {
    c as int - '0' as int
  }

  /** Format specifier `MM` or `dd`: two digits, zero-padded. */
  function Two(n: int): string
    requires 0 <= n <= 99
  {
    [DigitChar(n / 10), DigitChar(n % 10)]
  }

  /** Format specifier `yyyy`: four digits, zero-padded. */
  function Four(n: int): string
    requires 0 <= n <= 9999
  {
    Two(n / 100) + Two(n % 100)
  }

  function Number2(s: string): int
    requires |s| == 2 && AllDigits(s)
  {
    10 * DigitValue(s[0]) + DigitValue(s[1])
  }

  function Number4(s: string): int
    requires |s| == 4 && AllDigits(s)
  {
    100 * Number2(s[..2]) + Number2(s[2..])
  }

  /** `int.Parse` of an eight-digit string. */
  function Number8(s: string): int
    requires |s| == 8 && AllDigits(s)
  {
    10000 * Number4(s[..4]) + Number4(s[4..])
  }

  lemma TwoRoundTrip(n: int)
    requires 0 <= n <= 99
    ensures |Two(n)| == 2 && AllDigits(Two(n)) && Number2(Two(n)) == n
  {
  }

  lemma NumberTwoRoundTrip(s: string)
    requires |s| == 2 && AllDigits(s)
    ensures 0 <= Number2(s) <= 99 && Two(Number2(s)) == s
  {
    var n := Number2(s);
    assert n / 10 == DigitValue(s[0]) && n % 10 == DigitValue(s[1]);
  }

  lemma FourRoundTrip(n: int)
    requires 0 <= n <= 9999
    ensures |Four(n)| == 4 && AllDigits(Four(n)) && Number4(Four(n)) == n
  {
    TwoRoundTrip(n / 100);
    TwoRoundTrip(n % 100);
    assert Four(n)[..2] == Two(n / 100);
    assert Four(n)[2..] == Two(n % 100);
  }

  lemma NumberFourRoundTrip(s: string)
    requires |s| == 4 && AllDigits(s)
    ensures 0 <= Number4(s) <= 9999 && Four(Number4(s)) == s
  {
    var n := Number4(s);
    NumberTwoRoundTrip(s[..2]);
    NumberTwoRoundTrip(s[2..]);
    assert n / 100 == Number2(s[..2]) && n % 100 == Number2(s[2..]);
    assert s == s[..2] + s[2..];
  }

  // ---------------------------------------------------------------------
  // The four layouts a payment date may be written in

  datatype Layout =
    | IsoExtended    // yyyy-MM-dd
    | IsoBasic       // yyyyMMdd
    | MonthDayYear   // MM/dd/yyyy
    | DayMonthYear   // dd.MM.yyyy

  /** The layouts in the order the service tries them. */
  const PaymentLayouts: seq<Layout> := [IsoExtended, IsoBasic, MonthDayYear, DayMonthYear]

  /** Places year, month and day text into a layout. */
  function Join(y: string, m: string, d: string, layout: Layout): string {
    match layout
    case IsoExtended => y + "-" + m + "-" + d
    case IsoBasic => y + m + d
    case MonthDayYear => m + "/" + d + "/" + y
    case DayMonthYear => d + "." + m + "." + y
  }

  /** Cuts a string into its year, month and day text if it has the
      layout's length and separators. */
  function Split(s: string, layout: Layout): Option<(string, string, string)> {
    match layout
    case IsoExtended =>
      if |s| == 10 && s[4] == '-' && s[7] == '-' then Some((s[..4], s[5..7], s[8..])) else None
    case IsoBasic =>
      if |s| == 8 then Some((s[..4], s[4..6], s[6..])) else None
    case MonthDayYear =>
      if |s| == 10 && s[2] == '/' && s[5] == '/' then Some((s[6..], s[..2], s[3..5])) else None
    case DayMonthYear =>
      if |s| == 10 && s[2] == '.' && s[5] == '.' then Some((s[6..], s[3..5], s[..2])) else None
  }

  lemma SplitJoin(y: string, m: string, d: string, layout: Layout)
    requires |y| == 4 && |m| == 2 && |d| == 2
    ensures Split(Join(y, m, d, layout), layout) == Some((y, m, d))
  {
    var s := Join(y, m, d, layout);
    match layout
    case IsoExtended =>
      assert s[..4] == y && s[5..7] == m && s[8..] == d;
    case IsoBasic =>
      assert s[..4] == y && s[4..6] == m && s[6..] == d;
    case MonthDayYear =>
      assert s[6..] == y && s[..2] == m && s[3..5] == d;
    case DayMonthYear =>
      assert s[6..] == y && s[3..5] == m && s[..2] == d;
  }

  lemma JoinSplit(s: string, layout: Layout)
    requires Split(s, layout).Some?
    ensures var (y, m, d) := Split(s, layout).value;
      |y| == 4 && |m| == 2 && |d| == 2 && Join(y, m, d, layout) == s
  {
    var (y, m, d) := Split(s, layout).value;
    match layout
    case IsoExtended =>
      assert s == s[..4] + [s[4]] + s[5..7] + [s[7]] + s[8..];
    case IsoBasic =>
      assert s == s[..4] + s[4..6] + s[6..];
    case MonthDayYear =>
      assert s == s[..2] + [s[2]] + s[3..5] + [s[5]] + s[6..];
    case DayMonthYear =>
      assert s == s[..2] + [s[2]] + s[3..5] + [s[5]] + s[6..];
  }

  /** `d.ToString(format)` for the layout's format string. */
  function Render(d: CalendarDate, layout: Layout): (s: string)
    ensures |s| == if layout == IsoBasic then 8 else 10
  {
    Join(Four(d.year), Two(d.month), Two(d.day), layout)
  }

  /** `DateTime.TryParseExact` against one layout with the invariant culture
      and no styles: every field is all digits and the day exists. */
  function ParseLayout(s: string, layout: Layout): (r: Option<CalendarDate>)
    ensures r.Some? ==> |s| == if layout == IsoBasic then 8 else 10
  {
    match Split(s, layout)
    case None => None
    case Some((y, m, d)) =>
      if |y| == 4 && |m| == 2 && |d| == 2 && AllDigits(y) && AllDigits(m) && AllDigits(d) then
        var date := Date(Number4(y), Number2(m), Number2(d));
        if IsValid(date) then Some(date) else None
      else None
  }

  /** `DateTime.TryParseExact` against a list of formats: the first that
      accepts the text decides. */
  function ParseFirst(s: string, layouts: seq<Layout>): (r: Option<CalendarDate>)
    ensures r.Some? ==> exists l :: l in layouts && ParseLayout(s, l) == r
    ensures r.None? ==> forall l :: l in layouts ==> ParseLayout(s, l).None?
  {
    if layouts == [] then None
    else match ParseLayout(s, layouts[0])
      case Some(d) => Some(d)
      case None => ParseFirst(s, layouts[1..])
  }

  /** Parsing a layout accepts exactly the renderings of valid days in that
      layout. */
  lemma ParseLayoutIff(s: string, layout: Layout, d: CalendarDate)
    ensures ParseLayout(s, layout) == Some(d) <==> s == Render(d, layout)
  {
    FourRoundTrip(d.year);
    TwoRoundTrip(d.month);
    TwoRoundTrip(d.day);
    if s == Render(d, layout) {
      SplitJoin(Four(d.year), Two(d.month), Two(d.day), layout);
    }
    if ParseLayout(s, layout) == Some(d) {
      var (y, m, dd) := Split(s, layout).value;
      JoinSplit(s, layout);
      NumberFourRoundTrip(y);
      NumberTwoRoundTrip(m);
      NumberTwoRoundTrip(dd);
    }
  }

  /** A text is accepted by at most one of the four layouts, so the order in
      which they are tried never changes the outcome. */
  lemma LayoutsExclusive(s: string, l1: Layout, l2: Layout)
    requires ParseLayout(s, l1).Some? && ParseLayout(s, l2).Some?
    ensures l1 == l2
  {
    JoinSplit(s, l1);
    JoinSplit(s, l2);
  }

  lemma ParseFirstSome(s: string, layouts: seq<Layout>, d: CalendarDate)
    ensures ParseFirst(s, layouts) == Some(d) <==> exists l :: l in layouts && ParseLayout(s, l) == Some(d)
  {
    if layouts != [] {
      ParseFirstSome(s, layouts[1..], d);
      if ParseLayout(s, layouts[0]).Some? {
        forall l | l in layouts && ParseLayout(s, l).Some?
          ensures l == layouts[0]
        {
          LayoutsExclusive(s, l, layouts[0]);
        }
      }
    }
  }

  /** The payment-date parse accepts exactly the valid days written in one
      of the four layouts, and yields the day that was written. */
  lemma ParsePaymentLayoutsIff(s: string, d: CalendarDate)
    ensures ParseFirst(s, PaymentLayouts) == Some(d) <==>
      exists l :: l in PaymentLayouts && s == Render(d, l)
  {
    ParseFirstSome(s, PaymentLayouts, d);
    forall l | l in PaymentLayouts
      ensures ParseLayout(s, l) == Some(d) <==> s == Render(d, l)
    {
      ParseLayoutIff(s, l, d);
    }
  }

  /** `int.Parse(d.ToString("yyyyMMdd"))` is the arithmetic encoding. */
  lemma BasicTextIsEncoding(d: CalendarDate)
    ensures |Render(d, IsoBasic)| == 8 && AllDigits(Render(d, IsoBasic))
    ensures Number8(Render(d, IsoBasic)) == Encode(d)
  {
    var s := Render(d, IsoBasic);
    FourRoundTrip(d.year);
    TwoRoundTrip(d.month);
    TwoRoundTrip(d.day);
    assert s[..4] == Four(d.year);
    assert s[4..] == Two(d.month) + Two(d.day);
    assert s[4..][..2] == Two(d.month) && s[4..][2..] == Two(d.day);
  }
}
