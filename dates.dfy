/** Due dates. The user types a date as `MM-DD-YY`; the table stores it as
    `YYMMDD`; listings and update prompts show it as `MM-DD-YY` again. Both
    directions go through a calendar date, as `strptime` and `strftime` do. */
module Dates {
  import opened Wrappers
  import opened Text

  datatype Date = Date(year: int, month: int, day: int)

  predicate IsLeapYear(y: int) {
    y % 4 == 0 && (y % 100 != 0 || y % 400 == 0)
  }

  function DaysInMonth(y: int, m: int): int
    requires 1 <= m <= 12
  {
    if m == 2 then (if IsLeapYear(y) then 29 else 28)
    else if m == 4 || m == 6 || m == 9 || m == 11 then 30
    else 31
  }

  /** A date Python's `datetime` can hold. */
  predicate ValidDate(d: Date) {
    1 <= d.year <= 9999 && 1 <= d.month <= 12 && 1 <= d.day <= DaysInMonth(d.year, d.month)
  }

  /** The century `%y` assigns to a two-digit year: 69-99 are 1969-1999, 00-68 are 2000-2068. */
  function PivotYear(yy: int): (y: int)
    requires 0 <= yy < 100
    ensures 1969 <= y <= 2068 && y % 100 == yy
  {
    if yy < 69 then 2000 + yy else 1900 + yy
  }

  predicate InPivotWindow(y: int) {
    1969 <= y <= 2068
  }

  /** A zero-padded two-digit field, as `%m`, `%d` and `%y` print it. */
  function Pad2(n: int): (s: string)
    requires 0 <= n < 100
    ensures |s| == 2 && IsDigit(s[0]) && IsDigit(s[1])
  {
    [DigitChar(n / 10), DigitChar(n % 10)]
  }

  function TwoDigits(hi: char, lo: char): (n: int)
    requires IsDigit(hi) && IsDigit(lo)
    ensures 0 <= n < 100
  {
    DigitValue(hi) * 10 + DigitValue(lo)
  }

  /** The date named by a two-digit year, a month and a day, if the calendar has it. */
  function MakeDate(yy: int, mm: int, dd: int): Option<Date>
    requires 0 <= yy < 100
  {
    var d := Date(PivotYear(yy), mm, dd);
    if ValidDate(d) then Some(d) else None
  }

  /** `strptime(s, '%m-%d-%y')`, accepting zero-padded fields only. */
  function ParseUser(s: string): (r: Option<Date>)
    ensures r.Some? ==> ValidDate(r.value) && InPivotWindow(r.value.year)
  {
    if |s| == 8 && s[2] == '-' && s[5] == '-' && IsDigit(s[0]) && IsDigit(s[1])
       && IsDigit(s[3]) && IsDigit(s[4]) && IsDigit(s[6]) && IsDigit(s[7])
    then MakeDate(TwoDigits(s[6], s[7]), TwoDigits(s[0], s[1]), TwoDigits(s[3], s[4]))
    else None
  }

  /** `strptime(s, '%y%m%d')`, accepting zero-padded fields only. */
  function ParseStorage(s: string): (r: Option<Date>)
    ensures r.Some? ==> ValidDate(r.value) && InPivotWindow(r.value.year)
  {
    if |s| == 6 && AllDigits(s)
    then MakeDate(TwoDigits(s[0], s[1]), TwoDigits(s[2], s[3]), TwoDigits(s[4], s[5]))
    else None
  }

  /** `strftime('%m-%d-%y')`: zero-padded month, day and year of the century.
      The two formats are written out digit by digit rather than as `Pad2`
      concatenations, which keeps the parsing proofs below cheap; the lemma
      `FormatFields` states that both are the `Pad2` fields joined. */
  function FormatUser(d: Date): (s: string)
    requires ValidDate(d)
    ensures |s| == 8 && s[2] == '-' && s[5] == '-'
    ensures AllDigits(s[..2]) && AllDigits(s[3..5]) && AllDigits(s[6..])
  {
    var yy := d.year % 100;
    [DigitChar(d.month / 10), DigitChar(d.month % 10), '-',
     DigitChar(d.day / 10), DigitChar(d.day % 10), '-',
     DigitChar(yy / 10), DigitChar(yy % 10)]
  }

  /** `strftime('%y%m%d')`: zero-padded year of the century, month and day. */
  function FormatStorage(d: Date): (s: string)
    requires ValidDate(d)
    ensures |s| == 6 && AllDigits(s)
  {
    var yy := d.year % 100;
    [DigitChar(yy / 10), DigitChar(yy % 10),
     DigitChar(d.month / 10), DigitChar(d.month % 10),
     DigitChar(d.day / 10), DigitChar(d.day % 10)]
  }

  /** Both formats are `Pad2` fields in their order, the user form with dashes. */
  lemma FormatFields(d: Date)
    requires ValidDate(d)
    ensures FormatUser(d) == Pad2(d.month) + "-" + Pad2(d.day) + "-" + Pad2(d.year % 100)
    ensures FormatStorage(d) == Pad2(d.year % 100) + Pad2(d.month) + Pad2(d.day)
  {
  }

  predicate IsUserDate(s: string) {
    ParseUser(s).Some?
  }

  predicate IsStorageDate(s: string) {
    ParseStorage(s).Some?
  }

  /** A user date converted to its storage form. */
  function ToStorage(s: string): string
    requires IsUserDate(s)
  {
    FormatStorage(ParseUser(s).value)
  }

  /** A stored date converted to the form the user sees. */
  function ToDisplay(s: string): string
    requires IsStorageDate(s)
  {
    FormatUser(ParseStorage(s).value)
  }

  /** The due date stored for an answer: the answer itself when it is a valid
      `MM-DD-YY` date, otherwise the fallback date, converted to storage form. */
  function NormalizeDue(answer: string, fallback: string): (r: string)
    requires IsUserDate(fallback)
    ensures IsStorageDate(r)
    ensures ToDisplay(r) == if IsUserDate(answer) then answer else fallback
  {
    var chosen := if IsUserDate(answer) then answer else fallback;
    UserStorageRoundTrip(chosen);
    ToStorage(chosen)
  }

  lemma Pad2Digits(n: int)
    requires 0 <= n < 100
    ensures IsDigit(DigitChar(n / 10)) && IsDigit(DigitChar(n % 10))
    ensures TwoDigits(DigitChar(n / 10), DigitChar(n % 10)) == n
  {
  }

  lemma DigitsPad2(hi: char, lo: char)
    requires IsDigit(hi) && IsDigit(lo)
    ensures Pad2(TwoDigits(hi, lo)) == [hi, lo]
  {
    var n := TwoDigits(hi, lo);
    assert n / 10 == DigitValue(hi) && n % 10 == DigitValue(lo);
  }

  /** Strict parsing: a string that parses as `MM-DD-YY` is exactly what
      formatting its date prints. */
  lemma ParseUserExact(s: string)
    requires IsUserDate(s)
    ensures FormatUser(ParseUser(s).value) == s
  {
    var d := ParseUser(s).value;
    DigitsPad2(s[0], s[1]);
    DigitsPad2(s[3], s[4]);
    DigitsPad2(s[6], s[7]);
    assert d.year % 100 == TwoDigits(s[6], s[7]);
    assert FormatUser(d) == [s[0], s[1], s[2], s[3], s[4], s[5], s[6], s[7]];
  }

  lemma ParseStorageExact(s: string)
    requires IsStorageDate(s)
    ensures FormatStorage(ParseStorage(s).value) == s
  {
    var d := ParseStorage(s).value;
    DigitsPad2(s[0], s[1]);
    DigitsPad2(s[2], s[3]);
    DigitsPad2(s[4], s[5]);
    assert d.year % 100 == TwoDigits(s[0], s[1]);
    assert FormatStorage(d) == [s[0], s[1], s[2], s[3], s[4], s[5]];
  }

  /** Formatting a date of the 1969-2068 window and parsing it back gives the same date. */
  lemma FormatStorageParses(d: Date)
    requires ValidDate(d) && InPivotWindow(d.year)
    ensures ParseStorage(FormatStorage(d)) == Some(d)
  {
    var yy := d.year % 100;
    var s := FormatStorage(d);
    Pad2Digits(yy);
    Pad2Digits(d.month);
    Pad2Digits(d.day);
    assert s[0] == DigitChar(yy / 10) && s[1] == DigitChar(yy % 10);
    assert s[2] == DigitChar(d.month / 10) && s[3] == DigitChar(d.month % 10);
    assert s[4] == DigitChar(d.day / 10) && s[5] == DigitChar(d.day % 10);
    assert AllDigits(s);
    assert PivotYear(yy) == d.year;
  }

  lemma FormatUserParsesInWindow(d: Date)
    requires ValidDate(d) && InPivotWindow(d.year)
    ensures ParseUser(FormatUser(d)) == Some(d)
  {
    var yy := d.year % 100;
    Pad2Digits(yy);
    Pad2Digits(d.month);
    Pad2Digits(d.day);
    assert PivotYear(yy) == d.year;
  }

  /** Today's date, printed with `%m-%d-%y`, always parses again, whatever the
      year: the century is lost, but a leap day stays a leap day. So the
      fallback on add never raises. */
  lemma TodayFallbackParses(today: Date)
    requires ValidDate(today)
    ensures IsUserDate(FormatUser(today))
    ensures ParseUser(FormatUser(today)) == Some(Date(PivotYear(today.year % 100), today.month, today.day))
  {
    var yy := today.year % 100;
    var d := Date(PivotYear(yy), today.month, today.day);
    assert today.day <= DaysInMonth(d.year, d.month) by {
      if today.month == 2 && yy != 0 {
        var q := today.year / 100;
        assert today.year == 4 * (25 * q) + yy;
        assert d.year == 4 * (if yy < 69 then 500 else 475) + yy;
        assert IsLeapYear(d.year) == IsLeapYear(today.year);
      }
    }
    FormatUserParsesInWindow(d);
  }

  /** A valid `MM-DD-YY` answer survives storage: converted to `YYMMDD` and
      shown again it reads exactly as typed. */
  lemma UserStorageRoundTrip(s: string)
    requires IsUserDate(s)
    ensures IsStorageDate(ToStorage(s))
    ensures ToDisplay(ToStorage(s)) == s
  {
    FormatStorageParses(ParseUser(s).value);
    ParseUserExact(s);
  }

  /** A stored `YYMMDD` date shown as `MM-DD-YY` and converted back is unchanged;
      so an update that keeps the displayed due date keeps the stored one. */
  lemma StorageUserRoundTrip(s: string)
    requires IsStorageDate(s)
    ensures IsUserDate(ToDisplay(s))
    ensures ToStorage(ToDisplay(s)) == s
  {
    FormatUserParsesInWindow(ParseStorage(s).value);
    ParseStorageExact(s);
  }

  /** Chronological order of dates. */
  predicate DateLe(a: Date, b: Date) {
    a.year < b.year || (a.year == b.year && (a.month < b.month || (a.month == b.month && a.day <= b.day)))
  }

  lemma Pad2Order(m: int, n: int)
    requires 0 <= m < 100 && 0 <= n < 100
    ensures StrLe(Pad2(m), Pad2(n)) <==> m <= n
  {
    var a, b := Pad2(m), Pad2(n);
    assert a[1..] == [a[1]] && b[1..] == [b[1]];
    assert a[1..][1..] == [] && b[1..][1..] == [];
    assert StrLe(a[1..][1..], b[1..][1..]);
    assert StrLe(a[1..], b[1..]) <==> a[1] <= b[1];
    assert StrLe(a, b) <==> a[0] < b[0] || (a[0] == b[0] && a[1] <= b[1]);
    assert a[0] < b[0] <==> m / 10 < n / 10;
    assert a[0] == b[0] <==> m / 10 == n / 10;
    assert a[1] <= b[1] <==> m % 10 <= n % 10;
  }

  /** The storage form sorts as text in date order as long as both dates lie on
      the same side of the century pivot (both in 2000-2068, or both in 1969-1999). */
  lemma StorageOrderChronological(a: string, b: string)
    requires IsStorageDate(a) && IsStorageDate(b)
    requires ParseStorage(a).value.year >= 2000 <==> ParseStorage(b).value.year >= 2000
    ensures StrLe(a, b) <==> DateLe(ParseStorage(a).value, ParseStorage(b).value)
  {
    var da, db := ParseStorage(a).value, ParseStorage(b).value;
    ParseStorageExact(a);
    ParseStorageExact(b);
    var ya, yb := Pad2(da.year % 100), Pad2(db.year % 100);
    var ma, mb := Pad2(da.month), Pad2(db.month);
    var ea, eb := Pad2(da.day), Pad2(db.day);
    assert a == ya + (ma + ea) && b == yb + (mb + eb) by {
      FormatFields(da);
      FormatFields(db);
    }
    StrLeConcat(ya, ma + ea, yb, mb + eb);
    StrLeConcat(ma, ea, mb, eb);
    Pad2Order(da.year % 100, db.year % 100);
    Pad2Order(da.month, db.month);
    Pad2Order(da.day, db.day);
    Pad2Digits(da.year % 100);
    Pad2Digits(db.year % 100);
    Pad2Digits(da.month);
    Pad2Digits(db.month);
    assert ya == yb <==> da.year == db.year;
    assert ma == mb <==> da.month == db.month;
  }

  /** Across the pivot the text order is not the date order: 12-31-99 (1999) is
      stored as 991231 and lists after 01-01-00 (2000), stored as 000101. */
  lemma StorageOrderWrapsAtPivot()
    ensures ToStorage("12-31-99") == "991231" && ToStorage("01-01-00") == "000101"
    ensures DateLe(ParseUser("12-31-99").value, ParseUser("01-01-00").value)
    ensures !StrLe("991231", "000101")
  {
    assert ParseUser("12-31-99") == Some(Date(1999, 12, 31));
    assert ParseUser("01-01-00") == Some(Date(2000, 1, 1));
  }
}
