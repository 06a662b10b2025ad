/** The two date formats of the mail automation, as Python's `strptime` and
    `strftime` treat them:
    - '%a, %d %b %Y %H:%M:%S', the start of an RFC 2822 `Date` header, read when
      messages are ingested;
    - '%d/%m/%Y %H:%M:%S', the stored form, written at ingestion and read back by
      the date conditions of the rules.

    `strptime` turns a format into a regular expression and requires it to
    match the whole input. Its numeric directives admit one or two digits
    (%Y exactly four) within a range, each space of the format stands for one or
    more whitespace characters, and %a and %b are English abbreviations matched
    without regard to case. Because every numeric field here is followed by a
    non-digit or by the end of the input, reading two digits when there are two
    and checking the range accepts exactly the strings the regular expression
    accepts. The fields must then form a valid `datetime`. */
module DateFormat {
  import opened Wrappers
  import opened Text
  import opened Calendar

  /** A field read from position `i` on: its value and the position after it. */
  datatype Field = Field(value: int, next: nat)

  /** One or two digits at position `i` whose value lies in [lo, hi]. */
  function Number(s: string, i: nat, lo: int, hi: int): (r: Option<Field>)
    ensures r.Some? ==> i < r.value.next <= |s| && lo <= r.value.value <= hi
  {
    if i < |s| && IsDigit(s[i]) then
      var two := i + 1 < |s| && IsDigit(s[i + 1]);
      var v := if two then 10 * DigitValue(s[i]) + DigitValue(s[i + 1]) else DigitValue(s[i]);
      if lo <= v <= hi then Some(Field(v, if two then i + 2 else i + 1)) else None
    else None
  }

  /** Exactly four digits at position `i` (%Y). */
  function Year(s: string, i: nat): (r: Option<Field>)
    ensures r.Some? ==> r.value.next == i + 4 <= |s| && 0 <= r.value.value < 10000
  {
    if i + 4 <= |s| && IsDigit(s[i]) && IsDigit(s[i + 1]) && IsDigit(s[i + 2]) && IsDigit(s[i + 3]) then
      Some(Field(1000 * DigitValue(s[i]) + 100 * DigitValue(s[i + 1])
                 + 10 * DigitValue(s[i + 2]) + DigitValue(s[i + 3]), i + 4))
    else None
  }

  /** The literal character `c` at position `i`. */
  function Literal(s: string, i: nat, c: char): (r: Option<nat>)
    ensures r.Some? ==> r.value == i + 1 <= |s|
  {
    if i < |s| && s[i] == c then Some(i + 1) else None
  }

  /** The position after the run of whitespace that starts at `i`. */
  function SkipSpaces(s: string, i: nat): (j: nat)
    requires i <= |s|
    ensures i <= j <= |s|
    ensures forall k :: i <= k < j ==> IsSpace(s[k])
    ensures j == |s| || !IsSpace(s[j])
    decreases |s| - i
  {
    if i < |s| && IsSpace(s[i]) then SkipSpaces(s, i + 1) else i
  }

  /** One or more whitespace characters at position `i` (a space of the format). */
  function Spaces(s: string, i: nat): (r: Option<nat>)
    ensures r.Some? ==> i < r.value <= |s|
  {
    if i < |s| && IsSpace(s[i]) then Some(SkipSpaces(s, i + 1)) else None
  }

  /** Hours, minutes and seconds of the day and the position after them. */
  datatype Clock = Clock(hour: int, minute: int, second: int, next: nat)

  /** '%H:%M:%S' at position `i`. %S admits 60 and 61, which the `datetime`
      constructor rejects later. */
  function TimeOfDay(s: string, i: nat): (r: Option<Clock>)
    ensures r.Some? ==> r.value.next <= |s|
  {
    var h :- Number(s, i, 0, 23);
    var i1 :- Literal(s, h.next, ':');
    var m :- Number(s, i1, 0, 59);
    var i2 :- Literal(s, m.next, ':');
    var sec :- Number(s, i2, 0, 61);
    Some(Clock(h.value, m.value, sec.value, sec.next))
  }

  /** The `datetime` the fields name, when the whole input was consumed and the
      constructor accepts them. */
  function Assemble(s: string, year: int, month: int, day: int, t: Clock): (r: Option<DateTime>)
    ensures r.Some? ==> r.value.Valid() && r.value.microsecond == 0
  {
    var dt := DateTime(year, month, day, t.hour, t.minute, t.second, 0);
    if t.next == |s| && dt.Valid() then Some(dt) else None
  }

  /** %d at the very start of the input: its regular expression also admits a
      space followed by a single non-zero digit. */
  function LeadingDay(s: string): (r: Option<Field>)
    ensures r.Some? ==> r.value.next <= |s| && 1 <= r.value.value <= 31
  {
    if 2 <= |s| && s[0] == ' ' && '1' <= s[1] <= '9' then Some(Field(DigitValue(s[1]), 2))
    else Number(s, 0, 1, 31)
  }

  /** `datetime.strptime(s, '%d/%m/%Y %H:%M:%S')`; `None` when it raises. */
  function ParseStored(s: string): (r: Option<DateTime>)
    ensures r.Some? ==> r.value.Valid() && r.value.microsecond == 0
  {
    var d :- LeadingDay(s);
    var i1 :- Literal(s, d.next, '/');
    var m :- Number(s, i1, 1, 12);
    var i2 :- Literal(s, m.next, '/');
    var y :- Year(s, i2);
    var i3 :- Spaces(s, y.next);
    var t :- TimeOfDay(s, i3);
    Assemble(s, y.value, m.value, d.value, t)
  }

  const WEEKDAYS: seq<string> := ["mon", "tue", "wed", "thu", "fri", "sat", "sun"]
  const MONTHS: seq<string> :=
    ["jan", "feb", "mar", "apr", "may", "jun", "jul", "aug", "sep", "oct", "nov", "dec"]

  /** The position of the three-letter name at `s[i..i+3]` in `names`, ignoring
      case. */
  function NameIndex(s: string, i: nat, names: seq<string>): (r: Option<nat>)
    ensures r.Some? ==> i + 3 <= |s| && r.value < |names| && Lower(s[i..i + 3]) == names[r.value]
  {
    if i + 3 <= |s| then FindName(Lower(s[i..i + 3]), names, 0) else None
  }

  function FindName(key: string, names: seq<string>, k: nat): (r: Option<nat>)
    requires k <= |names|
    ensures r.Some? ==> k <= r.value < |names| && names[r.value] == key
    decreases |names| - k
  {
    if k == |names| then None
    else if names[k] == key then Some(k)
    else FindName(key, names, k + 1)
  }

  /** `datetime.strptime(s, '%a, %d %b %Y %H:%M:%S')`; `None` when it raises.
      The weekday is read but, as in `strptime`, not checked against the date. */
  function ParseHeaderDate(s: string): (r: Option<DateTime>)
    ensures r.Some? ==> r.value.Valid() && r.value.microsecond == 0
  {
    var _ :- NameIndex(s, 0, WEEKDAYS);
    var i1 :- Literal(s, 3, ',');
    var i2 :- Spaces(s, i1);
    var d :- Number(s, i2, 1, 31);
    var i3 :- Spaces(s, d.next);
    var m :- NameIndex(s, i3, MONTHS);
    var i4 :- Spaces(s, i3 + 3);
    var y :- Year(s, i4);
    var i5 :- Spaces(s, y.next);
    var t :- TimeOfDay(s, i5);
    Assemble(s, y.value, m + 1, d.value, t)
  }

  /** Two digits with a leading zero, as strftime writes %d, %m, %H, %M, %S. */
  function Pad2(n: int): (s: string)
    requires 0 <= n < 100
    ensures |s| == 2
  {
    [DigitChar(n / 10), DigitChar(n % 10)]
  }

  /** Four digits with leading zeros, as strftime writes %Y. */
  function Pad4(n: int): (s: string)
    requires 0 <= n < 10000
    ensures |s| == 4
  {
    [DigitChar(n / 1000), DigitChar(n / 100 % 10), DigitChar(n / 10 % 10), DigitChar(n % 10)]
  }

  /** `dt.strftime('%d/%m/%Y %H:%M:%S')`. */
  function FormatStored(dt: DateTime): (s: string)
    requires dt.Valid()
    ensures |s| == 19
  {
    Pad2(dt.day) + "/" + Pad2(dt.month) + "/" + Pad4(dt.year) + " "
      + Pad2(dt.hour) + ":" + Pad2(dt.minute) + ":" + Pad2(dt.second)
  }

  /** The two digits `Pad2` writes read back as the number, when a non-digit
      or the end of the input follows them. */
  lemma ReadPad2(s: string, i: nat, n: int, lo: int, hi: int)
    requires lo <= n <= hi && 0 <= n < 100 && i + 2 <= |s|
    requires s[i] == DigitChar(n / 10) && s[i + 1] == DigitChar(n % 10)
    requires i + 2 == |s| || !IsDigit(s[i + 2])
    ensures Number(s, i, lo, hi) == Some(Field(n, i + 2))
  {
  }

  lemma ReadPad4(s: string, i: nat, n: int)
    requires 0 <= n < 10000 && i + 4 <= |s|
    requires s[i] == DigitChar(n / 1000) && s[i + 1] == DigitChar(n / 100 % 10)
    requires s[i + 2] == DigitChar(n / 10 % 10) && s[i + 3] == DigitChar(n % 10)
    ensures Year(s, i) == Some(Field(n, i + 4))
  {
    var hundreds, tens := n / 100, n / 10;
    assert hundreds == 10 * (n / 1000) + hundreds % 10;
    assert tens == 10 * hundreds + tens % 10;
    assert n == 10 * tens + n % 10;
  }

  /** A header date that parses starts with a day name, not a digit. */
  lemma HeaderDateStartsWithName(s: string)
    requires ParseHeaderDate(s).Some?
    ensures |s| >= 3 && !IsDigit(s[0])
  {
    DayNameNotDigit(s);
  }

  lemma DayNameNotDigit(s: string)
    requires NameIndex(s, 0, WEEKDAYS).Some?
    ensures |s| >= 3 && !IsDigit(s[0])
  {
    var k := NameIndex(s, 0, WEEKDAYS).value;
    assert Lower(s[0..3])[0] == LowerChar(s[0]);
    assert WEEKDAYS[k][0] in "mtwfs";
  }

  /** Where `FormatStored` puts each digit and separator. */
  lemma FormatStoredLayout(dt: DateTime)
    requires dt.Valid()
    ensures var s := FormatStored(dt);
      && s[0] == DigitChar(dt.day / 10) && s[1] == DigitChar(dt.day % 10) && s[2] == '/'
      && s[3] == DigitChar(dt.month / 10) && s[4] == DigitChar(dt.month % 10) && s[5] == '/'
      && s[6] == DigitChar(dt.year / 1000) && s[7] == DigitChar(dt.year / 100 % 10)
      && s[8] == DigitChar(dt.year / 10 % 10) && s[9] == DigitChar(dt.year % 10) && s[10] == ' '
      && s[11] == DigitChar(dt.hour / 10) && s[12] == DigitChar(dt.hour % 10) && s[13] == ':'
      && s[14] == DigitChar(dt.minute / 10) && s[15] == DigitChar(dt.minute % 10) && s[16] == ':'
      && s[17] == DigitChar(dt.second / 10) && s[18] == DigitChar(dt.second % 10)
  {
  }

  /** Reading back what `FormatStored` wrote gives the same date-time: the
      string ingestion stores is one the date conditions can parse. */
  lemma StoredRoundTrip(dt: DateTime)
    requires dt.Valid() && dt.microsecond == 0
    ensures ParseStored(FormatStored(dt)) == Some(dt)
  {
    var s := FormatStored(dt);
    FormatStoredLayout(dt);
    ReadPad2(s, 0, dt.day, 1, 31);
    assert LeadingDay(s) == Some(Field(dt.day, 2));
    ReadPad2(s, 3, dt.month, 1, 12);
    ReadPad4(s, 6, dt.year);
    assert Spaces(s, 10) == Some(11);
    ReadPad2(s, 11, dt.hour, 0, 23);
    ReadPad2(s, 14, dt.minute, 0, 59);
    ReadPad2(s, 17, dt.second, 0, 61);
    assert TimeOfDay(s, 11) == Some(Clock(dt.hour, dt.minute, dt.second, 19));
  }

  /** '%a, %d %b %Y %H:%M:%S' for `dt` with the weekday name `WEEKDAYS[k]`:
      the first 25 characters of an RFC 2822 `Date` header with a two-digit
      day (names in lower case, which `strptime` reads as it reads any case). */
  function HeaderText(dt: DateTime, k: nat): (s: string)
    requires dt.Valid() && k < 7
    ensures |s| == 25
  {
    WEEKDAYS[k] + ", " + Pad2(dt.day) + " " + MONTHS[dt.month - 1] + " " + Pad4(dt.year) + " "
      + Pad2(dt.hour) + ":" + Pad2(dt.minute) + ":" + Pad2(dt.second)
  }

  /** Where `HeaderText` puts the names, the day and the separators before
      the year. */
  predicate DayLayout(s: string, dt: DateTime, k: nat)
    requires dt.Valid() && k < 7
  {
    && |s| == 25
    && s[0..3] == WEEKDAYS[k] && s[3] == ',' && s[4] == ' '
    && s[5] == DigitChar(dt.day / 10) && s[6] == DigitChar(dt.day % 10) && s[7] == ' '
    && s[8..11] == MONTHS[dt.month - 1] && s[11] == ' '
  }

  /** Where `HeaderText` puts the digits of the year and the time. */
  predicate TimeLayout(s: string, dt: DateTime)
    requires dt.Valid()
  {
    && |s| == 25
    && s[12] == DigitChar(dt.year / 1000) && s[13] == DigitChar(dt.year / 100 % 10)
    && s[14] == DigitChar(dt.year / 10 % 10) && s[15] == DigitChar(dt.year % 10) && s[16] == ' '
    && s[17] == DigitChar(dt.hour / 10) && s[18] == DigitChar(dt.hour % 10) && s[19] == ':'
    && s[20] == DigitChar(dt.minute / 10) && s[21] == DigitChar(dt.minute % 10) && s[22] == ':'
    && s[23] == DigitChar(dt.second / 10) && s[24] == DigitChar(dt.second % 10)
  }

  lemma HeaderTextDayLayout(dt: DateTime, k: nat)
    requires dt.Valid() && k < 7
    ensures DayLayout(HeaderText(dt, k), dt, k)
  {
  }

  lemma HeaderTextTimeLayout(dt: DateTime, k: nat)
    requires dt.Valid() && k < 7
    ensures TimeLayout(HeaderText(dt, k), dt)
  {
  }

  /** A lower-case name that no earlier name equals is found at its own
      position. */
  lemma NameAt(s: string, i: nat, names: seq<string>, k: nat)
    requires k < |names| && i + 3 <= |s| && s[i..i + 3] == names[k]
    requires Lower(names[k]) == names[k]
    requires forall j :: 0 <= j < k ==> names[j] != names[k]
    ensures NameIndex(s, i, names) == Some(k)
  {
    FindNameFrom(names[k], names, 0, k);
  }

  lemma {:induction false} FindNameFrom(key: string, names: seq<string>, j: nat, k: nat)
    requires j <= k < |names| && names[k] == key
    requires forall l :: j <= l < k ==> names[l] != key
    ensures FindName(key, names, j) == Some(k)
    decreases k - j
  {
    if j < k {
      FindNameFrom(key, names, j + 1, k);
    }
  }

  /** The day names are lower case and distinct. */
  lemma WeekdayName(k: nat)
    requires k < 7
    ensures Lower(WEEKDAYS[k]) == WEEKDAYS[k]
    ensures forall j :: 0 <= j < k ==> WEEKDAYS[j] != WEEKDAYS[k]
  {
    LowerWithoutCapitals(WEEKDAYS[k]);
  }

  /** The month names are lower case and distinct. */
  lemma MonthName(k: nat)
    requires k < 12
    ensures Lower(MONTHS[k]) == MONTHS[k]
    ensures forall j :: 0 <= j < k ==> MONTHS[j] != MONTHS[k]
    ensures |MONTHS[k]| == 3 && !IsSpace(MONTHS[k][0])
  {
    LowerWithoutCapitals(MONTHS[k]);
  }

  /** Reading back the header text of any date-time without microseconds
      gives that date-time, whatever the weekday name: `%d`, `%b`, `%Y`, `%H`,
      `%M` and `%S` are read from the places `HeaderText` writes them. */
  lemma HeaderRoundTrip(dt: DateTime, k: nat)
    requires dt.Valid() && dt.microsecond == 0 && k < 7
    ensures ParseHeaderDate(HeaderText(dt, k)) == Some(dt)
  {
    var s := HeaderText(dt, k);
    HeaderTextDayLayout(dt, k);
    HeaderTextTimeLayout(dt, k);
    ReadNamesAndDay(s, dt, k);
    ReadYearAndTime(s, dt);
  }

  /** The weekday, the day and the month are read from where `HeaderText`
      writes them. */
  lemma ReadNamesAndDay(s: string, dt: DateTime, k: nat)
    requires dt.Valid() && k < 7 && DayLayout(s, dt, k) && IsDigit(s[12])
    ensures && NameIndex(s, 0, WEEKDAYS) == Some(k) && Literal(s, 3, ',') == Some(4) && Spaces(s, 4) == Some(5)
      && Number(s, 5, 1, 31) == Some(Field(dt.day, 7)) && Spaces(s, 7) == Some(8)
      && NameIndex(s, 8, MONTHS) == Some(dt.month - 1) && Spaces(s, 11) == Some(12)
  {
    HeaderNames(s, k, dt.month - 1);
    ReadDay(s, dt.day);
  }

  /** A weekday name at position 0 and a month name at position 8 are read as
      themselves. */
  lemma HeaderNames(s: string, k: nat, month: nat)
    requires k < 7 && month < 12 && 11 <= |s|
    requires s[0..3] == WEEKDAYS[k] && s[8..11] == MONTHS[month]
    ensures NameIndex(s, 0, WEEKDAYS) == Some(k) && NameIndex(s, 8, MONTHS) == Some(month)
    ensures !IsSpace(s[8])
  {
    WeekdayName(k);
    NameAt(s, 0, WEEKDAYS, k);
    MonthName(month);
    NameAt(s, 8, MONTHS, month);
    assert s[8] == MONTHS[month][0];
  }

  /** The comma, the two-digit day and the spaces around the month are read
      from where `HeaderText` writes them. */
  lemma ReadDay(s: string, day: int)
    requires 1 <= day <= 31 && 13 <= |s|
    requires s[3] == ',' && s[4] == ' ' && s[5] == DigitChar(day / 10) && s[6] == DigitChar(day % 10)
    requires s[7] == ' ' && !IsSpace(s[8]) && s[11] == ' ' && IsDigit(s[12])
    ensures Literal(s, 3, ',') == Some(4) && Spaces(s, 4) == Some(5)
    ensures Number(s, 5, 1, 31) == Some(Field(day, 7)) && Spaces(s, 7) == Some(8) && Spaces(s, 11) == Some(12)
  {
    OneSpace(s, 4);
    ReadPad2(s, 5, day, 1, 31);
    OneSpace(s, 7);
    OneSpace(s, 11);
  }

  /** The year and the time of day are read from where `HeaderText` writes
      them. */
  lemma ReadYearAndTime(s: string, dt: DateTime)
    requires dt.Valid() && TimeLayout(s, dt)
    ensures && Year(s, 12) == Some(Field(dt.year, 16)) && Spaces(s, 16) == Some(17)
      && TimeOfDay(s, 17) == Some(Clock(dt.hour, dt.minute, dt.second, 25))
  {
    ReadPad4(s, 12, dt.year);
    OneSpace(s, 16);
    ReadPad2(s, 17, dt.hour, 0, 23);
    ReadPad2(s, 20, dt.minute, 0, 59);
    ReadPad2(s, 23, dt.second, 0, 61);
  }

  /** A single whitespace character followed by something else. */
  lemma OneSpace(s: string, i: nat)
    requires i + 1 < |s| && IsSpace(s[i]) && !IsSpace(s[i + 1])
    ensures Spaces(s, i) == Some(i + 1)
  {
  }

  /** The first 25 characters of the unit tests' header date. */
  const TEST_HEADER_DATE := "Wed, 26 Jun 2024 10:30:00"

  lemma TestHeaderDateNames()
    ensures NameIndex(TEST_HEADER_DATE, 0, WEEKDAYS) == Some(2) && NameIndex(TEST_HEADER_DATE, 8, MONTHS) == Some(5)
  {
    var p := TEST_HEADER_DATE;
    assert p[0..3] == "Wed" && Lower("Wed") == "wed";
    assert FindName("wed", WEEKDAYS, 0) == Some(2);
    assert p[8..11] == "Jun" && Lower("Jun") == "jun";
    assert FindName("jun", MONTHS, 0) == Some(5);
  }

  lemma TestHeaderDateNumbers()
    ensures Number(TEST_HEADER_DATE, 5, 1, 31) == Some(Field(26, 7))
    ensures Year(TEST_HEADER_DATE, 12) == Some(Field(2024, 16))
    ensures TimeOfDay(TEST_HEADER_DATE, 17) == Some(Clock(10, 30, 0, 25))
  {
    assert TEST_HEADER_DATE[12..16] == "2024";
  }

  lemma TestHeaderDateSeparators()
    ensures Literal(TEST_HEADER_DATE, 3, ',') == Some(4)
    ensures Spaces(TEST_HEADER_DATE, 4) == Some(5) && Spaces(TEST_HEADER_DATE, 7) == Some(8)
    ensures Spaces(TEST_HEADER_DATE, 11) == Some(12) && Spaces(TEST_HEADER_DATE, 16) == Some(17)
  {
    var p := TEST_HEADER_DATE;
    OneSpace(p, 4);
    OneSpace(p, 7);
    OneSpace(p, 11);
    OneSpace(p, 16);
  }

  /** 'Wed, 26 Jun 2024 10:30:00' is 26 June 2024, 10:30:00. */
  lemma TestHeaderDateParses()
    ensures ParseHeaderDate(TEST_HEADER_DATE) == Some(DateTime(2024, 6, 26, 10, 30, 0, 0))
  {
    TestHeaderDateNames();
    TestHeaderDateNumbers();
    TestHeaderDateSeparators();
  }

  /** 16:00:00 on 26 June 2024 in the stored form. */
  lemma TestStoredDate()
    ensures FormatStored(DateTime(2024, 6, 26, 16, 0, 0, 0)) == "26/06/2024 16:00:00"
  {
  }

  /** The same date with a single-digit day, cut to 25 characters: it ends in
      a space. */
  const SHORT_DAY_DATE := "Wed, 5 Jun 2024 10:30:00 "

  lemma ShortDayDateNames()
    ensures NameIndex(SHORT_DAY_DATE, 0, WEEKDAYS) == Some(2) && NameIndex(SHORT_DAY_DATE, 7, MONTHS) == Some(5)
  {
    var p := SHORT_DAY_DATE;
    assert p[0..3] == "Wed" && Lower("Wed") == "wed";
    assert FindName("wed", WEEKDAYS, 0) == Some(2);
    assert p[7..10] == "Jun" && Lower("Jun") == "jun";
    assert FindName("jun", MONTHS, 0) == Some(5);
  }

  lemma ShortDayDateNumbers()
    ensures Number(SHORT_DAY_DATE, 5, 1, 31) == Some(Field(5, 6))
    ensures Year(SHORT_DAY_DATE, 11) == Some(Field(2024, 15))
    ensures TimeOfDay(SHORT_DAY_DATE, 16) == Some(Clock(10, 30, 0, 24))
  {
    assert SHORT_DAY_DATE[11..15] == "2024";
  }

  lemma ShortDayDateSeparators()
    ensures Literal(SHORT_DAY_DATE, 3, ',') == Some(4)
    ensures Spaces(SHORT_DAY_DATE, 4) == Some(5) && Spaces(SHORT_DAY_DATE, 6) == Some(7)
    ensures Spaces(SHORT_DAY_DATE, 10) == Some(11) && Spaces(SHORT_DAY_DATE, 15) == Some(16)
  {
    var p := SHORT_DAY_DATE;
    OneSpace(p, 4);
    OneSpace(p, 6);
    OneSpace(p, 10);
    OneSpace(p, 15);
  }

  /** Every field of 'Wed, 5 Jun 2024 10:30:00 ' reads, but the trailing space
      is left over, so `strptime` raises. */
  lemma ShortDayDateRefused()
    ensures ParseHeaderDate(SHORT_DAY_DATE) == None
  {
    ShortDayDateNames();
    ShortDayDateNumbers();
    ShortDayDateSeparators();
  }
}
