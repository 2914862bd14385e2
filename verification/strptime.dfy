/**
 The two date/time checks of the appointments service: `datetime.strptime(s, '%Y-%m-%d')`
 and `datetime.strptime(s, '%H:%M')`, as CPython's `_strptime` performs them.

 CPython turns each directive into a regular-expression group (tried alternative by
 alternative), matches it at the start of the string, refuses the string when input is
 left over ("unconverted data remains"), and finally builds a `datetime`, which refuses
 year 0 and a day past the end of its month.

 `IsDate` and `IsTime` follow that grammar directive by directive. `RendersCalendarDate`
 and `RendersClockTime` say the same thing in calendar terms (which dates and times
 exist, and in which spellings strptime takes them); the lemmas at the end prove the two
 views agree in both directions.
 */
module Strptime {

  predicate IsDigit(c: char) {
    '0' <= c <= '9'
  }

  function DigitValue(c: char): (n: int)
    requires IsDigit(c)
    ensures 0 <= n <= 9
  {
    c as int - '0' as int
  }

  function DigitChar(n: int): (c: char)
    requires 0 <= n <= 9
    ensures IsDigit(c) && DigitValue(c) == n
  {
    ('0' as int + n) as char
  }

  // ---------------------------------------------------------------------------
  // The directives, one regular-expression group each
  // ---------------------------------------------------------------------------

  /** %Y: four digits. */
  predicate YearText(t: string) {
    |t| == 4 && IsDigit(t[0]) && IsDigit(t[1]) && IsDigit(t[2]) && IsDigit(t[3])
  }

  function YearValue(t: string): (y: int)
    requires YearText(t)
    ensures 0 <= y <= 9999
  {
    DigitValue(t[0]) * 1000 + DigitValue(t[1]) * 100 + DigitValue(t[2]) * 10 + DigitValue(t[3])
  }

  /** %m: `1[0-2]|0[1-9]|[1-9]`. */
  predicate MonthText(t: string) {
    || (|t| == 2 && t[0] == '1' && '0' <= t[1] <= '2')
    || (|t| == 2 && t[0] == '0' && '1' <= t[1] <= '9')
    || (|t| == 1 && '1' <= t[0] <= '9')
  }

  /** %d: `3[01]|[12]\d|0[1-9]|[1-9]| [1-9]` (the last form is the space-padded day). */
  predicate DayText(t: string) {
    || (|t| == 2 && t[0] == '3' && '0' <= t[1] <= '1')
    || (|t| == 2 && '1' <= t[0] <= '2' && IsDigit(t[1]))
    || (|t| == 2 && t[0] == '0' && '1' <= t[1] <= '9')
    || (|t| == 1 && '1' <= t[0] <= '9')
    || (|t| == 2 && t[0] == ' ' && '1' <= t[1] <= '9')
  }

  /** %H: `2[0-3]|[0-1]\d|\d`. */
  predicate HourText(t: string) {
    || (|t| == 2 && t[0] == '2' && '0' <= t[1] <= '3')
    || (|t| == 2 && '0' <= t[0] <= '1' && IsDigit(t[1]))
    || (|t| == 1 && IsDigit(t[0]))
  }

  /** %M: `[0-5]\d|\d`. */
  predicate MinuteText(t: string) {
    || (|t| == 2 && '0' <= t[0] <= '5' && IsDigit(t[1]))
    || (|t| == 1 && IsDigit(t[0]))
  }

  /** A one- or two-character field: digits, or a space followed by a digit. */
  predicate FieldText(t: string) {
    || (|t| == 1 && IsDigit(t[0]))
    || (|t| == 2 && (IsDigit(t[0]) || t[0] == ' ') && IsDigit(t[1]))
  }

  /** `int(t)` on a matched field; `int` ignores the leading space of a padded day. */
  function FieldValue(t: string): (n: int)
    requires FieldText(t)
    ensures 0 <= n <= 99
  {
    if |t| == 1 then DigitValue(t[0])
    else if t[0] == ' ' then DigitValue(t[1])
    else DigitValue(t[0]) * 10 + DigitValue(t[1])
  }

  // ---------------------------------------------------------------------------
  // The calendar check done when the datetime is built
  // ---------------------------------------------------------------------------

  predicate IsLeapYear(y: int) {
    y % 4 == 0 && (y % 100 != 0 || y % 400 == 0)
  }

  function DaysInMonth(y: int, m: int): (n: int)
    requires 1 <= m <= 12
    ensures 28 <= n <= 31
  {
    if m == 2 then (if IsLeapYear(y) then 29 else 28)
    else if m == 4 || m == 6 || m == 9 || m == 11 then 30
    else 31
  }

  /** `datetime(y, m, d)` exists: MINYEAR is 1, MAXYEAR is 9999. */
  predicate CalendarDate(y: int, m: int, d: int) {
    1 <= y <= 9999 && 1 <= m <= 12 && 1 <= d <= DaysInMonth(y, m)
  }

  // ---------------------------------------------------------------------------
  // The two formats
  // ---------------------------------------------------------------------------

  /**
   `%Y-%m-%d` matched with the month ending at index `k` (the month group is the two
   characters before the second '-' when k == 7, one character when k == 6) and the day
   group running to the end of the string.
   */
  predicate DateMatchAt(s: string, k: int) {
    && (k == 6 || k == 7)
    && k < |s|
    && YearText(s[..4])
    && s[4] == '-'
    && MonthText(s[5..k])
    && s[k] == '-'
    && DayText(s[k + 1..])
  }

  function DateFieldsAt(s: string, k: int): (int, int, int)
    requires DateMatchAt(s, k)
  {
    (YearValue(s[..4]), FieldValue(s[5..k]), FieldValue(s[k + 1..]))
  }

  /**
   `datetime.strptime(s, '%Y-%m-%d')` returns rather than raising ValueError.

   CPython takes the first match of the regular expression and refuses the string when
   input is left over. That first match consumes the whole string exactly when some split
   below does:
   - the month is followed by '-', which no month alternative contains, so the matcher
     backtracks to the single split whose month group ends right before that '-';
   - the day group is last. Each two-character alternative of `%d` (`3[01]`, `[12]\d`,
     `0[1-9]`) is tried before the one-character `[1-9]`, so a two-character day that
     matches is consumed whole rather than cut to one character;
   - `[1-9]` and ` [1-9]` never match at the same place, since they start with different
     characters.
   */
  predicate IsDate(s: string)
    ensures IsDate(s) ==> 8 <= |s| <= 10 && YearText(s[..4]) && s[4] == '-'
  {
    || (DateMatchAt(s, 7) && var (y, m, d) := DateFieldsAt(s, 7); CalendarDate(y, m, d))
    || (DateMatchAt(s, 6) && var (y, m, d) := DateFieldsAt(s, 6); CalendarDate(y, m, d))
  }

  /** `%H:%M` matched with the hour ending at index `k`. */
  predicate TimeMatchAt(s: string, k: int) {
    && (k == 1 || k == 2)
    && k < |s|
    && HourText(s[..k])
    && s[k] == ':'
    && MinuteText(s[k + 1..])
  }

  /**
   `datetime.strptime(s, '%H:%M')` returns rather than raising ValueError.

   The same argument as for `IsDate` applies here:
   - the ':' after the hour fixes the split;
   - the minute group is last, and its two-character alternative `[0-5]\d` is tried
     before the one-character `\d`;
   - so the first match leaves nothing over exactly when some split consumes the whole
     string.
   */
  predicate IsTime(s: string)
    ensures IsTime(s) ==> 3 <= |s| <= 5 && (s[1] == ':' || s[2] == ':')
  {
    TimeMatchAt(s, 2) || TimeMatchAt(s, 1)
  }

  // ---------------------------------------------------------------------------
  // The same sets of strings described in calendar terms
  // ---------------------------------------------------------------------------

  function Pad2(n: int): (t: string)
    requires 0 <= n <= 99
    ensures |t| == 2
  {
    [DigitChar(n / 10), DigitChar(n % 10)]
  }

  function Pad4(n: int): (t: string)
    requires 0 <= n <= 9999
    ensures |t| == 4
  {
    Pad2(n / 100) + Pad2(n % 100)
  }

  /** The spellings of a month, hour or minute: zero-padded, or a single digit below ten. */
  function NumberForms(n: int): set<string>
    requires 0 <= n <= 99
  {
    if n < 10 then {Pad2(n), [DigitChar(n)]} else {Pad2(n)}
  }

  /** The spellings of a day: those of a number, plus the space-padded one below ten. */
  function DayForms(d: int): set<string>
    requires 0 <= d <= 99
  {
    if d < 10 then NumberForms(d) + {[' ', DigitChar(d)]} else NumberForms(d)
  }

  function DateForms(y: int, m: int, d: int): set<string>
    requires CalendarDate(y, m, d)
  {
    set mt, dt | mt in NumberForms(m) && dt in DayForms(d) :: Pad4(y) + "-" + mt + "-" + dt
  }

  function TimeForms(h: int, mi: int): set<string>
    requires 0 <= h <= 23 && 0 <= mi <= 59
  {
    set ht, mt | ht in NumberForms(h) && mt in NumberForms(mi) :: ht + ":" + mt
  }

  /** `s` spells a date that exists in the proleptic Gregorian calendar. */
  ghost predicate RendersCalendarDate(s: string) {
    exists y, m, d :: CalendarDate(y, m, d) && s in DateForms(y, m, d)
  }

  /** `s` spells a time of day on the 24-hour clock. */
  ghost predicate RendersClockTime(s: string) {
    exists h, mi :: 0 <= h <= 23 && 0 <= mi <= 59 && s in TimeForms(h, mi)
  }

  // ---------------------------------------------------------------------------
  // Field-level agreement
  // ---------------------------------------------------------------------------

  lemma Pad2Digits(n: int)
    requires 0 <= n <= 99
    ensures FieldText(Pad2(n)) && FieldValue(Pad2(n)) == n
    ensures Pad2(n)[0] == DigitChar(n / 10) && Pad2(n)[1] == DigitChar(n % 10)
  {
  }

  lemma YearTextPad4(y: int)
    requires 0 <= y <= 9999
    ensures YearText(Pad4(y)) && YearValue(Pad4(y)) == y
  {
    Pad2Digits(y / 100);
    Pad2Digits(y % 100);
  }

  lemma YearTextRoundTrip(t: string)
    requires YearText(t)
    ensures Pad4(YearValue(t)) == t
  {
    var y := YearValue(t);
    assert y / 100 == DigitValue(t[0]) * 10 + DigitValue(t[1]);
    assert y % 100 == DigitValue(t[2]) * 10 + DigitValue(t[3]);
  }

  lemma DigitRoundTrip(c: char)
    requires IsDigit(c)
    ensures DigitChar(DigitValue(c)) == c
  {
  }

  /** A field written in digits only is one of the spellings of its value. */
  lemma DigitFieldForms(t: string)
    requires FieldText(t) && IsDigit(t[0])
    ensures t in NumberForms(FieldValue(t))
  {
    DigitRoundTrip(t[0]);
    if |t| == 1 {
      assert t == [DigitChar(FieldValue(t))];
    } else {
      var a, b := DigitValue(t[0]), DigitValue(t[1]);
      var n := a * 10 + b;
      assert n / 10 == a && n % 10 == b;
      DigitRoundTrip(t[1]);
      assert t == Pad2(n);
    }
  }

  lemma MonthTextForms(t: string)
    requires MonthText(t)
    ensures FieldText(t) && 1 <= FieldValue(t) <= 12 && t in NumberForms(FieldValue(t))
  {
    DigitFieldForms(t);
  }

  lemma FormsMonthText(m: int, t: string)
    requires 1 <= m <= 12 && t in NumberForms(m)
    ensures MonthText(t) && FieldText(t) && FieldValue(t) == m
  {
    Pad2Digits(m);
  }

  lemma DayTextForms(t: string)
    requires DayText(t)
    ensures FieldText(t) && 1 <= FieldValue(t) <= 31 && t in DayForms(FieldValue(t))
  {
    if t[0] == ' ' {
      DigitRoundTrip(t[1]);
      assert t == [' ', DigitChar(FieldValue(t))];
    } else {
      DigitFieldForms(t);
    }
  }

  lemma FormsDayText(d: int, t: string)
    requires 1 <= d <= 31 && t in DayForms(d)
    ensures DayText(t) && FieldText(t) && FieldValue(t) == d
  {
    Pad2Digits(d);
  }

  lemma HourTextForms(t: string)
    requires HourText(t)
    ensures FieldText(t) && 0 <= FieldValue(t) <= 23 && t in NumberForms(FieldValue(t))
  {
    DigitFieldForms(t);
  }

  lemma FormsHourText(h: int, t: string)
    requires 0 <= h <= 23 && t in NumberForms(h)
    ensures HourText(t) && FieldText(t) && FieldValue(t) == h
  {
    Pad2Digits(h);
  }

  lemma MinuteTextForms(t: string)
    requires MinuteText(t)
    ensures FieldText(t) && 0 <= FieldValue(t) <= 59 && t in NumberForms(FieldValue(t))
  {
    DigitFieldForms(t);
  }

  lemma FormsMinuteText(mi: int, t: string)
    requires 0 <= mi <= 59 && t in NumberForms(mi)
    ensures MinuteText(t) && FieldText(t) && FieldValue(t) == mi
  {
    Pad2Digits(mi);
  }

  /** Where the pieces of a spelled-out date sit in the string. */
  lemma DateLayout(ys: string, mt: string, dt: string)
    requires |ys| == 4 && 1 <= |mt| <= 2
    ensures var s := ys + "-" + mt + "-" + dt; var k := 5 + |mt|;
      && k < |s| && s[..4] == ys && s[4] == '-' && s[5..k] == mt && s[k] == '-' && s[k + 1..] == dt
  {
  }

  /** Where the pieces of a spelled-out time sit in the string. */
  lemma TimeLayout(ht: string, mt: string)
    requires 1 <= |ht| <= 2
    ensures var s := ht + ":" + mt; var k := |ht|;
      && k < |s| && s[..k] == ht && s[k] == ':' && s[k + 1..] == mt
  {
  }

  // ---------------------------------------------------------------------------
  // The two views agree
  // ---------------------------------------------------------------------------

  /** Everything strptime accepts as `%Y-%m-%d` spells a real calendar date. */
  lemma {:induction false} IsDateRendersCalendarDate(s: string)
    requires IsDate(s)
    ensures RendersCalendarDate(s)
  {
    var k := if DateMatchAt(s, 7) && var (y, m, d) := DateFieldsAt(s, 7); CalendarDate(y, m, d) then 7 else 6;
    var ys, mt, dt := s[..4], s[5..k], s[k + 1..];
    var y, m, d := YearValue(ys), FieldValue(mt), FieldValue(dt);
    assert CalendarDate(y, m, d);
    YearTextRoundTrip(ys);
    MonthTextForms(mt);
    DayTextForms(dt);
    assert s == Pad4(y) + "-" + mt + "-" + dt;
    assert s in DateForms(y, m, d);
  }

  /** Every spelling of a real calendar date is accepted by strptime as `%Y-%m-%d`. */
  lemma {:induction false} SpelledDateIsDate(y: int, m: int, d: int, mt: string, dt: string)
    requires CalendarDate(y, m, d) && mt in NumberForms(m) && dt in DayForms(d)
    ensures IsDate(Pad4(y) + "-" + mt + "-" + dt)
  {
    var s := Pad4(y) + "-" + mt + "-" + dt;
    YearTextPad4(y);
    FormsMonthText(m, mt);
    FormsDayText(d, dt);
    DateLayout(Pad4(y), mt, dt);
    var k := 5 + |mt|;
    assert DateMatchAt(s, k);
    assert DateFieldsAt(s, k) == (y, m, d);
  }

  lemma {:induction false} RendersCalendarDateIsDate(s: string)
    requires RendersCalendarDate(s)
    ensures IsDate(s)
  {
    var y, m, d :| CalendarDate(y, m, d) && s in DateForms(y, m, d);
    var mt, dt :| mt in NumberForms(m) && dt in DayForms(d) && s == Pad4(y) + "-" + mt + "-" + dt;
    SpelledDateIsDate(y, m, d, mt, dt);
  }

  lemma IsDateIffRendersCalendarDate(s: string)
    ensures IsDate(s) <==> RendersCalendarDate(s)
  {
    if IsDate(s) {
      IsDateRendersCalendarDate(s);
    }
    if RendersCalendarDate(s) {
      RendersCalendarDateIsDate(s);
    }
  }

  /** Everything strptime accepts as `%H:%M` spells a time on the 24-hour clock. */
  lemma {:induction false} IsTimeRendersClockTime(s: string)
    requires IsTime(s)
    ensures RendersClockTime(s)
  {
    var k := if TimeMatchAt(s, 2) then 2 else 1;
    var ht, mt := s[..k], s[k + 1..];
    HourTextForms(ht);
    MinuteTextForms(mt);
    assert s == ht + ":" + mt;
    assert s in TimeForms(FieldValue(ht), FieldValue(mt));
  }

  /** Every spelling of a 24-hour clock time is accepted by strptime as `%H:%M`. */
  lemma {:induction false} SpelledTimeIsTime(h: int, mi: int, ht: string, mt: string)
    requires 0 <= h <= 23 && 0 <= mi <= 59 && ht in NumberForms(h) && mt in NumberForms(mi)
    ensures IsTime(ht + ":" + mt)
  {
    FormsHourText(h, ht);
    FormsMinuteText(mi, mt);
    TimeLayout(ht, mt);
    assert TimeMatchAt(ht + ":" + mt, |ht|);
  }

  lemma {:induction false} RendersClockTimeIsTime(s: string)
    requires RendersClockTime(s)
    ensures IsTime(s)
  {
    var h, mi :| 0 <= h <= 23 && 0 <= mi <= 59 && s in TimeForms(h, mi);
    var ht, mt :| ht in NumberForms(h) && mt in NumberForms(mi) && s == ht + ":" + mt;
    SpelledTimeIsTime(h, mi, ht, mt);
  }

  lemma IsTimeIffRendersClockTime(s: string)
    ensures IsTime(s) <==> RendersClockTime(s)
  {
    if IsTime(s) {
      IsTimeRendersClockTime(s);
    }
    if RendersClockTime(s) {
      RendersClockTimeIsTime(s);
    }
  }

  // ---------------------------------------------------------------------------
  // Consequences
  // ---------------------------------------------------------------------------

  /** The ISO spelling of every real date is accepted. */
  lemma IsoDateAccepted(y: int, m: int, d: int)
    requires CalendarDate(y, m, d)
    ensures IsDate(Pad4(y) + "-" + Pad2(m) + "-" + Pad2(d))
  {
    SpelledDateIsDate(y, m, d, Pad2(m), Pad2(d));
  }

  /** An accepted date or time fits its column: `String(10)` and `String(5)`. */
  lemma AcceptedFitColumns(s: string)
    ensures IsDate(s) ==> 8 <= |s| <= 10
    ensures IsTime(s) ==> 3 <= |s| <= 5
  {
  }

  /** February 29th is accepted exactly in leap years. */
  lemma LeapDay(y: int)
    requires 1 <= y <= 9999
    ensures IsDate(Pad4(y) + "-02-29") <==> IsLeapYear(y)
  {
    var s := Pad4(y) + "-02-29";
    YearTextPad4(y);
    DateLayout(Pad4(y), "02", "29");
    assert s == Pad4(y) + "-" + "02" + "-" + "29";
    assert !DateMatchAt(s, 6);
  }

  /** Dates the service's callers are told about, accepted. */
  lemma AcceptedDates()
    ensures IsDate("2025-03-15") && IsDate("2024-02-29") && IsDate("2000-02-29")
    ensures IsDate("2025-3-5") && IsDate("2025-03- 5")
  {
    assert "2025-03-15"[..4] == "2025" && "2025-03-15"[5..7] == "03" && "2025-03-15"[8..] == "15";
    assert "2024-02-29"[..4] == "2024" && "2024-02-29"[5..7] == "02" && "2024-02-29"[8..] == "29";
    assert "2000-02-29"[..4] == "2000" && "2000-02-29"[5..7] == "02" && "2000-02-29"[8..] == "29";
    assert "2025-3-5"[..4] == "2025" && "2025-3-5"[5..6] == "3" && "2025-3-5"[7..] == "5";
    assert "2025-03- 5"[..4] == "2025" && "2025-03- 5"[5..7] == "03" && "2025-03- 5"[8..] == " 5";
  }

  /** A day past the end of its month is refused, the Gregorian century rule included. */
  lemma RefusedCalendarDates()
    ensures !IsDate("2025-02-30") && !IsDate("1900-02-29") && !IsDate("0000-01-01")
  {
    assert "2025-02-30"[..4] == "2025" && "2025-02-30"[5..7] == "02" && "2025-02-30"[8..] == "30";
    assert "1900-02-29"[..4] == "1900" && "1900-02-29"[5..7] == "02" && "1900-02-29"[8..] == "29";
    assert "0000-01-01"[..4] == "0000";
  }

  /** Strings of the wrong shape are refused. */
  lemma RefusedDateShapes()
    ensures !IsDate("15-03-2025") && !IsDate("2025-03-15 ") && !IsDate("2025-13-01")
  {
    assert "15-03-2025"[4] == '3';
    assert "2025-03-15 "[8..] == "15 ";
    assert "2025-13-01"[5..7] == "13" && "2025-13-01"[6] == '3';
  }

  lemma AcceptedTimes()
    ensures IsTime("09:30") && IsTime("23:59") && IsTime("9:5") && IsTime("00:00")
  {
    assert "09:30"[..2] == "09" && "09:30"[3..] == "30";
    assert "23:59"[..2] == "23" && "23:59"[3..] == "59";
    assert "9:5"[..1] == "9" && "9:5"[2..] == "5";
    assert "00:00"[..2] == "00" && "00:00"[3..] == "00";
  }

  lemma RefusedTimes()
    ensures !IsTime("24:00") && !IsTime("09:60") && !IsTime("09:30:00") && !IsTime("0930")
  {
    assert "24:00"[..2] == "24" && "24:00"[1] == '4';
    assert "09:60"[3..] == "60" && "09:60"[1] == '9';
    assert "09:30:00"[3..] == "30:00" && "09:30:00"[1] == '9';
    assert "0930"[2] == '3' && "0930"[1] == '9';
  }
}
