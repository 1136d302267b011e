/**
 * The validated fields of a contact (dz12.py, classes Phone and Birthday):
 * the two validators and the property setters that run them on every
 * assignment. Assigning None always succeeds and skips validation.
 */
module Fields {
  import opened Wrappers
  import opened Errors
  import opened Text

  const PhoneMessage: string := "Phone number must be 10 digits"
  const BirthdayMessage: string := "Invalid birthday format. Use YYYY-MM-DD"

  // ---------------------------------------------------------------- phones

  /** Phone.validate_phone: exactly ten characters, all of them digits. */
  predicate ValidPhone(p: string) {
    |p| == 10 && IsDigits(p)
  }

  /** The setter of Phone.value. */
  function SetPhone(v: Option<string>): (r: Result<Option<string>, Error>)
    ensures r.Success? <==> (v.None? || ValidPhone(v.value))
    ensures r.Success? ==> r.value == v
    ensures r.Failure? ==> r.error == ValueError(PhoneMessage)
  {
    if v.Some? && !ValidPhone(v.value) then Failure(ValueError(PhoneMessage)) else Success(v)
  }

  function Pow10(w: nat): (p: nat)
    ensures p >= 1
  {
    if w == 0 then 1 else 10 * Pow10(w - 1)
  }

  function DigitChar(n: nat): (c: char)
    requires n <= 9
    ensures IsDigit(c) && DigitValue(c) == n
  {
    ('0' as int + n) as char
  }

  /** The last `w` decimal digits of `n`, zero-padded on the left. */
  function Padded(n: nat, w: nat): (s: string)
    ensures |s| == w && forall i :: 0 <= i < w ==> IsDigit(s[i])
  {
    if w == 0 then "" else Padded(n / 10, w - 1) + [DigitChar(n % 10)]
  }

  lemma {:induction false} DecimalOfPadded(n: nat, w: nat)
    requires n < Pow10(w)
    ensures DecimalValue(Padded(n, w)) == n
  {
    if w > 0 {
      var s := Padded(n, w);
      assert s[..|s| - 1] == Padded(n / 10, w - 1);
      DecimalOfPadded(n / 10, w - 1);
    }
  }

  lemma {:induction false} PaddedOfDecimal(s: string)
    requires forall i :: 0 <= i < |s| ==> IsDigit(s[i])
    ensures DecimalValue(s) < Pow10(|s|)
    ensures Padded(DecimalValue(s), |s|) == s
    decreases |s|
  {
    if s != [] {
      var init := s[..|s| - 1];
      PaddedOfDecimal(init);
      var n := DecimalValue(s);
      assert n == 10 * DecimalValue(init) + DigitValue(s[|s| - 1]);
      assert n / 10 == DecimalValue(init) && n % 10 == DigitValue(s[|s| - 1]);
      assert DigitChar(n % 10) == s[|s| - 1];
      assert s == init + [s[|s| - 1]];
    }
  }

  /**
   * The strings validate_phone accepts are exactly the ten-digit renderings
   * of the numbers below 10^10: every such rendering passes, and every
   * string that passes is the rendering of its own value.
   */
  lemma PhonesAreTenDigitNumbers(n: nat, p: string)
    ensures n < Pow10(10) ==> ValidPhone(Padded(n, 10)) && DecimalValue(Padded(n, 10)) == n
    ensures ValidPhone(p) ==> DecimalValue(p) < Pow10(10) && Padded(DecimalValue(p), 10) == p
  {
    if n < Pow10(10) {
      DecimalOfPadded(n, 10);
    }
    if ValidPhone(p) {
      PaddedOfDecimal(p);
    }
  }

  // ------------------------------------------------------------- birthdays

  datatype Date = Date(year: int, month: int, day: int)

  predicate IsLeapYear(y: int) {
    y % 4 == 0 && (y % 100 != 0 || y % 400 == 0)
  }

  function DaysInMonth(y: int, m: int): (n: int)
    requires 1 <= m <= 12
    ensures 28 <= n <= 31
  {
    if m == 2 then (if IsLeapYear(y) then 29 else 28)
    else if m == 4 || m == 6 || m == 9 || m == 11 then 30
    else 31
  }

  /** A date Python's `datetime` can represent (years 1 to 9999). */
  predicate IsCalendarDate(d: Date) {
    1 <= d.year <= 9999 && 1 <= d.month <= 12 && 1 <= d.day <= DaysInMonth(d.year, d.month)
  }

  /**
   * The `%m` directive of strptime, `1[0-2]|0[1-9]|[1-9]`, read at the start
   * of `t` and followed by the `-` of the format: the month and the length of
   * its text.
   */
  function MonthField(t: string): (r: Option<(int, nat)>)
    ensures r.Some? ==> 1 <= r.value.0 <= 12 && 1 <= r.value.1 <= 2
                        && r.value.1 < |t| && t[r.value.1] == '-'
  {
    if |t| >= 3 && t[0] == '1' && '0' <= t[1] <= '2' && t[2] == '-' then
      Some((10 + DigitValue(t[1]), 2))
    else if |t| >= 3 && t[0] == '0' && '1' <= t[1] <= '9' && t[2] == '-' then
      Some((DigitValue(t[1]), 2))
    else if |t| >= 2 && '1' <= t[0] <= '9' && t[1] == '-' then
      Some((DigitValue(t[0]), 1))
    else
      None
  }

  /**
   * The `%d` directive, `3[01]|[12]\d|0[1-9]|[1-9]| [1-9]`, which has to use
   * up the rest `t` of the string (strptime rejects unconverted data).
   */
  function DayField(t: string): (r: Option<int>)
    ensures r.Some? ==> 1 <= r.value <= 31
  {
    if |t| == 2 && t[0] == '3' && '0' <= t[1] <= '1' then Some(30 + DigitValue(t[1]))
    else if |t| == 2 && '1' <= t[0] <= '2' && IsDigit(t[1]) then
      Some(10 * DigitValue(t[0]) + DigitValue(t[1]))
    else if |t| == 2 && t[0] == '0' && '1' <= t[1] <= '9' then Some(DigitValue(t[1]))
    else if |t| == 1 && '1' <= t[0] <= '9' then Some(DigitValue(t[0]))
    else if |t| == 2 && t[0] == ' ' && '1' <= t[1] <= '9' then Some(DigitValue(t[1]))
    else None
  }

  /**
   * `datetime.strptime(s, "%Y-%m-%d")`: four digits of year, a dash, the
   * month, a dash and the day, naming a date that exists. None where
   * strptime raises ValueError.
   */
  function ParseDate(s: string): (r: Option<Date>)
    ensures r.Some? ==> IsCalendarDate(r.value)
  {
    if |s| < 5 || !IsDigits(s[..4]) || s[4] != '-' then None
    else
      match MonthField(s[5..])
      case None => None
      case Some(mf) =>
        match DayField(s[5 + mf.1 + 1..])
        case None => None
        case Some(day) =>
          var date := Date(DecimalValue(s[..4]), mf.0, day);
          if IsCalendarDate(date) then Some(date) else None
  }

  /**
   * Birthday.validate_birthday: strptime accepts the text and the numbers
   * read back from it have year 1900..2100, month 1..12 and day 1..31.
   */
  predicate ValidBirthday(s: string) {
    match ParseDate(s)
    case None => false
    case Some(d) => 1900 <= d.year <= 2100 && 1 <= d.month <= 12 && 1 <= d.day <= 31
  }

  /** The setter of Birthday.value. */
  function SetBirthday(v: Option<string>): (r: Result<Option<string>, Error>)
    ensures r.Success? <==> (v.None? || ValidBirthday(v.value))
    ensures r.Success? ==> r.value == v
    ensures r.Failure? ==> r.error == ValueError(BirthdayMessage)
  {
    if v.Some? && !ValidBirthday(v.value) then Failure(ValueError(BirthdayMessage)) else Success(v)
  }

  /** `YYYY-MM-DD` with zero padding. */
  function FormatDate(d: Date): string
    requires 0 <= d.year && 0 <= d.month && 0 <= d.day
  {
    Padded(d.year, 4) + "-" + Padded(d.month, 2) + "-" + Padded(d.day, 2)
  }

  lemma TwoDigits(n: nat)
    requires n < 100
    ensures Padded(n, 2) == [DigitChar(n / 10), DigitChar(n % 10)]
  {
    assert n / 10 < 10 && (n / 10) / 10 == 0 && (n / 10) % 10 == n / 10;
    assert Padded(n / 10, 1) == Padded(0, 0) + [DigitChar(n / 10)];
    assert Padded(n, 2) == Padded(n / 10, 1) + [DigitChar(n % 10)];
  }

  /**
   * strptime reads a zero-padded `YYYY-MM-DD` text back as the date it was
   * written from, and rejects it exactly when that date does not exist.
   */
  lemma ParseFormatted(d: Date)
    requires 0 <= d.year <= 9999 && 0 <= d.month <= 99 && 0 <= d.day <= 99
    ensures ParseDate(FormatDate(d)) == if IsCalendarDate(d) then Some(d) else None
  {
    var s := FormatDate(d);
    var mt, dt := Padded(d.month, 2), Padded(d.day, 2);
    TwoDigits(d.month);
    TwoDigits(d.day);
    assert s[..4] == Padded(d.year, 4);
    DecimalOfPadded(d.year, 4);
    assert s[4] == '-';
    assert s[5..] == mt + "-" + dt;
    var mf := MonthField(s[5..]);
    if mf.Some? {
      assert mf.value.1 == 2 && mf.value.0 == d.month;
      assert s[5 + mf.value.1 + 1..] == dt;
      var df := DayField(dt);
      assert df.Some? ==> df.value == d.day;
      if IsCalendarDate(d) {
        assert df.Some?;
      }
    } else {
      assert !(1 <= d.month <= 12);
    }
  }

  /**
   * On zero-padded `YYYY-MM-DD` texts, validate_birthday holds exactly for
   * the existing dates of the years 1900 to 2100: the day is checked against
   * the month and the leap year, not only against 1..31.
   */
  lemma ValidBirthdayFormatted(d: Date)
    requires 0 <= d.year <= 9999 && 0 <= d.month <= 99 && 0 <= d.day <= 99
    ensures ValidBirthday(FormatDate(d)) <==> IsCalendarDate(d) && 1900 <= d.year <= 2100
  {
    ParseFormatted(d);
  }

  /** A February 30th is rejected although month and day are within 1..12 and 1..31. */
  lemma RejectsFebruary30()
    ensures !ValidBirthday("2021-02-30")
  {
    DateText(Date(2021, 2, 30), "2021-02-30");
    ValidBirthdayFormatted(Date(2021, 2, 30));
  }

  /** The 29th of February is accepted in a leap year ... */
  lemma AcceptsLeapDay()
    ensures ValidBirthday("2020-02-29")
  {
    DateText(Date(2020, 2, 29), "2020-02-29");
    ValidBirthdayFormatted(Date(2020, 2, 29));
  }

  /** ... and rejected in any other year. */
  lemma RejectsNonLeapDay()
    ensures !ValidBirthday("2021-02-29")
  {
    DateText(Date(2021, 2, 29), "2021-02-29");
    ValidBirthdayFormatted(Date(2021, 2, 29));
  }

  /** Real dates before 1900 are rejected. */
  lemma RejectsYear1899()
    ensures !ValidBirthday("1899-01-01")
  {
    DateText(Date(1899, 1, 1), "1899-01-01");
    ValidBirthdayFormatted(Date(1899, 1, 1));
  }

  /** The zero-padded text of a date, character by character. */
  lemma DateText(d: Date, s: string)
    requires 0 <= d.year <= 9999 && 0 <= d.month <= 99 && 0 <= d.day <= 99
    requires s == [DigitChar(d.year / 1000), DigitChar(d.year / 100 % 10), DigitChar(d.year / 10 % 10),
                   DigitChar(d.year % 10), '-', DigitChar(d.month / 10), DigitChar(d.month % 10), '-',
                   DigitChar(d.day / 10), DigitChar(d.day % 10)]
    ensures s == FormatDate(d)
  {
    FourDigits(d.year);
    TwoDigits(d.month);
    TwoDigits(d.day);
  }

  lemma FourDigits(n: nat)
    requires n < 10000
    ensures Padded(n, 4) == [DigitChar(n / 1000), DigitChar(n / 100 % 10), DigitChar(n / 10 % 10), DigitChar(n % 10)]
  {
    TwoDigits(n / 100);
    assert n / 10 / 10 == n / 100;
    assert n / 100 / 10 == n / 1000;
  }
}
