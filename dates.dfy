/**
 * The RT-11 packed date word: bits 15-14 the 32-year era ("age"), bits
 * 13-10 the month, bits 9-5 the day, bits 4-0 the year within the era;
 * years 1972 to 2099; zero means "no date". Also the "dd-MMM-yy" text form
 * used to show a date and to give one on the command line.
 */
module Dates {
  import opened Words
  import opened Wrappers
  import Rad50

  const BASE_YEAR: int := 1972
  const LAST_YEAR: int := 2099

  datatype DateFields = DateFields(age: nat, month: nat, day: nat, yearLow: nat)

  datatype CalendarDate = CalendarDate(day: int, month: int, year: int)

  predicate ValidDate(year: int, month: int, day: int)
  {
    BASE_YEAR <= year <= LAST_YEAR && 1 <= month <= 12 && 1 <= day <= 31
  }

  /** The field extraction of formatRt11Date: shifts and masks. */
  function DateFieldsOf(w: Word): (f: DateFields)
    ensures f.age < 4 && f.month < 16 && f.day < 32 && f.yearLow < 32
  {
    DateFields((w / 0x4000) % 4, (w / 0x400) % 16, (w / 0x20) % 32, w % 32)
  }

  function YearOf(f: DateFields): int
  {
    BASE_YEAR + f.yearLow + 32 * f.age
  }

  /** The four fields or-ed into place; they occupy disjoint bit ranges, so `|` adds them. */
  function PackDate(age: nat, month: nat, day: nat, yearLow: nat): (w: Word)
    requires age < 4 && month < 16 && day < 32 && yearLow < 32
  {
    age * 0x4000 + month * 0x400 + day * 0x20 + yearLow
  }

  /** Extracting the fields of a packed word gives back the fields packed into it. */
  lemma FieldsOfPack(age: nat, month: nat, day: nat, yearLow: nat)
    requires age < 4 && month < 16 && day < 32 && yearLow < 32
    ensures DateFieldsOf(PackDate(age, month, day, yearLow)) == DateFields(age, month, day, yearLow)
  {
    var w := PackDate(age, month, day, yearLow);
    assert w / 0x4000 == age;
    assert w % 0x4000 == month * 0x400 + day * 0x20 + yearLow;
    assert w / 0x400 == age * 16 + month;
    assert w % 0x400 == day * 0x20 + yearLow;
    assert w / 0x20 == age * 512 + month * 32 + day;
  }

  /** The era and the year within the era of a year, clamped as encodeRt11Date does. */
  function EraSplit(year: int): (r: (nat, nat))
    requires BASE_YEAR <= year <= LAST_YEAR
    ensures r.0 < 4 && r.1 < 32
    ensures BASE_YEAR + r.1 + 32 * r.0 == year
  {
    var yearOffset := year - BASE_YEAR;
    var age0 := yearOffset / 32;
    var age := if age0 > 3 then 3 else age0;
    var yearLow0 := year - (BASE_YEAR + age * 32);
    var yearLow := if yearLow0 < 0 then 0 else yearLow0;
    (age, yearLow)
  }

  /**
   * encodeRt11Date as written: the day field is `(day && 0x1F) << 5`, a
   * logical and, so it holds 1 for every day the range check lets through.
   */
  function EncodeRt11Date(year: int, month: int, day: int): (w: Word)
    ensures !ValidDate(year, month, day) ==> w == 0
    ensures ValidDate(year, month, day) ==> w == EncodeRt11DateCorrected(year, month, 1)
  {
    if year < BASE_YEAR || year > LAST_YEAR then 0
    else if month < 1 || month > 12 || day < 1 || day > 31 then 0
    else
      var (age, yearLow) := EraSplit(year);
      var dayField := if day != 0 && 0x1F != 0 then 1 else 0;
      PackDate(age % 4, month % 16, dayField, yearLow % 32)
  }

  /** encodeRt11Date with the bitwise `day & 0x1F` the date format calls for. */
  function EncodeRt11DateCorrected(year: int, month: int, day: int): (w: Word)
  {
    if year < BASE_YEAR || year > LAST_YEAR then 0
    else if month < 1 || month > 12 || day < 1 || day > 31 then 0
    else
      var (age, yearLow) := EraSplit(year);
      PackDate(age % 4, month % 16, day % 32, yearLow % 32)
  }

  /**
   * The encoder as written: 0 exactly outside the valid range; otherwise the
   * era, month and year fields decode to the date given, and the day field is 1.
   */
  lemma EncodeAsWrittenFields(year: int, month: int, day: int)
    ensures EncodeRt11Date(year, month, day) == 0 <==> !ValidDate(year, month, day)
    ensures ValidDate(year, month, day) ==>
      var f := DateFieldsOf(EncodeRt11Date(year, month, day));
      YearOf(f) == year && f.month == month && f.day == 1
  {
    if ValidDate(year, month, day) {
      var (age, yearLow) := EraSplit(year);
      assert EncodeRt11Date(year, month, day) == PackDate(age, month, 1, yearLow);
      FieldsOfPack(age, month, 1, yearLow);
    }
  }

  /** The as-written encoder loses every day but the first of the month. */
  lemma EncodeAsWrittenLosesDay()
    ensures EncodeRt11Date(1997, 1, 15) == EncodeRt11Date(1997, 1, 1)
    ensures DateFieldsOf(EncodeRt11Date(1997, 1, 15)).day != 15
  {
    EncodeAsWrittenFields(1997, 1, 15);
  }

  /** The corrected encoder: 0 exactly outside the valid range, and every field decodes back. */
  lemma EncodeCorrectedRoundTrip(year: int, month: int, day: int)
    ensures EncodeRt11DateCorrected(year, month, day) == 0 <==> !ValidDate(year, month, day)
    ensures ValidDate(year, month, day) ==>
      var f := DateFieldsOf(EncodeRt11DateCorrected(year, month, day));
      YearOf(f) == year && f.month == month && f.day == day
  {
    if ValidDate(year, month, day) {
      var (age, yearLow) := EraSplit(year);
      assert EncodeRt11DateCorrected(year, month, day) == PackDate(age, month, day, yearLow);
      FieldsOfPack(age, month, day, yearLow);
    }
  }

  // ---------------------------------------------------------------
  // Text form dd-Mon-yy
  // ---------------------------------------------------------------

  const BLANK_DATE: string := "        "

  const MONTH_NAMES: seq<string> := ["", "Jan", "Feb", "Mar", "Apr", "May", "Jun",
                                     "Jul", "Aug", "Sep", "Oct", "Nov", "Dec"]

  const MONTH_KEYS: seq<string> := ["JAN", "FEB", "MAR", "APR", "MAY", "JUN",
                                    "JUL", "AUG", "SEP", "OCT", "NOV", "DEC"]

  function Digit(n: nat): char
    requires n < 10
  {
    ('0' as int + n) as char
  }

  /** `setw(2) << setfill('0') << n` for n below 100. */
  function TwoDigits(n: nat): (s: string)
    requires n < 100
    ensures |s| == 2 && '0' <= s[0] <= '9' && '0' <= s[1] <= '9'
  {
    [Digit(n / 10), Digit(n % 10)]
  }

  function FormatRt11Date(w: Word): (s: string)
    ensures |s| == 9 || s == BLANK_DATE
  {
    if w == 0 then BLANK_DATE
    else
      var f := DateFieldsOf(w);
      if f.month < 1 || f.month > 12 || f.day < 1 || f.day > 31 then BLANK_DATE
      else TwoDigits(f.day) + "-" + MONTH_NAMES[f.month] + "-" + TwoDigits(YearOf(f) % 100)
  }

  /** isspace in the "C" locale. */
  predicate IsSpace(c: char)
  {
    c == ' ' || c == '\t' || c == '\n' || c == '\r' || c == 12 as char || c == 11 as char
  }

  predicate IsDigit(c: char)
  {
    '0' <= c <= '9'
  }

  /** Number of leading digits of `s`. */
  function LeadingDigits(s: string): (n: nat)
    ensures n <= |s|
    ensures forall k :: 0 <= k < n ==> IsDigit(s[k])
    ensures n < |s| ==> !IsDigit(s[n])
  {
    if s != [] && IsDigit(s[0]) then 1 + LeadingDigits(s[1..]) else 0
  }

  function DigitsValue(s: string): nat
  {
    if s == [] then 0 else DigitsValue(s[..|s| - 1]) * 10 + (s[|s| - 1] as int - '0' as int) % 10
  }

  /**
   * `std::stoi`: leading white space, an optional sign, then at least one
   * digit; the value of the digit run (there is no overflow on the
   * two-character fields it is given). None stands for the exception
   * thrown when there are no digits.
   */
  function Stoi(s: string): (r: Option<int>)
  {
    if s != [] && IsSpace(s[0]) then Stoi(s[1..])
    else
      var neg := s != [] && s[0] == '-';
      var body := if s != [] && (s[0] == '-' || s[0] == '+') then s[1..] else s;
      var n := LeadingDigits(body);
      if n == 0 then None
      else
        var v: int := DigitsValue(body[..n]);
        Some(if neg then -v else v)
  }

  /** Two decimal digits read as their value. */
  lemma StoiTwoDigits(a: nat, b: nat)
    requires a < 10 && b < 10
    ensures Stoi([Digit(a), Digit(b)]) == Some(10 * a + b)
  {
    var s := [Digit(a), Digit(b)];
    assert s[1..][1..] == [];
    assert LeadingDigits(s) == 2;
    assert s[..2] == s;
    assert s[..1] == [Digit(a)];
    assert [Digit(a)][..0] == [];
    assert DigitsValue([Digit(a)]) == a;
    assert DigitsValue(s) == 10 * a + b;
  }

  /** 1-based number of an upper-case three-letter month name, or 0. */
  function MonthNumber(m: string): (n: nat)
    ensures n <= 12
    ensures n > 0 ==> MONTH_KEYS[n - 1] == m
    ensures n == 0 ==> m !in MONTH_KEYS
  {
    MonthFrom(m, 0)
  }

  function MonthFrom(m: string, i: nat): (n: nat)
    requires i <= 12
    ensures n == 0 || i < n <= 12
    ensures n > 0 ==> MONTH_KEYS[n - 1] == m && forall k :: i <= k < n - 1 ==> MONTH_KEYS[k] != m
    ensures n == 0 ==> forall k :: i <= k < 12 ==> MONTH_KEYS[k] != m
    decreases 12 - i
  {
    if i == 12 then 0
    else if MONTH_KEYS[i] == m then i + 1
    else MonthFrom(m, i + 1)
  }

  /** The two-digit year rule: 72-99 are 1972-1999, anything lower is 2000 plus it. */
  function CenturyYear(year2: int): int
  {
    if year2 >= 72 then 1900 + year2 else 2000 + year2
  }

  /** What parseDateString computes from "dd-MMM-yy"; None where it returns false. */
  function ParseDate(s: string): (r: Option<CalendarDate>)
  {
    if |s| != 9 then None
    else if s[2] != '-' || s[6] != '-' then None
    else match Stoi(s[0..2])
      case None => None
      case Some(day) =>
        if day < 1 || day > 31 then None
        else
          var month := MonthNumber(Rad50.UpperString(s[3..6]));
          if month == 0 then None
          else match Stoi(s[7..9])
            case None => None
            case Some(year2) =>
              var year := CenturyYear(year2);
              if year < BASE_YEAR || year > LAST_YEAR then None
              else Some(CalendarDate(day, month, year))
  }

  /** parseDateString, with its search of the month table. */
  method ParseDateString(dateStr: string) returns (r: Option<CalendarDate>)
    ensures r == ParseDate(dateStr)
    ensures r.Some? ==> ValidDate(r.value.year, r.value.month, r.value.day)
  {
    if |dateStr| != 9 { return None; }
    if dateStr[2] != '-' || dateStr[6] != '-' { return None; }
    var d := Stoi(dateStr[0..2]);
    if d.None? { return None; }
    var day := d.value;
    if day < 1 || day > 31 { return None; }
    var monthStr := Rad50.UpperString(dateStr[3..6]);
    var month := 0;
    var i := 0;
    while i < 12
      invariant 0 <= i <= 12
      invariant month == 0 ==> MonthFrom(monthStr, i) == MonthNumber(monthStr)
      invariant month != 0 ==> month == MonthNumber(monthStr)
    {
      if monthStr == MONTH_KEYS[i] {
        month := i + 1;
        break;
      }
      i := i + 1;
    }
    if month == 0 { return None; }
    var y := Stoi(dateStr[7..9]);
    if y.None? { return None; }
    var year := CenturyYear(y.value);
    if year < BASE_YEAR || year > LAST_YEAR { return None; }
    r := Some(CalendarDate(day, month, year));
    StoiFieldBounds(dateStr[7..9]);
  }

  /** A two-character field parses to at least -9 and at most 99. */
  lemma StoiFieldBounds(s: string)
    requires |s| == 2
    ensures Stoi(s).Some? ==> -9 <= Stoi(s).value <= 99
  {
    var body := if s != [] && (s[0] == '-' || s[0] == '+') then s[1..] else s;
    var n := LeadingDigits(body);
    if !IsSpace(s[0]) && n > 0 {
      DigitsBound(body[..n]);
    } else if IsSpace(s[0]) {
      var t := s[1..];
      var tb := if t != [] && (t[0] == '-' || t[0] == '+') then t[1..] else t;
      var m := LeadingDigits(tb);
      if IsSpace(t[0]) {
        assert t[1..] == [];
      } else if m > 0 {
        DigitsBound(tb[..m]);
      }
    }
  }

  lemma {:induction false} DigitsBound(s: string)
    ensures s == [] ==> DigitsValue(s) == 0
    ensures |s| == 1 ==> DigitsValue(s) <= 9
    ensures |s| == 2 ==> DigitsValue(s) <= 99
  {
    if s != [] {
      DigitsBound(s[..|s| - 1]);
    }
  }

  /** Every date parseDateString accepts encodes to a non-zero word: the year check never fires. */
  lemma ParsedDatesEncode(s: string)
    requires ParseDate(s).Some?
    ensures var d := ParseDate(s).value;
      ValidDate(d.year, d.month, d.day) && EncodeRt11Date(d.year, d.month, d.day) != 0
    ensures Stoi(s[7..9]).Some? && BASE_YEAR <= CenturyYear(Stoi(s[7..9]).value) <= LAST_YEAR
  {
    StoiFieldBounds(s[7..9]);
    var d := ParseDate(s).value;
    EncodeAsWrittenFields(d.year, d.month, d.day);
  }

  /** The text "dd-Mon-yy" built from a day, a month and a two-digit year parses back to them. */
  lemma ParseComposed(day: nat, month: int, year2: nat)
    requires 1 <= day <= 31 && 1 <= month <= 12 && year2 < 100
    requires BASE_YEAR <= CenturyYear(year2) <= LAST_YEAR
    ensures ParseDate(TwoDigits(day) + "-" + MONTH_NAMES[month] + "-" + TwoDigits(year2))
      == Some(CalendarDate(day, month, CenturyYear(year2)))
  {
    var s := TwoDigits(day) + "-" + MONTH_NAMES[month] + "-" + TwoDigits(year2);
    assert |MONTH_NAMES[month]| == 3;
    ComposedFields(TwoDigits(day), MONTH_NAMES[month], TwoDigits(year2));
    TwoDigitsRead(day);
    TwoDigitsRead(year2);
    MonthNameKey(month);
    ParseParts(s, day, month, year2);
  }

  /** The fields of "dd-Mon-yy" sit at columns 0, 3 and 7. */
  lemma ComposedFields(d: string, m: string, y: string)
    requires |d| == 2 && |m| == 3 && |y| == 2
    ensures var s := d + "-" + m + "-" + y;
      |s| == 9 && s[2] == '-' && s[6] == '-' && s[0..2] == d && s[3..6] == m && s[7..9] == y
  {
  }

  /** Two digits read back as the number they show. */
  lemma TwoDigitsRead(n: nat)
    requires n < 100
    ensures Stoi(TwoDigits(n)) == Some(n)
  {
    StoiTwoDigits(n / 10, n % 10);
  }

  /** A text whose three fields read as a valid day, month and year parses to that date. */
  lemma ParseParts(s: string, day: int, month: int, year2: int)
    requires |s| == 9 && s[2] == '-' && s[6] == '-'
    requires Stoi(s[0..2]) == Some(day) && 1 <= day <= 31
    requires MonthNumber(Rad50.UpperString(s[3..6])) == month && month != 0
    requires Stoi(s[7..9]) == Some(year2) && BASE_YEAR <= CenturyYear(year2) <= LAST_YEAR
    ensures ParseDate(s) == Some(CalendarDate(day, month, CenturyYear(year2)))
  {
  }

  /**
   * Showing a corrected-encoded date and reading the text back gives the
   * same date, for years up to 2071 (the two-digit rule maps 72-99 to the 1900s).
   */
  lemma FormatParseRoundTrip(year: int, month: int, day: int)
    requires ValidDate(year, month, day) && year <= 2071
    ensures ParseDate(FormatRt11Date(EncodeRt11DateCorrected(year, month, day))) == Some(CalendarDate(day, month, year))
  {
    FormatCorrected(year, month, day);
    CenturyOfTwoDigits(year);
    ParseComposed(day, month, year % 100);
  }

  /** The two-digit rule gives back every year from 1972 to 2071. */
  lemma CenturyOfTwoDigits(year: int)
    requires BASE_YEAR <= year <= 2071
    ensures CenturyYear(year % 100) == year
  {
    if year < 2000 {
      assert year % 100 == year - 1900;
    } else {
      assert year % 100 == year - 2000;
    }
  }

  /** A corrected-encoded date is shown as its day, month name and two-digit year. */
  lemma FormatCorrected(year: int, month: int, day: int)
    requires ValidDate(year, month, day)
    ensures FormatRt11Date(EncodeRt11DateCorrected(year, month, day))
      == TwoDigits(day) + "-" + MONTH_NAMES[month] + "-" + TwoDigits(year % 100)
  {
    EncodeCorrectedRoundTrip(year, month, day);
  }

  /** Month names upper-cased are the keys parseDateString compares with, in order. */
  lemma MonthNameKey(month: int)
    requires 1 <= month <= 12
    ensures MonthNumber(Rad50.UpperString(MONTH_NAMES[month])) == month
  {
    NameUpper(month);
    KeyNumber(month - 1);
  }

  lemma NameUpper(month: int)
    requires 1 <= month <= 12
    ensures Rad50.UpperString(MONTH_NAMES[month]) == MONTH_KEYS[month - 1]
  {
    if month <= 6 {
      NameUpperFirstHalf(month);
    } else {
      NameUpperSecondHalf(month);
    }
  }

  lemma NameUpperFirstHalf(month: int)
    requires 1 <= month <= 6
    ensures Rad50.UpperString(MONTH_NAMES[month]) == MONTH_KEYS[month - 1]
  {
    if month == 1 {
      assert MONTH_NAMES[1] == "Jan" && MONTH_KEYS[0] == "JAN";
      Upper3("Jan", "JAN");
    } else if month == 2 {
      assert MONTH_NAMES[2] == "Feb" && MONTH_KEYS[1] == "FEB";
      Upper3("Feb", "FEB");
    } else if month == 3 {
      assert MONTH_NAMES[3] == "Mar" && MONTH_KEYS[2] == "MAR";
      Upper3("Mar", "MAR");
    } else if month == 4 {
      assert MONTH_NAMES[4] == "Apr" && MONTH_KEYS[3] == "APR";
      Upper3("Apr", "APR");
    } else if month == 5 {
      assert MONTH_NAMES[5] == "May" && MONTH_KEYS[4] == "MAY";
      Upper3("May", "MAY");
    } else {
      assert MONTH_NAMES[6] == "Jun" && MONTH_KEYS[5] == "JUN";
      Upper3("Jun", "JUN");
    }
  }

  lemma NameUpperSecondHalf(month: int)
    requires 7 <= month <= 12
    ensures Rad50.UpperString(MONTH_NAMES[month]) == MONTH_KEYS[month - 1]
  {
    if month == 7 {
      assert MONTH_NAMES[7] == "Jul" && MONTH_KEYS[6] == "JUL";
      Upper3("Jul", "JUL");
    } else if month == 8 {
      assert MONTH_NAMES[8] == "Aug" && MONTH_KEYS[7] == "AUG";
      Upper3("Aug", "AUG");
    } else if month == 9 {
      assert MONTH_NAMES[9] == "Sep" && MONTH_KEYS[8] == "SEP";
      Upper3("Sep", "SEP");
    } else if month == 10 {
      assert MONTH_NAMES[10] == "Oct" && MONTH_KEYS[9] == "OCT";
      Upper3("Oct", "OCT");
    } else if month == 11 {
      assert MONTH_NAMES[11] == "Nov" && MONTH_KEYS[10] == "NOV";
      Upper3("Nov", "NOV");
    } else {
      assert MONTH_NAMES[12] == "Dec" && MONTH_KEYS[11] == "DEC";
      Upper3("Dec", "DEC");
    }
  }

  /** A three-letter name upper-cases to `key` when each letter does. */
  lemma Upper3(name: string, key: string)
    requires |name| == 3 && |key| == 3
    requires Rad50.ToUpper(name[0]) == key[0] && Rad50.ToUpper(name[1]) == key[1] && Rad50.ToUpper(name[2]) == key[2]
    ensures Rad50.UpperString(name) == key
  {
  }

  lemma KeyNumber(i: nat)
    requires i < 12
    ensures MonthNumber(MONTH_KEYS[i]) == i + 1
  {
    var n := MonthNumber(MONTH_KEYS[i]);
    assert n != 0 by {
      assert MONTH_KEYS[i] in MONTH_KEYS;
    }
    KeysDistinct(i, n - 1);
  }

  lemma KeysDistinct(i: nat, j: nat)
    requires i < 12 && j < 12 && MONTH_KEYS[i] == MONTH_KEYS[j]
    ensures i == j
  {
    var a := MONTH_KEYS[i];
    var b := MONTH_KEYS[j];
    assert a[0] == b[0] && a[1] == b[1] && a[2] == b[2];
  }

  /** With the encoder as written, a shown date always reads back as the first of its month. */
  lemma FormatAsWrittenShowsFirst(year: int, month: int, day: int)
    requires ValidDate(year, month, day) && year <= 2071
    ensures ParseDate(FormatRt11Date(EncodeRt11Date(year, month, day))) == Some(CalendarDate(1, month, year))
  {
    EncodeAsWrittenFields(year, month, day);
    assert EncodeRt11Date(year, month, day) == EncodeRt11DateCorrected(year, month, 1);
    FormatParseRoundTrip(year, month, 1);
  }
}
