/** `FoundWebSource.website_date_str_to_datetime` and the `website_date`
    field validator: the heuristic that turns a search result's date text
    ("5 hours ago", "2 days ago", "Jan 5, 2023") into a calendar date. The
    reading of the clock (`date.today()`) is the parameter `today`. */
module DateNormalizer {
  import opened Wrappers
  import opened Strings
  import opened Decimal
  import opened Calendar

  /** The exception the conversion raises, by cause. */
  datatype DateError =
    | NoDayCount                                   // AttributeError: a "day" text with no digits
    | DeltaOverflow                                // OverflowError from timedelta(days)
    | DateOverflow                                 // OverflowError: result before 0001-01-01
    | UnknownMonth(name: string)                   // KeyError from the month table
    | InvalidDate(year: int, month: int, day: int) // ValueError from date(...)
    | Unrecognised(text: string)                   // the final ValueError

  /** The largest day count `timedelta` accepts. */
  const MaxDeltaDays: nat := 999999999

  /** The month table, in month order. */
  const MonthNames: seq<string> :=
    ["Jan", "Feb", "Mar", "Apr", "May", "Jun", "Jul", "Aug", "Sep", "Oct", "Nov", "Dec"]

  function MonthFrom(name: string, i: nat): (r: Option<int>)
    requires i <= |MonthNames|
    ensures r.Some? <==> name in MonthNames[i..]
    ensures r.Some? ==> i < r.value <= 12 && MonthNames[r.value - 1] == name
    decreases |MonthNames| - i
  {
    if i == |MonthNames| then None
    else if MonthNames[i] == name then Some(i + 1)
    else
      assert MonthNames[i..] == [MonthNames[i]] + MonthNames[i + 1..];
      MonthFrom(name, i + 1)
  }

  /** `month_to_number[name]`; `None` is the KeyError. The lookup is exact,
      so "jan" or "JAN" are not months. */
  function MonthNumber(name: string): (r: Option<int>)
    ensures r.Some? <==> name in MonthNames
    ensures r.Some? ==> 1 <= r.value <= 12 && MonthNames[r.value - 1] == name
  {
    assert MonthNames[0..] == MonthNames;
    MonthFrom(name, 0)
  }

  /** The regular-expression class `\w`, over ASCII. */
  predicate IsWordChar(c: char) {
    ('a' <= c <= 'z') || ('A' <= c <= 'Z') || IsDigit(c) || c == '_'
  }

  /** The first position at or after `i` holding a digit, or -1. */
  function FirstDigitFrom(s: string, i: nat): (r: int)
    requires i <= |s|
    ensures r == -1 || (i <= r < |s| && IsDigit(s[r]))
    ensures forall j :: i <= j < |s| && (r == -1 || j < r) ==> !IsDigit(s[j])
    decreases |s| - i
  {
    if i == |s| then -1
    else if IsDigit(s[i]) then i
    else FirstDigitFrom(s, i + 1)
  }

  /** Where the run of digits starting at `i` ends. */
  function DigitRunEnd(s: string, i: nat): (e: nat)
    requires i <= |s|
    ensures i <= e <= |s|
    ensures forall k :: i <= k < e ==> IsDigit(s[k])
    ensures e == |s| || !IsDigit(s[e])
    decreases |s| - i
  {
    if i < |s| && IsDigit(s[i]) then DigitRunEnd(s, i + 1) else i
  }

  /** `run` stands at `k` in `s`, no digit comes before it, and it is
      not followed by a digit. */
  predicate LeftmostLongestRun(s: string, k: nat, run: string)
  {
    && k + |run| <= |s|
    && s[k..k + |run|] == run
    && (forall j :: 0 <= j < k ==> !IsDigit(s[j]))
    && (k + |run| == |s| || !IsDigit(s[k + |run|]))
  }

  /** `re.search(r'\d+', s).group(0)`: the leftmost, longest run of
      digits; `None` when the search finds nothing. */
  function FirstDigitRun(s: string): (r: Option<string>)
    ensures r.None? <==> forall j :: 0 <= j < |s| ==> !IsDigit(s[j])
    ensures r.Some? ==> |r.value| >= 1 && AllDigits(r.value)
    ensures r.Some? ==> exists k :: LeftmostLongestRun(s, k, r.value)
  {
    var k := FirstDigitFrom(s, 0);
    if k < 0 then None
    else
      var e := DigitRunEnd(s, k);
      assert AllDigits(s[k..e]) by {
        forall j | 0 <= j < e - k ensures IsDigit(s[k..e][j]) {
          assert s[k..e][j] == s[k + j];
        }
      }
      assert LeftmostLongestRun(s, k, s[k..e]);
      Some(s[k..e])
  }

  /** A match of `(\w{3}) (\d{1,2}), (\d{4})`: the three groups, the last
      two already passed through `int`. */
  datatype DateMatch = DateMatch(monthName: string, day: nat, year: nat)

  /** Four digits denote the number they spell. */
  lemma FourDigits(t: string)
    requires |t| == 4 && AllDigits(t)
    ensures DigitsValue(t) == DigitValue(t[0]) * 1000 + DigitValue(t[1]) * 100 + DigitValue(t[2]) * 10 + DigitValue(t[3])
  {
    TwoDigits(t[..2]);
    assert t[..2][0] == t[0] && t[..2][1] == t[1];
    assert t[..3][..2] == t[..2];
    assert DigitsValue(t[..3]) == DigitsValue(t[..2]) * 10 + DigitValue(t[2]);
    assert t[..3] == t[..|t| - 1];
  }

  /** Two digits denote the number they spell. */
  lemma TwoDigits(t: string)
    requires |t| == 2 && AllDigits(t)
    ensures DigitsValue(t) == DigitValue(t[0]) * 10 + DigitValue(t[1])
  {
    assert t[..1][..0] == [];
    assert DigitsValue(t[..1]) == DigitValue(t[0]);
    assert t[..1] == t[..|t| - 1];
  }

  /** The tail `, (\d{4})` starting at `j`: the year is `int` of its four
      digits. */
  function YearAt(s: string, j: nat): (r: Option<nat>)
    requires j <= |s|
    ensures r.Some? ==> r.value <= 9999
    ensures r.Some? ==>
      && j + 6 <= |s| && s[j] == ',' && s[j + 1] == ' '
      && AllDigits(s[j + 2..j + 6]) && r.value == DigitsValue(s[j + 2..j + 6])
    ensures j + 6 <= |s| && s[j] == ',' && s[j + 1] == ' ' && AllDigits(s[j + 2..j + 6]) ==> r.Some?
  {
    if j + 6 <= |s| && s[j] == ',' && s[j + 1] == ' '
       && IsDigit(s[j + 2]) && IsDigit(s[j + 3]) && IsDigit(s[j + 4]) && IsDigit(s[j + 5])
    then
      FourDigits(s[j + 2..j + 6]);
      Some(DigitValue(s[j + 2]) * 1000 + DigitValue(s[j + 3]) * 100
           + DigitValue(s[j + 4]) * 10 + DigitValue(s[j + 5]))
    else None
  }

  /** The day group is the `n` (one or two) digits at `d`, `int` of them
      is the day, and the year group follows them. */
  predicate DayDigits(s: string, d: nat, n: nat, m: DateMatch)
  {
    && 1 <= n <= 2 && d + n <= |s|
    && AllDigits(s[d..d + n]) && m.day == DigitsValue(s[d..d + n])
    && YearAt(s, d + n) == Some(m.year)
  }

  /** The pattern tried at position `i`. `\d{1,2}` is greedy: two digits
      are tried first, then one. */
  function MatchAt(s: string, i: nat): (r: Option<DateMatch>)
    requires i <= |s|
    ensures r.Some? ==> |r.value.monthName| == 3 && r.value.day <= 99 && r.value.year <= 9999
    ensures r.Some? ==>
      && i + 5 <= |s| && r.value.monthName == s[i..i + 3] && s[i + 3] == ' '
      && (forall k :: 0 <= k < 3 ==> IsWordChar(r.value.monthName[k]))
    ensures r.Some? ==> DayDigits(s, i + 4, 1, r.value) || DayDigits(s, i + 4, 2, r.value)
    ensures (&& i + 5 <= |s| && IsWordChar(s[i]) && IsWordChar(s[i + 1]) && IsWordChar(s[i + 2])
             && s[i + 3] == ' ' && IsDigit(s[i + 4])
             && (YearAt(s, i + 5).Some? || (i + 6 <= |s| && IsDigit(s[i + 5]) && YearAt(s, i + 6).Some?)))
            ==> r.Some?
    ensures r.Some? && i + 6 <= |s| && IsDigit(s[i + 5]) && YearAt(s, i + 6).Some? ==> DayDigits(s, i + 4, 2, r.value)
  {
    if i + 5 <= |s| && IsWordChar(s[i]) && IsWordChar(s[i + 1]) && IsWordChar(s[i + 2])
       && s[i + 3] == ' ' && IsDigit(s[i + 4])
    then
      var name := s[i..i + 3];
      if i + 6 <= |s| && IsDigit(s[i + 5]) && YearAt(s, i + 6).Some? then
        var m := DateMatch(name, DigitValue(s[i + 4]) * 10 + DigitValue(s[i + 5]), YearAt(s, i + 6).value);
        TwoDigits(s[i + 4..i + 6]);
        assert DayDigits(s, i + 4, 2, m);
        Some(m)
      else if YearAt(s, i + 5).Some? then
        var m := DateMatch(name, DigitValue(s[i + 4]), YearAt(s, i + 5).value);
        assert s[i + 4..i + 5][..0] == [];
        assert DayDigits(s, i + 4, 1, m);
        Some(m)
      else None
    else None
  }

  /** `re.search` of the date pattern from position `from`: the leftmost
      match. */
  function SearchDateFrom(s: string, from: nat): (r: Option<DateMatch>)
    requires from <= |s|
    ensures r.None? ==> forall i :: from <= i <= |s| ==> MatchAt(s, i).None?
    ensures r.Some? ==> exists i :: from <= i <= |s| && MatchAt(s, i) == r
                                    && forall k :: from <= k < i ==> MatchAt(s, k).None?
    decreases |s| - from
  {
    if MatchAt(s, from).Some? then MatchAt(s, from)
    else if from == |s| then None
    else
      var r := SearchDateFrom(s, from + 1);
      FirstMatchStep(s, from, r);
      r
  }

  /** A search that misses at `from` finds what the search from the next
      position finds, and it is still the leftmost match. */
  lemma FirstMatchStep(s: string, from: nat, r: Option<DateMatch>)
    requires from < |s| && MatchAt(s, from).None?
    requires r.Some? ==> exists i :: from + 1 <= i <= |s| && MatchAt(s, i) == r
                                     && forall k :: from + 1 <= k < i ==> MatchAt(s, k).None?
    ensures r.Some? ==> exists i :: from <= i <= |s| && MatchAt(s, i) == r
                                    && forall k :: from <= k < i ==> MatchAt(s, k).None?
  {
    if r.Some? {
      var i :| from + 1 <= i <= |s| && MatchAt(s, i) == r
               && forall k :: from + 1 <= k < i ==> MatchAt(s, k).None?;
      assert forall k :: from <= k < i ==> MatchAt(s, k).None?;
    }
  }

  /** `date(year, month, day)`. */
  function MakeDate(year: int, month: int, day: int): (r: Result<Date, DateError>)
    ensures r.Success? <==> ValidDate(Date(year, month, day))
    ensures r.Success? ==> r.value == Date(year, month, day)
  {
    if ValidDate(Date(year, month, day)) then Success(Date(year, month, day))
    else Failure(InvalidDate(year, month, day))
  }

  /** `date.today() - timedelta(n)`. */
  function DaysAgo(today: Date, n: nat): (r: Result<Date, DateError>)
    requires ValidDate(today)
    ensures r.Success? <==> n <= MaxDeltaDays && n < Ordinal(today)
    ensures r.Success? ==> ValidDate(r.value) && Ordinal(r.value) == Ordinal(today) - n
  {
    if n > MaxDeltaDays then Failure(DeltaOverflow)
    else match SubtractDays(today, n)
      case Some(d) => Success(d)
      case None => Failure(DateOverflow)
  }

  /** The explicit-date branch: the month looked up, then `date(...)`. */
  function FromMatch(m: DateMatch): Result<Date, DateError>
  {
    match MonthNumber(m.monthName)
    case None => Failure(UnknownMonth(m.monthName))
    case Some(month) => MakeDate(m.year, month, m.day)
  }

  /** `website_date_str_to_datetime(s)` with `date.today()` as `today`. */
  function WebsiteDateStrToDate(s: string, today: Date): (r: Result<Date, DateError>)
    requires ValidDate(today)
    ensures r.Success? ==> ValidDate(r.value)
  {
    if Contains(s, "hours") then Success(today)
    else if Contains(s, "day") then
      match FirstDigitRun(s)
      case None => Failure(NoDayCount)
      case Some(run) => DaysAgo(today, DigitsValue(run))
    else
      match SearchDateFrom(s, 0)
      case Some(m) => FromMatch(m)
      case None => Failure(Unrecognised(s))
  }

  /** "hours" is looked for first: any text containing it is today, whatever
      else it says. */
  lemma HoursMeansToday(s: string, today: Date)
    requires ValidDate(today)
    requires Contains(s, "hours")
    ensures WebsiteDateStrToDate(s, today) == Success(today)
  {
  }

  /** Otherwise a text containing "day" (so also "today" and "Monday") is
      today minus the first run of digits in it, counted in days: an error
      when there are no digits, and when the count reaches back before
      0001-01-01 or past the largest `timedelta`. */
  lemma DayMeansDaysAgo(s: string, today: Date)
    requires ValidDate(today)
    requires !Contains(s, "hours") && Contains(s, "day")
    ensures var r := WebsiteDateStrToDate(s, today);
      && (FirstDigitRun(s).None? ==> r == Failure(NoDayCount))
      && (FirstDigitRun(s).Some? ==>
            var n := DigitsValue(FirstDigitRun(s).value);
            && (r.Success? <==> n <= MaxDeltaDays && n < Ordinal(today))
            && (r.Success? ==> Ordinal(r.value) == Ordinal(today) - n))
  {
  }

  /** Otherwise the leftmost `Mon D, YYYY` match is decoded
      (`FromMatchCases` says how). */
  lemma ExplicitDate(s: string, today: Date, i: nat)
    requires ValidDate(today)
    requires !Contains(s, "hours") && !Contains(s, "day")
    requires i <= |s| && MatchAt(s, i).Some?
    requires forall k :: 0 <= k < i ==> MatchAt(s, k).None?
    ensures WebsiteDateStrToDate(s, today) == FromMatch(MatchAt(s, i).value)
  {
    FirstMatchFound(s, i);
  }

  /** The search returns the match at the first position that has one. */
  lemma FirstMatchFound(s: string, i: nat)
    requires i <= |s| && MatchAt(s, i).Some?
    requires forall k :: 0 <= k < i ==> MatchAt(s, k).None?
    ensures SearchDateFrom(s, 0) == MatchAt(s, i)
  {
    var found := SearchDateFrom(s, 0);
    var j :| 0 <= j <= |s| && MatchAt(s, j) == found && forall k :: 0 <= k < j ==> MatchAt(s, k).None?;
    assert j == i;
  }

  /** Decoding a match: the month must be in the table and the day must
      exist in that month and year. */
  lemma FromMatchCases(m: DateMatch)
    ensures m.monthName !in MonthNames ==> FromMatch(m) == Failure(UnknownMonth(m.monthName))
    ensures m.monthName in MonthNames ==>
      var month := MonthNumber(m.monthName).value;
      && MonthNames[month - 1] == m.monthName
      && (FromMatch(m).Success? <==> ValidDate(Date(m.year, month, m.day)))
      && (FromMatch(m).Success? ==> FromMatch(m).value == Date(m.year, month, m.day))
  {
  }

  /** Any other text is an error. */
  lemma OtherTextFails(s: string, today: Date)
    requires ValidDate(today)
    requires !Contains(s, "hours") && !Contains(s, "day")
    requires forall i :: 0 <= i <= |s| ==> MatchAt(s, i).None?
    ensures WebsiteDateStrToDate(s, today) == Failure(Unrecognised(s))
  {
    SearchFindsNothing(s, 0);
  }

  /** With no match at any position, the search finds nothing. */
  lemma {:induction false} SearchFindsNothing(s: string, from: nat)
    requires from <= |s|
    requires forall i :: from <= i <= |s| ==> MatchAt(s, i).None?
    ensures SearchDateFrom(s, from).None?
    decreases |s| - from
  {
    if from < |s| {
      SearchFindsNothing(s, from + 1);
    }
  }

  /** "2 days ago" holds no "hours". */
  lemma TwoDaysAgoNoHours()
    ensures !Contains("2 days ago", "hours")
  {
    var s := "2 days ago";
    assert forall k :: 0 <= k < |s| ==> s[k] != 'h';
    ContainedCharsOccur(s, "hours", 'h');
  }

  /** "2 days ago" holds "day". */
  lemma TwoDaysAgoHasDay()
    ensures Contains("2 days ago", "day")
  {
    ContainsInfix("2 ", "day", "s ago");
    assert "2 " + "day" + "s ago" == "2 days ago";
  }

  /** The first number in "2 days ago" is 2. */
  lemma TwoDaysAgoCount()
    ensures FirstDigitRun("2 days ago") == Some("2") && DigitsValue("2") == 2
  {
    var s := "2 days ago";
    assert FirstDigitFrom(s, 0) == 0 && DigitRunEnd(s, 0) == 1;
    assert s[0..1] == "2";
  }

  /** "2 days ago" is two days before today. */
  lemma TwoDaysAgoExample(today: Date)
    requires ValidDate(today) && Ordinal(today) > 2
    ensures var r := WebsiteDateStrToDate("2 days ago", today);
      r.Success? && Ordinal(r.value) == Ordinal(today) - 2
  {
    TwoDaysAgoNoHours();
    TwoDaysAgoHasDay();
    TwoDaysAgoCount();
    DayMeansDaysAgo("2 days ago", today);
  }

  /** "Monday" holds no "hours" and no digit. */
  lemma MondayNoHours()
    ensures !Contains("Monday", "hours")
    ensures FirstDigitRun("Monday").None?
  {
    var s := "Monday";
    assert forall k :: 0 <= k < |s| ==> s[k] != 'h' && !IsDigit(s[k]);
    ContainedCharsOccur(s, "hours", 'h');
  }

  /** "Monday" holds "day". */
  lemma MondayHasDay()
    ensures Contains("Monday", "day")
  {
    ContainsInfix("Mon", "day", "");
    assert "Mon" + "day" + "" == "Monday";
  }

  /** "Monday" contains "day" but no digits: an error, not a date. */
  lemma MondayExample(today: Date)
    requires ValidDate(today)
    ensures WebsiteDateStrToDate("Monday", today) == Failure(NoDayCount)
  {
    MondayNoHours();
    MondayHasDay();
    DayMeansDaysAgo("Monday", today);
  }

  /** The explicit-date branch, read through the pattern search. */
  lemma SearchedDate(s: string, today: Date)
    requires ValidDate(today)
    requires !Contains(s, "hours") && !Contains(s, "day")
    requires SearchDateFrom(s, 0).Some?
    ensures WebsiteDateStrToDate(s, today) == FromMatch(SearchDateFrom(s, 0).value)
  {
  }

  /** "Jan 5, 2023" holds neither keyword. */
  lemma JanFifthNoKeyword()
    ensures !Contains("Jan 5, 2023", "hours") && !Contains("Jan 5, 2023", "day")
  {
    ContainedCharsOccur("Jan 5, 2023", "hours", 'h');
    ContainedCharsOccur("Jan 5, 2023", "day", 'd');
  }

  /** The year after "Jan 5". */
  lemma JanFifthYear()
    ensures YearAt("Jan 5, 2023", 5) == Some(2023)
  {
    var s := "Jan 5, 2023";
    assert s[5] == ',' && s[6] == ' ' && s[7] == '2' && s[8] == '0' && s[9] == '2' && s[10] == '3';
  }

  /** The date pattern matches "Jan 5, 2023" at its start. */
  lemma JanFifthMatch()
    ensures SearchDateFrom("Jan 5, 2023", 0) == Some(DateMatch("Jan", 5, 2023))
  {
    var s := "Jan 5, 2023";
    assert MatchAt(s, 0) == Some(DateMatch("Jan", 5, 2023)) by {
      JanFifthYear();
      assert s[0..3] == "Jan";
      assert !IsDigit(s[5]);
    }
  }

  lemma JanFifthDate()
    ensures FromMatch(DateMatch("Jan", 5, 2023)) == Success(Date(2023, 1, 5))
  {
    assert MonthNames[0] == "Jan";
    assert MonthNumber("Jan") == Some(1);
  }

  /** "Jan 5, 2023" is 2023-01-05. */
  lemma ExplicitDateExample(today: Date)
    requires ValidDate(today)
    ensures WebsiteDateStrToDate("Jan 5, 2023", today) == Success(Date(2023, 1, 5))
  {
    JanFifthNoKeyword();
    JanFifthMatch();
    JanFifthDate();
    SearchedDate("Jan 5, 2023", today);
  }

  /** "garbage" has no space, so the date pattern matches nowhere in it. */
  lemma GarbageNoMatch()
    ensures forall i :: 0 <= i <= |"garbage"| ==> MatchAt("garbage", i).None?
  {
    var s := "garbage";
    forall i | 0 <= i <= |s| ensures MatchAt(s, i).None? {
      assert i + 3 < |s| ==> s[i + 3] != ' ';
    }
  }

  /** Text in none of the three forms is an error. */
  lemma GarbageExample(today: Date)
    requires ValidDate(today)
    ensures WebsiteDateStrToDate("garbage", today) == Failure(Unrecognised("garbage"))
  {
    ContainedCharsOccur("garbage", "hours", 'h');
    ContainedCharsOccur("garbage", "day", 'd');
    GarbageNoMatch();
    OtherTextFails("garbage", today);
  }

  /** What the `website_date` field may hold: text, a date, or nothing. */
  datatype WebsiteDate = DateText(text: string) | DateValue(date: Date) | NoDate

  /** The field validator `validate_website_date`: text is converted, a
      date or nothing passes unchanged. */
  function ValidateWebsiteDate(v: WebsiteDate, today: Date): (r: Result<WebsiteDate, DateError>)
    requires ValidDate(today)
    ensures r.Success? ==> !r.value.DateText?
    ensures !v.DateText? ==> r == Success(v)
    ensures v.DateText? ==> (r.Success? <==> WebsiteDateStrToDate(v.text, today).Success?)
    ensures v.DateText? && r.Success? ==> r.value == DateValue(WebsiteDateStrToDate(v.text, today).value)
    ensures v.DateText? && r.Failure? ==> r.error == WebsiteDateStrToDate(v.text, today).error
  {
    match v
    case DateText(s) =>
      (match WebsiteDateStrToDate(s, today)
       case Success(d) => Success(DateValue(d))
       case Failure(e) => Failure(e))
    case _ => Success(v)
  }

  /** Validating a validated value changes nothing. */
  lemma ValidateIdempotent(v: WebsiteDate, today: Date)
    requires ValidDate(today)
    requires ValidateWebsiteDate(v, today).Success?
    ensures ValidateWebsiteDate(ValidateWebsiteDate(v, today).value, today) == ValidateWebsiteDate(v, today)
  {
  }
}
