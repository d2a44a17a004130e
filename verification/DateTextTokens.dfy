/** Dates without a format, the time of the day, and years of two digits. */
module DateTextTokens {
  import opened Texts
  import opened Decimals
  import opened Calendar
  import opened DateTexts
  import opened DateFormats
  import opened DateTextLaws

  // ----- no format

  const SLASHED: seq<Piece> := [DayPlace, Fixed("/"), MonthPlace, Fixed("/"), YearPlace]

  lemma FlatSlashed(e: Filling)
    ensures Flat(SLASHED, e) == e.day + "/" + e.month + "/" + e.year
  {
    hide Flat;
    var slash := Fixed("/");
    FlatCons(YearPlace, [], e);
    FlatCons(slash, [YearPlace], e);
    FlatCons(MonthPlace, [slash, YearPlace], e);
    FlatCons(slash, [MonthPlace, slash, YearPlace], e);
    FlatCons(DayPlace, [slash, MonthPlace, slash, YearPlace], e);
    assert [YearPlace] + [] == [YearPlace] && [slash] + [YearPlace] == [slash, YearPlace];
    assert [MonthPlace] + [slash, YearPlace] == [MonthPlace, slash, YearPlace];
    assert [slash] + [MonthPlace, slash, YearPlace] == [slash, MonthPlace, slash, YearPlace];
    assert [DayPlace] + [slash, MonthPlace, slash, YearPlace] == SLASHED;
    Joined(e.day, e.month, e.year);
  }

  lemma Joined(d: string, m: string, y: string)
    ensures d + ("/" + (m + ("/" + (y + "")))) == d + "/" + m + "/" + y
  {
  }

  lemma SlashedIsFormat()
    ensures IsFormat(SLASHED, 0, 4, 2, Digits) && FormatText(SLASHED, Digits) == "dd/mm/yyyy"
  {
    hide IsFormat, Flat;
    FixedTextWithoutLetters(SLASHED, 0, 4, 2, Digits);
    FlatSlashed(FormatFilling(Digits));
  }

  lemma NoFormat(time: int, s: string)
    ensures AsString(time, "") == AsString(time, "dd/mm/yyyy") && Parsed(s, "") == Parsed(s, "dd/mm/yyyy")
  {
    hide ReplaceAll, YearOf, MonthOf, DateOf, ZeroPad, IntText, MonthRead, YearRead, DateRead, WithMonth, WithFullYear;
    hide WithDate, START, MONTH_NAMES, ABBR_MONTH_NAMES;
  }

  /** Without a format a date is written as day, month and year with slashes between. */
  lemma DefaultIsWritten(time: int)
    ensures var day := time / MS_PER_DAY;
            AsString(time, "") == ZeroPad(DateOf(day)) + "/" + ZeroPad(MonthOf(day) + 1) + "/" + IntText(YearOf(day))
  {
    hide AsString, Parsed, Flat, IsFormat, NoOtherTokens, FormatText, YearOf, MonthOf, DateOf, ZeroPad, IntText;
    hide MonthText, SLASHED;
    var day := time / MS_PER_DAY;
    NoFormat(time, "");
    SlashedIsFormat();
    FormatSuits(SLASHED, 0, 4, 2, Digits, MonthOf(day));
    AsStringFills(time, SLASHED, 0, 4, 2, Digits);
    FlatSlashed(FillingOf(day, Digits));
    MonthTextIs(Digits, MonthOf(day));
  }

  lemma FormatSuits(ps: seq<Piece>, kd: nat, ky: nat, km: nat, style: Style, month: nat)
    requires IsFormat(ps, kd, ky, km, style)
    ensures Suits(ps, kd, ky, km, style, month)
  {
    hide NoOtherTokens, FollowedByH;
  }

  /** And read back from that, if the year has four digits. */
  lemma DefaultIsReadBack(time: int)
    requires 1000 <= YearOf(time / MS_PER_DAY) <= 9999
    ensures Parsed(AsString(time, ""), "") == Num(time / MS_PER_DAY * MS_PER_DAY)
  {
    hide AsString, Parsed, Flat, IsFormat, Suits, FormatText, YearOf, MonthOf, SLASHED;
    NoFormat(time, AsString(time, ""));
    SlashedIsFormat();
    FormatSuits(SLASHED, 0, 4, 2, Digits, MonthOf(time / MS_PER_DAY));
    RoundTrip(time, SLASHED, 0, 4, 2, Digits);
  }

  // ----- the time of the day

  lemma Absent(s: string, pattern: string, other: string)
    requires pattern != "" && pattern[0] !in s
    ensures ReplaceAll(s, pattern, other) == s && IndexOf(s, pattern, 0) == -1
  {
    hide ReplaceAll;
    forall i ensures !OccursAt(s, pattern, i) {
      NotAt(s, pattern, i, 0);
    }
    ReplaceNone(s, pattern, other);
  }

  lemma Single(s: string, pattern: string, c: char, other: string)
    requires IsRun(pattern, c) && Isolated(s, c)
    ensures ReplaceAll(s, pattern, other) == s && IndexOf(s, pattern, 0) == -1
  {
    hide ReplaceAll, Isolated;
    RunAbsent(s, pattern, c);
    ReplaceNone(s, pattern, other);
  }

  lemma Runs()
    ensures IsRun("yy", 'y') && IsRun("yyyy", 'y') && IsRun("mm", 'm') && IsRun("mmm", 'm') && IsRun("mmmm", 'm')
    ensures IsRun("dd", 'd') && IsRun("hh", 'h') && IsRun("ss", 's')
  {
  }

  lemma ClockTokens()
    ensures 'y' !in "hh:min:ss" && Isolated("hh:min:ss", 'm') && 'd' !in "hh:min:ss"
    ensures Apart("", ":min:ss", 'h') && "" + "hh" + ":min:ss" == "hh:min:ss"
  {
  }

  lemma HoursPut(h: string, m: string, s: string)
    requires AllDigits(h) && AllDigits(m) && AllDigits(s)
    ensures ReplaceAll(ReplaceAll(ReplaceAll("hh:min:ss", "hh", h), "min", m), "ss", s) == h + ":" + m + ":" + s
  {
    hide ReplaceAll, IsRun, Apart;
    Runs();
    ClockTokens();
    RunReplaced("", "hh", ":min:ss", 'h', h);
    assert "" + h + ":min:ss" == (h + ":") + "min" + ":ss";
    MinutesPlace(h);
    ReplaceOnce(h + ":", "min", ":ss", m);
    SecondsPlace(h, m);
    RunReplaced(h + ":" + m + ":", "ss", "", 's', s);
    assert (h + ":") + m + ":ss" == (h + ":" + m + ":") + "ss" + "";
    assert (h + ":" + m + ":") + s + "" == h + ":" + m + ":" + s;
  }

  lemma MinutesPlace(h: string)
    requires AllDigits(h)
    ensures var u, v := h + ":", ":ss";
            && (forall i :: 0 <= i < |u| ==> !OccursAt(u + "min" + v, "min", i))
            && (forall i :: !OccursAt(v, "min", i))
  {
    var u, v := h + ":", ":ss";
    forall i | 0 <= i < |u| ensures !OccursAt(u + "min" + v, "min", i) {
      assert (u + "min" + v)[i] == u[i];
      NotAt(u + "min" + v, "min", i, 0);
    }
    forall i ensures !OccursAt(v, "min", i) {
      NotAt(v, "min", i, 0);
    }
  }

  lemma SecondsPlace(h: string, m: string)
    requires AllDigits(h) && AllDigits(m)
    ensures Apart(h + ":" + m + ":", "", 's')
  {
    var u := h + ":" + m + ":";
    assert u[|u| - 1] == ':';
  }

  /** Nothing of the date is put into a format of the time. */
  lemma NoDateInClock(y: string, yy: string, m: nat, d: string)
    requires m < 12
    ensures ReplaceAll(AllMonths(ReplaceAll(ReplaceAll("hh:min:ss", "yyyy", y), "yy", yy), m), "dd", d) == "hh:min:ss"
  {
    hide ReplaceAll, ZeroPad, MONTH_NAMES, ABBR_MONTH_NAMES, IsRun, Isolated, AllMonths;
    var f := "hh:min:ss";
    AllMonthsIs(f, m);
    Runs();
    ClockTokens();
    NamesCount();
    Absent(f, "yyyy", y);
    Absent(f, "yy", yy);
    Single(f, "mmmm", 'm', MONTH_NAMES[m]);
    Single(f, "mmm", 'm', ABBR_MONTH_NAMES[m]);
    Single(f, "mm", 'm', ZeroPad(m + 1));
    Absent(f, "dd", d);
  }

  /** The hours, minutes and seconds of the day are written, which together make the time of the day but for its
      milliseconds. */
  lemma ClockIsWritten(time: int) returns (h: nat, m: nat, s: nat)
    ensures h < 24 && m < 60 && s < 60 && time % MS_PER_DAY / 1000 == (60 * h + m) * 60 + s
    ensures AsString(time, "hh:min:ss") == ZeroPad(h) + ":" + ZeroPad(m) + ":" + ZeroPad(s)
  {
    hide AsString, ReplaceAll, YearOf, MonthOf, DateOf, ZeroPad, IntText, AllMonths;
    h, m, s := time / 3600000 % 24, time / 60000 % 60, time / 1000 % 60;
    var day := time / MS_PER_DAY;
    var year := IntText(YearOf(day));
    AsStringIs(time, "hh:min:ss");
    NoDateInClock(year, if |year| < 2 then "" else year[2..], MonthOf(day), ZeroPad(DateOf(day)));
    ZeroPadIs(h);
    ZeroPadIs(m);
    ZeroPadIs(s);
    HoursPut(ZeroPad(h), ZeroPad(m), ZeroPad(s));
    ClockParts(time);
  }

  lemma Twice(time: int)
    ensures time / 60000 == time / 1000 / 60 && time / 3600000 == time / 1000 / 60 / 60
  {
  }

  lemma WithinDay(time: int)
    ensures time % MS_PER_DAY / 1000 == time / 1000 % 86400
  {
  }

  lemma ClockParts(time: int)
    ensures time % MS_PER_DAY / 1000 == (60 * (time / 3600000 % 24) + time / 60000 % 60) * 60 + time / 1000 % 60
  {
    Twice(time);
    WithinDay(time);
    Sixties(time / 1000);
  }

  lemma Sixties(t: int)
    ensures t % 86400 == (60 * (t / 60 / 60 % 24) + t / 60 % 60) * 60 + t % 60
  {
  }

  // ----- years of two digits

  const SHORT_YEAR := "dd/mm/yy"

  function Slashes(d: string, m: string, y: string): string {
    d + "/" + m + "/" + y
  }

  lemma AroundYear()
    ensures Apart("dd/mm/", "", 'y') && SHORT_YEAR == "dd/mm/" + "yy" + ""
  {
  }

  lemma AroundMonth(y: string)
    requires 'm' !in y
    ensures Apart("dd/", "/" + y, 'm') && "dd/mm/" + y == "dd/" + "mm" + ("/" + y)
  {
  }

  lemma AroundDay(m: string, y: string)
    requires 'd' !in m && 'd' !in y
    ensures Apart("", "/" + m + "/" + y, 'd') && "dd/" + m + ("/" + y) == "" + "dd" + ("/" + m + "/" + y)
  {
  }

  lemma ShorterNotReplaced(u: string, w: string, v: string, pattern: string, c: char, other: string)
    requires Apart(u, v, c) && IsRun(w, c) && IsRun(pattern, c) && |w| < |pattern|
    ensures ReplaceAll(u + w + v, pattern, other) == u + w + v && IndexOf(u + w + v, pattern, 0) == -1
  {
    hide ReplaceAll;
    ShorterRun(u, w, v, pattern, c);
    ReplaceNone(u + w + v, pattern, other);
  }

  /** The last two digits stand where the year does. */
  lemma YearPut(year: string, y: string)
    ensures ReplaceAll(ReplaceAll(SHORT_YEAR, "yyyy", year), "yy", y) == "dd/mm/" + y
  {
    hide ReplaceAll, IsRun, Apart;
    Runs();
    AroundYear();
    ShorterNotReplaced("dd/mm/", "yy", "", "yyyy", 'y', year);
    RunReplaced("dd/mm/", "yy", "", 'y', y);
    assert "dd/mm/" + y + "" == "dd/mm/" + y;
  }

  lemma MonthPut(y: string, m: nat)
    requires m < 12 && 'm' !in y
    ensures AllMonths("dd/mm/" + y, m) == "dd/" + ZeroPad(m + 1) + ("/" + y)
  {
    hide ReplaceAll, IsRun, Apart, ZeroPad, MONTH_NAMES, ABBR_MONTH_NAMES;
    Runs();
    NamesCount();
    AroundMonth(y);
    ShorterNotReplaced("dd/", "mm", "/" + y, "mmmm", 'm', MONTH_NAMES[m]);
    ShorterNotReplaced("dd/", "mm", "/" + y, "mmm", 'm', ABBR_MONTH_NAMES[m]);
    RunReplaced("dd/", "mm", "/" + y, 'm', ZeroPad(m + 1));
  }

  lemma DayPut(d: string, m: string, y: string)
    requires AllDigits(d) && AllDigits(m) && AllDigits(y)
    ensures ReplaceAll("dd/" + m + ("/" + y), "dd", d) == Slashes(d, m, y)
    ensures forall c :: c in Slashes(d, m, y) ==> IsDigit(c) || c == '/'
  {
    hide ReplaceAll, IsRun, Apart;
    Runs();
    AroundDay(m, y);
    RunReplaced("", "dd", "/" + m + "/" + y, 'd', d);
    assert "" + d + ("/" + m + "/" + y) == Slashes(d, m, y);
  }

  lemma RestAbsent(s: string, h: string, m: string, sec: string)
    requires forall c :: c in s ==> IsDigit(c) || c == '/'
    ensures ReplaceAll(ReplaceAll(ReplaceAll(s, "hh", h), "min", m), "ss", sec) == s
  {
    hide ReplaceAll;
    Absent(s, "hh", h);
    Absent(s, "min", m);
    Absent(s, "ss", sec);
  }

  /** The last two digits of a year of four. */
  lemma LastTwo(y: int)
    requires 1000 <= y <= 9999
    ensures |IntText(y)| == 4
    ensures var t := IntText(y)[2..];
            |t| == 2 && AllDigits(t) && AllDigits("20" + t) && ValueOf("20" + t) == 2000 + y % 100
  {
    hide ToString, ValueOf, Pow10;
    FourDigits(y);
    PowersOfTen();
    var h, t := IntText(y)[..2], IntText(y)[2..];
    assert IntText(y) == h + t;
    ValueConcat(h, t);
    ValueBound(t);
    ValueConcat("20", t);
    Twenty();
  }

  lemma Twenty()
    ensures ValueOf("20") == 20
  {
    hide ValueOf;
    ValueSnoc("", '2');
    ValueSnoc("2", '0');
    assert "" + ['2'] == "2" && "2" + ['0'] == "20";
  }

  /** With two digits for the year it is written as its last two. */
  lemma ShortIsWritten(time: int)
    requires 1000 <= YearOf(time / MS_PER_DAY) <= 9999
    ensures var day := time / MS_PER_DAY;
            && |IntText(YearOf(day))| == 4
            && AsString(time, SHORT_YEAR)
               == Slashes(ZeroPad(DateOf(day)), ZeroPad(MonthOf(day) + 1), IntText(YearOf(day))[2..])
  {
    hide AsString, ReplaceAll, YearOf, MonthOf, DateOf, ZeroPad, IntText, AllMonths, SHORT_YEAR, Slashes, ValueOf;
    var day := time / MS_PER_DAY;
    var d, m, year := ZeroPad(DateOf(day)), ZeroPad(MonthOf(day) + 1), IntText(YearOf(day));
    ShortNotEmpty();
    AsStringIs(time, SHORT_YEAR);
    LastTwo(YearOf(day));
    ZeroPadIs(DateOf(day));
    ZeroPadIs(MonthOf(day) + 1);
    YearPut(year, year[2..]);
    MonthPut(year[2..], MonthOf(day));
    DayPut(d, m, year[2..]);
    RestAbsent(Slashes(d, m, year[2..]), ZeroPad(time / 3600000 % 24), ZeroPad(time / 60000 % 60),
               ZeroPad(time / 1000 % 60));
  }

  lemma ShortNotEmpty()
    ensures SHORT_YEAR != ""
  {
  }

  lemma ShortPlaces()
    ensures IndexOf(SHORT_YEAR, "yyyy", 0) == -1 && IndexOf(SHORT_YEAR, "yy", 0) == 6
    ensures IndexOf(SHORT_YEAR, "mmmm", 0) == -1 && IndexOf(SHORT_YEAR, "mmm", 0) == -1
    ensures IndexOf(SHORT_YEAR, "mm", 0) == 3
    ensures IndexOf(SHORT_YEAR, "dd", 0) == 0
  {
    hide IndexOf, IsRun, Apart, ReplaceAll;
    Runs();
    AroundYear();
    AroundMonth("yy");
    AroundDay("mm", "yy");
    assert "/" + "yy" == "/yy" && "/" + "mm" + "/" + "yy" == "/mm/yy" && "dd/" + "mm" + "/yy" == SHORT_YEAR;
    assert "" + "dd" + "/mm/yy" == SHORT_YEAR && |"dd/mm/"| == 6 && |"dd/"| == 3;
    ShorterNotReplaced("dd/mm/", "yy", "", "yyyy", 'y', "");
    ShorterNotReplaced("dd/", "mm", "/yy", "mmmm", 'm', "");
    ShorterNotReplaced("dd/", "mm", "/yy", "mmm", 'm', "");
    RunFound("dd/mm/", "yy", "", 'y');
    RunFound("dd/", "mm", "/yy", 'm');
    RunFound("", "dd", "/mm/yy", 'd');
  }

  lemma PlacesRead(d: string, m: string, y: string)
    requires |d| == 2 && |m| == 2 && |y| == 2
    ensures var s := Slashes(d, m, y);
            Substr(s, 0, 2) == d && Substr(s, 3, 2) == m && Substr(s, 6, 2) == y
  {
    hide Substr;
    var s := Slashes(d, m, y);
    assert s == "" + d + ("/" + m + "/" + y);
    assert s == (d + "/") + m + ("/" + y);
    assert s == (d + "/" + m + "/") + y + "";
    SubstrWhole("", d, "/" + m + "/" + y);
    SubstrWhole(d + "/", m, "/" + y);
    SubstrWhole(d + "/" + m + "/", y, "");
  }

  /** It is read as a year from 2000 on. */
  lemma ShortIsRead(time: int)
    requires 1000 <= YearOf(time / MS_PER_DAY) <= 9999
    ensures var day := time / MS_PER_DAY;
            Parsed(AsString(time, SHORT_YEAR), SHORT_YEAR)
            == Num(MakeDay(2000 + YearOf(day) % 100, MonthOf(day), DateOf(day)) * MS_PER_DAY)
  {
    hide AsString, YearOf, MonthOf, DateOf, ZeroPad, IntText, SHORT_YEAR, Slashes, ValueOf, IndexOf, Substr, FindName;
    hide WithMonth, WithFullYear, WithDate, MakeDay, START;
    var day := time / MS_PER_DAY;
    var y := IntText(YearOf(day));
    ShortNotEmpty();
    ShortIsWritten(time);
    ShortPlaces();
    LastTwo(YearOf(day));
    ZeroPadIs(DateOf(day));
    ZeroPadIs(MonthOf(day) + 1);
    PlacesRead(ZeroPad(DateOf(day)), ZeroPad(MonthOf(day) + 1), y[2..]);
    StartOver(2000 + YearOf(day) % 100, MonthOf(day), DateOf(day));
  }

  lemma StaysInYear(y: int, m: nat, d: nat)
    requires m < 12 && 1 <= d <= 31
    ensures YearOf(MakeDay(y, m, d)) == y
  {
    hide YearOf, DayFromYear;
    var day := MakeDay(y, m, d);
    var r := YearOf(day);
    YearStep(y);
    if r < y {
      YearsAscend(r + 1, y);
    } else if r > y {
      YearsAscend(y + 1, r);
    }
  }

  /** A date with a four-digit year is read back from two digits if and only if its year is one from 2000 to 2099. */
  lemma ShortIsReadBackIff(time: int)
    requires 1000 <= YearOf(time / MS_PER_DAY) <= 9999
    ensures Parsed(AsString(time, SHORT_YEAR), SHORT_YEAR) == Num(time / MS_PER_DAY * MS_PER_DAY)
            <==> 2000 <= YearOf(time / MS_PER_DAY) <= 2099
  {
    hide AsString, YearOf, MonthOf, DateOf, SHORT_YEAR, Parsed, MakeDay, DaysInMonth;
    var day := time / MS_PER_DAY;
    ShortIsRead(time);
    DayOfDate(day);
    StaysInYear(2000 + YearOf(day) % 100, MonthOf(day), DateOf(day));
  }
}
