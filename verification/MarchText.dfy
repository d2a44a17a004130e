/** Formats in which an h stands right behind the full name of the month: the h at the end of March makes hours
    of it. */
module MarchTexts {
  import opened Texts
  import opened Decimals
  import opened Calendar
  import opened DateTexts
  import opened DateFormats
  import opened DateTextLaws

  /** The date written in a format is read back from it. */
  predicate ReadBack(time: int, format: string) {
    Parsed(AsString(time, format), format) == Num(time / MS_PER_DAY * MS_PER_DAY)
  }

  // ----- writing

  /** A filled format in which the name of March lost its last letter, and the text behind it its first. */
  function MarchText(ps: seq<Piece>, km: nat, e: Filling, hours: string): string
    requires km < |ps| && Flat(ps[km + 1..], e) != ""
  {
    Flat(ps[..km], e) + ("Marc" + hours) + Flat(ps[km + 1..], e)[1..]
  }

  lemma RoomForHours(u: string, rest: string)
    requires Isolated(u + "0h" + rest, 'h')
    ensures Apart(u + "Marc", rest, 'h')
  {
    var s, w := u + "0h" + rest, u + "Marc";
    forall i | 0 <= i < |w| - 1 ensures w[i] != 'h' || w[i + 1] != 'h' {
      if i + 1 < |u| {
        assert s[i] == u[i] && s[i + 1] == u[i + 1];
      }
    }
    forall i | 0 <= i < |rest| - 1 ensures rest[i] != 'h' || rest[i + 1] != 'h' {
      assert s[|u| + 2 + i] == rest[i] && s[|u| + 3 + i] == rest[i + 1];
    }
    assert s[|u| + 1] == 'h' && (rest != "" ==> s[|u| + 2] == rest[0]);
  }

  lemma MarcIsHarmless(hours: string)
    requires AllDigits(hours) && hours != ""
    ensures var w := "Marc" + hours;
            && NoMinutes(w) && Isolated(w, 'h') && Isolated(w, 's')
            && w[0] !in "inhs" && w[|w| - 1] !in "mihs"
  {
  }

  lemma StillQuiet(u: string, rest: string, hours: string)
    requires Quiet(u + "0h" + rest) && AllDigits(hours) && hours != ""
    ensures Quiet(u + ("Marc" + hours) + rest)
  {
    hide Isolated, NoMinutes;
    MarcIsHarmless(hours);
    IsolatedKept(u, "0h", rest, "Marc" + hours, 'h');
    IsolatedKept(u, "0h", rest, "Marc" + hours, 's');
    MinutesKept(u, "0h", rest, "Marc" + hours);
  }

  lemma HoursReplaced(u: string, rest: string, hours: string, minutes: string, seconds: string)
    requires Quiet(u + "0h" + rest) && AllDigits(hours) && hours != ""
    ensures ReplaceAll(ReplaceAll(ReplaceAll(u + "March" + ("h" + rest), "hh", hours), "min", minutes), "ss", seconds)
         == u + ("Marc" + hours) + rest
  {
    hide ReplaceAll, Isolated, NoMinutes, Apart;
    RoomForHours(u, rest);
    assert u + "March" + ("h" + rest) == (u + "Marc") + "hh" + rest;
    RunReplaced(u + "Marc", "hh", rest, 'h', hours);
    assert (u + "Marc") + hours + rest == u + ("Marc" + hours) + rest;
    StillQuiet(u, rest, hours);
    RestStage(u + ("Marc" + hours) + rest, hours, minutes, seconds);
  }

  /** With a digit in the month's place the format stays quiet. */
  lemma QuietFilled(ps: seq<Piece>, kd: nat, ky: nat, km: nat, style: Style, day: string, year: string)
    requires NoOtherTokens(ps, kd, ky, km, style) && Plain(day) && Plain(year)
    ensures Quiet(Flat(ps, Filling(day, year, "0")))
  {
    hide Flat, HasPlaces, TextOf, Clear, Plain, Harmless, Quiet;
    PlaceTexts(ps, kd, ky, km, Unfilled(year));
    PlaceTexts(ps, kd, ky, km, Filling(day, year, "0"));
    YearKeeps(ps, kd, ky, km, style, year);
    PlainIsHarmless(day);
    OneDiffers(ps, kd, ky, km, Unfilled(year), Filling(day, year, "0"), kd);
    QuietKept(ps, Unfilled(year), Filling(day, year, "0"), kd);
  }

  lemma MarchName()
    ensures MONTH_NAMES[2] == "March" && "March"[4] == 'h'
  {
  }

  /** What stands around the month, and the h behind it. */
  lemma AroundMarch(ps: seq<Piece>, kd: nat, ky: nat, km: nat, day: int)
    requires NoOtherTokens(ps, kd, ky, km, Long) && FollowedByH(ps, km, Long) && MonthOf(day) == 2
    ensures var e := FillingOf(day, Long);
            && Begins(Flat(ps[km + 1..], e), 'h')
            && Flat(ps, e) == Flat(ps[..km], e) + "March" + Flat(ps[km + 1..], e)
            && Quiet(Flat(ps[..km], e) + "0h" + Flat(ps[km + 1..], e)[1..])
  {
    hide Flat, HasPlaces, TextOf, Clear, Quiet, FollowedByH, MonthText, ZeroPad, IntText, YearOf, MonthOf, DateOf;
    hide Plain, MONTH_NAMES, Isolated, NoMinutes, Begins;
    var e := FillingOf(day, Long);
    var e' := Filling(e.day, e.year, "0");
    PlaceTexts(ps, kd, ky, km, e);
    PlaceTexts(ps, kd, ky, km, e');
    NamesCount();
    MonthTextIs(Long, 2);
    MarchName();
    NumbersArePlain(day);
    PlainBegins(e.day);
    PlainBegins(e.year);
    FollowerOf(ps, kd, ky, km, Long, e);
    OneDiffers(ps, kd, ky, km, e, e', km);
    FlatChange(ps, e, e', km);
    QuietFilled(ps, kd, ky, km, Long, e.day, e.year);
    HSplit(Flat(ps[..km], e), Flat(ps[km + 1..], e));
  }

  lemma PlainBegins(s: string)
    requires Plain(s)
    ensures s != "" && s[0] != 'h'
  {
  }

  lemma HSplit(u: string, v: string)
    requires Begins(v, 'h')
    ensures v == "h" + v[1..] && u + "0" + v == u + "0h" + v[1..]
  {
  }

  /** In March the last letter of the month makes hours of the h behind it. */
  lemma MarchIsWritten(time: int, ps: seq<Piece>, kd: nat, ky: nat, km: nat)
    requires NoOtherTokens(ps, kd, ky, km, Long) && FollowedByH(ps, km, Long) && MonthOf(time / MS_PER_DAY) == 2
    ensures var e := FillingOf(time / MS_PER_DAY, Long);
            && km < |ps| && Begins(Flat(ps[km + 1..], e), 'h')
            && AsString(time, FormatText(ps, Long)) == MarchText(ps, km, e, ZeroPad(time / 3600000 % 24))
  {
    hide AsString, Flat, ReplaceAll, HasPlaces, Clear, MonthText, ZeroPad, AllMonths, IntText, FollowedByH, Quiet;
    hide Suits, YearOf, MonthOf, DateOf, FormatText, MONTH_NAMES;
    var day, hours := time / MS_PER_DAY, ZeroPad(time / 3600000 % 24);
    var e, y := FillingOf(day, Long), IntText(YearOf(day));
    AroundMarch(ps, kd, ky, km, day);
    PlaceTexts(ps, kd, ky, km, e);
    FormatNotEmpty(ps, kd, ky, km, Long);
    AsStringIs(time, FormatText(ps, Long));
    PlacesFilled(day, ps, kd, ky, km, Long, if |y| < 2 then "" else y[2..]);
    ZeroPadIs(time / 3600000 % 24);
    HSplit(Flat(ps[..km], e), Flat(ps[km + 1..], e));
    HoursReplaced(Flat(ps[..km], e), Flat(ps[km + 1..], e)[1..], hours, ZeroPad(time / 60000 % 60),
                  ZeroPad(time / 1000 % 60));
  }

  // ----- reading

  lemma Differing(j: nat) returns (p: nat)
    requires j < 12 && j != 2
    ensures p < 3 && |MONTH_NAMES[j]| > p && MONTH_NAMES[j][p] != "Marc"[p]
  {
    NamesBeginLikeAbbreviations(j);
    if j < 2 {
      InitialsDiffer(j, 2);
    } else {
      InitialsDiffer(2, j);
    }
    p :| p < 3 && ABBR_MONTH_NAMES[j][p] != ABBR_MONTH_NAMES[2][p];
    assert ABBR_MONTH_NAMES[2] == "Mar";
  }

  lemma NotMarch(u: string, hours: string, rest: string, j: nat)
    requires AllDigits(hours) && hours != "" && j < 12
    ensures MONTH_NAMES[j] != Substr(u + ("Marc" + hours) + rest, |u|, |MONTH_NAMES[j]|)
  {
    hide Substr, MONTH_NAMES, ABBR_MONTH_NAMES;
    NamesCount();
    var w := "Marc" + hours;
    NamesAreLong(MONTH_NAMES, j);
    MarchName();
    if j == 2 {
      assert w[4] == hours[0];
      SubstrChar(u, w, rest, 5, 4);
    } else {
      var p := Differing(j);
      SubstrChar(u, w, rest, |MONTH_NAMES[j]|, p);
    }
  }

  /** No name is found where March was. */
  lemma NoNameFound(u: string, hours: string, rest: string)
    requires AllDigits(hours) && hours != ""
    ensures FindName(u + ("Marc" + hours) + rest, |u|, MONTH_NAMES, 0) == 12
  {
    hide FindName, Substr;
    NamesCount();
    forall j: nat | j < 12
      ensures MONTH_NAMES[j] != Substr(u + ("Marc" + hours) + rest, |u|, |MONTH_NAMES[j]|)
    {
      NotMarch(u, hours, rest, j);
    }
  }

  lemma MonthIsLost(ps: seq<Piece>, kd: nat, ky: nat, km: nat, e: Filling, hours: string)
    requires NoOtherTokens(ps, kd, ky, km, Long) && Fits(e) && km < |ps| && Flat(ps[km + 1..], e) != ""
    requires AllDigits(hours) && hours != ""
    ensures MonthRead(MarchText(ps, km, e, hours), FormatText(ps, Long)) == (Num(12), |Flat(ps[..km], e)|, 0)
  {
    hide Flat, FindName, IndexOf, FormatText, HasPlaces, Clear, Quiet, Fits, Substr;
    TokensFound(ps, kd, ky, km, Long);
    MonthLies(ps, kd, ky, km, Long, e);
    NoNameFound(Flat(ps[..km], e), hours, Flat(ps[km + 1..], e)[1..]);
    NamesCount();
  }

  /** A place before the month stays, one behind it moves by one. */
  lemma PlaceInMarch(ps: seq<Piece>, kd: nat, ky: nat, km: nat, e: Filling, k: nat, hours: string)
    returns (pre: string, post: string)
    requires HasPlaces(ps, kd, ky, km) && Fits(e) && (k == kd || k == ky) && |hours| == 2
    requires Begins(Flat(ps[km + 1..], e), 'h') && TextOf(ps[k], e) != "" && TextOf(ps[k], e)[0] != 'h'
    ensures k < |ps| && k != km
    ensures MarchText(ps, km, e, hours) == pre + TextOf(ps[k], e) + post
    ensures |pre| == |Flat(ps[..k], Filling("dd", "yyyy", "mmmm"))| + if k < km then 0 else 1
  {
    hide Flat, TextOf, HasPlaces;
    var f := Filling("dd", "yyyy", "mmmm");
    PlaceTexts(ps, kd, ky, km, e);
    PlaceTexts(ps, kd, ky, km, f);
    FitsIs(e);
    var u, v, w := Flat(ps[..km], e), Flat(ps[km + 1..], e), TextOf(ps[k], e);
    if k < km {
      FlatAt(ps[..km], e, k);
      assert ps[..km][..k] == ps[..k] && ps[..km][k] == ps[k];
      pre, post := Flat(ps[..k], e), Flat(ps[..km][k + 1..], e) + ("Marc" + hours) + v[1..];
      SameLength(ps, kd, ky, km, f, e, 0, k);
      assert ps[0..k] == ps[..k];
      InFront(pre, w, Flat(ps[..km][k + 1..], e), "Marc" + hours, v[1..]);
    } else {
      var j := k - km - 1;
      FlatAt(ps[km + 1..], e, j);
      assert ps[km + 1..][..j] == ps[km + 1..k] && ps[km + 1..][j] == ps[k];
      var x, y := Flat(ps[km + 1..k], e), Flat(ps[km + 1..][j + 1..], e);
      pre, post := u + ("Marc" + hours) + x[1..], y;
      PrefixLength(ps, f, km, k);
      SameLength(ps, kd, ky, km, f, e, 0, km);
      SameLength(ps, kd, ky, km, f, e, km + 1, k);
      assert ps[0..km] == ps[..km];
      Behind(u, "Marc" + hours, x, w, y);
    }
  }

  lemma InFront(a: string, w: string, b: string, m: string, c: string)
    ensures (a + w + b) + m + c == a + w + (b + m + c)
  {
  }

  lemma Behind(u: string, m: string, x: string, w: string, y: string)
    requires Begins(x + w + y, 'h') && w != "" && w[0] != 'h'
    ensures x != "" && u + m + (x + w + y)[1..] == (u + m + x[1..]) + w + y
  {
    assert x == "" ==> x + w + y == w + y;
    assert (x + w + y)[1..] == x[1..] + w + y;
  }

  /** Read one too early, a place begins with the character in front of it and lacks its own last one. */
  lemma ReadEarly(pre: string, w: string, post: string)
    requires pre != "" && w != ""
    ensures var r := Substr(pre + w + post, |pre| - 1, |w|);
            |r| == |w| && r[1..] == w[..|w| - 1]
  {
    var s := pre + w + post;
    assert s[|pre| - 1..|pre| - 1 + |w|][1..] == s[|pre|..|pre| + |w| - 1] == w[..|w| - 1];
  }

  /** The text of a place in a date of March, and what is read there. */
  ghost predicate Lies(read: string, w: string, early: bool) {
    if early then |read| == |w| && w != "" && read[1..] == w[..|w| - 1] else read == w
  }

  lemma PlaceOfMarch(ps: seq<Piece>, kd: nat, ky: nat, km: nat, e: Filling, k: nat, hours: string)
    requires HasPlaces(ps, kd, ky, km) && Fits(e) && (k == kd || k == ky) && |hours| == 2
    requires Begins(Flat(ps[km + 1..], e), 'h') && TextOf(ps[k], e) != "" && TextOf(ps[k], e)[0] != 'h'
    ensures k < |ps| && k != km
    ensures var at, w := |Flat(ps[..k], Filling("dd", "yyyy", "mmmm"))|, TextOf(ps[k], e);
            Lies(Substr(MarchText(ps, km, e, hours), at, |w|), w, k > km)
  {
    hide Flat, TextOf, HasPlaces, Substr, Fits, MarchText;
    var pre, post := PlaceInMarch(ps, kd, ky, km, e, k, hours);
    if k < km {
      SubstrWhole(pre, TextOf(ps[k], e), post);
    } else {
      ReadEarly(pre, TextOf(ps[k], e), post);
    }
  }

  /** From the text of a date in March no month is read, and what stands behind the month is read one too early. */
  lemma MarchIsRead(ps: seq<Piece>, kd: nat, ky: nat, km: nat, e: Filling, hours: string)
    returns (year: string, date: string)
    requires NoOtherTokens(ps, kd, ky, km, Long) && km < |ps| && Begins(Flat(ps[km + 1..], e), 'h') && Fits(e)
    requires AllDigits(hours) && |hours| == 2 && AllDigits(e.day) && AllDigits(e.year)
    ensures Lies(year, e.year, ky > km) && Lies(date, e.day, kd > km)
    ensures Parsed(MarchText(ps, km, e, hours), FormatText(ps, Long)) ==
            WithDate(WithFullYear(WithMonth(START, Num(12)), NumberOf(year)), NumberOf(date))
  {
    hide Flat, FindName, IndexOf, FormatText, HasPlaces, Clear, Quiet, Substr, MarchText, TextOf, MonthRead, NumberOf;
    hide Lies, WithDate, WithFullYear, WithMonth, START;
    var f := FormatFilling(Long);
    FitsIs(e);
    PlaceTexts(ps, kd, ky, km, e);
    FormatNotEmpty(ps, kd, ky, km, Long);
    TokensFound(ps, kd, ky, km, Long);
    MonthIsLost(ps, kd, ky, km, e, hours);
    PlaceOfMarch(ps, kd, ky, km, e, ky, hours);
    PlaceOfMarch(ps, kd, ky, km, e, kd, hours);
    year := Substr(MarchText(ps, km, e, hours), |Flat(ps[..ky], f)|, 4);
    date := Substr(MarchText(ps, km, e, hours), |Flat(ps[..kd], f)|, 2);
  }

  // ----- every day of March, when the other places precede the month

  lemma InWideYears(y: int, d: nat)
    requires 0 <= y <= 9999 && d <= 99
    ensures InRange(MakeDay(y, 0, d) * MS_PER_DAY)
  {
  }

  lemma January(y: int, d: nat)
    requires 0 <= y <= 9999 && d <= 99
    ensures WithDate(WithFullYear(WithMonth(START, Num(12)), Num(y)), Num(d)) == Num(MakeDay(y, 0, d) * MS_PER_DAY)
  {
    hide MakeDay, YearOf, MonthOf, DateOf, WithDay, InRange, TimeClip;
    MakeDayIn(1977, 12, 1);
    MakeDayIn(1978, 0, 1);
    InWideYears(1978, 1);
    InWideYears(y, 1);
    InWideYears(y, d);
    OneStep(1977, 0, MakeDay(1978, 0, 1));
    OneStep(1978, 0, MakeDay(y, 0, 1));
    OneStep(y, 0, MakeDay(y, 0, d));
  }

  lemma NumbersOf(day: int)
    requires 1000 <= YearOf(day) <= 9999
    ensures AllDigits(FillingOf(day, Long).day) && AllDigits(FillingOf(day, Long).year)
  {
    hide ZeroPad, IntText, YearOf, MonthOf, DateOf, MonthText;
    ZeroPadIs(DateOf(day));
    FourDigits(YearOf(day));
  }

  /** When the day and the year stand before the month, every day of March is read back as one of January. */
  lemma MarchBecomesJanuary(time: int, ps: seq<Piece>, kd: nat, ky: nat, km: nat)
    requires NoOtherTokens(ps, kd, ky, km, Long) && FollowedByH(ps, km, Long) && kd < km && ky < km
    requires 1000 <= YearOf(time / MS_PER_DAY) <= 9999 && MonthOf(time / MS_PER_DAY) == 2
    ensures var f, day := FormatText(ps, Long), time / MS_PER_DAY;
            && Parsed(AsString(time, f), f) == Num(MakeDay(YearOf(day), 0, DateOf(day)) * MS_PER_DAY)
            && !ReadBack(time, f)
  {
    hide AsString, FormatText, YearOf, MonthOf, DateOf, Flat, MarchText, NoOtherTokens, FollowedByH, Parsed, Fits;
    hide WithDate, WithFullYear, WithMonth, MakeDay, ZeroPad, IntText, START, MonthText, FillingOf, NumberOf;
    var day := time / MS_PER_DAY;
    MarchIsWritten(time, ps, kd, ky, km);
    FillingFits(day, Long);
    NumbersOf(day);
    ZeroPadIs(time / 3600000 % 24);
    var year, date := MarchIsRead(ps, kd, ky, km, FillingOf(day, Long), ZeroPad(time / 3600000 % 24));
    January(YearOf(day), DateOf(day));
    DateOfDay(YearOf(day), 0, DateOf(day));
  }

  // ----- one day of March, wherever the other places are

  /** The second of March 2000, at midnight. */
  const SECOND_OF_MARCH := 11018

  lemma ItsDate()
    ensures YearOf(SECOND_OF_MARCH) == 2000 && MonthOf(SECOND_OF_MARCH) == 2 && DateOf(SECOND_OF_MARCH) == 2
  {
    hide YearOf, MonthOf, DateOf;
    assert MakeDay(2000, 2, 2) == SECOND_OF_MARCH;
    DateOfDay(2000, 2, 2);
  }

  lemma ItsTexts()
    ensures FillingOf(SECOND_OF_MARCH, Long).day == "02" && FillingOf(SECOND_OF_MARCH, Long).year == "2000"
  {
    hide YearOf, MonthOf, DateOf, MonthText;
    ItsDate();
    assert ToString(2) == "2";
    assert ToString(20) == "20";
    assert ToString(200) == "200";
    assert ToString(2000) == "2000";
  }

  lemma EarlyNumber(read: string, w: string) returns (c: nat)
    requires Lies(read, w, true) && AllDigits(w[..|w| - 1])
    ensures c < 10 && (NumberOf(read).Num? ==> NumberOf(read).value == c * Pow10(|w| - 1) + ValueOf(w[..|w| - 1]))
  {
    hide ValueOf, Pow10;
    c := 0;
    if AllDigits(read) {
      c := DigitValue(read[0]);
      assert read == [read[0]] + read[1..];
      ValueConcat([read[0]], read[1..]);
      ValueSnoc([], read[0]);
      assert [] + [read[0]] == [read[0]];
    }
  }

  lemma YearRead2000(read: string, early: bool)
    requires Lies(read, "2000", early) && NumberOf(read).Num?
    ensures var y := NumberOf(read).value;
            if early then 0 <= y <= 9999 && y % 1000 == 200 else y == 2000
  {
    hide ValueOf, Pow10;
    PowersOfTen();
    Values();
    if early {
      assert "2000"[..3] == "200";
      var c := EarlyNumber(read, "2000");
    }
  }

  lemma OneMore(s: string, c: char, t: string)
    requires AllDigits(s) && IsDigit(c) && s + [c] == t
    ensures AllDigits(t) && ValueOf(t) == 10 * ValueOf(s) + DigitValue(c)
  {
    ValueSnoc(s, c);
  }

  lemma Values()
    ensures ValueOf("2000") == 2000 && ValueOf("200") == 200 && ValueOf("02") == 2 && ValueOf("0") == 0
  {
    hide ValueOf;
    ValueSnoc("", '0');
    OneMore("", '2', "2");
    OneMore("", '0', "0");
    OneMore("0", '2', "02");
    OneMore("2", '0', "20");
    OneMore("20", '0', "200");
    OneMore("200", '0', "2000");
  }

  lemma DateReadTwo(read: string, early: bool)
    requires Lies(read, "02", early) && NumberOf(read).Num?
    ensures var d := NumberOf(read).value;
            if early then 0 <= d <= 99 && d % 10 == 0 else d == 2
  {
    hide ValueOf;
    Values();
    if early {
      assert "02"[..1] == "0" && Pow10(1) == 10 * Pow10(0);
      var c := EarlyNumber(read, "02");
    }
  }

  lemma AnotherDay(y: int, d: nat)
    requires 0 <= y <= 9999 && d <= 99
    requires y == 2000 || y % 1000 == 200
    requires d == 2 || d % 10 == 0
    ensures MakeDay(y, 0, d) != SECOND_OF_MARCH
  {
    hide DayFromYear;
    Centuries();
    if y <= 1200 {
      YearsAscend(y, 1200);
    } else if y >= 2200 {
      YearsAscend(2200, y);
    }
  }

  lemma Centuries()
    ensures DayFromYear(1200) < 0 && DayFromYear(2000) == 10957 && DayFromYear(2200) > 20000
  {
  }

  /** That day is not read back. */
  lemma SecondOfMarchFails(ps: seq<Piece>, kd: nat, ky: nat, km: nat)
    requires NoOtherTokens(ps, kd, ky, km, Long) && FollowedByH(ps, km, Long)
    ensures !ReadBack(SECOND_OF_MARCH * MS_PER_DAY, FormatText(ps, Long))
  {
    hide AsString, FormatText, YearOf, MonthOf, DateOf, Flat, MarchText, NoOtherTokens, FollowedByH, Parsed, Fits, Lies;
    hide WithMonth, MakeDay, ZeroPad, IntText, START, MonthText, FillingOf, NumberOf;
    var day, time := SECOND_OF_MARCH, SECOND_OF_MARCH * MS_PER_DAY;
    Midnight(day);
    ItsDate();
    ItsTexts();
    MarchIsWritten(time, ps, kd, ky, km);
    FillingFits(day, Long);
    NumbersOf(day);
    ZeroPadIs(time / 3600000 % 24);
    var year, date := MarchIsRead(ps, kd, ky, km, FillingOf(day, Long), ZeroPad(time / 3600000 % 24));
    if NumberOf(year).Num? && NumberOf(date).Num? {
      YearRead2000(year, ky > km);
      DateReadTwo(date, kd > km);
      January(NumberOf(year).value, NumberOf(date).value);
      AnotherDay(NumberOf(year).value, NumberOf(date).value);
    }
  }

  // ----- the exact condition

  /** Every date with a four-digit year is read back. */
  ghost predicate AllReadBack(format: string) {
    forall time :: 1000 <= YearOf(time / MS_PER_DAY) <= 9999 ==> ReadBack(time, format)
  }

  /** All dates with four-digit years are read back from a format if and only if no h stands right behind a full
      name of the month. */
  lemma AllReadBackIffFormat(ps: seq<Piece>, kd: nat, ky: nat, km: nat, style: Style)
    requires NoOtherTokens(ps, kd, ky, km, style)
    ensures AllReadBack(FormatText(ps, style)) <==> !(style.Long? && FollowedByH(ps, km, style))
  {
    hide YearOf, MonthOf, DateOf, FormatText, NoOtherTokens, FollowedByH, ReadBack;
    if style.Long? && FollowedByH(ps, km, style) {
      ItsDate();
      Midnight(SECOND_OF_MARCH);
      SecondOfMarchFails(ps, kd, ky, km);
      assert !ReadBack(SECOND_OF_MARCH * MS_PER_DAY, FormatText(ps, style));
    } else {
      forall time | 1000 <= YearOf(time / MS_PER_DAY) <= 9999 ensures ReadBack(time, FormatText(ps, style)) {
        IsReadBack(time, ps, kd, ky, km, style);
      }
    }
  }

  lemma IsReadBack(time: int, ps: seq<Piece>, kd: nat, ky: nat, km: nat, style: Style)
    requires NoOtherTokens(ps, kd, ky, km, style) && 1000 <= YearOf(time / MS_PER_DAY) <= 9999
    requires style.Long? && MonthOf(time / MS_PER_DAY) == 2 ==> !FollowedByH(ps, km, style)
    ensures ReadBack(time, FormatText(ps, style))
  {
    hide NoOtherTokens, FollowedByH, YearOf, MonthOf, DateOf, Parsed, AsString, FormatText;
    RoundTrip(time, ps, kd, ky, km, style);
  }

  // ----- an instance

  const DAY_YEAR_MONTH_H: seq<Piece> := [DayPlace, Fixed(" "), YearPlace, Fixed(" "), MonthPlace, Fixed("h")]

  lemma FlatDayYearMonthH()
    ensures Flat(DAY_YEAR_MONTH_H, FormatFilling(Long)) == "dd yyyy mmmmh"
  {
    hide Flat;
    var e, space, h := FormatFilling(Long), Fixed(" "), Fixed("h");
    FlatCons(h, [], e);
    FlatCons(MonthPlace, [h], e);
    FlatCons(space, [MonthPlace, h], e);
    FlatCons(YearPlace, [space, MonthPlace, h], e);
    FlatCons(space, [YearPlace, space, MonthPlace, h], e);
    FlatCons(DayPlace, [space, YearPlace, space, MonthPlace, h], e);
    assert [h] + [] == [h] && [MonthPlace] + [h] == [MonthPlace, h];
    assert [space] + [MonthPlace, h] == [space, MonthPlace, h];
    assert [YearPlace] + [space, MonthPlace, h] == [YearPlace, space, MonthPlace, h];
    assert [space] + [YearPlace, space, MonthPlace, h] == [space, YearPlace, space, MonthPlace, h];
    assert [DayPlace] + [space, YearPlace, space, MonthPlace, h] == DAY_YEAR_MONTH_H;
  }

  lemma HBehindMonth()
    ensures FollowedByH(DAY_YEAR_MONTH_H, 4, Long)
  {
    assert DAY_YEAR_MONTH_H[5..] == [Fixed("h")] + [];
    FlatCons(Fixed("h"), [], FormatFilling(Long));
  }

  lemma FixedOfDayYearMonthH()
    ensures HasPlaces(DAY_YEAR_MONTH_H, 0, 2, 4)
    ensures forall c :: c != ' ' ==> Framed(" ", c)
    ensures forall c :: c != 'h' ==> Framed("h", c)
    ensures FramedMinutes(" ") && FramedMinutes("h")
  {
  }

  lemma FramedIsIsolated(s: string, c: char)
    requires Framed(s, c)
    ensures Isolated(s, c)
  {
  }

  lemma HIsolated(ps: seq<Piece>, e: Filling)
    requires ps == DAY_YEAR_MONTH_H && Clear(ps, e, 5, 'h')
    ensures Isolated(Flat(ps, e), 'h')
  {
    hide Flat;
    FlatAt(ps, e, 5);
    IsolatedBetween(Flat(ps[..5], e), "h", Flat(ps[6..], e), 'h');
  }

  /** The format dd yyyy mmmmh has no other tokens, but the h. */
  lemma DayYearMonthHTokens()
    ensures NoOtherTokens(DAY_YEAR_MONTH_H, 0, 2, 4, Long) && FollowedByH(DAY_YEAR_MONTH_H, 4, Long)
    ensures FormatText(DAY_YEAR_MONTH_H, Long) == "dd yyyy mmmmh"
  {
    hide HasPlaces, Flat, Clear, Isolated, NoMinutes, Framed, FollowedByH;
    var ps, f, e := DAY_YEAR_MONTH_H, FormatFilling(Long), Unfilled("yyyy");
    FlatDayYearMonthH();
    HBehindMonth();
    FixedOfDayYearMonthH();
    TokensFramed(Long);
    ClearOfFrames(ps, f, 0, 'd');
    ClearOfFrames(ps, f, 2, 'y');
    ClearOfFrames(ps, f, 4, 'm');
    ClearOfFrames(ps, e, 5, 'h');
    HIsolated(ps, e);
    FlatFramed(ps, e, 's');
    FramedIsIsolated(Flat(ps, e), 's');
    FlatMinutes(ps, e);
  }
}
