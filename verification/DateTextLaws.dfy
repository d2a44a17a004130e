/** What is written in a format is read back from it. */
module DateTextLaws {
  import opened Texts
  import opened Decimals
  import opened Calendar
  import opened DateTexts
  import opened DateFormats

  // ----- writing

  predicate IsLetter(c: char) {
    c == 'y' || c == 'm' || c == 'd' || c == 'h' || c == 's' || c == 'i' || c == 'n'
  }

  ghost predicate Plain(s: string) {
    s != "" && forall i :: 0 <= i < |s| ==> !IsLetter(s[i])
  }

  lemma PlainIsHarmless(s: string)
    requires Plain(s)
    ensures Harmless(s) && s[|s| - 1] != 'h' && 'y' !in s && 'm' !in s && 'd' !in s && Isolated(s, 'y')
  {
  }

  /** A harmless text in a place keeps the hours, minutes and seconds away. */
  lemma QuietKept(ps: seq<Piece>, e: Filling, e': Filling, k: nat)
    requires DifferAt(ps, e, e', k) && Quiet(Flat(ps, e)) && TextOf(ps[k], e) != "" && Harmless(TextOf(ps[k], e'))
    requires TextOf(ps[k], e')[|TextOf(ps[k], e')| - 1] != 'h'
             || Flat(ps[k + 1..], e) == "" || Flat(ps[k + 1..], e)[0] != 'h'
    ensures Quiet(Flat(ps, e'))
  {
    hide Flat, TextOf, Isolated, NoMinutes;
    FlatChange(ps, e, e', k);
    var u, w, v, w' := Flat(ps[..k], e), TextOf(ps[k], e), Flat(ps[k + 1..], e), TextOf(ps[k], e');
    IsolatedKept(u, w, v, w', 'h');
    IsolatedKept(u, w, v, w', 's');
    MinutesKept(u, w, v, w');
  }

  lemma YearStage(ps: seq<Piece>, kd: nat, ky: nat, km: nat, style: Style, year: string, other: string)
    requires NoOtherTokens(ps, kd, ky, km, style) && Plain(year)
    ensures ReplaceAll(FormatText(ps, style), "yyyy", year) == Flat(ps, Filling("dd", year, Token(style)))
    ensures ReplaceAll(Flat(ps, Filling("dd", year, Token(style))), "yy", other)
         == Flat(ps, Filling("dd", year, Token(style)))
  {
    hide Flat, ReplaceAll, HasPlaces, TextOf, Token, Isolated, Plain, Harmless;
    var e, e' := FormatFilling(style), Filling("dd", year, Token(style));
    PlaceTexts(ps, kd, ky, km, e);
    PlaceTexts(ps, kd, ky, km, e');
    OneDiffers(ps, kd, ky, km, e, e', ky);
    Fill(ps, e, e', ky, "yyyy", 'y');
    FlatChange(ps, e, e', ky);
    PlainIsHarmless(year);
    IsolatedBetween(Flat(ps[..ky], e), year, Flat(ps[ky + 1..], e), 'y');
    RunAbsent(Flat(ps, e'), "yy", 'y');
    ReplaceNone(Flat(ps, e'), "yy", other);
  }

  lemma YearKeeps(ps: seq<Piece>, kd: nat, ky: nat, km: nat, style: Style, year: string)
    requires NoOtherTokens(ps, kd, ky, km, style) && Plain(year)
    ensures var e' := Filling("dd", year, Token(style));
            Clear(ps, e', kd, 'd') && Clear(ps, e', km, 'm') && Quiet(Flat(ps, Unfilled(year)))
  {
    hide Flat, HasPlaces, TextOf, Token, Isolated, NoMinutes, Plain, Harmless, Apart, Quiet;
    var e, e' := FormatFilling(style), Filling("dd", year, Token(style));
    PlaceTexts(ps, kd, ky, km, e);
    PlaceTexts(ps, kd, ky, km, e');
    OneDiffers(ps, kd, ky, km, e, e', ky);
    PlainIsHarmless(year);
    HarmlessEnds(year);
    ClearKept(ps, e, e', ky, kd, 'd');
    ClearKept(ps, e, e', ky, km, 'm');
    PlaceTexts(ps, kd, ky, km, Unfilled("yyyy"));
    PlaceTexts(ps, kd, ky, km, Unfilled(year));
    OneDiffers(ps, kd, ky, km, Unfilled("yyyy"), Unfilled(year), ky);
    QuietKept(ps, Unfilled("yyyy"), Unfilled(year), ky);
  }

  lemma HarmlessEnds(w: string)
    requires Harmless(w)
    ensures w != "" && 'd' !in w && w[0] != 'm' && w[|w| - 1] != 'm' && Isolated(w, 'm')
  {
  }

  /** One of the month patterns is the token of the style and is replaced, the others do not occur. */
  lemma MonthPattern(ps: seq<Piece>, kd: nat, ky: nat, km: nat, year: string, token: string, pattern: string, other: string)
    requires HasPlaces(ps, kd, ky, km) && Clear(ps, Filling("dd", year, token), km, 'm') && IsRun(pattern, 'm')
    requires token == pattern || (IsRun(token, 'm') && |token| < |pattern|) || Isolated(token, 'm')
    ensures ReplaceAll(Flat(ps, Filling("dd", year, token)), pattern, other)
         == Flat(ps, Filling("dd", year, if token == pattern then other else token))
  {
    hide Flat, ReplaceAll, HasPlaces, TextOf, IndexOf, Isolated, Apart;
    var e, e' := Filling("dd", year, token), Filling("dd", year, other);
    PlaceTexts(ps, kd, ky, km, e);
    PlaceTexts(ps, kd, ky, km, e');
    if token == pattern {
      OneDiffers(ps, kd, ky, km, e, e', km);
      Fill(ps, e, e', km, pattern, 'm');
    } else if Isolated(token, 'm') {
      FlatAt(ps, e, km);
      IsolatedBetween(Flat(ps[..km], e), token, Flat(ps[km + 1..], e), 'm');
      RunAbsent(Flat(ps, e), pattern, 'm');
      ReplaceNone(Flat(ps, e), pattern, other);
    } else {
      FindNothing(ps, e, km, pattern, 'm');
    }
  }

  function AllMonths(r: string, m: nat): string
    requires m < 12
  {
    ReplaceAll(ReplaceAll(ReplaceAll(r, "mmmm", MONTH_NAMES[m]), "mmm", ABBR_MONTH_NAMES[m]), "mm", ZeroPad(m + 1))
  }

  lemma TokenIs(style: Style)
    ensures Token(style) == if style.Digits? then "mm" else if style.Short? then "mmm" else "mmmm"
    ensures "mm" != "mmm" && "mmm" != "mmmm" && "mmmm" != "mm"
    ensures IsRun("mm", 'm') && IsRun("mmm", 'm') && IsRun("mmmm", 'm')
    ensures |"mm"| == 2 && |"mmm"| == 3 && |"mmmm"| == 4
  {
    assert |"mm"| == 2 && |"mmm"| == 3 && |"mmmm"| == 4;
  }

  /** What stands around the month does not depend on what stands in its place. */
  lemma ClearSelf(ps: seq<Piece>, kd: nat, ky: nat, km: nat, year: string, month: string, other: string)
    requires HasPlaces(ps, kd, ky, km) && Clear(ps, Filling("dd", year, month), km, 'm')
    ensures Clear(ps, Filling("dd", year, other), km, 'm')
  {
    hide Flat, HasPlaces, TextOf, Apart;
    OneDiffers(ps, kd, ky, km, Filling("dd", year, month), Filling("dd", year, other), km);
    FlatChange(ps, Filling("dd", year, month), Filling("dd", year, other), km);
  }

  lemma MonthStage(ps: seq<Piece>, kd: nat, ky: nat, km: nat, style: Style, year: string, m: nat)
    requires HasPlaces(ps, kd, ky, km) && Clear(ps, Filling("dd", year, Token(style)), km, 'm') && m < 12
    ensures AllMonths(Flat(ps, Filling("dd", year, Token(style))), m)
         == Flat(ps, Filling("dd", year, MonthText(style, m)))
  {
    hide Flat, ReplaceAll, HasPlaces, Clear, Harmless, Token, MonthText, ZeroPad, AllMonths, IsRun, Isolated, MONTH_NAMES;
    hide ABBR_MONTH_NAMES;
    NamesCount();
    MonthTextIs(style, m);
    TokenIs(style);
    MonthIsHarmless(style, m);
    HarmlessEnds(MonthText(style, m));
    RunIsNotIsolated(MonthText(style, m));
    var one := if style.Long? then MONTH_NAMES[m] else Token(style);
    var two := if style.Short? then ABBR_MONTH_NAMES[m] else one;
    ClearSelf(ps, kd, ky, km, year, Token(style), one);
    ClearSelf(ps, kd, ky, km, year, Token(style), two);
    MonthPattern(ps, kd, ky, km, year, Token(style), "mmmm", MONTH_NAMES[m]);
    MonthPattern(ps, kd, ky, km, year, one, "mmm", ABBR_MONTH_NAMES[m]);
    MonthPattern(ps, kd, ky, km, year, two, "mm", ZeroPad(m + 1));
    AllMonthsIs(Flat(ps, Filling("dd", year, Token(style))), m);
  }

  lemma RunIsNotIsolated(w: string)
    requires Isolated(w, 'm')
    ensures w != "mmm" && w != "mm"
  {
    assert "mm"[0] == "mm"[1] == 'm' && "mmm"[0] == "mmm"[1] == 'm';
  }

  lemma AllMonthsIs(r: string, m: nat)
    requires m < 12
    ensures AllMonths(r, m) == ReplaceAll(ReplaceAll(ReplaceAll(r, "mmmm", MONTH_NAMES[m]), "mmm", ABBR_MONTH_NAMES[m]),
                                          "mm", ZeroPad(m + 1))
  {
    hide ReplaceAll, ZeroPad;
  }

  lemma MonthKeeps(ps: seq<Piece>, kd: nat, ky: nat, km: nat, style: Style, year: string, m: nat)
    requires HasPlaces(ps, kd, ky, km) && m < 12 && Quiet(Flat(ps, Unfilled(year)))
    requires style.Long? && m == 2 ==> !Begins(Flat(ps[km + 1..], Unfilled(year)), 'h')
    ensures Quiet(Flat(ps, Filling("dd", year, MonthText(style, m))))
  {
    hide Flat, HasPlaces, Harmless, MonthText, Quiet, Isolated;
    var e, e' := Unfilled(year), Filling("dd", year, MonthText(style, m));
    PlaceTexts(ps, kd, ky, km, e);
    PlaceTexts(ps, kd, ky, km, e');
    OneDiffers(ps, kd, ky, km, e, e', km);
    MonthIsHarmless(style, m);
    HarmlessEnds(MonthText(style, m));
    QuietKept(ps, e, e', km);
  }

  lemma DayStage(ps: seq<Piece>, kd: nat, ky: nat, km: nat, day: string, year: string, month: string)
    requires HasPlaces(ps, kd, ky, km) && Clear(ps, Filling("dd", year, month), kd, 'd') && Plain(day)
    ensures ReplaceAll(Flat(ps, Filling("dd", year, month)), "dd", day) == Flat(ps, Filling(day, year, month))
    ensures Quiet(Flat(ps, Filling("dd", year, month))) ==> Quiet(Flat(ps, Filling(day, year, month)))
  {
    hide Flat, ReplaceAll, HasPlaces, TextOf, Harmless, Clear, Plain, Quiet, Isolated;
    var e, e' := Filling("dd", year, month), Filling(day, year, month);
    PlaceTexts(ps, kd, ky, km, e);
    PlaceTexts(ps, kd, ky, km, e');
    OneDiffers(ps, kd, ky, km, e, e', kd);
    Fill(ps, e, e', kd, "dd", 'd');
    PlainIsHarmless(day);
    if Quiet(Flat(ps, e)) {
      QuietKept(ps, e, e', kd);
    }
  }

  lemma RestStage(s: string, hours: string, minutes: string, seconds: string)
    requires Quiet(s)
    ensures ReplaceAll(s, "hh", hours) == s && ReplaceAll(s, "min", minutes) == s && ReplaceAll(s, "ss", seconds) == s
  {
    hide ReplaceAll, Isolated, NoMinutes;
    RunAbsent(s, "hh", 'h');
    ReplaceNone(s, "hh", hours);
    MinutesAbsent(s);
    ReplaceNone(s, "min", minutes);
    RunAbsent(s, "ss", 's');
    ReplaceNone(s, "ss", seconds);
  }

  /** The filling for a day. */
  function FillingOf(day: int, style: Style): Filling {
    Filling(ZeroPad(DateOf(day)), IntText(YearOf(day)), MonthText(style, MonthOf(day)))
  }

  lemma NumbersArePlain(day: int)
    ensures Plain(ZeroPad(DateOf(day))) && Plain(IntText(YearOf(day)))
  {
    hide YearOf, DateOf, ToString, ZeroPad;
    ZeroPadIs(DateOf(day));
    DigitsArePlain(ZeroPad(DateOf(day)));
    var y := YearOf(day);
    DigitsArePlain(ToString(if y < 0 then -y else y));
  }

  lemma DigitsArePlain(s: string)
    requires AllDigits(s) && s != ""
    ensures Plain(s)
  {
  }

  lemma FormatNotEmpty(ps: seq<Piece>, kd: nat, ky: nat, km: nat, style: Style)
    requires HasPlaces(ps, kd, ky, km)
    ensures FormatText(ps, style) != ""
  {
    FlatAt(ps, FormatFilling(style), kd);
  }

  lemma AsStringIs(time: int, r: string)
    requires r != ""
    ensures var day := time / MS_PER_DAY;
            var year := IntText(YearOf(day));
            AsString(time, r) ==
            ReplaceAll(ReplaceAll(ReplaceAll(ReplaceAll(AllMonths(ReplaceAll(ReplaceAll(r, "yyyy", year),
              "yy", if |year| < 2 then "" else year[2..]), MonthOf(day)), "dd", ZeroPad(DateOf(day))),
              "hh", ZeroPad(time / 3600000 % 24)), "min", ZeroPad(time / 60000 % 60)), "ss", ZeroPad(time / 1000 % 60))
  {
    hide ReplaceAll, ZeroPad, YearOf, MonthOf, DateOf, IntText;
  }

  /** Up to the hours, the writing of a date fills every place of the format. */
  lemma PlacesFilled(day: int, ps: seq<Piece>, kd: nat, ky: nat, km: nat, style: Style, other: string)
    requires NoOtherTokens(ps, kd, ky, km, style)
    ensures var e := FillingOf(day, style);
            var r := ReplaceAll(ReplaceAll(FormatText(ps, style), "yyyy", e.year), "yy", other);
            && ReplaceAll(AllMonths(r, MonthOf(day)), "dd", e.day) == Flat(ps, e)
            && (Suits(ps, kd, ky, km, style, MonthOf(day)) ==> Quiet(Flat(ps, e)))
  {
    hide Flat, ReplaceAll, HasPlaces, Clear, Token, MonthText, ZeroPad, Plain, AllMonths, IntText, Isolated, NoMinutes;
    hide YearOf, MonthOf, DateOf, FormatText, Quiet, FollowedByH, Begins;
    var d, y, m := ZeroPad(DateOf(day)), IntText(YearOf(day)), MonthOf(day);
    NumbersArePlain(day);
    YearStage(ps, kd, ky, km, style, y, other);
    YearKeeps(ps, kd, ky, km, style, y);
    MonthStage(ps, kd, ky, km, style, y, m);
    DayClear(ps, kd, ky, km, style, y, m);
    DayStage(ps, kd, ky, km, d, y, MonthText(style, m));
    if Suits(ps, kd, ky, km, style, m) {
      FollowerOfYear(ps, kd, ky, km, style, y);
      MonthKeeps(ps, kd, ky, km, style, y, m);
    }
  }

  lemma FollowerOfYear(ps: seq<Piece>, kd: nat, ky: nat, km: nat, style: Style, year: string)
    requires HasPlaces(ps, kd, ky, km) && Plain(year)
    ensures km < |ps| && (Begins(Flat(ps[km + 1..], Unfilled(year)), 'h') <==> FollowedByH(ps, km, style))
  {
    hide Flat, HasPlaces, FollowedByH;
    FollowerOf(ps, kd, ky, km, style, Unfilled(year));
  }

  lemma DayClear(ps: seq<Piece>, kd: nat, ky: nat, km: nat, style: Style, year: string, m: nat)
    requires HasPlaces(ps, kd, ky, km) && m < 12 && Clear(ps, Filling("dd", year, Token(style)), kd, 'd')
    ensures Clear(ps, Filling("dd", year, MonthText(style, m)), kd, 'd')
  {
    hide Flat, HasPlaces, Clear, Harmless, Token, MonthText;
    var e, e' := Filling("dd", year, Token(style)), Filling("dd", year, MonthText(style, m));
    PlaceTexts(ps, kd, ky, km, e);
    PlaceTexts(ps, kd, ky, km, e');
    OneDiffers(ps, kd, ky, km, e, e', km);
    TokenLength(style);
    MonthIsHarmless(style, m);
    HarmlessEnds(MonthText(style, m));
    ClearKept(ps, e, e', km, kd, 'd');
  }

  /** Writing fills every place of the format with the day, the year and the month, and leaves the fixed
      text alone. */
  lemma AsStringFills(time: int, ps: seq<Piece>, kd: nat, ky: nat, km: nat, style: Style)
    requires Suits(ps, kd, ky, km, style, MonthOf(time / MS_PER_DAY))
    ensures AsString(time, FormatText(ps, style)) == Flat(ps, FillingOf(time / MS_PER_DAY, style))
  {
    hide AsString, Flat, ReplaceAll, HasPlaces, Clear, MonthText, ZeroPad, AllMonths, IntText, Isolated, NoMinutes, Quiet;
    hide YearOf, MonthOf, DateOf, FormatText;
    var day := time / MS_PER_DAY;
    var y := IntText(YearOf(day));
    FormatNotEmpty(ps, kd, ky, km, style);
    AsStringIs(time, FormatText(ps, style));
    PlacesFilled(day, ps, kd, ky, km, style, if |y| < 2 then "" else y[2..]);
    RestStage(Flat(ps, FillingOf(day, style)), ZeroPad(time / 3600000 % 24), ZeroPad(time / 60000 % 60),
              ZeroPad(time / 1000 % 60));
  }

  // ----- reading

  lemma SubstrWhole(u: string, w: string, v: string)
    requires w != ""
    ensures Substr(u + w + v, |u|, |w|) == w
  {
    assert (u + w + v)[|u|..|u| + |w|] == w;
  }

  lemma SubstrChar(u: string, w: string, v: string, n: nat, p: nat)
    requires p < |w| && p < n
    ensures |Substr(u + w + v, |u|, n)| > p && Substr(u + w + v, |u|, n)[p] == w[p]
  {
  }

  lemma PlaceIsRead(ps: seq<Piece>, e: Filling, k: nat)
    requires k < |ps| && TextOf(ps[k], e) != ""
    ensures Substr(Flat(ps, e), |Flat(ps[..k], e)|, |TextOf(ps[k], e)|) == TextOf(ps[k], e)
  {
    hide Flat, TextOf, Substr;
    FlatAt(ps, e, k);
    SubstrWhole(Flat(ps[..k], e), TextOf(ps[k], e), Flat(ps[k + 1..], e));
  }

  // No two names of months begin with the same three letters.

  lemma NamesAreLong(names: seq<string>, i: nat)
    requires i < 12 && (names == MONTH_NAMES || names == ABBR_MONTH_NAMES)
    ensures |names| == 12 && |names[i]| >= 3
  {
  }

  lemma InitialsDiffer(i: nat, m: nat)
    requires i < m < 12
    ensures |ABBR_MONTH_NAMES[i]| == |ABBR_MONTH_NAMES[m]| == 3
    ensures exists p: nat :: p < 3 && ABBR_MONTH_NAMES[i][p] != ABBR_MONTH_NAMES[m][p]
  {
    var v, w := ABBR_MONTH_NAMES[i], ABBR_MONTH_NAMES[m];
    assert v[0] != w[0] || v[1] != w[1] || v[2] != w[2];
  }

  lemma NamesBeginLikeAbbreviations(i: nat)
    requires i < 12
    ensures |MONTH_NAMES[i]| >= 3 && MONTH_NAMES[i][..3] == ABBR_MONTH_NAMES[i]
  {
  }

  /** The month's name is the first that is found where it stands. */
  lemma NameIsFound(u: string, v: string, names: seq<string>, m: nat)
    requires m < 12 && (names == MONTH_NAMES || names == ABBR_MONTH_NAMES)
    ensures |names| == 12 && FindName(u + names[m] + v, |u|, names, 0) == m
  {
    hide FindName, Substr;
    NamesAreLong(names, m);
    SubstrWhole(u, names[m], v);
    var i := FindName(u + names[m] + v, |u|, names, 0);
    assert i <= m;
    if i < m {
      InitialsDiffer(i, m);
      NamesBeginLikeAbbreviations(i);
      NamesBeginLikeAbbreviations(m);
      var p: nat :| p < 3 && ABBR_MONTH_NAMES[i][p] != ABBR_MONTH_NAMES[m][p];
      SubstrChar(u, names[m], v, |names[i]|, p);
      assert false;
    }
  }

  // Where the places lie in the format and in the text written.

  /** A filled format whose day and year are as long as their places. */
  ghost predicate Fits(e: Filling) {
    |e.day| == 2 && |e.year| == 4 && e.month != ""
  }

  lemma PrefixLength(ps: seq<Piece>, e: Filling, k: nat, l: nat)
    requires k < l <= |ps|
    ensures |Flat(ps[..l], e)| == |Flat(ps[..k], e)| + |TextOf(ps[k], e)| + |Flat(ps[k + 1..l], e)|
  {
    hide Flat, TextOf;
    FlatAt(ps[..l], e, k);
    assert ps[..l][..k] == ps[..k] && ps[..l][k + 1..] == ps[k + 1..l];
  }

  lemma SameLength(ps: seq<Piece>, kd: nat, ky: nat, km: nat, e: Filling, e': Filling, k: nat, l: nat)
    requires HasPlaces(ps, kd, ky, km) && k <= l <= |ps| && !(k <= km < l)
    requires |e.day| == |e'.day| && |e.year| == |e'.year|
    ensures |Flat(ps[k..l], e)| == |Flat(ps[k..l], e')|
  {
    hide Flat;
    FlatLength(ps[k..l], e, e');
  }

  /** What follows the month is shifted by as much as its text is longer than its place, what precedes it
      is not. */
  lemma PlaceShifts(ps: seq<Piece>, kd: nat, ky: nat, km: nat, style: Style, e: Filling, k: nat, iM: int)
    requires HasPlaces(ps, kd, ky, km) && Fits(e) && (k == kd || k == ky)
    requires style.Digits? ==> |e.month| == 2
    requires var f := Filling("dd", "yyyy", Token(style));
             iM == if style.Digits? then -1 else |Flat(ps[..km], f)|
    ensures var f := Filling("dd", "yyyy", Token(style));
            Shift(|Flat(ps[..k], f)|, iM, |e.month| - |Token(style)|) == |Flat(ps[..k], e)|
  {
    hide Flat, TextOf, Token, HasPlaces;
    var f := Filling("dd", "yyyy", Token(style));
    TokenLength(style);
    PlaceTexts(ps, kd, ky, km, f);
    PlaceTexts(ps, kd, ky, km, e);
    if k < km {
      PrefixLength(ps, f, k, km);
      SameLength(ps, kd, ky, km, f, e, 0, k);
      assert ps[0..k] == ps[..k];
    } else {
      PrefixLength(ps, f, km, k);
      PrefixLength(ps, e, km, k);
      SameLength(ps, kd, ky, km, f, e, 0, km);
      SameLength(ps, kd, ky, km, f, e, km + 1, k);
      assert ps[0..km] == ps[..km];
    }
  }

  lemma TokenLength(style: Style)
    ensures |Token(style)| == if style.Digits? then 2 else if style.Short? then 3 else 4
  {
  }

  /** The tokens are found where their places are. */
  lemma TokensFound(ps: seq<Piece>, kd: nat, ky: nat, km: nat, style: Style)
    requires NoOtherTokens(ps, kd, ky, km, style)
    ensures var f := FormatFilling(style);
            && IndexOf(FormatText(ps, style), "dd", 0) == |Flat(ps[..kd], f)|
            && IndexOf(FormatText(ps, style), "yyyy", 0) == |Flat(ps[..ky], f)|
            && IndexOf(FormatText(ps, style), Token(style), 0) == |Flat(ps[..km], f)|
            && (style != Long ==> IndexOf(FormatText(ps, style), "mmmm", 0) == -1)
            && (style == Digits ==> IndexOf(FormatText(ps, style), "mmm", 0) == -1)
  {
    hide Flat, TextOf, Token, HasPlaces, Clear, IndexOf, ReplaceAll;
    var f := FormatFilling(style);
    PlaceTexts(ps, kd, ky, km, f);
    TokenIs(style);
    Find(ps, f, kd, "dd", 'd');
    Find(ps, f, ky, "yyyy", 'y');
    Find(ps, f, km, Token(style), 'm');
    if style != Long {
      FindNothing(ps, f, km, "mmmm", 'm');
    }
    if style == Digits {
      FindNothing(ps, f, km, "mmm", 'm');
    }
  }

  lemma FillingFits(day: int, style: Style)
    requires 1000 <= YearOf(day) <= 9999
    ensures Fits(FillingOf(day, style))
    ensures style != Long ==> |FillingOf(day, style).month| == |Token(style)|
    ensures NumberOf(FillingOf(day, style).day) == Num(DateOf(day))
    ensures NumberOf(FillingOf(day, style).year) == Num(YearOf(day))
    ensures style == Digits ==> NumberOf(FillingOf(day, style).month) == Num(MonthOf(day) + 1)
  {
    hide YearOf, MonthOf, DateOf, ZeroPad, IntText, MONTH_NAMES, ABBR_MONTH_NAMES, ValueOf;
    FourDigits(YearOf(day));
    ZeroPadIs(DateOf(day));
    ZeroPadIs(MonthOf(day) + 1);
    NamesAreLong(MONTH_NAMES, MonthOf(day));
    AbbreviationLength(MonthOf(day));
  }

  /** Where the month is taken to be read from, and the shift that causes. */
  function MonthAt(ps: seq<Piece>, km: nat, style: Style): int
    requires km < |ps|
  {
    if style.Digits? then -1 else |Flat(ps[..km], Filling("dd", "yyyy", Token(style)))|
  }

  lemma FillingMonth(day: int, style: Style)
    ensures FillingOf(day, style).month == MonthText(style, MonthOf(day))
  {
    hide YearOf, MonthOf, DateOf, ZeroPad, IntText, MONTH_NAMES, ABBR_MONTH_NAMES;
  }

  /** The text of the month lies where its place does. */
  lemma MonthLies(ps: seq<Piece>, kd: nat, ky: nat, km: nat, style: Style, e: Filling)
    requires HasPlaces(ps, kd, ky, km) && Fits(e)
    ensures var f := Filling("dd", "yyyy", Token(style));
            && |Flat(ps[..km], f)| == |Flat(ps[..km], e)|
            && Flat(ps, e) == Flat(ps[..km], e) + e.month + Flat(ps[km + 1..], e)
  {
    hide Flat, TextOf, Token, HasPlaces;
    var f := Filling("dd", "yyyy", Token(style));
    PlaceTexts(ps, kd, ky, km, e);
    SameLength(ps, kd, ky, km, f, e, 0, km);
    assert ps[0..km] == ps[..km];
    FlatAt(ps, e, km);
  }

  /** The month is read back, from where it was written, and with the shift it causes. */
  lemma MonthIsRead(ps: seq<Piece>, kd: nat, ky: nat, km: nat, style: Style, day: int)
    requires NoOtherTokens(ps, kd, ky, km, style) && 1000 <= YearOf(day) <= 9999
    ensures km < |ps|
    ensures MonthRead(Flat(ps, FillingOf(day, style)), FormatText(ps, style))
         == (Num(MonthOf(day)), MonthAt(ps, km, style), |FillingOf(day, style).month| - |Token(style)|)
  {
    hide Flat, TextOf, Token, HasPlaces, Clear, IndexOf, FormatText, FindName, YearOf, MonthOf, DateOf, FillingOf;
    hide Substr, NumberOf, Fits, ZeroPad, IntText, MonthText;
    var e := FillingOf(day, style);
    var m := MonthOf(day);
    PlaceTexts(ps, kd, ky, km, e);
    TokensFound(ps, kd, ky, km, style);
    TokenIs(style);
    TokenLength(style);
    FillingFits(day, style);
    FillingMonth(day, style);
    MonthTextIs(style, m);
    MonthLies(ps, kd, ky, km, style, e);
    var u, v := Flat(ps[..km], e), Flat(ps[km + 1..], e);
    match style
    case Long => NameIsFound(u, v, MONTH_NAMES, m);
    case Short => NameIsFound(u, v, ABBR_MONTH_NAMES, m);
    case Digits => SubstrWhole(u, e.month, v);
  }

  lemma InYears(y: int, m: nat, d: nat)
    requires 1000 <= y <= 9999 && m < 12 && 1 <= d <= 31
    ensures InRange(MakeDay(y, m, d) * MS_PER_DAY)
  {
  }

  lemma Midnight(day: int)
    ensures day * MS_PER_DAY / MS_PER_DAY == day && day * MS_PER_DAY % MS_PER_DAY == 0
  {
  }

  /** From a first of the month at midnight. */
  lemma OneStep(y: int, m: nat, day: int)
    requires m < 12 && InRange(day * MS_PER_DAY)
    ensures TimeClip(WithDay(MakeDay(y, m, 1) * MS_PER_DAY, day)) == Num(day * MS_PER_DAY)
    ensures MakeDay(y, m, 1) * MS_PER_DAY / MS_PER_DAY == MakeDay(y, m, 1)
    ensures YearOf(MakeDay(y, m, 1)) == y && MonthOf(MakeDay(y, m, 1)) == m && DateOf(MakeDay(y, m, 1)) == 1
  {
    hide MakeDay, YearOf, MonthOf, DateOf, DaysInMonth, InRange;
    Midnight(MakeDay(y, m, 1));
    DateOfDay(y, m, 1);
  }

  lemma StartOver(y: int, m: nat, d: nat)
    requires 1000 <= y <= 9999 && m < 12 && 1 <= d <= 31
    ensures WithDate(WithFullYear(WithMonth(START, Num(m)), Num(y)), Num(d)) == Num(MakeDay(y, m, d) * MS_PER_DAY)
  {
    hide MakeDay, YearOf, MonthOf, DateOf, WithDay, InRange, TimeClip;
    InYears(1977, m, 1);
    InYears(y, m, 1);
    InYears(y, m, d);
    OneStep(1977, 0, MakeDay(1977, m, 1));
    OneStep(1977, m, MakeDay(y, m, 1));
    OneStep(y, m, MakeDay(y, m, d));
  }

  /** A date with a four-digit year is read back from what was written in the same format. */
  lemma RoundTrip(time: int, ps: seq<Piece>, kd: nat, ky: nat, km: nat, style: Style)
    requires Suits(ps, kd, ky, km, style, MonthOf(time / MS_PER_DAY)) && 1000 <= YearOf(time / MS_PER_DAY) <= 9999
    ensures Parsed(AsString(time, FormatText(ps, style)), FormatText(ps, style)) == Num(time / MS_PER_DAY * MS_PER_DAY)
  {
    hide Flat, TextOf, Token, HasPlaces, Clear, IndexOf, FormatText, MonthRead, AsString, YearOf, MonthOf, DateOf, FillingOf;
    hide Substr, NumberOf, Fits, Shift, WithDate, WithFullYear, WithMonth, MakeDay;
    var day := time / MS_PER_DAY;
    var e := FillingOf(day, style);
    var text, format := Flat(ps, e), FormatText(ps, style);
    FormatNotEmpty(ps, kd, ky, km, style);
    AsStringFills(time, ps, kd, ky, km, style);
    FillingFits(day, style);
    FitsIs(e);
    PlaceTexts(ps, kd, ky, km, e);
    TokenLength(style);
    TokensFound(ps, kd, ky, km, style);
    MonthIsRead(ps, kd, ky, km, style, day);
    var (month, iM, mLength) := MonthRead(text, format);
    PlaceShifts(ps, kd, ky, km, style, e, ky, iM);
    PlaceShifts(ps, kd, ky, km, style, e, kd, iM);
    PlaceTexts(ps, kd, ky, km, e);
    PlaceIsRead(ps, e, ky);
    PlaceIsRead(ps, e, kd);
    StartOver(YearOf(day), MonthOf(day), DateOf(day));
    DayOfDate(day);
  }

  lemma FitsIs(e: Filling)
    ensures Fits(e) ==> |e.day| == 2 && |e.year| == 4
  {
  }

  // ----- formats and others

  lemma OthersLack(ps: seq<Piece>, kd: nat, ky: nat, km: nat, e: Filling, k: nat, c: char)
    requires HasPlaces(ps, kd, ky, km) && k < |ps|
    requires forall j :: 0 <= j < |ps| && ps[j].Fixed? ==> c !in ps[j].text
    requires (k != kd ==> c !in e.day) && (k != ky ==> c !in e.year) && (k != km ==> c !in e.month)
    ensures Clear(ps, e, k, c)
    ensures Isolated(TextOf(ps[k], e), c) ==> Isolated(Flat(ps, e), c)
  {
    hide Flat;
    forall j | 0 <= j < |ps| && j != k ensures c !in TextOf(ps[j], e) {
    }
    FlatLacks(ps[..k], e, c);
    FlatLacks(ps[k + 1..], e, c);
    FlatAt(ps, e, k);
    if Isolated(TextOf(ps[k], e), c) {
      IsolatedBetween(Flat(ps[..k], e), TextOf(ps[k], e), Flat(ps[k + 1..], e), c);
    }
  }

  /** Any fixed text without the letters y, m, d, h and s will do, wherever the places are. */
  lemma FixedTextWithoutLetters(ps: seq<Piece>, kd: nat, ky: nat, km: nat, style: Style)
    requires HasPlaces(ps, kd, ky, km)
    requires forall j :: 0 <= j < |ps| && ps[j].Fixed? ==>
               'y' !in ps[j].text && 'm' !in ps[j].text && 'd' !in ps[j].text && 'h' !in ps[j].text && 's' !in ps[j].text
    ensures IsFormat(ps, kd, ky, km, style)
  {
    hide HasPlaces, Flat, Clear, Isolated;
    var f, e := FormatFilling(style), Unfilled("yyyy");
    PlaceTexts(ps, kd, ky, km, f);
    PlaceTexts(ps, kd, ky, km, e);
    TokenLacks(style);
    OthersLack(ps, kd, ky, km, f, kd, 'd');
    OthersLack(ps, kd, ky, km, f, ky, 'y');
    OthersLack(ps, kd, ky, km, f, km, 'm');
    OthersLack(ps, kd, ky, km, e, km, 'h');
    OthersLack(ps, kd, ky, km, e, km, 's');
    DigitIsIsolated();
    NoMinutesWithoutM(ps, kd, ky, km, e);
    if style.Long? {
      FollowerIsNotH(ps, kd, ky, km, f);
    }
  }

  lemma TokenLacks(style: Style)
    ensures forall c :: c != 'm' ==> c !in Token(style)
  {
  }

  lemma DigitIsIsolated()
    ensures Isolated("0", 'h') && Isolated("0", 's')
  {
  }

  lemma NoMinutesWithoutM(ps: seq<Piece>, kd: nat, ky: nat, km: nat, e: Filling)
    requires HasPlaces(ps, kd, ky, km) && 'm' !in e.day && 'm' !in e.year && 'm' !in e.month
    requires forall j :: 0 <= j < |ps| && ps[j].Fixed? ==> 'm' !in ps[j].text
    ensures NoMinutes(Flat(ps, e))
  {
    hide Flat;
    forall j | 0 <= j < |ps| ensures 'm' !in TextOf(ps[j], e) {
    }
    FlatLacks(ps, e, 'm');
  }

  lemma FollowerIsNotH(ps: seq<Piece>, kd: nat, ky: nat, km: nat, e: Filling)
    requires HasPlaces(ps, kd, ky, km) && 'h' !in e.day && 'h' !in e.year
    requires forall j :: 0 <= j < |ps| && ps[j].Fixed? ==> 'h' !in ps[j].text
    ensures !Begins(Flat(ps[km + 1..], e), 'h')
  {
    hide Flat;
    var right := ps[km + 1..];
    forall j | 0 <= j < |right| ensures 'h' !in TextOf(right[j], e) {
      assert right[j] == ps[j + km + 1];
    }
    FlatLacks(right, e, 'h');
  }

  /** The letter stands alone, and not at the ends. */
  ghost predicate Framed(s: string, c: char) {
    Isolated(s, c) && (s != "" ==> s[0] != c && s[|s| - 1] != c)
  }

  ghost predicate FramedMinutes(s: string) {
    NoMinutes(s) && (s != "" ==> s[0] != 'i' && s[0] != 'n' && s[|s| - 1] != 'm' && s[|s| - 1] != 'i')
  }

  lemma FramedConcat(s: string, t: string, c: char)
    requires Framed(s, c) && Framed(t, c)
    ensures Framed(s + t, c)
  {
    var u := s + t;
    forall i | 0 <= i < |u| - 1 ensures u[i] != c || u[i + 1] != c {
      if i + 1 < |s| {
        assert u[i] == s[i] && u[i + 1] == s[i + 1];
      } else if i >= |s| {
        assert u[i] == t[i - |s|] && u[i + 1] == t[i + 1 - |s|];
      }
    }
    assert u != "" && t == "" ==> u[|u| - 1] == s[|s| - 1];
  }

  lemma MinutesConcat(s: string, t: string)
    requires FramedMinutes(s) && FramedMinutes(t)
    ensures FramedMinutes(s + t)
  {
    if s == "" {
      assert s + t == t;
    } else if t == "" {
      assert s + t == s;
    } else {
      IsNotBegun(s, t);
    }
  }

  lemma IsNotBegun(s: string, t: string)
    requires FramedMinutes(s) && FramedMinutes(t) && s != "" && t != ""
    ensures FramedMinutes(s + t)
  {
    var u := s + t;
    forall i | 0 <= i < |u| - 2 ensures u[i] != 'm' || u[i + 1] != 'i' || u[i + 2] != 'n' {
      if i + 2 < |s| {
        assert u[i] == s[i] && u[i + 1] == s[i + 1] && u[i + 2] == s[i + 2];
      } else if i < |s| {
        assert u[|s| - 1] == s[|s| - 1] && u[|s|] == t[0];
      } else {
        assert u[i] == t[i - |s|] && u[i + 1] == t[i + 1 - |s|] && u[i + 2] == t[i + 2 - |s|];
      }
    }
  }

  lemma {:induction false} FlatFramed(ps: seq<Piece>, e: Filling, c: char)
    requires forall j :: 0 <= j < |ps| ==> Framed(TextOf(ps[j], e), c)
    ensures Framed(Flat(ps, e), c)
  {
    hide Framed;
    if ps == [] {
      EmptyIsFramed(c);
    } else {
      FlatFramed(ps[1..], e, c);
      FramedConcat(TextOf(ps[0], e), Flat(ps[1..], e), c);
    }
  }

  lemma EmptyIsFramed(c: char)
    ensures Framed("", c) && FramedMinutes("")
  {
  }

  lemma {:induction false} FlatMinutes(ps: seq<Piece>, e: Filling)
    requires forall j :: 0 <= j < |ps| ==> FramedMinutes(TextOf(ps[j], e))
    ensures FramedMinutes(Flat(ps, e))
  {
    hide FramedMinutes;
    if ps == [] {
      EmptyIsFramed('m');
    } else {
      FlatMinutes(ps[1..], e);
      MinutesConcat(TextOf(ps[0], e), Flat(ps[1..], e));
    }
  }

  /** No text of a piece other than k has the letter twice in a row or at its ends. */
  lemma ClearOfFrames(ps: seq<Piece>, e: Filling, k: nat, c: char)
    requires k < |ps| && forall j :: 0 <= j < |ps| && j != k ==> Framed(TextOf(ps[j], e), c)
    ensures Clear(ps, e, k, c) && Framed(Flat(ps[k + 1..], e), c)
  {
    hide Flat, TextOf, Isolated;
    FlatFramed(ps[..k], e, c);
    FlatFramed(ps[k + 1..], e, c);
  }

  ghost predicate FixedFramed(ps: seq<Piece>) {
    forall j :: 0 <= j < |ps| && ps[j].Fixed? ==>
      var t := ps[j].text;
      Framed(t, 'y') && Framed(t, 'm') && Framed(t, 'd') && Framed(t, 'h') && Framed(t, 's') && FramedMinutes(t)
  }

  lemma PiecesFramed(ps: seq<Piece>, kd: nat, ky: nat, km: nat, e: Filling, k: nat, c: char)
    requires HasPlaces(ps, kd, ky, km) && FixedFramed(ps) && c in ['y', 'm', 'd', 'h', 's']
    requires (k == kd || Framed(e.day, c)) && (k == ky || Framed(e.year, c)) && (k == km || Framed(e.month, c))
    ensures forall j :: 0 <= j < |ps| && j != k ==> Framed(TextOf(ps[j], e), c)
  {
    hide Framed;
  }

  lemma TokensFramed(style: Style)
    ensures forall c :: c != 'd' ==> Framed("dd", c)
    ensures forall c :: c != 'y' ==> Framed("yyyy", c)
    ensures forall c :: c != 'm' ==> Framed(Token(style), c)
    ensures forall c :: c != '0' ==> Framed("0", c)
    ensures FramedMinutes("dd") && FramedMinutes("yyyy") && FramedMinutes("0")
  {
  }

  lemma QuietOfFrames(ps: seq<Piece>, kd: nat, ky: nat, km: nat, e: Filling)
    requires HasPlaces(ps, kd, ky, km) && FixedFramed(ps) && e == Unfilled("yyyy")
    ensures Quiet(Flat(ps, e))
  {
    hide Flat, Isolated, NoMinutes;
    TokensFramed(Long);
    PiecesFramed(ps, kd, ky, km, e, |ps|, 'h');
    PiecesFramed(ps, kd, ky, km, e, |ps|, 's');
    FlatFramed(ps, e, 'h');
    FlatFramed(ps, e, 's');
    FlatMinutes(ps, e);
  }

  /** Fixed texts in which y, m, d, h and s stand alone and not at the ends do no harm, such as those of
      dd de mmmm de yyyy. */
  lemma FramedFixedText(ps: seq<Piece>, kd: nat, ky: nat, km: nat, style: Style)
    requires HasPlaces(ps, kd, ky, km) && FixedFramed(ps)
    ensures IsFormat(ps, kd, ky, km, style)
  {
    hide HasPlaces, FixedFramed, Flat, Clear, Isolated, Quiet, TextOf;
    var f := FormatFilling(style);
    PlaceTexts(ps, kd, ky, km, f);
    TokensFramed(style);
    PiecesFramed(ps, kd, ky, km, f, kd, 'd');
    ClearOfFrames(ps, f, kd, 'd');
    PiecesFramed(ps, kd, ky, km, f, ky, 'y');
    ClearOfFrames(ps, f, ky, 'y');
    PiecesFramed(ps, kd, ky, km, f, km, 'm');
    ClearOfFrames(ps, f, km, 'm');
    PiecesFramed(ps, kd, ky, km, f, km, 'h');
    ClearOfFrames(ps, f, km, 'h');
    QuietOfFrames(ps, kd, ky, km, Unfilled("yyyy"));
  }

  lemma DayDeMonthDeYear(ps: seq<Piece>)
    requires ps == [DayPlace, Fixed(" de "), MonthPlace, Fixed(" de "), YearPlace]
    ensures IsFormat(ps, 0, 4, 2, Long)
  {
    hide IsFormat;
    FramedFixedText(ps, 0, 4, 2, Long);
  }
}
