/** Formats of dates: what stands where, and which letters may stand beside it. */
module DateFormats {
  import opened Texts
  import opened Decimals
  import opened Calendar
  import opened DateTexts

  datatype Style = Digits | Short | Long

  /** A format is made of fixed text and places for the day, the year and the month. */
  datatype Piece = Fixed(text: string) | DayPlace | YearPlace | MonthPlace

  /** What stands in the places. */
  datatype Filling = Filling(day: string, year: string, month: string)

  function TextOf(p: Piece, e: Filling): string {
    match p
    case Fixed(text) => text
    case DayPlace => e.day
    case YearPlace => e.year
    case MonthPlace => e.month
  }

  function Flat(ps: seq<Piece>, e: Filling): string {
    if ps == [] then "" else TextOf(ps[0], e) + Flat(ps[1..], e)
  }

  function Token(style: Style): string {
    match style
    case Digits => "mm"
    case Short => "mmm"
    case Long => "mmmm"
  }

  function MonthText(style: Style, m: nat): string
    requires m < 12
  {
    match style
    case Digits => ZeroPad(m + 1)
    case Short => ABBR_MONTH_NAMES[m]
    case Long => MONTH_NAMES[m]
  }

  function FormatText(ps: seq<Piece>, style: Style): string {
    Flat(ps, FormatFilling(style))
  }

  ghost predicate OnlyAt(ps: seq<Piece>, p: Piece, k: nat) {
    k < |ps| && forall j :: 0 <= j < |ps| ==> (ps[j] == p <==> j == k)
  }

  ghost predicate HasPlaces(ps: seq<Piece>, kd: nat, ky: nat, km: nat) {
    OnlyAt(ps, DayPlace, kd) && OnlyAt(ps, YearPlace, ky) && OnlyAt(ps, MonthPlace, km)
  }

  /** The letter does not stand twice in a row outside place k, nor next to it. */
  ghost predicate Clear(ps: seq<Piece>, e: Filling, k: nat, c: char) {
    k < |ps| && Apart(Flat(ps[..k], e), Flat(ps[k + 1..], e), c)
  }

  ghost predicate NoMinutes(s: string) {
    forall i :: 0 <= i < |s| - 2 ==> s[i] != 'm' || s[i + 1] != 'i' || s[i + 2] != 'n'
  }

  /** Neither hours nor minutes nor seconds occur. */
  ghost predicate Quiet(s: string) {
    Isolated(s, 'h') && Isolated(s, 's') && NoMinutes(s)
  }

  /** A format with a digit in the month's place, which is filled before the minutes are looked for. */
  function Unfilled(year: string): Filling {
    Filling("dd", year, "0")
  }

  /** No token occurs in the text of a format but in its places. */
  ghost predicate NoOtherTokens(ps: seq<Piece>, kd: nat, ky: nat, km: nat, style: Style) {
    var f := FormatFilling(style);
    && HasPlaces(ps, kd, ky, km)
    && Clear(ps, f, kd, 'd') && Clear(ps, f, ky, 'y') && Clear(ps, f, km, 'm')
    && Quiet(Flat(ps, Unfilled("yyyy")))
  }

  predicate Begins(s: string, c: char) {
    s != "" && s[0] == c
  }

  /** An h stands right behind the month. */
  predicate FollowedByH(ps: seq<Piece>, km: nat, style: Style) {
    km < |ps| && Begins(Flat(ps[km + 1..], FormatFilling(style)), 'h')
  }

  /** And none arises when the name of the month is put in; of all full names March alone ends in h. */
  ghost predicate Suits(ps: seq<Piece>, kd: nat, ky: nat, km: nat, style: Style, month: nat) {
    NoOtherTokens(ps, kd, ky, km, style) && (style.Long? && month == 2 ==> !FollowedByH(ps, km, style))
  }

  /** Nor when any full name is. */
  ghost predicate IsFormat(ps: seq<Piece>, kd: nat, ky: nat, km: nat, style: Style) {
    NoOtherTokens(ps, kd, ky, km, style) && (style.Long? ==> !FollowedByH(ps, km, style))
  }

  function FormatFilling(style: Style): Filling {
    Filling("dd", "yyyy", Token(style))
  }

  // ----- pieces in a row

  lemma FlatCons(p: Piece, ps: seq<Piece>, e: Filling)
    ensures Flat([p] + ps, e) == TextOf(p, e) + Flat(ps, e) && Flat([], e) == ""
  {
    hide TextOf;
    assert ([p] + ps)[1..] == ps;
  }

  lemma {:induction false} FlatAt(ps: seq<Piece>, e: Filling, k: nat)
    requires k < |ps|
    ensures Flat(ps, e) == Flat(ps[..k], e) + TextOf(ps[k], e) + Flat(ps[k + 1..], e)
  {
    hide Flat, TextOf;
    var p, rest := ps[0], ps[1..];
    assert ps == [p] + rest;
    FlatCons(p, rest, e);
    if k == 0 {
      assert ps[..0] == [];
    } else {
      FlatAt(rest, e, k - 1);
      assert [p] + rest[..k - 1] == ps[..k] && rest[k..] == ps[k + 1..];
      FlatCons(p, rest[..k - 1], e);
      Associate(TextOf(p, e), Flat(rest[..k - 1], e), TextOf(ps[k], e), Flat(rest[k..], e));
    }
  }

  lemma Associate(a: string, b: string, c: string, d: string)
    ensures a + (b + c + d) == (a + b) + c + d
  {
  }

  lemma {:induction false} FlatLacks(ps: seq<Piece>, e: Filling, c: char)
    requires forall j :: 0 <= j < |ps| ==> c !in TextOf(ps[j], e)
    ensures c !in Flat(ps, e)
  {
    if ps != [] {
      assert c !in TextOf(ps[0], e);
      FlatLacks(ps[1..], e, c);
    }
  }

  lemma {:induction false} FlatSame(ps: seq<Piece>, e: Filling, e': Filling)
    requires forall j :: 0 <= j < |ps| ==> TextOf(ps[j], e) == TextOf(ps[j], e')
    ensures Flat(ps, e) == Flat(ps, e')
  {
    if ps != [] {
      assert TextOf(ps[0], e) == TextOf(ps[0], e');
      FlatSame(ps[1..], e, e');
    }
  }

  lemma {:induction false} FlatLength(ps: seq<Piece>, e: Filling, e': Filling)
    requires forall j :: 0 <= j < |ps| ==> |TextOf(ps[j], e)| == |TextOf(ps[j], e')|
    ensures |Flat(ps, e)| == |Flat(ps, e')|
  {
    if ps != [] {
      assert |TextOf(ps[0], e)| == |TextOf(ps[0], e')|;
      FlatLength(ps[1..], e, e');
    }
  }

  lemma {:induction false} FlatBegins(ps: seq<Piece>, e: Filling, e': Filling, c: char)
    requires forall j :: 0 <= j < |ps| ==> (TextOf(ps[j], e) == "" <==> TextOf(ps[j], e') == "")
    requires forall j :: 0 <= j < |ps| ==> (Begins(TextOf(ps[j], e), c) <==> Begins(TextOf(ps[j], e'), c))
    ensures Begins(Flat(ps, e), c) <==> Begins(Flat(ps, e'), c)
  {
    hide TextOf;
    if ps != [] {
      FlatBegins(ps[1..], e, e', c);
      assert TextOf(ps[0], e) == "" <==> TextOf(ps[0], e') == "";
      assert Begins(TextOf(ps[0], e), c) <==> Begins(TextOf(ps[0], e'), c);
    }
  }

  /** What follows the month is the same letter h, or not, however the other places are filled. */
  lemma FollowerOf(ps: seq<Piece>, kd: nat, ky: nat, km: nat, style: Style, e: Filling)
    requires HasPlaces(ps, kd, ky, km) && e.day != "" && e.year != "" && e.day[0] != 'h' && e.year[0] != 'h'
    ensures km < |ps| && (Begins(Flat(ps[km + 1..], e), 'h') <==> FollowedByH(ps, km, style))
  {
    hide Flat;
    FlatBegins(ps[km + 1..], e, FormatFilling(style), 'h');
  }

  lemma PlaceTexts(ps: seq<Piece>, kd: nat, ky: nat, km: nat, e: Filling)
    requires HasPlaces(ps, kd, ky, km)
    ensures kd < |ps| && ky < |ps| && km < |ps| && kd != km && ky != km && kd != ky
    ensures TextOf(ps[kd], e) == e.day && TextOf(ps[ky], e) == e.year && TextOf(ps[km], e) == e.month
  {
    assert ps[km] == MonthPlace && ps[ky] == YearPlace;
  }

  /** Two fillings that differ in place k only. */
  ghost predicate DifferAt(ps: seq<Piece>, e: Filling, e': Filling, k: nat) {
    k < |ps| && forall j :: 0 <= j < |ps| && j != k ==> TextOf(ps[j], e) == TextOf(ps[j], e')
  }

  lemma OneDiffers(ps: seq<Piece>, kd: nat, ky: nat, km: nat, e: Filling, e': Filling, k: nat)
    requires HasPlaces(ps, kd, ky, km) && k < |ps|
    requires (k == kd || e.day == e'.day) && (k == ky || e.year == e'.year) && (k == km || e.month == e'.month)
    ensures DifferAt(ps, e, e', k)
  {
  }

  /** What is around the place does not change. */
  lemma FlatChange(ps: seq<Piece>, e: Filling, e': Filling, k: nat)
    requires DifferAt(ps, e, e', k)
    ensures Flat(ps[..k], e) == Flat(ps[..k], e') && Flat(ps[k + 1..], e) == Flat(ps[k + 1..], e')
    ensures Flat(ps, e) == Flat(ps[..k], e) + TextOf(ps[k], e) + Flat(ps[k + 1..], e)
    ensures Flat(ps, e') == Flat(ps[..k], e) + TextOf(ps[k], e') + Flat(ps[k + 1..], e)
  {
    hide Flat, TextOf;
    FlatAt(ps, e, k);
    FlatAt(ps, e', k);
    FlatSame(ps[..k], e, e');
    FlatSame(ps[k + 1..], e, e');
  }

  /** Replacing the run of letters in a place fills that place. */
  lemma Fill(ps: seq<Piece>, e: Filling, e': Filling, k: nat, pattern: string, c: char)
    requires DifferAt(ps, e, e', k) && Clear(ps, e, k, c) && IsRun(pattern, c) && TextOf(ps[k], e) == pattern
    ensures ReplaceAll(Flat(ps, e), pattern, TextOf(ps[k], e')) == Flat(ps, e')
  {
    hide Flat, TextOf, ReplaceAll, IsRun;
    FlatChange(ps, e, e', k);
    RunReplaced(Flat(ps[..k], e), pattern, Flat(ps[k + 1..], e), c, TextOf(ps[k], e'));
  }

  lemma Find(ps: seq<Piece>, e: Filling, k: nat, pattern: string, c: char)
    requires Clear(ps, e, k, c) && IsRun(pattern, c) && TextOf(ps[k], e) == pattern
    ensures IndexOf(Flat(ps, e), pattern, 0) == |Flat(ps[..k], e)|
  {
    hide Flat, TextOf, IndexOf, IsRun;
    FlatAt(ps, e, k);
    RunFound(Flat(ps[..k], e), pattern, Flat(ps[k + 1..], e), c);
  }

  /** A longer run than the one in the place does not occur. */
  lemma FindNothing(ps: seq<Piece>, e: Filling, k: nat, pattern: string, c: char)
    requires Clear(ps, e, k, c) && IsRun(TextOf(ps[k], e), c) && IsRun(pattern, c) && |TextOf(ps[k], e)| < |pattern|
    ensures forall other :: ReplaceAll(Flat(ps, e), pattern, other) == Flat(ps, e)
    ensures IndexOf(Flat(ps, e), pattern, 0) == -1
  {
    hide Flat, TextOf, IndexOf, ReplaceAll;
    FlatAt(ps, e, k);
    ShorterRun(Flat(ps[..k], e), TextOf(ps[k], e), Flat(ps[k + 1..], e), pattern, c);
    forall other ensures ReplaceAll(Flat(ps, e), pattern, other) == Flat(ps, e) {
      ReplaceNone(Flat(ps, e), pattern, other);
    }
  }

  lemma SwapLeft(a: string, x: string, b: string, x': string, v: string, c: char)
    requires Apart(a + x + b, v, c) && x != "" && x' != "" && c !in x'
    ensures Apart(a + x' + b, v, c)
  {
    IsolatedKept(a, x, b, x', c);
    var s, t := a + x + b, a + x' + b;
    if b != "" {
      assert t[|t| - 1] == b[|b| - 1] && s[|s| - 1] == b[|b| - 1];
    } else {
      assert t[|t| - 1] == x'[|x'| - 1];
    }
  }

  lemma SwapRight(u: string, a: string, x: string, b: string, x': string, c: char)
    requires Apart(u, a + x + b, c) && x != "" && x' != "" && c !in x'
    ensures Apart(u, a + x' + b, c)
  {
    IsolatedKept(a, x, b, x', c);
    var s, t := a + x + b, a + x' + b;
    if a != "" {
      assert t[0] == a[0] && s[0] == a[0];
    } else {
      assert t[0] == x'[0];
    }
  }

  lemma PartDiffers(ps: seq<Piece>, e: Filling, e': Filling, k: nat, i: nat, j: nat)
    requires DifferAt(ps, e, e', k) && i <= k < j <= |ps|
    ensures DifferAt(ps[i..j], e, e', k - i)
  {
    hide TextOf;
  }

  /** Filling one place leaves room around another. */
  lemma ClearKept(ps: seq<Piece>, e: Filling, e': Filling, j: nat, k: nat, c: char)
    requires Clear(ps, e, k, c) && DifferAt(ps, e, e', j) && j != k
    requires TextOf(ps[j], e) != "" && TextOf(ps[j], e') != "" && c !in TextOf(ps[j], e')
    ensures Clear(ps, e', k, c)
  {
    hide Flat, TextOf, Apart;
    var left, right := ps[..k], ps[k + 1..];
    if j < k {
      PartDiffers(ps, e, e', j, 0, k);
      assert ps[0..k] == left && left[j] == ps[j];
      FlatChange(left, e, e', j);
      FlatSame(right, e, e');
      SwapLeft(Flat(left[..j], e), TextOf(ps[j], e), Flat(left[j + 1..], e), TextOf(ps[j], e'), Flat(right, e), c);
    } else {
      var m := j - k - 1;
      PartDiffers(ps, e, e', j, k + 1, |ps|);
      assert ps[k + 1..|ps|] == right && right[m] == ps[j];
      FlatChange(right, e, e', m);
      FlatSame(left, e, e');
      SwapRight(Flat(left, e), Flat(right[..m], e), TextOf(ps[j], e), Flat(right[m + 1..], e), TextOf(ps[j], e'), c);
    }
  }

  lemma MinutesKept(u: string, w: string, v: string, w': string)
    requires NoMinutes(u + w + v) && w != "" && w' != "" && NoMinutes(w')
    requires w'[0] != 'i' && w'[0] != 'n' && w'[|w'| - 1] != 'm' && w'[|w'| - 1] != 'i'
    ensures NoMinutes(u + w' + v)
  {
    var s, t := u + w + v, u + w' + v;
    forall i | 0 <= i < |t| - 2 ensures t[i] != 'm' || t[i + 1] != 'i' || t[i + 2] != 'n' {
      if i + 2 < |u| {
        assert t[i] == s[i] && t[i + 1] == s[i + 1] && t[i + 2] == s[i + 2];
      } else if i < |u| {
        assert t[|u|] == w'[0];
      } else if i + 2 < |u| + |w'| {
        assert t[i] == w'[i - |u|] && t[i + 1] == w'[i + 1 - |u|] && t[i + 2] == w'[i + 2 - |u|];
      } else if i < |u| + |w'| {
        assert t[|u| + |w'| - 1] == w'[|w'| - 1];
      } else {
        var n := |w| - |w'|;
        assert t[i] == s[i + n] && t[i + 1] == s[i + 1 + n] && t[i + 2] == s[i + 2 + n];
      }
    }
  }

  lemma MinutesAbsent(s: string)
    requires NoMinutes(s)
    ensures forall i :: !OccursAt(s, "min", i)
  {
    forall i ensures !OccursAt(s, "min", i) {
      if 0 <= i < |s| - 2 {
        NotAt(s, "min", i, if s[i] != 'm' then 0 else if s[i + 1] != 'i' then 1 else 2);
      }
    }
  }

  // ----- numbers and month names

  lemma PowersOfTen()
    ensures Pow10(2) == 100 && Pow10(3) == 1000 && Pow10(4) == 10000
  {
    assert Pow10(1) == 10 * Pow10(0);
    assert Pow10(2) == 10 * Pow10(1);
    assert Pow10(3) == 10 * Pow10(2);
    assert Pow10(4) == 10 * Pow10(3);
  }

  lemma ZeroPadIs(n: nat)
    requires n < 100
    ensures |ZeroPad(n)| == 2 && AllDigits(ZeroPad(n)) && ValueOf(ZeroPad(n)) == n
  {
    hide ToString, ValueOf;
    LengthOfToString(n, 2);
    PowersOfTen();
    ValueOfToString(n);
    var s := ToString(n);
    if |s| == 1 {
      ValueOfZeros(1, s);
      assert Zeros(1) == "0";
      assert ZeroPad(n) == "0" + s;
    } else {
      assert ZeroPad(n) == s;
    }
  }

  lemma FourDigits(y: int)
    requires 1000 <= y <= 9999
    ensures |IntText(y)| == 4 && AllDigits(IntText(y)) && ValueOf(IntText(y)) == y
  {
    hide ToString, ValueOf;
    LengthOfToString(y, 4);
    LengthOfToString(y, 3);
    PowersOfTen();
    ValueOfToString(y);
  }

  /** A text that holds none of the letters for which something stands, but for single ones inside, and an h
      at its end. */
  ghost predicate Harmless(w: string) {
    && w != "" && w[0] !in "ymdhsin" && w[|w| - 1] !in "mdsi" && 'd' !in w && NoMinutes(w)
    && Isolated(w, 'm') && Isolated(w, 'h') && Isolated(w, 's')
  }

  lemma NameEnds(m: nat)
    requires m < 12
    ensures var w := MONTH_NAMES[m];
            w != "" && w[0] !in "ymdhsin" && w[|w| - 1] !in "mdsi" && (w[|w| - 1] == 'h' ==> m == 2)
  {
  }

  lemma NameLacksDay(m: nat)
    requires m < 12
    ensures 'd' !in MONTH_NAMES[m]
  {
  }

  lemma NameIsIsolated(m: nat, c: char)
    requires m < 12 && (c == 'm' || c == 'h' || c == 's')
    ensures Isolated(MONTH_NAMES[m], c)
  {
  }

  lemma NameHasNoMinutes(m: nat)
    requires m < 12
    ensures NoMinutes(MONTH_NAMES[m])
  {
  }

  lemma NameIsHarmless(m: nat)
    requires m < 12
    ensures Harmless(MONTH_NAMES[m]) && (MONTH_NAMES[m][|MONTH_NAMES[m]| - 1] == 'h' ==> m == 2)
  {
    hide Isolated, NoMinutes, MONTH_NAMES;
    NamesCount();
    NameEnds(m);
    NameLacksDay(m);
    NameIsIsolated(m, 'm');
    NameIsIsolated(m, 'h');
    NameIsIsolated(m, 's');
    NameHasNoMinutes(m);
  }

  lemma NamesCount()
    ensures |MONTH_NAMES| == 12 && |ABBR_MONTH_NAMES| == 12
  {
  }

  lemma AbbreviationIsHarmless(m: nat)
    requires m < 12
    ensures Harmless(ABBR_MONTH_NAMES[m]) && ABBR_MONTH_NAMES[m][|ABBR_MONTH_NAMES[m]| - 1] != 'h'
  {
  }

  lemma DigitsAreHarmless(w: string)
    requires AllDigits(w) && w != ""
    ensures Harmless(w) && 'y' !in w && 'm' !in w && 'h' !in w && 's' !in w
  {
  }

  lemma MonthTextIs(style: Style, m: nat)
    requires m < 12
    ensures MonthText(style, m) ==
            if style.Digits? then ZeroPad(m + 1) else if style.Short? then ABBR_MONTH_NAMES[m] else MONTH_NAMES[m]
  {
    hide ZeroPad;
  }

  lemma MonthIsHarmless(style: Style, m: nat)
    requires m < 12
    ensures Harmless(MonthText(style, m))
    ensures MonthText(style, m)[|MonthText(style, m)| - 1] == 'h' ==> style.Long? && m == 2
  {
    hide ZeroPad, MonthText, Harmless;
    MonthTextIs(style, m);
    match style
    case Digits =>
      ZeroPadIs(m + 1);
      DigitsAreHarmless(ZeroPad(m + 1));
    case Short => AbbreviationIsHarmless(m);
    case Long => NameIsHarmless(m);
  }
}
