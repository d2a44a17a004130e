/** Writing dates in a format and reading them back. */
module DateTexts {
  import opened Texts
  import opened Decimals
  import opened Calendar

  const MONTH_NAMES: seq<string> := ["January", "February", "March", "April", "May", "June", "July",
    "August", "September", "October", "November", "December"]
  const ABBR_MONTH_NAMES: seq<string> := ["Jan", "Feb", "Mar", "Apr", "May", "Jun", "Jul", "Aug", "Sep", "Oct",
    "Nov", "Dec"]
  const DEFAULT_FORMAT := "dd/mm/yyyy"
  const FULL_YEAR_START := "20"

  /** The last two digits, after one zero. */
  function ZeroPad(num: nat): string {
    var s := "0" + ToString(num);
    s[|s| - 2..]
  }

  /** A Date written as text; time is its valid time value. */
  function AsString(time: int, format: string): string {
    var day := time / MS_PER_DAY;
    var year := IntText(YearOf(day));
    var r := if format == "" then DEFAULT_FORMAT else format;
    var r1 := ReplaceAll(r, "yyyy", year);
    var r2 := ReplaceAll(r1, "yy", if |year| < 2 then "" else year[2..]);
    var r3 := ReplaceAll(r2, "mmmm", MONTH_NAMES[MonthOf(day)]);
    var r4 := ReplaceAll(r3, "mmm", ABBR_MONTH_NAMES[MonthOf(day)]);
    var r5 := ReplaceAll(r4, "mm", ZeroPad(MonthOf(day) + 1));
    var r6 := ReplaceAll(r5, "dd", ZeroPad(DateOf(day)));
    var r7 := ReplaceAll(r6, "hh", ZeroPad(time / 3600000 % 24));
    var r8 := ReplaceAll(r7, "min", ZeroPad(time / 60000 % 60));
    ReplaceAll(r8, "ss", ZeroPad(time / 1000 % 60))
  }

  /** String.substr: a negative start counts from the end, and what is not there is left out. */
  function Substr(s: string, start: int, length: nat): string {
    var from := if start >= 0 then start else if |s| + start >= 0 then |s| + start else 0;
    if from >= |s| then "" else if from + length <= |s| then s[from..from + length] else s[from..]
  }

  /** Number, on digits; anything else counts as no number. */
  function NumberOf(s: string): Number {
    if AllDigits(s) then Num(ValueOf(s)) else NaN
  }

  /** The first name found at a place, or 12. */
  function FindName(s: string, at: int, names: seq<string>, from: nat): (i: nat)
    requires from <= |names|
    ensures from <= i <= |names|
    ensures i < |names| ==> names[i] == Substr(s, at, |names[i]|)
    ensures forall j :: from <= j < i ==> names[j] != Substr(s, at, |names[j]|)
    decreases |names| - from
  {
    if from == |names| || names[from] == Substr(s, at, |names[from]|) then from
    else FindName(s, at, names, from + 1)
  }

  /** The month read, where it was read, and by how much a full name shifts what follows. */
  function MonthRead(s: string, f: string): (Number, int, int) {
    var long, short := IndexOf(f, "mmmm", 0), IndexOf(f, "mmm", 0);
    if long > -1 then
      var i := FindName(s, long, MONTH_NAMES, 0);
      (Num(i), long, if i < 12 then |MONTH_NAMES[i]| - 4 else 0)
    else if short > -1 then (Num(FindName(s, short, ABBR_MONTH_NAMES, 0)), short, 0)
    else
      var n := NumberOf(Substr(s, IndexOf(f, "mm", 0), 2));
      (if n.NaN? then NaN else Num(n.value - 1), -1, 0)
  }

  function Shift(at: int, iM: int, mLength: int): int {
    if iM < at then at + mLength else at
  }

  function YearRead(s: string, f: string, iM: int, mLength: int): Number {
    var iY := IndexOf(f, "yyyy", 0);
    if iY > -1 then NumberOf(Substr(s, Shift(iY, iM, mLength), 4))
    else NumberOf(FULL_YEAR_START + Substr(s, IndexOf(f, "yy", 0), 2))
  }

  function DateRead(s: string, f: string, iM: int, mLength: int): Number {
    NumberOf(Substr(s, Shift(IndexOf(f, "dd", 0), iM, mLength), 2))
  }

  /** The first of January 1977. */
  const START: Number := Num(MakeDay(1977, 0, 1) * MS_PER_DAY)

  /** The time value read from a text, or NaN where fromString gives false. */
  function Parsed(s: string, format: string): Number {
    var f := if format == "" then DEFAULT_FORMAT else format;
    var (month, iM, mLength) := MonthRead(s, f);
    WithDate(WithFullYear(WithMonth(START, month), YearRead(s, f, iM, mLength)), DateRead(s, f, iM, mLength))
  }

  /** Reads the month and puts the date into it. */
  method ReadMonth(d: Date, s: string, f: string) returns (iM: int, mLength: int)
    modifies d
    ensures d.time == WithMonth(old(d.time), MonthRead(s, f).0)
    ensures iM == MonthRead(s, f).1 && mLength == MonthRead(s, f).2
  {
    hide IndexOf, NumberOf, Substr, WithMonth;
    mLength := 0;
    iM := IndexOf(f, "mmmm", 0);
    if iM > -1 {
      var i := 0;
      while i < |MONTH_NAMES|
        modifies {}
        invariant 0 <= i <= |MONTH_NAMES| && mLength == 0
        invariant FindName(s, iM, MONTH_NAMES, 0) == FindName(s, iM, MONTH_NAMES, i)
      {
        var mStr := Substr(s, iM, |MONTH_NAMES[i]|);
        if MONTH_NAMES[i] == mStr {
          mLength := |MONTH_NAMES[i]| - 4;
          break;
        }
        i := i + 1;
      }
      d.SetMonth(Num(i));
    } else {
      iM := IndexOf(f, "mmm", 0);
      if iM > -1 {
        var mStr := Substr(s, iM, 3);
        var i := 0;
        while i < |ABBR_MONTH_NAMES|
          modifies {}
          invariant 0 <= i <= |ABBR_MONTH_NAMES|
          invariant FindName(s, iM, ABBR_MONTH_NAMES, 0) == FindName(s, iM, ABBR_MONTH_NAMES, i)
        {
          AbbreviationLength(i);
          if ABBR_MONTH_NAMES[i] == mStr {
            break;
          }
          i := i + 1;
        }
        d.SetMonth(Num(i));
      } else {
        var n := NumberOf(Substr(s, IndexOf(f, "mm", 0), 2));
        d.SetMonth(if n.NaN? then NaN else Num(n.value - 1));
      }
    }
  }

  /** Date.fromString; null is its false. */
  method FromString(s: string, format: string) returns (result: Date?)
    ensures result == null <==> Parsed(s, format).NaN?
    ensures result != null ==> fresh(result) && result.time == Parsed(s, format)
  {
    hide MakeDay, IndexOf, NumberOf, Substr, WithDate, WithFullYear, WithMonth, MonthRead;
    var f := if format == "" then DEFAULT_FORMAT else format;
    StartInRange();
    var d := new Date(START);
    var iM, mLength := ReadMonth(d, s, f);
    var iY := IndexOf(f, "yyyy", 0);
    if iY > -1 {
      if iM < iY {
        iY := iY + mLength;
      }
      d.SetFullYear(NumberOf(Substr(s, iY, 4)));
    } else {
      if iM < iY {
        iY := iY + mLength;
      }
      d.SetFullYear(NumberOf(FULL_YEAR_START + Substr(s, IndexOf(f, "yy", 0), 2)));
    }
    var iD := IndexOf(f, "dd", 0);
    if iM < iD {
      iD := iD + mLength;
    }
    d.SetDate(NumberOf(Substr(s, iD, 2)));
    result := if d.time.NaN? then null else d;
  }

  lemma StartInRange()
    ensures TimeClip(START.value) == START
  {
  }

  lemma AbbreviationLength(i: nat)
    requires i < 12
    ensures |ABBR_MONTH_NAMES[i]| == 3
  {
  }
}
