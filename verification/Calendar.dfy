/** Month arithmetic on civil dates, over the day numbers of section 15.9.1 of ECMA-262 5.1. */
module Calendar {
  import opened Options

  const MS_PER_DAY := 86400000

  predicate IsLeap(y: int) {
    (y % 4 == 0 && y % 100 != 0) || y % 400 == 0
  }

  function DaysInMonth(y: int, m: nat): (n: nat)
    requires m < 12
    ensures 28 <= n <= 31
  {
    [31, if IsLeap(y) then 29 else 28, 31, 30, 31, 30, 31, 31, 30, 31, 30, 31][m]
  }

  /** How many years divisible by n lie before y, counted from a year after one of them. */
  function Passed(y: int, n: int, from: int): int
    requires n > 0
  {
    (y - from) / n
  }

  /** The number of the first day of a year; day 0 is the first of January 1970. */
  function DayFromYear(y: int): int {
    365 * (y - 1970) + Passed(y, 4, 1969) - Passed(y, 100, 1901) + Passed(y, 400, 1601)
  }

  /** The day within its year on which a month begins. */
  function MonthStart(y: int, m: nat): nat
    requires m <= 12
  {
    [0, 31, 59, 90, 120, 151, 181, 212, 243, 273, 304, 334, 365][m] + if m >= 2 && IsLeap(y) then 1 else 0
  }

  function Turn(y: int, n: int): int
    requires n > 0
  {
    if y % n == 0 then 1 else 0
  }

  lemma CenturyStep(y: int, n: int, from: int)
    requires (n == 4 && from == 1969) || (n == 100 && from == 1901) || (n == 400 && from == 1601)
    ensures Passed(y + 1, n, from) == Passed(y, n, from) + Turn(y, n)
  {
    if n == 4 {
      FourStep(y);
    } else if n == 100 {
      HundredStep(y);
    } else {
      FourHundredStep(y);
    }
  }

  lemma FourStep(y: int)
    ensures (y + 1 - 1969) / 4 == (y - 1969) / 4 + if y % 4 == 0 then 1 else 0
  {
  }

  lemma HundredStep(y: int)
    ensures (y + 1 - 1901) / 100 == (y - 1901) / 100 + if y % 100 == 0 then 1 else 0
  {
  }

  lemma FourHundredStep(y: int)
    ensures (y + 1 - 1601) / 400 == (y - 1601) / 400 + if y % 400 == 0 then 1 else 0
  {
  }

  lemma LeapDays(y: int)
    ensures Turn(y, 4) - Turn(y, 100) + Turn(y, 400) == if IsLeap(y) then 1 else 0
  {
    Divides(y, 100, 4);
    Divides(y, 400, 100);
  }

  lemma Divides(y: int, n: int, m: int)
    requires (n == 400 && m == 100) || (n == 100 && m == 4)
    ensures y % n == 0 ==> y % m == 0
  {
    if y % n == 0 {
      assert y == n / m * (y / n) * m;
    }
  }

  lemma LastStart(y: int)
    ensures MonthStart(y, 12) == 365 + if IsLeap(y) then 1 else 0
  {
    hide IsLeap;
  }

  lemma YearStep(y: int)
    ensures DayFromYear(y + 1) == DayFromYear(y) + MonthStart(y, 12)
  {
    hide Passed, Turn, IsLeap, MonthStart;
    CenturyStep(y, 4, 1969);
    CenturyStep(y, 100, 1901);
    CenturyStep(y, 400, 1601);
    LeapDays(y);
    LastStart(y);
  }

  lemma MonthStep(y: int, m: nat)
    requires m < 12
    ensures MonthStart(y, m + 1) == MonthStart(y, m) + DaysInMonth(y, m)
  {
  }

  lemma {:induction false} YearsAscend(a: int, b: int)
    requires a <= b
    ensures DayFromYear(a) <= DayFromYear(b)
    decreases b - a
  {
    hide DayFromYear;
    if a < b {
      YearsAscend(a, b - 1);
      YearStep(b - 1);
    }
  }

  // ----- from a day to its date

  lemma EarlyYear(day: int)
    ensures DayFromYear(1970 + if day < 0 then day / 365 else 0) <= day
  {
    if day < 0 {
      var q := day / 365;
      assert (q + 1) / 4 - (q + 69) / 100 + (q + 369) / 400 <= 0;
    }
  }

  function YearFrom(y: int, day: int): (r: int)
    requires DayFromYear(y) <= day
    ensures DayFromYear(r) <= day < DayFromYear(r + 1)
    decreases day - DayFromYear(y)
  {
    YearStep(y);
    if day < DayFromYear(y + 1) then y else YearFrom(y + 1, day)
  }

  /** The year a day lies in. */
  function YearOf(day: int): (y: int)
    ensures DayFromYear(y) <= day < DayFromYear(y + 1)
  {
    EarlyYear(day);
    YearFrom(1970 + if day < 0 then day / 365 else 0, day)
  }

  function MonthFrom(y: int, m: nat, within: nat): (r: nat)
    requires m < 12 && MonthStart(y, m) <= within < MonthStart(y, 12)
    ensures r < 12 && MonthStart(y, r) <= within < MonthStart(y, r + 1)
    decreases 12 - m
  {
    if within < MonthStart(y, m + 1) then m else MonthFrom(y, m + 1, within)
  }

  /** The month, counted from zero. */
  function MonthOf(day: int): (m: nat)
    ensures m < 12
    ensures MonthStart(YearOf(day), m) <= day - DayFromYear(YearOf(day)) < MonthStart(YearOf(day), m + 1)
  {
    YearStep(YearOf(day));
    MonthFrom(YearOf(day), 0, day - DayFromYear(YearOf(day)))
  }

  /** The day of the month, counted from one. */
  function DateOf(day: int): (d: nat)
    ensures 1 <= d <= DaysInMonth(YearOf(day), MonthOf(day))
  {
    MonthStep(YearOf(day), MonthOf(day));
    day - DayFromYear(YearOf(day)) - MonthStart(YearOf(day), MonthOf(day)) + 1
  }

  /** MakeDay: months and days beyond their range carry over. */
  function MakeDay(year: int, month: int, date: int): int {
    DayFromYear(year + month / 12) + MonthStart(year + month / 12, month % 12) + date - 1
  }

  /** Dates and day numbers correspond one to one. */
  lemma DayOfDate(day: int)
    ensures MakeDay(YearOf(day), MonthOf(day), DateOf(day)) == day
  {
    hide DayFromYear, YearOf, MonthStart, MonthOf;
  }

  lemma DateOfDay(y: int, m: nat, d: nat)
    requires m < 12 && 1 <= d <= DaysInMonth(y, m)
    ensures YearOf(MakeDay(y, m, d)) == y && MonthOf(MakeDay(y, m, d)) == m && DateOf(MakeDay(y, m, d)) == d
  {
    hide DayFromYear, YearOf, MonthOf, DaysInMonth, MonthStart;
    var day := MakeDay(y, m, d);
    MonthStep(y, m);
    MonthsAscend(y, m + 1, 12);
    NoDaysBefore(y, m);
    YearStep(y);
    var r := YearOf(day);
    if r < y {
      YearsAscend(r + 1, y);
    } else if r > y {
      YearsAscend(y + 1, r);
    }
    var n := MonthOf(day);
    if n < m {
      MonthsAscend(y, n + 1, m);
    } else if n > m {
      MonthsAscend(y, m + 1, n);
    }
  }

  lemma NoDaysBefore(y: int, m: nat)
    requires m < 12
    ensures MonthStart(y, m) >= 0
  {
  }

  lemma {:induction false} MonthsAscend(y: int, a: nat, b: nat)
    requires a <= b <= 12
    ensures MonthStart(y, a) <= MonthStart(y, b)
  {
    hide MonthStart;
    if a < b {
      MonthsAscend(y, a, b - 1);
      MonthStep(y, b - 1);
    }
  }

  // ----- months counted through the years

  function MonthIndex(day: int): int {
    12 * YearOf(day) + MonthOf(day)
  }

  function Length(k: int): (n: nat)
    ensures 28 <= n <= 31
  {
    DaysInMonth(k / 12, k % 12)
  }

  /** The d-th day of month k. */
  function DayIn(k: int, d: int): int {
    MakeDay(0, k, d)
  }

  lemma MakeDayIn(year: int, month: int, date: int)
    ensures MakeDay(year, month, date) == DayIn(12 * year + month, date)
  {
    hide DayFromYear, MonthStart;
    Carry(year, month);
  }

  lemma Carry(year: int, month: int)
    ensures (12 * year + month) / 12 == year + month / 12 && (12 * year + month) % 12 == month % 12
  {
  }

  lemma DayInMonth(k: int, d: nat)
    requires 1 <= d <= Length(k)
    ensures MonthIndex(DayIn(k, d)) == k && DateOf(DayIn(k, d)) == d
  {
    hide DayFromYear, MonthStart, YearOf, MonthOf, DateOf, DaysInMonth;
    DateOfDay(k / 12, k % 12, d);
    MakeDayIn(k / 12, k % 12, d);
  }

  /** What lies beyond the end of a month is in the next. */
  lemma DayBeyond(k: int, d: int)
    ensures DayIn(k, d) == DayIn(k + 1, d - Length(k))
  {
    hide DayFromYear, MonthStart, DaysInMonth;
    var y, m := k / 12, k % 12;
    MonthStep(y, m);
    if m < 11 {
      assert (k + 1) / 12 == y && (k + 1) % 12 == m + 1;
    } else {
      assert (k + 1) / 12 == y + 1 && (k + 1) % 12 == 0;
      YearStep(y);
      NoMonthsBefore(y + 1);
    }
  }

  lemma NoMonthsBefore(y: int)
    ensures MonthStart(y, 0) == 0
  {
  }

  lemma DayIsIn(day: int)
    ensures DayIn(MonthIndex(day), DateOf(day)) == day
    ensures 1 <= DateOf(day) <= Length(MonthIndex(day))
  {
    hide DayFromYear, MonthStart, YearOf, MonthOf, DateOf, DaysInMonth, MakeDay;
    DayOfDate(day);
    MakeDayIn(YearOf(day), MonthOf(day), DateOf(day));
    Carry(YearOf(day), MonthOf(day));
  }

  function Min(a: int, b: int): int {
    if a < b then a else b
  }

  /** The same day some months later, or the last day of that month if it is too short. */
  function Shifted(day: int, n: int): int {
    DayIn(MonthIndex(day) + n, Min(DateOf(day), Length(MonthIndex(day) + n)))
  }

  lemma ShiftedDate(day: int, n: int)
    ensures MonthIndex(Shifted(day, n)) == MonthIndex(day) + n
    ensures DateOf(Shifted(day, n)) == Min(DateOf(day), Length(MonthIndex(day) + n))
  {
    hide MonthIndex, DateOf, Length, DayIn;
    DayIsIn(day);
    DayInMonth(MonthIndex(day) + n, Min(DateOf(day), Length(MonthIndex(day) + n)));
  }

  lemma ShiftedIs(day: int, n: int, k: int, d: int)
    requires k == MonthIndex(day) && d == DateOf(day)
    ensures Shifted(day, n) == DayIn(k + n, Min(d, Length(k + n)))
  {
    hide MonthIndex, DateOf, Length, DayIn, Min;
  }

  /** Two shifts make one exactly if the month between does not cut the day further than the last one. */
  lemma ShiftTwice(day: int, a: int, b: int)
    ensures Shifted(Shifted(day, a), b) == Shifted(day, a + b) <==>
            Min(DateOf(day), Length(MonthIndex(day) + a + b)) <= Length(MonthIndex(day) + a)
  {
    hide *;
    var k, d := MonthIndex(day), DateOf(day);
    var c := Min(d, Length(k + a));
    ShiftedDate(day, a);
    ShiftedIs(day, a + b, k, d);
    ShiftedIs(Shifted(day, a), b, k + a, c);
    assert k + (a + b) == k + a + b;
    DayAdds(k + a + b, Min(c, Length(k + a + b)), Min(d, Length(k + a + b)));
    MinTwice(d, Length(k + a), Length(k + a + b));
  }

  lemma MinTwice(d: int, m: int, n: int)
    ensures Min(Min(d, m), n) == Min(d, n) <==> Min(d, n) <= m
  {
  }

  lemma MinIs(d: int, e: int, m: int)
    ensures Min(d, m) <= m && (d >= 1 && m >= 1 ==> Min(d, m) >= 1) && (d <= m <==> Min(d, m) == d)
    ensures d <= e ==> Min(d, m) <= Min(e, m)
  {
  }

  /** Going back the same number of months undoes a shift exactly if the day was not cut. */
  lemma ShiftBack(day: int, n: int)
    ensures Shifted(Shifted(day, n), -n) == day <==> DateOf(day) <= Length(MonthIndex(day) + n)
  {
    hide *;
    var k, d := MonthIndex(day), DateOf(day);
    DayIsIn(day);
    MinIs(d, d, Length(k));
    ShiftTwice(day, n, -n);
    ShiftedIs(day, n + -n, k, d);
    assert k + (n + -n) == k;
  }

  lemma {:induction false} LaterMonth(k: int, l: int, d: int, e: int)
    requires k < l && d <= Length(k) && e >= 1
    ensures DayIn(k, d) < DayIn(l, e)
    decreases l - k
  {
    hide DayIn, Length;
    DayBeyond(k, d);
    if k + 1 < l {
      LaterMonth(k + 1, l, 1, e);
      DayAdds(k + 1, d - Length(k), 1);
    } else {
      DayAdds(k + 1, d - Length(k), e);
    }
  }

  lemma DayAdds(k: int, d: int, e: int)
    ensures DayIn(k, e) == DayIn(k, d) + e - d
  {
    hide DayFromYear, MonthStart;
  }

  /** Shifting keeps the order of days. */
  lemma ShiftKeepsOrder(day: int, later: int, n: int)
    requires day <= later
    ensures Shifted(day, n) <= Shifted(later, n)
  {
    hide *;
    DayIsIn(day);
    DayIsIn(later);
    var k, l, d, e := MonthIndex(day), MonthIndex(later), DateOf(day), DateOf(later);
    ShiftedIs(day, n, k, d);
    ShiftedIs(later, n, l, e);
    MinIs(d, e, Length(k + n));
    MinIs(e, e, Length(l + n));
    if k < l {
      LaterMonth(k + n, l + n, Min(d, Length(k + n)), Min(e, Length(l + n)));
    } else if l < k {
      LaterMonth(l, k, e, d);
      assert false;
    } else {
      DayAdds(k, d, e);
      DayAdds(k + n, Min(d, Length(k + n)), Min(e, Length(k + n)));
    }
  }

  // ----- the code

  datatype Number = NaN | Num(value: int)

  const MAX_DAY := 100000000

  /** TimeClip of section 15.9.1.14: a time value is at most 100,000,000 days away from the first of January 1970. */
  predicate InRange(time: int) {
    -MAX_DAY * MS_PER_DAY <= time <= MAX_DAY * MS_PER_DAY
  }

  function TimeClip(time: int): Number {
    if InRange(time) then Num(time) else NaN
  }

  /** MakeDate: the time of the day stays. */
  function WithDay(time: int, day: int): int {
    day * MS_PER_DAY + time % MS_PER_DAY
  }

  /** setMonth, setFullYear and setDate of sections 15.9.5.38, 40 and 36; setFullYear starts over from an
      invalid date. */
  function WithMonth(time: Number, month: Number): Number {
    if time.NaN? || month.NaN? then NaN
    else
      var day := time.value / MS_PER_DAY;
      TimeClip(WithDay(time.value, MakeDay(YearOf(day), month.value, DateOf(day))))
  }

  function WithFullYear(time: Number, year: Number): Number {
    if year.NaN? then NaN
    else
      var t := if time.NaN? then 0 else time.value;
      var day := t / MS_PER_DAY;
      TimeClip(WithDay(t, MakeDay(year.value, MonthOf(day), DateOf(day))))
  }

  function WithDate(time: Number, date: Number): Number {
    if time.NaN? || date.NaN? then NaN
    else
      var day := time.value / MS_PER_DAY;
      TimeClip(WithDay(time.value, MakeDay(YearOf(day), MonthOf(day), date.value)))
  }

  lemma WithDayIs(time: int, day: int)
    ensures WithDay(time, day) / MS_PER_DAY == day
    ensures WithDay(time, day) % MS_PER_DAY == time % MS_PER_DAY
  {
  }

  lemma LengthOfMonth(day: int, leap: bool)
    requires leap <==> DayFromYear(YearOf(day) + 1) - DayFromYear(YearOf(day)) == 366
    ensures leap <==> IsLeap(YearOf(day))
    ensures DaysInMonth(YearOf(day), MonthOf(day)) == DayIn(MonthIndex(day) + 1, 1) - DayIn(MonthIndex(day), 1)
  {
    hide DayFromYear, YearOf, MonthOf, DayIn, IsLeap, DaysInMonth;
    var k := MonthIndex(day);
    Carry(YearOf(day), MonthOf(day));
    YearStep(YearOf(day));
    DayBeyond(k, 1 + Length(k));
    DayAdds(k, 1, 1 + Length(k));
  }

  /** Where setMonth lands, and what taking away the day of the month then does. */
  lemma Overflow(day: int, n: int, next: int)
    requires next == MakeDay(YearOf(day), MonthOf(day) + n, DateOf(day))
    ensures DateOf(next) < DateOf(day) ==> next - DateOf(next) == Shifted(day, n)
    ensures DateOf(next) >= DateOf(day) ==> next == Shifted(day, n)
  {
    hide YearOf, MonthOf, DateOf, Length, DayIn, DayFromYear, MonthStart, DaysInMonth, MakeDay;
    var k, d := MonthIndex(day) + n, DateOf(day);
    MakeDayIn(YearOf(day), MonthOf(day) + n, d);
    DayIsIn(day);
    if d <= Length(k) {
      DayInMonth(k, d);
    } else {
      DayBeyond(k, d);
      DayInMonth(k + 1, d - Length(k));
      DayAdds(k, d, Length(k));
    }
  }

  lemma MoveDays(t: int, num: int)
    ensures t + num * MS_PER_DAY == WithDay(t, t / MS_PER_DAY + num)
  {
  }

  class Date {
    /** Milliseconds since the first of January 1970, or NaN for an invalid date. */
    var time: Number

    constructor (time: Number)
      ensures this.time == if time.NaN? then NaN else TimeClip(time.value)
    {
      this.time := if time.NaN? then NaN else TimeClip(time.value);
    }

    ghost function Day(): int
      requires time.Num?
      reads this
    {
      time.value / MS_PER_DAY
    }

    function GetFullYear(): Number
      reads this
    {
      if time.NaN? then NaN else Num(YearOf(time.value / MS_PER_DAY))
    }

    function GetMonth(): Number
      reads this
    {
      if time.NaN? then NaN else Num(MonthOf(time.value / MS_PER_DAY))
    }

    function GetDate(): Number
      reads this
    {
      if time.NaN? then NaN else Num(DateOf(time.value / MS_PER_DAY))
    }

    method SetMonth(month: Number)
      modifies this
      ensures time == WithMonth(old(time), month)
    {
      time := WithMonth(time, month);
    }

    method SetFullYear(year: Number)
      modifies this
      ensures time == WithFullYear(old(time), year)
    {
      time := WithFullYear(time, year);
    }

    method SetDate(date: Number)
      modifies this
      ensures time == WithDate(old(time), date)
    {
      time := WithDate(time, date);
    }

    method AddDays(num: int)
      modifies this
      ensures time == if old(time).NaN? then NaN else TimeClip(WithDay(old(time).value, old(time).value / MS_PER_DAY + num))
    {
      if time.Num? {
        MoveDays(time.value, num);
        time := TimeClip(time.value + num * MS_PER_DAY);
      }
    }

    /** False for an invalid date. */
    method IsLeapYear() returns (leap: bool)
      ensures leap <==> time.Num? && DayFromYear(YearOf(Day()) + 1) - DayFromYear(YearOf(Day())) == 366
    {
      hide DayFromYear, YearOf;
      if time.NaN? {
        leap := false;
      } else {
        var y := GetFullYear().value;
        YearStep(y);
        leap := (y % 4 == 0 && y % 100 != 0) || y % 400 == 0;
      }
    }

    /** As many days as lie between the first of this month and the first of the next; undefined for an invalid
        date. */
    method GetDaysInMonth() returns (n: Option<nat>)
      ensures n == if time.NaN? then None else Some(DayIn(MonthIndex(Day()) + 1, 1) - DayIn(MonthIndex(Day()), 1))
    {
      hide DayFromYear, YearOf, MonthOf, DayIn, IsLeap, MonthStart, MonthIndex, Length;
      var leap := IsLeapYear();
      if time.NaN? {
        n := None;
      } else {
        LengthOfMonth(Day(), leap);
        n := Some([31, if leap then 29 else 28, 31, 30, 31, 30, 31, 31, 30, 31, 30, 31][GetMonth().value]);
      }
    }

    /** Lands in the month that lies so many months away, on the same day or the last one there is, if that is a
        time value at all. */
    method AddMonths(num: int)
      modifies this
      ensures time == if old(time).NaN? then NaN else TimeClip(WithDay(old(time).value, Shifted(old(Day()), num)))
      ensures time.Num? ==> MonthIndex(Day()) == MonthIndex(old(Day())) + num
      ensures time.Num? ==> DateOf(Day()) == Min(DateOf(old(Day())), Length(MonthIndex(old(Day())) + num))
      ensures time.Num? ==> time.value % MS_PER_DAY == old(time).value % MS_PER_DAY
    {
      hide MonthIndex, YearOf, MonthOf, DateOf, Length, Shifted, Min, WithDay, TimeClip, WithMonth;
      var tmpdtm := GetDate();
      SetMonth(if time.NaN? then NaN else Num(GetMonth().value + num));
      if old(time).Num? {
        MonthsAdded(old(time).value, num, time);
      } else {
        NoMonth(old(time), NaN);
      }
      // a comparison with NaN is false
      if tmpdtm.Num? && GetDate().Num? && tmpdtm.value > GetDate().value {
        AddDays(-GetDate().value);
      }
    }
  }

  lemma NoMonth(time: Number, month: Number)
    requires time.NaN? || month.NaN?
    ensures WithMonth(time, month) == NaN
  {
  }

  lemma ClippedIs(t: int, day: int)
    ensures TimeClip(WithDay(t, day)).Num? ==>
              var v := TimeClip(WithDay(t, day)).value;
              v == WithDay(t, day) && v / MS_PER_DAY == day && v % MS_PER_DAY == t % MS_PER_DAY
    ensures TimeClip(WithDay(t, day)).Num? <==> InRange(WithDay(t, day))
  {
    hide WithDay;
    WithDayIs(t, day);
  }

  /** The two steps of addMonths, each with its clipping. */
  lemma MonthsAdded(t: int, num: int, mid: Number)
    requires mid == WithMonth(Num(t), Num(MonthOf(t / MS_PER_DAY) + num))
    ensures var day := t / MS_PER_DAY;
            var final := TimeClip(WithDay(t, Shifted(day, num)));
            && (mid.NaN? ==> final == NaN)
            && (mid.Num? ==>
                  var next := mid.value / MS_PER_DAY;
                  final == if DateOf(day) > DateOf(next) then TimeClip(WithDay(mid.value, next - DateOf(next))) else mid)
            && (final.Num? ==>
                  && final.value / MS_PER_DAY == Shifted(day, num)
                  && final.value % MS_PER_DAY == t % MS_PER_DAY)
    ensures var day := t / MS_PER_DAY;
            && MonthIndex(Shifted(day, num)) == MonthIndex(day) + num
            && DateOf(Shifted(day, num)) == Min(DateOf(day), Length(MonthIndex(day) + num))
  {
    hide YearOf, MonthOf, DateOf, Shifted, MakeDay, WithDay, InRange, MonthIndex, Min, Length, TimeClip;
    var day := t / MS_PER_DAY;
    var next := MakeDay(YearOf(day), MonthOf(day) + num, DateOf(day));
    Overflow(day, num, next);
    ClipOnce(t, day, num, next);
    ClippedIs(t, next);
    ClippedIs(t, Shifted(day, num));
    WithDayTwice(t, next, Shifted(day, num));
    ShiftedDate(day, num);
  }

  lemma WithDayTwice(time: int, day: int, other: int)
    ensures WithDay(WithDay(time, day), other) == WithDay(time, other)
  {
    WithDayIs(time, day);
  }

  /** The first and the last day of all: 20 April 271822 BC and 13 September 275760. */
  lemma LastDays(e: int)
    requires -2 <= e <= 1
    ensures DateOf(MAX_DAY + e) == 13 + e
  {
    hide YearOf, MonthOf, DateOf;
    assert DayFromYear(275760) == 99999744 && MonthStart(275760, 8) == 244;
    DateOfDay(275760, 8, 13 + e);
  }

  lemma FirstDays(e: int)
    requires -2 <= e <= 0
    ensures DateOf(-MAX_DAY + e) == 20 + e
  {
    hide YearOf, MonthOf, DateOf;
    assert DayFromYear(-271821) == -100000109 && MonthStart(-271821, 3) == 90;
    DateOfDay(-271821, 3, 20 + e);
  }

  lemma RangeOfDay(t: int, day: int)
    ensures InRange(WithDay(t, day)) <==> -MAX_DAY <= day < MAX_DAY || (day == MAX_DAY && t % MS_PER_DAY == 0)
  {
  }

  /** Clipping between the two steps of addMonths changes nothing: neither end of the range is at the turn of a
      month. */
  lemma ClipOnce(t: int, day: int, n: int, next: int)
    requires next == MakeDay(YearOf(day), MonthOf(day) + n, DateOf(day))
    ensures InRange(WithDay(t, next)) <==> InRange(WithDay(t, Shifted(day, n)))
  {
    hide YearOf, MonthOf, DateOf, Shifted, MakeDay, WithDay, InRange;
    RangeOfDay(t, next);
    RangeOfDay(t, Shifted(day, n));
    var final := Shifted(day, n);
    Overflow(day, n, next);
    if final != next {
      FirstAfter(day, n, next);
      var first := final + 1;
      if -2 <= first - MAX_DAY <= 1 {
        LastDays(first - MAX_DAY);
      }
      if -2 <= first + MAX_DAY <= 0 {
        FirstDays(first + MAX_DAY);
      }
    }
  }

  /** When the day was cut, the next day is the first of a month, and setMonth went two days further at most. */
  lemma FirstAfter(day: int, n: int, next: int)
    requires next == MakeDay(YearOf(day), MonthOf(day) + n, DateOf(day)) && next != Shifted(day, n)
    ensures DateOf(Shifted(day, n) + 1) == 1 && Shifted(day, n) < next <= Shifted(day, n) + 3
  {
    hide YearOf, MonthOf, DateOf, Length, DayIn, DayFromYear, MonthStart, DaysInMonth, MakeDay;
    var k, d := MonthIndex(day) + n, DateOf(day);
    MakeDayIn(YearOf(day), MonthOf(day) + n, d);
    DayIsIn(day);
    DayAdds(k, Length(k), d);
    DayAdds(k, Length(k), Length(k) + 1);
    DayBeyond(k, Length(k) + 1);
    DayInMonth(k + 1, 1);
  }

  lemma EpochYear()
    ensures DayFromYear(1970) == 0 && MonthStart(1970, 0) == 0
  {
  }

  lemma Epoch()
    ensures MonthIndex(0) == 23640 && DateOf(0) == 1
  {
    hide YearOf, MonthOf, DateOf, DaysInMonth, DayFromYear, MonthStart;
    EpochYear();
    DateOfDay(1970, 0, 1);
  }

  lemma FarDay()
    ensures DayIn(4023640, 1) > MAX_DAY
  {
    assert 4023640 / 12 == 335303 && 4023640 % 12 == 4;
  }

  /** Four million months from the beginning there are no dates. */
  lemma FarMonths()
    ensures TimeClip(WithDay(0, Shifted(0, 4000000))) == NaN
  {
    hide MonthIndex, DateOf, DayIn, Length, WithDay, InRange;
    Epoch();
    FarDay();
    RangeOfDay(0, Shifted(0, 4000000));
  }
}
