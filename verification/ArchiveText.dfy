/** The text and byte forms of numbers in ArchiveUtils. */
module ArchiveTexts {
  import opened Decimals
  import opened Options

  const MAX_INT_CHAR_WIDTH := 10
  const MAX_INT := 0x7fff_ffff
  const MIN_LONG := -0x8000_0000_0000_0000
  const MAX_LONG := 0x7fff_ffff_ffff_ffff

  // ----- padding

  function Padding(n: int, padChar: char): string {
    if n <= 0 then "" else seq(n, i => padChar)
  }

  method PadTo(s: string, pad: int, padChar: char) returns (result: string)
    ensures result == Padding(pad - |s|, padChar) + s
    ensures |result| == if |s| < pad then pad else |s|
  {
    result := s;
    var l := |s|;
    if l < pad {
      var sb := "";
      while l < pad
        invariant |s| <= l <= pad && sb == Padding(l - |s|, padChar)
      {
        sb := sb + [padChar];
        l := l + 1;
      }
      sb := sb + s;
      result := sb;
    }
  }

  function ZeroPadded(i: int): string {
    Padding(MAX_INT_CHAR_WIDTH - |IntText(i)|, '0') + IntText(i)
  }

  method ZeroPadInteger(i: int) returns (s: string)
    requires -MAX_INT - 1 <= i <= MAX_INT
    ensures s == ZeroPadded(i)
    ensures i >= 0 ==> |s| == 10 && AllDigits(s) && ValueOf(s) == i
  {
    hide IntText, Padding, ValueOf, ToString;
    if i >= 0 {
      ZeroPaddedIs(i);
    }
    s := PadTo(IntText(i), MAX_INT_CHAR_WIDTH, '0');
  }

  /** The order of String.compareTo. */
  ghost predicate Before(a: string, b: string) {
    exists k :: DiffersAt(a, b, k)
  }

  ghost predicate DiffersAt(a: string, b: string, k: int) {
    0 <= k <= |a| && k < |b| && a[..k] == b[..k] && (k == |a| || a[k] < b[k])
  }

  /** Digits of the same number are ordered like what they stand for. */
  lemma {:induction false} DigitOrder(a: string, b: string)
    requires AllDigits(a) && AllDigits(b) && |a| == |b|
    ensures Before(a, b) <==> ValueOf(a) < ValueOf(b)
    ensures a == b <==> ValueOf(a) == ValueOf(b)
  {
    hide Before;
    if a == "" {
      NothingBefore(a, b);
    } else {
      var n := |a| - 1;
      DigitOrder(a[..n], b[..n]);
      BeforeSnoc(a, b);
      LastDigits(a, b);
    }
  }

  lemma NothingBefore(a: string, b: string)
    requires b == ""
    ensures !Before(a, b)
  {
  }

  lemma LastDigits(a: string, b: string)
    requires AllDigits(a) && AllDigits(b) && |a| == |b| > 0
    ensures a == b <==> a[..|a| - 1] == b[..|b| - 1] && a[|a| - 1] == b[|b| - 1]
    ensures a[|a| - 1] < b[|b| - 1] <==> DigitValue(a[|a| - 1]) < DigitValue(b[|b| - 1])
  {
    assert a == a[..|a| - 1] + [a[|a| - 1]] && b == b[..|b| - 1] + [b[|b| - 1]];
  }

  lemma BeforeSnoc(a: string, b: string)
    requires |a| == |b| > 0
    ensures var n := |a| - 1;
            Before(a, b) <==> Before(a[..n], b[..n]) || (a[..n] == b[..n] && a[n] < b[n])
  {
    var n := |a| - 1;
    var c, d := a[..n], b[..n];
    if Before(a, b) {
      var k :| DiffersAt(a, b, k);
      if k < n {
        assert c[..k] == a[..k] && d[..k] == b[..k];
        assert DiffersAt(c, d, k);
      }
    }
    if Before(c, d) {
      var k :| DiffersAt(c, d, k);
      assert c[..k] == a[..k] && d[..k] == b[..k];
      assert DiffersAt(a, b, k);
    }
    if c == d && a[n] < b[n] {
      assert DiffersAt(a, b, n);
    }
  }

  lemma ZeroPaddedIs(i: nat)
    requires i <= MAX_INT
    ensures AllDigits(ZeroPadded(i)) && |ZeroPadded(i)| == MAX_INT_CHAR_WIDTH && ValueOf(ZeroPadded(i)) == i
  {
    hide ToString, ValueOf;
    LengthOfToString(i, 10);
    TenDigits();
    ValueOfToString(i);
    ValueOfZeros(MAX_INT_CHAR_WIDTH - |ToString(i)|, ToString(i));
    assert Padding(MAX_INT_CHAR_WIDTH - |ToString(i)|, '0') == Zeros(MAX_INT_CHAR_WIDTH - |ToString(i)|);
  }

  lemma TenDigits()
    ensures Pow10(10) == 10000000000
  {
    assert Pow10(5) == 100000 by {
      assert Pow10(3) == 10 * Pow10(2);
    }
    assert Pow10(8) == 1000 * Pow10(5) by {
      assert Pow10(6) == 10 * Pow10(5);
    }
  }

  /** Padded non-negative integers are ordered as text like the numbers. */
  lemma PaddedOrder(i: nat, j: nat)
    requires i <= MAX_INT && j <= MAX_INT
    ensures Before(ZeroPadded(i), ZeroPadded(j)) <==> i < j
    ensures ZeroPadded(i) == ZeroPadded(j) <==> i == j
  {
    hide *;
    ZeroPaddedIs(i);
    ZeroPaddedIs(j);
    DigitOrder(ZeroPadded(i), ZeroPadded(j));
  }

  // ----- durations

  /** Math.abs on longs. */
  function Abs(time: int): int {
    if time == MIN_LONG then MIN_LONG else if time < 0 then -time else time
  }

  /** The units that are printed before the milliseconds. */
  function Size(k: nat): (n: nat)
    requires k < 4
    ensures n > 0
  {
    match k case 0 => 86400000 case 1 => 3600000 case 2 => 60000 case _ => 1000
  }

  function UnitOf(k: nat): char
    requires k < 4
  {
    match k case 0 => 'd' case 1 => 'h' case 2 => 'm' case _ => 's'
  }

  /** The parts from unit k on; a unit is left out unless there is more than one of it. */
  function Parts(x: int, k: nat, toMs: bool): string
    requires k <= 4
    decreases 4 - k
  {
    if k == 4 then if toMs then IntText(x) + "ms" else ""
    else if x > Size(k) then IntText(x / Size(k)) + [UnitOf(k)] + Parts(x % Size(k), k + 1, toMs)
    else Parts(x, k + 1, toMs)
  }

  function Conventional(time: int, toMs: bool): string {
    if !toMs && Abs(time) < 1000 then "0s" else (if time < 0 then "-" else "") + Parts(Abs(time), 0, toMs)
  }

  /** One step of printing leaves the whole text as it would be. */
  lemma PartPrinted(sb: string, x: int, k: nat, toMs: bool, sb': string, x': int)
    requires k < 4
    requires if x > Size(k) then sb' == sb + (IntText(x / Size(k)) + [UnitOf(k)]) && x' == x % Size(k)
             else sb' == sb && x' == x
    ensures sb' + Parts(x', k + 1, toMs) == sb + Parts(x, k, toMs)
  {
    hide IntText, Size, UnitOf;
    if x > Size(k) {
      var n, rest := IntText(x / Size(k)) + [UnitOf(k)], Parts(x % Size(k), k + 1, toMs);
      assert sb + n + rest == sb + (n + rest);
    }
  }

  lemma LastPart(x: int, toMs: bool)
    ensures Parts(x, 4, toMs) == if toMs then IntText(x) + "ms" else ""
  {
    hide IntText;
  }

  lemma Units()
    ensures Size(0) == 86400000 && Size(1) == 3600000 && Size(2) == 60000 && Size(3) == 1000
    ensures [UnitOf(0)] == "d" && [UnitOf(1)] == "h" && [UnitOf(2)] == "m" && [UnitOf(3)] == "s"
  {
  }

  lemma ConventionalIs(time: int, toMs: bool)
    ensures Conventional(time, toMs) ==
            if !toMs && Abs(time) < 1000 then "0s" else (if time < 0 then "-" else "") + Parts(Abs(time), 0, toMs)
  {
    hide Parts, Abs;
  }

  method FormatMillisecondsToConventional(time: int, toMs: bool) returns (s: string)
    requires MIN_LONG <= time <= MAX_LONG
    ensures s == Conventional(time, toMs)
    ensures toMs ==> ReadDuration(s) == if time == MIN_LONG then None else Some(time)
  {
    hide *;
    ConventionalIs(time, toMs);
    if toMs {
      DurationRead(time);
    }
    var sb := "";
    if time < 0 {
      sb := sb + "-";
    }
    assert sb == if time < 0 then "-" else "";
    var absTime := Abs(time);
    if !toMs && absTime < 1000 {
      return "0s";
    }
    Units();
    ghost var text, x := sb, absTime;
    if absTime > 86400000 {
      sb := sb + (IntText(absTime / 86400000) + "d");
      absTime := absTime % 86400000;
    }
    PartPrinted(text, x, 0, toMs, sb, absTime);
    text, x := sb, absTime;
    if absTime > 3600000 {
      sb := sb + (IntText(absTime / 3600000) + "h");
      absTime := absTime % 3600000;
    }
    PartPrinted(text, x, 1, toMs, sb, absTime);
    text, x := sb, absTime;
    if absTime > 60000 {
      sb := sb + (IntText(absTime / 60000) + "m");
      absTime := absTime % 60000;
    }
    PartPrinted(text, x, 2, toMs, sb, absTime);
    text, x := sb, absTime;
    if absTime > 1000 {
      sb := sb + (IntText(absTime / 1000) + "s");
      absTime := absTime % 1000;
    }
    PartPrinted(text, x, 3, toMs, sb, absTime);
    LastPart(absTime, toMs);
    assert sb + "" == sb;
    if toMs {
      sb := sb + (IntText(absTime) + "ms");
    }
    s := sb;
  }

  // How such a text is read: a sign, then numbers with units, which add up.

  function DigitsAtStart(s: string): (n: nat)
    ensures n <= |s| && AllDigits(s[..n]) && (n < |s| ==> !IsDigit(s[n]))
  {
    if s == "" || !IsDigit(s[0]) then 0
    else
      var n := 1 + DigitsAtStart(s[1..]);
      assert s[..n] == [s[0]] + s[1..][..n - 1];
      n
  }

  /** The milliseconds a unit stands for, and the length of its name. */
  function UnitRead(u: string): (r: Option<(int, int)>)
    ensures r.Some? ==> 1 <= r.value.1 <= |u|
  {
    if u == "" then None
    else if u[0] == 'd' then Some((86400000, 1))
    else if u[0] == 'h' then Some((3600000, 1))
    else if u[0] == 'm' then if |u| >= 2 && u[1] == 's' then Some((1, 2)) else Some((60000, 1))
    else if u[0] == 's' then Some((1000, 1))
    else None
  }

  function ReadParts(s: string): (r: Option<int>)
    decreases |s|
  {
    if s == "" then Some(0)
    else
      var n := DigitsAtStart(s);
      var unit := UnitRead(s[n..]);
      if n == 0 || unit.None? then None
      else
        var rest := ReadParts(s[n + unit.value.1..]);
        if rest.None? then None else Some(ValueOf(s[..n]) * unit.value.0 + rest.value)
  }

  function ReadDuration(s: string): Option<int> {
    if s != "" && s[0] == '-' then
      var r := ReadParts(s[1..]);
      if r.None? then None else Some(-r.value)
    else
      var r := ReadParts(s);
      if r.None? then None else Some(r.value)
  }

  lemma {:induction false} DigitsStop(d: string, u: string)
    requires AllDigits(d) && (u != "" ==> !IsDigit(u[0]))
    ensures DigitsAtStart(d + u) == |d|
  {
    if d == "" {
      assert d + u == u;
    } else {
      assert (d + u)[1..] == d[1..] + u;
      DigitsStop(d[1..], u);
    }
  }

  lemma ReadStep(s: string, n: nat, unit: (int, int))
    requires s != "" && n == DigitsAtStart(s) > 0 && UnitRead(s[n..]) == Some(unit)
    ensures var rest := ReadParts(s[n + unit.1..]);
            ReadParts(s) == if rest.None? then None else Some(ValueOf(s[..n]) * unit.0 + rest.value)
  {
    hide DigitsAtStart, UnitRead, ValueOf;
  }

  /** A number with its unit counts so many units. */
  lemma NumberRead(n: nat, u: string, unit: (int, int))
    requires u != "" && !IsDigit(u[0]) && UnitRead(u) == Some(unit)
    ensures var rest := ReadParts(u[unit.1..]);
            ReadParts(ToString(n) + u) == if rest.None? then None else Some(n * unit.0 + rest.value)
  {
    hide ToString, ValueOf, UnitRead, DigitsAtStart, ReadParts;
    var d := ToString(n);
    DigitsStop(d, u);
    ValueOfToString(n);
    var s := d + u;
    assert s[..|d|] == d && s[|d|..] == u && s[|d| + unit.1..] == u[unit.1..];
    ReadStep(s, |d|, unit);
  }

  lemma UnitIsRead(k: nat, rest: string)
    requires k < 4 && (rest != "" ==> IsDigit(rest[0]))
    ensures var size: int := Size(k);
            UnitRead([UnitOf(k)] + rest) == Some((size, 1)) && !IsDigit(UnitOf(k))
  {
  }

  lemma MillisecondsAreRead()
    ensures UnitRead("ms") == Some((1, 2)) && "ms"[2..] == "" && ReadParts("") == Some(0)
  {
  }

  /** The parts begin with a digit. */
  lemma {:induction false} PartsBegin(x: nat, k: nat, toMs: bool)
    requires k <= 4
    ensures Parts(x, k, toMs) != "" ==> IsDigit(Parts(x, k, toMs)[0])
    decreases 4 - k
  {
    hide ToString;
    if k < 4 {
      PartsBegin(x, k + 1, toMs);
    }
  }

  /** What is not printed: the last remainder, unless milliseconds are. */
  function Unprinted(x: nat, k: nat, toMs: bool): nat
    requires k <= 4
    decreases 4 - k
  {
    if k == 4 then if toMs then 0 else x
    else if x > Size(k) then Unprinted(x % Size(k), k + 1, toMs)
    else Unprinted(x, k + 1, toMs)
  }

  lemma PartsUnfold(x: nat, k: nat, toMs: bool)
    requires k < 4
    ensures Parts(x, k, toMs) == if x > Size(k) then ToString(x / Size(k)) + ([UnitOf(k)] + Parts(x % Size(k), k + 1, toMs))
                                 else Parts(x, k + 1, toMs)
  {
    hide ToString, Size, UnitOf;
    if x > Size(k) {
      Associative(ToString(x / Size(k)), [UnitOf(k)], Parts(x % Size(k), k + 1, toMs));
    }
  }

  lemma Associative(a: string, b: string, c: string)
    ensures a + b + c == a + (b + c)
  {
  }

  /** So many units, and then the rest. */
  lemma PartRead(q: nat, k: nat, rest: string, r: int)
    requires k < 4 && (rest != "" ==> IsDigit(rest[0])) && ReadParts(rest) == Some(r)
    ensures ReadParts(ToString(q) + ([UnitOf(k)] + rest)) == Some(q * Size(k) + r)
  {
    hide ToString, ReadParts, UnitRead, Size, UnitOf;
    UnitIsRead(k, rest);
    var u, size: int := [UnitOf(k)] + rest, Size(k);
    NumberRead(q, u, (size, 1));
    assert u[1..] == rest;
  }

  lemma UnprintedUnfold(x: nat, k: nat, toMs: bool)
    requires k < 4
    ensures Unprinted(x, k, toMs) == Unprinted(if x > Size(k) then x % Size(k) else x, k + 1, toMs)
    ensures x / Size(k) >= 0 && x / Size(k) * Size(k) + x % Size(k) == x
  {
    hide Size;
    DivMod(x, Size(k));
  }

  lemma DivMod(x: nat, n: nat)
    requires n > 0
    ensures x / n >= 0 && x / n * n + x % n == x
  {
  }

  lemma LastPartRead(x: nat, toMs: bool)
    ensures Unprinted(x, 4, toMs) == (if toMs then 0 else x)
    ensures ReadParts(Parts(x, 4, toMs)) == Some(x - Unprinted(x, 4, toMs))
  {
    hide ToString, ReadParts, Parts, UnitRead;
    MillisecondsAreRead();
    LastPart(x, toMs);
    if toMs {
      NumberRead(x, "ms", (1, 2));
    }
  }

  lemma {:induction false} PartsRead(x: nat, k: nat, toMs: bool)
    requires k <= 4
    ensures Unprinted(x, k, toMs) <= x && ReadParts(Parts(x, k, toMs)) == Some(x - Unprinted(x, k, toMs))
    decreases 4 - k
  {
    hide *;
    if k == 4 {
      LastPartRead(x, toMs);
    } else {
      PartsUnfold(x, k, toMs);
      UnprintedUnfold(x, k, toMs);
      if x > Size(k) {
        var q, y := x / Size(k), x % Size(k);
        PartsRead(y, k + 1, toMs);
        PartsBegin(y, k + 1, toMs);
        PartRead(q, k, Parts(y, k + 1, toMs), y - Unprinted(y, k + 1, toMs));
      } else {
        PartsRead(x, k + 1, toMs);
      }
    }
  }

  /** With milliseconds every long but the least is read back, and the least is not. */
  lemma DurationRead(t: int)
    requires MIN_LONG <= t <= MAX_LONG
    ensures ReadDuration(Conventional(t, true)) == Some(t) <==> t != MIN_LONG
    ensures t == MIN_LONG ==> ReadDuration(Conventional(t, true)) == None
  {
    hide ReadParts, Parts, ToString, Unprinted;
    if t == MIN_LONG {
      LeastText();
      TwoSigns(Parts(MIN_LONG, 0, true));
    } else {
      var x: nat := Abs(t);
      PartsRead(x, 0, true);
      AllPrinted(x, 0);
      SignRead(t < 0, x, true);
    }
  }

  /** Different longs have different texts. */
  lemma DurationsDiffer(t: int, u: int)
    requires MIN_LONG <= t <= MAX_LONG && MIN_LONG <= u <= MAX_LONG && Conventional(t, true) == Conventional(u, true)
    ensures t == u
  {
    hide ReadDuration, Conventional;
    DurationRead(t);
    DurationRead(u);
  }

  lemma {:induction false} AllPrinted(x: nat, k: nat)
    requires k <= 4
    ensures Unprinted(x, k, true) == 0
    decreases 4 - k
  {
    hide Size;
    if k < 4 {
      AllPrinted(if x > Size(k) then x % Size(k) else x, k + 1);
    }
  }

  lemma SignRead(negative: bool, x: nat, toMs: bool)
    ensures var r := ReadParts(Parts(x, 0, toMs));
            r.Some? ==>
              ReadDuration((if negative then "-" else "") + Parts(x, 0, toMs)) ==
              Some(if negative then -r.value else r.value)
  {
    hide ReadParts, Parts;
    var p := Parts(x, 0, toMs);
    PartsBegin(x, 0, toMs);
    assert ("-" + p)[1..] == p;
    assert "" + p == p;
  }

  /** The least long has no absolute value: its text has two signs. */
  lemma LeastText()
    ensures Parts(MIN_LONG, 0, true) == "-" + ToString(-MIN_LONG) + "ms"
    ensures Conventional(MIN_LONG, true) == "-" + Parts(MIN_LONG, 0, true)
  {
    hide ToString;
    LastPart(MIN_LONG, true);
    assert Parts(MIN_LONG, 3, true) == Parts(MIN_LONG, 4, true);
    assert Parts(MIN_LONG, 2, true) == Parts(MIN_LONG, 3, true);
    assert Parts(MIN_LONG, 1, true) == Parts(MIN_LONG, 2, true);
    assert Parts(MIN_LONG, 0, true) == Parts(MIN_LONG, 1, true);
  }

  lemma TwoSigns(s: string)
    requires s != "" && s[0] == '-'
    ensures ReadDuration("-" + s) == None
  {
    assert ("-" + s)[1..] == s;
    assert DigitsAtStart(s) == 0;
  }

  // ----- without milliseconds

  /** A larger unit leaves the remainders of the smaller ones as they are. */
  lemma UnitStep(x: nat, k: nat) returns (y: nat)
    requires k < 3
    ensures Unprinted(x, k, false) == Unprinted(y, k + 1, false)
    ensures y % 60000 == x % 60000 && (k == 2 ==> y == if x > 60000 then x % 60000 else x)
  {
    hide Unprinted, Size;
    Units();
    UnprintedUnfold(x, k, false);
    y := if x > Size(k) then x % Size(k) else x;
    if k == 0 {
      Modulus(x, 86400000, 1440);
    } else if k == 1 {
      Modulus(x, 3600000, 60);
    } else {
      Modulus(x, 60000, 1);
    }
  }

  lemma SecondStep(c: nat)
    ensures Unprinted(c, 3, false) == if c > 1000 then c % 1000 else c
  {
    hide Unprinted, Size;
    Units();
    UnprintedUnfold(c, 3, false);
    LastUnprinted(if c > 1000 then c % 1000 else c);
  }

  lemma Thousands(x: nat, c: nat)
    requires c % 60000 == x % 60000
    ensures c % 1000 == x % 1000
  {
    Modulus1000(x);
    Modulus1000(c);
  }

  lemma Modulus1000(x: nat)
    ensures x % 1000 == x % 60000 % 1000
  {
    assert x == 60 * (x / 60000) * 1000 + x % 60000;
    Thousand(60 * (x / 60000), x % 60000);
  }

  lemma Thousand(q: int, r: nat)
    ensures (q * 1000 + r) % 1000 == r % 1000
  {
  }

  lemma LastRemainder(x: nat)
    ensures x % 60000 == 1000 ==> Unprinted(x, 0, false) == 1000
    ensures x % 60000 != 1000 ==> Unprinted(x, 0, false) == x % 1000
  {
    hide Unprinted;
    var a := UnitStep(x, 0);
    var b := UnitStep(a, 1);
    var c := UnitStep(b, 2);
    SecondStep(c);
    LastSeconds(b, c);
    Thousands(x, c);
  }

  lemma LastUnprinted(x: nat)
    ensures Unprinted(x, 4, false) == x
  {
  }

  lemma Modulus(x: nat, n: nat, k: nat)
    requires k > 0 && n == k * 60000
    ensures x % n % 60000 == x % 60000
  {
    assert x == x / n * n + x % n;
    assert x / n * n == x / n * k * 60000;
    Multiple(x / n * k, x % n);
  }

  lemma Multiple(q: int, r: nat)
    ensures (q * 60000 + r) % 60000 == r % 60000
  {
  }

  lemma LastSeconds(b: nat, c: nat)
    requires c == if b > 60000 then b % 60000 else b
    ensures b % 60000 == 1000 <==> c == 1000
    ensures c != 1000 ==> (if c > 1000 then c % 1000 else c) == c % 1000
  {
  }

  /** Truncated to whole seconds, towards zero. */
  function WholeSeconds(t: int): int {
    if t < 0 then -(-t / 1000 * 1000) else t / 1000 * 1000
  }

  /** Without milliseconds the whole seconds are read back, except that one second is missing from those
      durations that are a second past whole minutes, and that the least long is printed as no time at all. */
  lemma SecondsRead(t: int)
    requires MIN_LONG <= t <= MAX_LONG
    ensures ReadDuration(Conventional(t, false)) == Some(WholeSeconds(t)) <==> t != MIN_LONG && Abs(t) % 60000 != 1000
    ensures t == MIN_LONG ==> ReadDuration(Conventional(t, false)) == Some(0)
  {
    hide ReadParts, Parts, ToString, Unprinted, ReadDuration;
    if Abs(t) < 1000 {
      NoSeconds();
    } else {
      var x: nat := Abs(t);
      PartsRead(x, 0, false);
      LastRemainder(x);
      SignRead(t < 0, x, false);
    }
  }

  lemma ZeroText()
    ensures ToString(0) + "s" == "0s"
  {
    assert DigitChar(0) == '0';
  }

  lemma NoSeconds()
    ensures ReadDuration("0s") == Some(0)
  {
    hide ReadParts, ToString;
    MillisecondsAreRead();
    UnitIsRead(3, "");
    assert [UnitOf(3)] + "" == "s" && "s"[1..] == "";
    NumberRead(0, "s", (1000, 1));
    ZeroText();
  }
}
