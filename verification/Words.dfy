/** 64-bit words as polynomials.  The coefficient of x^0 is kept in the most significant bit
    (bit 63) and that of x^63 in bit 0, so an unsigned shift to the right multiplies by x. */
module Words {
  import opened Polynomials

  const ONE: bv64 := 0x8000_0000_0000_0000

  /** w >>> 1 */
  function Half(w: bv64): bv64 {
    w >> 1
  }

  /** Bit 0 of w, as a coefficient. */
  function LowBit(w: bv64): (r: nat)
    ensures r < 2
  {
    if w & 1 != 0 then 1 else 0
  }

  /** The n lowest bits of w, read with bit 0 as the coefficient of x^(n-1). */
  function Low(w: bv64, n: nat): nat {
    if n == 0 then 0 else Add(Shl(LowBit(w), n - 1), Low(Half(w), n - 1))
  }

  /** The polynomial a word stands for. */
  function View(w: bv64): nat {
    Low(w, 64)
  }

  /** w >>> n, one place at a time. */
  function ShiftRight(w: bv64, n: nat): bv64 {
    if n == 0 then w else ShiftRight(Half(w), n - 1)
  }

  /** Bit n of w. */
  function BitAt(w: bv64, n: nat): (r: nat)
    ensures r < 2
  {
    LowBit(ShiftRight(w, n))
  }

  // ----- exclusive or of words is addition of polynomials

  /** u is the exclusive or of v and w. */
  ghost predicate IsXor(u: bv64, v: bv64, w: bv64) {
    u == v ^ w
  }

  lemma HalfXor(u: bv64, v: bv64, w: bv64)
    requires IsXor(u, v, w)
    ensures IsXor(Half(u), Half(v), Half(w))
  {
  }

  lemma LowBitXor(u: bv64, v: bv64, w: bv64)
    requires IsXor(u, v, w)
    ensures LowBit(u) == Add(LowBit(v), LowBit(w))
  {
    assert u & 1 == (v & 1) ^ (w & 1);
    assert v & 1 == 0 || v & 1 == 1;
    assert w & 1 == 0 || w & 1 == 1;
    assert Add(1, 1) == 0;
  }

  lemma LowStep(w: bv64, n: nat)
    requires n > 0
    ensures Low(w, n) == Add(Shl(LowBit(w), n - 1), Low(Half(w), n - 1))
  {
  }

  lemma LowNone(u: bv64, v: bv64, w: bv64)
    ensures Low(u, 0) == Add(Low(v, 0), Low(w, 0))
  {
  }

  lemma {:induction false} LowXor(u: bv64, v: bv64, w: bv64, n: nat)
    requires IsXor(u, v, w)
    ensures Low(u, n) == Add(Low(v, n), Low(w, n))
    decreases n
  {
    LowNone(u, v, w);
    hide Add, Shl, LowBit, Low, Half, IsXor;
    if n != 0 {
      HalfXor(u, v, w);
      LowStep(u, n);
      LowStep(v, n);
      LowStep(w, n);
      LowXor(Half(u), Half(v), Half(w), n - 1);
      LowBitXor(u, v, w);
      ShlAdd(LowBit(v), LowBit(w), n - 1);
      AddSwap(Shl(LowBit(v), n - 1), Shl(LowBit(w), n - 1), Low(Half(v), n - 1), Low(Half(w), n - 1));
    }
  }

  lemma ViewXor(v: bv64, w: bv64)
    ensures View(v ^ w) == Add(View(v), View(w))
  {
    LowXor(v ^ w, v, w, 64);
  }

  // ----- degree and injectivity

  lemma {:induction false} LowDegree(w: bv64, n: nat)
    ensures Low(w, n) < X(n)
  {
    if n != 0 {
      LowDegree(Half(w), n - 1);
      assert X(1) == 2;
      AddDegreeSplit(LowBit(w), Low(Half(w), n - 1), n - 1, n);
    }
  }

  /** Only the zero word is the zero polynomial. */
  lemma {:induction false} LowIsZero(w: bv64, n: nat)
    requires ShiftRight(w, n) == 0
    ensures Low(w, n) == 0 <==> w == 0
  {
    if n != 0 {
      LowIsZero(Half(w), n - 1);
      LowHeadIsZero(w, n);
      assert LowBit(w) == 0 && Half(w) == 0 <==> w == 0;
    }
  }

  lemma LowHeadIsZero(w: bv64, n: nat)
    requires n > 0
    ensures Low(w, n) == 0 <==> LowBit(w) == 0 && Low(Half(w), n - 1) == 0
  {
    hide Add;
    var a, b := Shl(LowBit(w), n - 1), Low(Half(w), n - 1);
    LowDegree(Half(w), n - 1);
    if LowBit(w) == 0 {
      ShlZero(n - 1);
    } else if Low(w, n) == 0 {
      AddZero(a, b);
    }
  }

  lemma HalfEight(w: bv64)
    ensures Half(Half(Half(Half(Half(Half(Half(Half(w)))))))) == w >> 8
  {
  }

  lemma ShiftRight8(w: bv64)
    ensures ShiftRight(w, 8) == w >> 8
  {
    HalfEight(w);
    hide Half;
    var a := Half(w);
    var b := Half(a);
    var c := Half(b);
    var e := Half(c);
    assert ShiftRight(w, 8) == ShiftRight(a, 7) == ShiftRight(b, 6) == ShiftRight(c, 5) == ShiftRight(e, 4);
    var f := Half(e);
    var g := Half(f);
    var h := Half(g);
    assert ShiftRight(e, 4) == ShiftRight(f, 3) == ShiftRight(g, 2) == ShiftRight(h, 1) == ShiftRight(Half(h), 0);
  }

  lemma {:induction false} ShiftRightAdd(w: bv64, m: nat, n: nat)
    ensures ShiftRight(w, m + n) == ShiftRight(ShiftRight(w, m), n)
  {
    if m != 0 {
      ShiftRightAdd(Half(w), m - 1, n);
    }
  }

  lemma {:induction false} ShiftRightZero(n: nat)
    ensures ShiftRight(0, n) == 0
  {
    if n != 0 {
      ShiftRightZero(n - 1);
    }
  }

  /** One byte further: v == w >>> n and the result is w >>> (n + 8). */
  lemma NextByte(w: bv64, n: nat, v: bv64) returns (u: bv64)
    requires v == ShiftRight(w, n)
    ensures u == ShiftRight(w, n + 8) && u == v >> 8
  {
    u := ShiftRight(v, 8);
    ShiftRight8(v);
    ShiftRightAdd(w, n, 8);
  }

  lemma ShiftRight64(w: bv64, n: nat)
    requires n >= 64
    ensures ShiftRight(w, n) == 0
  {
    hide ShiftRight;
    ShiftRight8(w);
    var w1 := ShiftRight(w, 8);
    var w2 := NextByte(w, 8, w1);
    var w3 := NextByte(w, 16, w2);
    var w4 := NextByte(w, 24, w3);
    var w5 := NextByte(w, 32, w4);
    var w6 := NextByte(w, 40, w5);
    var w7 := NextByte(w, 48, w6);
    var w8 := NextByte(w, 56, w7);
    assert w8 == 0;
    ShiftRightAdd(w, 64, n - 64);
    ShiftRightZero(n - 64);
  }

  /** Different words are different polynomials. */
  lemma ViewInjective(v: bv64, w: bv64)
    requires View(v) == View(w)
    ensures v == w
  {
    hide Low, Add, ShiftRight;
    var u := v ^ w;
    LowXor(u, v, w, 64);
    AddSelf(View(v));
    ShiftRight64(u, 64);
    LowIsZero(u, 64);
  }

  /** The low m bits, and then the next n. */
  lemma {:induction false} LowSplit(w: bv64, m: nat, n: nat)
    ensures Low(w, m + n) == Add(Shl(Low(w, m), n), Low(ShiftRight(w, m), n))
    decreases m
  {
    LowNoBits(w, n);
    hide Add, Shl, LowBit, Low, Half;
    if m != 0 {
      var b, h := LowBit(w), Half(w);
      calc {
        Low(w, m + n);
        { LowStep(w, m + n); LowSplit(h, m - 1, n); }
        Add(Shl(b, m + n - 1), Add(Shl(Low(h, m - 1), n), Low(ShiftRight(w, m), n)));
        { ShlShl(b, m - 1, n); }
        Add(Shl(Shl(b, m - 1), n), Add(Shl(Low(h, m - 1), n), Low(ShiftRight(w, m), n)));
        { AddAssoc(Shl(Shl(b, m - 1), n), Shl(Low(h, m - 1), n), Low(ShiftRight(w, m), n)); }
        Add(Add(Shl(Shl(b, m - 1), n), Shl(Low(h, m - 1), n)), Low(ShiftRight(w, m), n));
        { ShlAdd(Shl(b, m - 1), Low(h, m - 1), n); LowStep(w, m); }
        Add(Shl(Low(w, m), n), Low(ShiftRight(w, m), n));
      }
    }
  }

  lemma LowNoBits(w: bv64, n: nat)
    ensures Low(w, 0) == 0 && Shl(0, n) == 0
  {
    ShlZero(n);
  }

  // ----- shifting to the right

  lemma LowOne(w: bv64)
    ensures Low(w, 1) == Add(2 * Low(w, 0), BitAt(w, 0))
  {
    LowStep(w, 1);
    LowNoBits(Half(w), 0);
    AddComm(LowBit(w), 0);
  }

  /** The last bit in front. */
  lemma {:induction false} LowSnoc(w: bv64, n: nat)
    ensures Low(w, n + 1) == Add(2 * Low(w, n), BitAt(w, n))
    decreases n
  {
    hide Add, LowBit, Low, Shl, Half, ShiftRight;
    LowOne(w);
    if n > 0 {
      var a, b, h := Shl(LowBit(w), n - 1), BitAt(w, n), Low(Half(w), n - 1);
      LowStep(w, n);
      LowStep(w, n + 1);
      ShlStep(LowBit(w), n);
      ShiftRightStep(w, n);
      LowSnoc(Half(w), n - 1);
      AddAssoc(2 * a, 2 * h, b);
      AddDouble(a, h);
    }
  }

  /** A right shift multiplies by x; the coefficient of x^63 is shifted out. */
  lemma ViewShift1(w: bv64)
    ensures 2 * View(w) == Add(View(Half(w)), Shl(LowBit(w), 64))
    ensures LowBit(w) == 0 <==> View(w) < X(63)
  {
    hide Add, Shl;
    LowSnoc(w, 64);
    ShiftRight64(w, 64);
    assert BitAt(w, 64) == 0;
    AddComm(2 * View(w), 0);
    LowStep(w, 65);
    AddComm(Shl(LowBit(w), 64), Low(Half(w), 64));
    LowStep(w, 64);
    LowDegree(Half(w), 63);
    if LowBit(w) == 0 {
      ShlZero(63);
    } else {
      AddAtLeast(X(63), Low(Half(w), 63), 63);
    }
  }

  // ----- the word with a single coefficient

  ghost predicate SingleBit(m: bv64) {
    m != 0 && m & (m - 1) == 0
  }

  lemma HalfSingleBit(m: bv64)
    requires SingleBit(m)
    ensures SingleBit(ONE)
    ensures LowBit(m) == 0 ==> SingleBit(Half(m))
    ensures LowBit(m) == 1 ==> Half(m) == 0
  {
  }

  lemma LastPlace()
    ensures ShiftRight(ONE, 63) == 1
  {
    var w := ONE;
    ShiftRight8(w);
    var w1 := ShiftRight(w, 8);
    var w2 := NextByte(w, 8, w1);
    var w3 := NextByte(w, 16, w2);
    var w4 := NextByte(w, 24, w3);
    var w5 := NextByte(w, 32, w4);
    var w6 := NextByte(w, 40, w5);
    var w7 := NextByte(w, 48, w6);
    ShiftRightAdd(w, 56, 7);
    assert w7 == 0x80;
    assert ShiftRight(0x80, 7) == 1;
  }

  lemma OneStart()
    ensures ShiftRight(ONE, 0) == ONE && SingleBit(ONE)
  {
  }

  lemma ShiftRightNext(w: bv64, n: nat)
    ensures ShiftRight(w, n + 1) == Half(ShiftRight(w, n))
  {
    ShiftRightAdd(w, n, 1);
    assert ShiftRight(ShiftRight(w, n), 1) == ShiftRight(Half(ShiftRight(w, n)), 0);
  }

  lemma {:induction false} OneShifted(k: nat)
    requires k < 64
    ensures SingleBit(ShiftRight(ONE, k))
    ensures k < 63 ==> LowBit(ShiftRight(ONE, k)) == 0
  {
    OneStart();
    hide ShiftRight, SingleBit, Half, LowBit;
    if k > 0 {
      OneShifted(k - 1);
      HalfSingleBit(ShiftRight(ONE, k - 1));
      ShiftRightNext(ONE, k - 1);
    }
    var m := ShiftRight(ONE, k);
    HalfSingleBit(m);
    if k < 63 && LowBit(m) == 1 {
      ShiftRightNext(ONE, k);
      ShiftRightAdd(ONE, k + 1, 62 - k);
      ShiftRightZero(62 - k);
      LastPlace();
      assert false;
    }
  }

  lemma {:induction false} ViewShifted(k: nat)
    requires k < 64
    ensures View(ShiftRight(ONE, k)) == Shl(View(ONE), k)
  {
    OneStart();
    ShlStep(View(ONE), k);
    hide ShiftRight, Half, LowBit, Low, Add, Shl;
    if k > 0 {
      var m := ShiftRight(ONE, k - 1);
      ViewShifted(k - 1);
      OneShifted(k - 1);
      ShiftRightNext(ONE, k - 1);
      ViewShift1(m);
      ShlZero(64);
      AddComm(View(Half(m)), 0);
    }
  }

  lemma ShlStep(a: nat, k: nat)
    ensures Shl(a, 0) == a
    ensures k > 0 ==> Shl(a, k) == 2 * Shl(a, k - 1)
  {
  }

  lemma ViewLast()
    ensures View(1) == X(63)
  {
    var w: bv64 := 1;
    assert LowBit(w) == 1 && Half(w) == 0;
    LowStep(w, 64);
    ShiftRightZero(63);
    LowIsZero(0, 63);
  }

  lemma ViewOne()
    ensures View(ONE) == 1
  {
    hide Low, Shl;
    ViewLast();
    LastPlace();
    ViewShifted(63);
    ShlMonotone(View(ONE), 1, 63);
    ShlMonotone(1, View(ONE), 63);
  }

  lemma SingleBitAnd(v: bv64, w: bv64, m: bv64)
    requires SingleBit(m) && IsAnd(v, w, m)
    ensures m != 0
    ensures v == 0 || v == m
  {
  }

  // ----- bitwise and

  /** v is the bitwise and of w and m. */
  ghost predicate IsAnd(v: bv64, w: bv64, m: bv64) {
    v == w & m
  }

  lemma HalfAnd(v: bv64, w: bv64, m: bv64)
    requires IsAnd(v, w, m)
    ensures IsAnd(Half(v), Half(w), Half(m))
    ensures LowBit(m) == 1 ==> LowBit(v) == LowBit(w)
    ensures LowBit(m) == 0 ==> LowBit(v) == 0
  {
    assert m & 1 == 0 || m & 1 == 1;
  }

  lemma {:induction false} ShiftRightAnd(v: bv64, w: bv64, m: bv64, n: nat)
    requires IsAnd(v, w, m)
    ensures IsAnd(ShiftRight(v, n), ShiftRight(w, n), ShiftRight(m, n))
    decreases n
  {
    ShiftRightStep(v, n);
    ShiftRightStep(w, n);
    ShiftRightStep(m, n);
    hide ShiftRight, Half, IsAnd, LowBit;
    if n != 0 {
      HalfAnd(v, w, m);
      ShiftRightAnd(Half(v), Half(w), Half(m), n - 1);
    }
  }

  lemma ShiftRightStep(w: bv64, n: nat)
    ensures ShiftRight(w, 0) == w
    ensures n > 0 ==> ShiftRight(w, n) == ShiftRight(Half(w), n - 1)
  {
  }

  /** Testing the coefficient of x^k with the mask ONE >>> k. */
  lemma MaskTest(v: bv64, w: bv64, m: bv64, k: nat)
    requires k < 64 && m == ShiftRight(ONE, k) && IsAnd(v, w, m)
    ensures v != 0 <==> BitAt(w, 63 - k) == 1
  {
    hide ShiftRight, Half, IsAnd, LowBit, SingleBit;
    OneShifted(k);
    SingleBitAnd(v, w, m);
    ShiftRightAnd(v, w, m, 63 - k);
    LastPlace();
    ShiftRightAdd(ONE, k, 63 - k);
    ShiftRightZero(63 - k);
    AndOne(ShiftRight(v, 63 - k), ShiftRight(w, 63 - k));
  }

  lemma AndOne(v: bv64, w: bv64)
    ensures IsAnd(v, w, 1) ==> (v == 1 <==> LowBit(w) == 1) && (v == 0 <==> LowBit(w) == 0)
  {
    assert w & 1 == 0 || w & 1 == 1;
  }

  /** A word of degree below d has its leading coefficient at x^(d-1) set exactly when it is at
      least x^(d-1). */
  lemma LeadingBit(w: bv64, d: nat)
    requires 1 <= d <= 64 && View(w) < X(d)
    ensures BitAt(w, 64 - d) == 1 <==> View(w) >= X(d - 1)
  {
    hide Add, Shl, Low;
    var y := ShiftRight(w, 64 - d);
    LowSplit(w, 64 - d, d);
    LowDegree(y, d);
    if Low(w, 64 - d) != 0 {
      ShlMonotone(0, Low(w, 64 - d), d);
      ShlMonotone(Low(w, 64 - d), 1, d);
      AddComm(Shl(Low(w, 64 - d), d), Low(y, d));
      AddAtLeast(Shl(Low(w, 64 - d), d), Low(y, d), d);
      assert false;
    }
    ShlZero(d);
    LowStep(y, d);
    LowDegree(Half(y), d - 1);
    if LowBit(y) == 1 {
      AddAtLeast(X(d - 1), Low(Half(y), d - 1), d - 1);
    } else {
      ShlZero(d - 1);
    }
  }

  // ----- bytes

  /** The low bits kept by a mask that ends in n ones. */
  ghost predicate EndsInOnes(m: bv64, n: nat) {
    n == 0 || (LowBit(m) == 1 && EndsInOnes(Half(m), n - 1))
  }

  lemma {:induction false} LowMasked(v: bv64, w: bv64, m: bv64, n: nat)
    requires IsAnd(v, w, m) && EndsInOnes(m, n)
    ensures Low(v, n) == Low(w, n)
    decreases n
  {
    LowNoBits(v, n);
    LowNoBits(w, n);
    EndsInOnesStep(m, n);
    hide Low, LowBit, Half, IsAnd, EndsInOnes;
    if n != 0 {
      HalfAnd(v, w, m);
      LowMasked(Half(v), Half(w), Half(m), n - 1);
      LowStep(v, n);
      LowStep(w, n);
    }
  }

  lemma EndsInOnesStep(m: bv64, n: nat)
    ensures EndsInOnes(m, n) <==> n == 0 || (LowBit(m) == 1 && EndsInOnes(Half(m), n - 1))
  {
  }

  lemma ByteOfOnes()
    ensures EndsInOnes(0xff, 8)
  {
  }

  /** The low byte, then the rest. */
  lemma ByteSplit(w: bv64, n: nat, b: bv64, rest: bv64)
    requires n >= 8 && b == w & 0xff && rest == w >> 8
    ensures Low(w, n) == Add(Shl(Low(b, 8), n - 8), Low(rest, n - 8))
  {
    hide Low, LowBit, ShiftRight, Shl, Add, EndsInOnes;
    LowSplit(w, 8, n - 8);
    ShiftRight8(w);
    ByteOfOnes();
    LowMasked(b, w, 0xff, 8);
  }

  /** w >>> k multiplies what is not shifted out by x^k. */
  lemma {:induction false} ViewShiftedOut(w: bv64, k: nat, j: nat)
    requires k <= 64
    ensures Low(ShiftRight(w, k), 64 - k + j) == Shl(Low(ShiftRight(w, k), 64 - k), j)
    decreases j
  {
    hide Low, LowBit, ShiftRight, Shl, Add;
    var v := ShiftRight(w, k);
    ShlStep(Low(v, 64 - k), j);
    if j != 0 {
      var n := 63 - k + j;
      ViewShiftedOut(w, k, j - 1);
      LowSnoc(v, n);
      ShiftRightAdd(w, k, n);
      ShiftRight64(w, k + n);
      BitOfZero();
      AddComm(2 * Low(v, n), 0);
    }
  }

  lemma BitOfZero()
    ensures LowBit(0) == 0
  {
  }

  lemma ViewShift(w: bv64, k: nat)
    requires k <= 64
    ensures View(ShiftRight(w, k)) == Shl(Low(ShiftRight(w, k), 64 - k), k)
  {
    hide Low, ShiftRight, Shl;
    ViewShiftedOut(w, k, k);
  }

  /** w == w' + (its k low bits), and w >>> k is x^k times w'. */
  lemma ViewTimes(w: bv64, k: nat)
    requires k <= 64
    ensures Shl(View(w), k) == Add(Shl(Shl(Low(w, k), 64 - k), k), View(ShiftRight(w, k)))
  {
    hide Low, ShiftRight, Shl, Add;
    LowSplit(w, k, 64 - k);
    ViewShift(w, k);
    ShlAdd(Shl(Low(w, k), 64 - k), Low(ShiftRight(w, k), 64 - k), k);
  }

  // ----- from polynomials back to words

  /** The word that stands for a, when a has degree below n <= 64. */
  function Word(a: nat, n: nat): bv64 {
    if n == 0 then 0 else Constant(a % 2) ^ Half(Word(a / 2, n - 1))
  }

  /** The word that stands for the constant polynomial i. */
  function Constant(i: nat): bv64 {
    if i == 1 then ONE else 0
  }

  lemma {:induction false} ViewWord(a: nat, n: nat)
    requires n <= 64 && a < X(n)
    ensures View(Word(a, n)) == a
    decreases n
  {
    hide *;
    WordStep(a, n);
    XHalves(a, n);
    LowIsZero64();
    if n > 0 {
      ViewWord(a / 2, n - 1);
      ViewWordStep(a, n);
    }
  }

  lemma ViewWordStep(a: nat, n: nat)
    requires 0 < n <= 64 && a / 2 < X(n - 1) && View(Word(a / 2, n - 1)) == a / 2
    ensures View(Word(a, n)) == a
  {
    hide *;
    WordStep(a, n);
    XMonotone(n - 1, 63);
    ViewTop(Word(a, n), a % 2, Word(a / 2, n - 1));
  }

  /** Putting a coefficient in front. */
  lemma ViewTop(u: bv64, i: nat, v: bv64)
    requires i < 2 && View(v) < X(63) && IsXor(u, Constant(i), Half(v))
    ensures View(u) == 2 * View(v) + i
  {
    hide Low, Half, X, Add, LowBit, IsXor;
    ViewShift1(v);
    ShlZero(64);
    AddComm(View(Half(v)), 0);
    LowXor(u, Constant(i), Half(v), 64);
    ViewOne();
    LowIsZero64();
    AddOne(View(v));
  }

  lemma AddOne(a: nat)
    ensures Add(1, 2 * a) == 2 * a + 1
  {
    AddStep(1, 2 * a);
  }

  lemma WordStep(a: nat, n: nat)
    ensures Word(a, 0) == 0
    ensures n > 0 ==> IsXor(Word(a, n), Constant(a % 2), Half(Word(a / 2, n - 1)))
  {
  }

  lemma XHalves(a: nat, n: nat)
    requires a < X(n)
    ensures n == 0 ==> a == 0
    ensures n > 0 ==> a / 2 < X(n - 1)
  {
  }

  lemma LowIsZero64()
    ensures View(0) == 0
  {
    ShiftRightZero(64);
    LowIsZero(0, 64);
  }

  // ----- testing one bit of a byte

  /** m == 1 << k */
  ghost predicate BitMask(m: bv64, k: nat) {
    k < 8 && m == (if k == 0 then 1 else if k == 1 then 2 else if k == 2 then 4 else if k == 3 then 8
                   else if k == 4 then 16 else if k == 5 then 32 else if k == 6 then 64 else 128)
  }

  lemma ShiftedOne(m: bv64, k: nat)
    requires k < 8 && m == 1 << k
    ensures BitMask(m, k)
  {
  }

  lemma HalfMask(w: bv64, m: bv64, k: nat)
    requires BitMask(m, k)
    ensures k > 0 ==> BitMask(Half(m), k - 1) && (Tests(w, m) <==> Tests(Half(w), Half(m)))
    ensures k == 0 ==> (Tests(w, m) <==> LowBit(w) == 1)
  {
  }

  ghost predicate Tests(w: bv64, m: bv64) {
    w & m != 0
  }

  /** Bit k of w, tested with the mask 1 << k. */
  lemma {:induction false} BitTest(w: bv64, m: bv64, k: nat)
    requires BitMask(m, k)
    ensures Tests(w, m) <==> BitAt(w, k) == 1
    decreases k
  {
    hide BitMask, Half, Tests, LowBit, ShiftRight;
    HalfMask(w, m, k);
    ShiftRightStep(w, k);
    if k > 0 {
      BitTest(Half(w), Half(m), k - 1);
    }
  }
}
