/** What a fingerprint is, in terms of polynomials, and the steps by which tables compute it. */
module Fingerprints {
  import opened Polynomials
  import opened Words

  /** The polynomial of a byte: bit k is the coefficient of x^(7-k). */
  function ByteP(b: bv8): nat {
    Low(b as bv64, 8)
  }

  /** The low byte of a word. */
  function ByteOf(w: bv64): bv8 {
    (w & 0xff) as bv8
  }

  /** The low byte as an index into a row of the table. */
  function Index(w: bv64): (j: nat)
    ensures j < 256 && j as bv8 == ByteOf(w)
  {
    ByteOf(w) as int
  }

  /** One byte of input: m becomes (m + b * x^56) * x^8. */
  function StepByte(m: nat, b: bv8): nat {
    Shl(Add(m, Shl(ByteP(b), 56)), 8)
  }

  function Extended(m: nat, s: seq<bv8>): nat {
    if s == [] then m else StepByte(Extended(m, s[..|s| - 1]), s[|s| - 1])
  }

  /** The k low bytes of v, least significant first. */
  function LittleEndian(v: bv64, k: nat): (s: seq<bv8>)
    ensures |s| == k
  {
    if k == 0 then [] else [ByteOf(v)] + LittleEndian(v >> 8, k - 1)
  }

  /** Characters and ints in the low bits of a word. */
  function CharWord(c: bv16): bv64 {
    c as bv64
  }

  function IntWord(v: bv32): bv64 {
    v as bv64
  }

  /** The bytes of 16-bit characters, 32-bit and 64-bit integers, in little-endian order. */
  function CharBytes(s: seq<bv16>): seq<bv8> {
    if s == [] then [] else CharBytes(s[..|s| - 1]) + LittleEndian(CharWord(s[|s| - 1]), 2)
  }

  function IntBytes(s: seq<bv32>): seq<bv8> {
    if s == [] then [] else IntBytes(s[..|s| - 1]) + LittleEndian(IntWord(s[|s| - 1]), 4)
  }

  function LongBytes(s: seq<bv64>): seq<bv8> {
    if s == [] then [] else LongBytes(s[..|s| - 1]) + LittleEndian(s[|s| - 1], 8)
  }

  /** The low bytes of characters. */
  function LowBytes(s: seq<bv16>): seq<bv8> {
    if s == [] then [] else LowBytes(s[..|s| - 1]) + LittleEndian(CharWord(s[|s| - 1]), 1)
  }

  // ----- extending by bytes

  lemma ExtendedStep(m: nat, s: seq<bv8>, b: bv8)
    ensures Extended(m, []) == m
    ensures Extended(m, s + [b]) == StepByte(Extended(m, s), b)
  {
    assert (s + [b])[..|s|] == s;
  }

  /** Extending in two chunks is extending by their concatenation. */
  lemma {:induction false} ExtendedConcat(m: nat, s: seq<bv8>, t: seq<bv8>)
    ensures Extended(m, s + t) == Extended(Extended(m, s), t)
  {
    hide *;
    if t == [] {
      assert s + t == s;
      ExtendedStep(Extended(m, s), [], 0);
    } else {
      var u, b := t[..|t| - 1], t[|t| - 1];
      assert t == u + [b];
      assert s + t == (s + u) + [b];
      ExtendedConcat(m, s, u);
      ExtendedStep(m, s + u, b);
      ExtendedStep(Extended(m, s), u, b);
    }
  }

  lemma LittleEndianStep(v: bv64, k: nat)
    ensures LittleEndian(v, 0) == []
    ensures k > 0 ==> LittleEndian(v, k) == [ByteOf(v)] + LittleEndian(v >> 8, k - 1)
  {
  }

  lemma BytePOfLow(v: bv64)
    ensures ByteP(ByteOf(v)) == Low(v & 0xff, 8)
  {
    hide Low;
    assert ((v & 0xff) as bv8) as bv64 == v & 0xff;
  }

  /** k bytes at once, least significant first: m becomes (m + v) * x^(8k), where v is read
      from the k low bytes of a word. */
  lemma {:induction false} WideStep(m: nat, v: bv64, k: nat)
    requires k <= 8
    ensures Extended(m, LittleEndian(v, k)) == Shl(Add(m, Shl(Low(v, 8 * k), 64 - 8 * k)), 8 * k)
    decreases k
  {
    hide *;
    if k == 0 {
      LittleEndianStep(v, 0);
      ExtendedStep(m, [], 0);
      LowNoBits(v, 64);
      AddComm(m, 0);
      ShlStep(m, 0);
    } else {
      var b, u := ByteOf(v), v >> 8;
      var n := 8 * k - 8;
      var m' := Shl(Add(m, Shl(ByteP(b), 56)), 8);
      var e := 64 - 8 * k;
      calc {
        Extended(m, LittleEndian(v, k));
        { LittleEndianStep(v, k); ExtendedConcat(m, [b], LittleEndian(u, k - 1)); }
        Extended(Extended(m, [b]), LittleEndian(u, k - 1));
        { ExtendedOne(m, b); WideStep(m', u, k - 1); }
        Shl(Add(m', Shl(Low(u, n), e + 8)), n);
        { ShlShl(Low(u, n), e, 8); }
        Shl(Add(m', Shl(Shl(Low(u, n), e), 8)), n);
        { ShlAdd(Add(m, Shl(ByteP(b), 56)), Shl(Low(u, n), e), 8); }
        Shl(Shl(Add(Add(m, Shl(ByteP(b), 56)), Shl(Low(u, n), e)), 8), n);
        { ShlShl(Add(Add(m, Shl(ByteP(b), 56)), Shl(Low(u, n), e)), 8, n); AddAssoc(m, Shl(ByteP(b), 56), Shl(Low(u, n), e)); }
        Shl(Add(m, Add(Shl(ByteP(b), 56), Shl(Low(u, n), e))), 8 * k);
        { ShlShl(ByteP(b), n, e); ShlAdd(Shl(ByteP(b), n), Low(u, n), e); }
        Shl(Add(m, Shl(Add(Shl(ByteP(b), n), Low(u, n)), e)), 8 * k);
        { BytePOfLow(v); ByteSplit(v, 8 * k, v & 0xff, u); }
        Shl(Add(m, Shl(Low(v, 8 * k), e)), 8 * k);
      }
    }
  }

  lemma ExtendedOne(m: nat, b: bv8)
    ensures Extended(m, [b]) == Shl(Add(m, Shl(ByteP(b), 56)), 8)
  {
    hide Low, Shl, Add, ByteP;
    ExtendedStep(m, [], b);
    assert [] + [b] == [b];
  }

  // ----- one table lookup at a time

  /** What the table holds at row i for the byte b. */
  ghost predicate TableEntry(t: bv64, i: nat, b: bv8, p: nat, d: nat)
    requires i < 16
  {
    View(t) == Rem(Shl(ByteP(b), 120 - 8 * i), p, d)
  }

  /** acc is congruent to base plus the j low bytes of w, these times x^(8k). */
  ghost predicate Folded(acc: bv64, base: nat, w: bv64, j: nat, k: nat, p: nat, d: nat)
    requires j <= 8
  {
    Rem(View(acc), p, d) == Rem(Add(base, Shl(Low(w, 8 * j), 64 - 8 * j + 8 * k)), p, d)
  }

  lemma FoldStart(acc: bv64, base: nat, w: bv64, k: nat, p: nat, d: nat)
    requires View(acc) == base
    ensures Folded(acc, base, w, 0, k, p, d)
  {
    hide Low, Add, Rem, Shl;
    LowNoBits(w, 64 + 8 * k);
    AddComm(base, 0);
  }

  /** Adding the table entry of byte j of w. */
  lemma FoldByte(acc: bv64, t: bv64, acc': bv64, base: nat, w: bv64, v: bv64, b: bv8, j: nat, k: nat, p: nat, d: nat)
    requires IsModulus(p, d) && j < 8 && k <= 8 && k <= 8 + j && 8 - k + j < 16
    requires v == ShiftRight(w, 8 * j) && b == ByteOf(v)
    requires IsXor(acc', acc, t) && TableEntry(t, 8 - k + j, b, p, d)
    requires Folded(acc, base, w, j, k, p, d)
    ensures Folded(acc', base, w, j + 1, k, p, d)
  {
    hide Low, Add, Rem, Shl, ShiftRight, IsModulus, IsXor, ByteP, ByteOf;
    var e := 56 - 8 * j + 8 * k;
    var low := Low(w, 8 * j);
    assert 120 - 8 * (8 - k + j) == e;
    calc {
      Rem(View(acc'), p, d);
      { LowXor(acc', acc, t, 64); RemAdd(View(acc), View(t), p, d); }
      Add(Rem(View(acc), p, d), Rem(View(t), p, d));
      { RemIdempotent(Shl(ByteP(b), e), p, d); }
      Add(Rem(Add(base, Shl(low, e + 8)), p, d), Rem(Shl(ByteP(b), e), p, d));
      { RemAdd(Add(base, Shl(low, e + 8)), Shl(ByteP(b), e), p, d); }
      Rem(Add(Add(base, Shl(low, e + 8)), Shl(ByteP(b), e)), p, d);
      { AddAssoc(base, Shl(low, e + 8), Shl(ByteP(b), e)); ShlShl(low, 8, e); ShlAdd(Shl(low, 8), ByteP(b), e); }
      Rem(Add(base, Shl(Add(Shl(low, 8), ByteP(b)), e)), p, d);
      { LowSplit(w, 8 * j, 8); LowByte(v); }
      Rem(Add(base, Shl(Low(w, 8 * (j + 1)), e)), p, d);
    }
  }

  lemma LowByte(v: bv64)
    ensures ByteP(ByteOf(v)) == Low(v, 8)
  {
    hide Low, ByteP;
    BytePOfLow(v);
    ByteOfOnes();
    LowMasked(v & 0xff, v, 0xff, 8);
  }

  /** After the k bytes of an extension step: the input times x^(8k). */
  lemma FoldEnd(acc: bv64, f: bv64, v: bv64, m: bv64, w: bv64, k: nat, p: nat, d: nat)
    requires IsModulus(p, d) && k <= 8
    requires IsXor(w, f, m) && Low(m, 8 * k) == Low(v, 8 * k) && ShiftRight(m, 8 * k) == 0
    requires Folded(acc, View(ShiftRight(w, 8 * k)), w, k, k, p, d)
    ensures Rem(View(acc), p, d) == Rem(Extended(View(f), LittleEndian(v, k)), p, d)
  {
    hide Low, Add, Rem, Shl, ShiftRight, IsModulus, IsXor, Extended, LittleEndian;
    var n := 8 * k;
    calc {
      Rem(View(acc), p, d);
      Rem(Add(View(ShiftRight(w, n)), Shl(Low(w, n), 64)), p, d);
      { ShlShl(Low(w, n), 64 - n, n); AddComm(View(ShiftRight(w, n)), Shl(Low(w, n), 64)); }
      Rem(Add(Shl(Shl(Low(w, n), 64 - n), n), View(ShiftRight(w, n))), p, d);
      { ViewTimes(w, n); }
      Rem(Shl(View(w), n), p, d);
      { LowXor(w, f, m, 64); LowSplit(m, n, 64 - n); LowOfZero(64 - n); AddComm(Shl(Low(m, n), 64 - n), 0); }
      Rem(Shl(Add(View(f), Shl(Low(v, n), 64 - n)), n), p, d);
      { WideStep(View(f), v, k); }
      Rem(Extended(View(f), LittleEndian(v, k)), p, d);
    }
  }

  lemma LowOfZero(n: nat)
    ensures Low(0, n) == 0
  {
    ShiftRightZero(n);
    LowIsZero(0, n);
  }

  // ----- building the tables

  /** The modulus given by a word: for degree 64 the leading term x^64 is implicit. */
  function ModulusOf(polynomial: bv64, d: nat): nat {
    if d == 64 then Add(X(64), View(polynomial)) else View(polynomial)
  }

  /** For degree 64 every word gives a modulus. */
  lemma ModulusOf64(polynomial: bv64)
    ensures IsModulus(ModulusOf(polynomial, 64), 64)
  {
    hide Low, Add, Shl;
    var r := View(polynomial);
    LowDegree(polynomial, 64);
    AddAtLeast(X(64), r, 64);
    XStep(64);
    XMonotone(0, 64);
    AddDegree(X(64), r, 65);
  }

  /** From x^i to x^(i+1): a shift, and the modulus added when the shift overflows. */
  lemma PowerStep(x: bv64, y: bv64, v: bv64, m: bv64, polynomial: bv64, i: nat, p: nat, d: nat)
    requires IsModulus(p, d) && d <= 64 && p == ModulusOf(polynomial, d)
    requires View(x) == Rem(X(i), p, d)
    requires m == ShiftRight(ONE, d - 1) && IsAnd(v, x, m)
    requires if v != 0 then IsXor(y, Half(x), polynomial) else y == Half(x)
    ensures View(y) == Rem(X(i + 1), p, d)
  {
    hide Low, Add, Rem, X, ShiftRight, IsXor, IsAnd, Half, BitAt, LowBit;
    var r, h := View(x), Half(x);
    RemDegree(X(i), p, d);
    MaskTest(v, x, m, d - 1);
    LeadingBit(x, d);
    ViewShift1(x);
    XStep(i);
    RemDouble(X(i), p, d);
    XStep(d - 1);
    if v == 0 {
      XMonotone(d - 1, 63);
      ShlZero(64);
      AddComm(View(h), 0);
    } else {
      LowXor(y, h, polynomial, 64);
      if d < 64 {
        XMonotone(d, 63);
        ShlZero(64);
        AddComm(View(h), 0);
      } else {
        var q := View(polynomial);
        XMonotone(63, 63);
        AddAssoc(View(h), X(64), Add(X(64), q));
        AddCancel(X(64), q);
        ShlOne(x);
      }
    }
  }

  lemma ShlOne(x: bv64)
    ensures LowBit(x) == 1 ==> Shl(LowBit(x), 64) == X(64)
  {
    hide LowBit, Shl;
  }

  /** A table entry after its k low bits. */
  ghost predicate PartialEntry(v: bv64, i: nat, w: bv64, k: nat, p: nat, d: nat)
    requires i < 16 && k <= 8
  {
    View(v) == Rem(Shl(Low(w, k), 128 - 8 * i - k), p, d)
  }

  lemma EntryStart(i: nat, w: bv64, p: nat, d: nat)
    requires i < 16
    ensures PartialEntry(0, i, w, 0, p, d)
  {
    hide Low, Shl;
    LowNoBits(w, 128 - 8 * i);
    LowIsZero64();
    RemZero(p, d);
  }

  lemma EntryStep(v: bv64, v': bv64, t: bv64, w: bv64, m: bv64, i: nat, k: nat, p: nat, d: nat)
    requires IsModulus(p, d) && i < 16 && k < 8
    requires PartialEntry(v, i, w, k, p, d) && View(t) == Rem(X(127 - 8 * i - k), p, d)
    requires BitMask(m, k)
    requires if Tests(w, m) then IsXor(v', v, t) else v' == v
    ensures PartialEntry(v', i, w, k + 1, p, d)
  {
    hide Low, Add, Rem, Shl, IsModulus, ShiftRight, IsXor, BitMask, Tests, BitAt;
    var e := 127 - 8 * i - k;
    var low, bit := Low(w, k), BitAt(w, k);
    BitTest(w, m, k);
    LowSnoc(w, k);
    ShlAdd(2 * low, bit, e);
    ShlDouble(low, e);
    if bit == 1 {
      LowXor(v', v, t, 64);
      RemAdd(Shl(low, e + 1), X(e), p, d);
    } else {
      ShlZero(e);
      AddComm(Shl(low, e + 1), 0);
    }
  }

  lemma ShlDouble(a: nat, k: nat)
    ensures Shl(2 * a, k) == Shl(a, k + 1)
  {
    ShlShl(a, 1, k);
    assert Shl(a, 1) == 2 * a;
  }

  lemma EntryEnd(v: bv64, i: nat, b: bv8, p: nat, d: nat)
    requires i < 16 && PartialEntry(v, i, b as bv64, 8, p, d)
    ensures TableEntry(v, i, b, p, d)
  {
    hide Low, Rem, Shl;
  }

  // ----- reducing

  /** -1L << 8*n */
  function HighMask(n: nat): bv64 {
    if n == 0 then 0xffff_ffff_ffff_ffff else HighMask(n - 1) << 8
  }

  lemma HighMaskIsShift(n: nat)
    requires n < 8
    ensures 0xffff_ffff_ffff_ffff << (8 * n) == HighMask(n)
  {
    var ones: bv64 := 0xffff_ffff_ffff_ffff;
    assert HighMask(1) == 0xffff_ffff_ffff_ff00;
    assert HighMask(2) == 0xffff_ffff_ffff_0000;
    assert HighMask(3) == 0xffff_ffff_ff00_0000;
    assert HighMask(4) == 0xffff_ffff_0000_0000;
    assert HighMask(5) == 0xffff_ff00_0000_0000;
    assert HighMask(6) == 0xffff_0000_0000_0000;
    assert HighMask(7) == 0xff00_0000_0000_0000;
    if n == 0 {
      assert ones << (8 * n) == ones;
    } else if n == 1 {
      assert ones << (8 * n) == ones << 8;
    } else if n == 2 {
      assert ones << (8 * n) == ones << 16;
    } else if n == 3 {
      assert ones << (8 * n) == ones << 24;
    } else if n == 4 {
      assert ones << (8 * n) == ones << 32;
    } else if n == 5 {
      assert ones << (8 * n) == ones << 40;
    } else if n == 6 {
      assert ones << (8 * n) == ones << 48;
    } else {
      assert ones << (8 * n) == ones << 56;
    }
  }

  lemma HighMaskStep(v: bv64, w: bv64, n: nat)
    requires IsAnd(v, w, HighMask(n))
    ensures n == 0 ==> v == w
    ensures n > 0 ==> v & 0xff == 0 && IsAnd(v >> 8, w >> 8, HighMask(n - 1))
  {
  }

  /** Masking the n low bytes away keeps exactly the others. */
  lemma {:induction false} Cleared(v: bv64, w: bv64, n: nat)
    requires IsAnd(v, w, HighMask(n))
    ensures Low(v, 8 * n) == 0 && ShiftRight(v, 8 * n) == ShiftRight(w, 8 * n)
    decreases n
  {
    hide *;
    HighMaskStep(v, w, n);
    LowNoBits(v, 8 * n);
    if n > 0 {
      var m := 8 * n - 8;
      Cleared(v >> 8, w >> 8, n - 1);
      ShiftRight8(v);
      ShiftRight8(w);
      ShiftRightAdd(v, 8, m);
      ShiftRightAdd(w, 8, m);
      ByteSplit(v, 8 * n, 0, v >> 8);
      LowOfZero(8);
      ShlZero(m);
      AddComm(0, 0);
    }
  }

  /** The bits that reduce does not look up. */
  lemma ViewUpper(local: bv64, fp: bv64, n: nat)
    requires n <= 8 && if n == 8 then local == 0 else IsAnd(local, fp, HighMask(n))
    ensures View(local) == Low(ShiftRight(fp, 8 * n), 64 - 8 * n)
  {
    hide Low, Add, Shl, ShiftRight, IsAnd, HighMask;
    var high := Low(ShiftRight(fp, 8 * n), 64 - 8 * n);
    if n == 8 {
      LowIsZero64();
      LowNoBits(ShiftRight(fp, 64), 0);
    } else {
      Cleared(local, fp, n);
      LowSplit(local, 8 * n, 64 - 8 * n);
      ShlZero(64 - 8 * n);
      AddComm(0, high);
    }
  }

  /** What a reduction computes: the masked word is the part already of degree below d. */
  lemma ReduceEnd(r: bv64, local: bv64, temp: bv64, fp: bv64, n: nat, p: nat, d: nat)
    requires IsModulus(p, d) && d <= 64 && n == 8 - d / 8
    requires if n == 8 then local == 0 else IsAnd(local, fp, HighMask(n))
    requires IsXor(r, local, temp) && View(temp) < X(d) && Folded(temp, 0, fp, n, 0, p, d)
    ensures View(r) == Rem(View(fp), p, d)
  {
    hide Low, Add, Rem, Shl, ShiftRight, IsModulus, IsXor, IsAnd, HighMask;
    var low := Shl(Low(fp, 8 * n), 64 - 8 * n);
    var high := Low(ShiftRight(fp, 8 * n), 64 - 8 * n);
    ViewUpper(local, fp, n);
    LowDegree(ShiftRight(fp, 8 * n), 64 - 8 * n);
    XMonotone(64 - 8 * n, d);
    LowXor(r, local, temp, 64);
    AddDegree(high, View(temp), d);
    RemSmall(View(r), p, d);
    RemAdd(high, View(temp), p, d);
    LowSplit(fp, 8 * n, 64 - 8 * n);
    RemAdd(low, high, p, d);
    AddComm(Rem(low, p, d), Rem(high, p, d));
    AddComm(0, low);
  }

  /** The running sum of table entries stays below degree d. */
  lemma EntryDegree(acc': bv64, acc: bv64, t: bv64, i: nat, b: bv8, p: nat, d: nat)
    requires IsModulus(p, d) && i < 16 && TableEntry(t, i, b, p, d)
    requires IsXor(acc', acc, t) && View(acc) < X(d)
    ensures View(acc') < X(d)
  {
    hide Low, Add, Rem, Shl, IsModulus, IsXor, ByteP;
    RemDegree(Shl(ByteP(b), 120 - 8 * i), p, d);
    LowXor(acc', acc, t, 64);
    AddDegree(View(acc), View(t), d);
  }

  // ----- extending congruent polynomials

  lemma {:induction false} ExtendedCongruent(a: nat, b: nat, s: seq<bv8>, p: nat, d: nat)
    requires IsModulus(p, d) && Rem(a, p, d) == Rem(b, p, d)
    ensures Rem(Extended(a, s), p, d) == Rem(Extended(b, s), p, d)
  {
    hide *;
    if s == [] {
      ExtendedStep(a, [], 0);
      ExtendedStep(b, [], 0);
    } else {
      var t, v := s[..|s| - 1], s[|s| - 1];
      assert s == t + [v];
      ExtendedStep(a, t, v);
      ExtendedStep(b, t, v);
      ExtendedCongruent(a, b, t, p, d);
      StepCongruent(Extended(a, t), Extended(b, t), v, p, d);
    }
  }

  lemma StepCongruent(a: nat, b: nat, v: bv8, p: nat, d: nat)
    requires IsModulus(p, d) && Rem(a, p, d) == Rem(b, p, d)
    ensures Rem(StepByte(a, v), p, d) == Rem(StepByte(b, v), p, d)
  {
    hide Rem, Add, Shl, ByteP, IsModulus;
    RemCongruence(a, b, Shl(ByteP(v), 56), 0, p, d);
    RemCongruence(Add(a, Shl(ByteP(v), 56)), Add(b, Shl(ByteP(v), 56)), 0, 8, p, d);
  }

  /** One more chunk in a loop over a buffer. */
  lemma ExtendChunk(m: nat, s: seq<bv8>, cur: nat, chunk: seq<bv8>, next: nat, p: nat, d: nat)
    requires IsModulus(p, d)
    requires Rem(cur, p, d) == Rem(Extended(m, s), p, d)
    requires Rem(next, p, d) == Rem(Extended(cur, chunk), p, d)
    ensures Rem(next, p, d) == Rem(Extended(m, s + chunk), p, d)
  {
    hide *;
    ExtendedConcat(m, s, chunk);
    ExtendedCongruent(cur, Extended(m, s), chunk, p, d);
  }

  // ----- masking the input of an extension step

  ghost predicate IsLow(m: bv64, v: bv64, k: nat) {
    k <= 8 && Low(m, 8 * k) == Low(v, 8 * k) && ShiftRight(m, 8 * k) == 0
  }

  /** w >>> 8 */
  function Shift8(w: bv64): bv64 {
    w >> 8
  }

  /** m keeps the k low bytes of v. */
  ghost predicate Keeps(m: bv64, v: bv64, k: nat) {
    k <= 8 && if k == 0 then m == 0 else ByteOf(m) == ByteOf(v) && Keeps(Shift8(m), Shift8(v), k - 1)
  }

  lemma KeepsStep(m: bv64, v: bv64, k: nat)
    ensures Keeps(m, v, k) ==> k <= 8
    ensures Keeps(m, v, 0) ==> m == 0
    ensures 0 < k <= 8 ==> (Keeps(m, v, k) <==> ByteOf(m) == ByteOf(v) && Keeps(Shift8(m), Shift8(v), k - 1))
  {
  }

  lemma FirstByte(w: bv64, n: nat)
    requires n >= 8
    ensures Low(w, n) == Add(Shl(ByteP(ByteOf(w)), n - 8), Low(Shift8(w), n - 8))
    ensures ShiftRight(w, n) == ShiftRight(Shift8(w), n - 8)
  {
    hide Low, Add, Shl, ShiftRight, ByteP, ByteOf;
    LowSplit(w, 8, n - 8);
    ShiftRight8(w);
    ShiftRightAdd(w, 8, n - 8);
    LowByte(w);
  }

  lemma {:induction false} KeepsIsLow(m: bv64, v: bv64, k: nat)
    requires Keeps(m, v, k)
    ensures IsLow(m, v, k)
    decreases k
  {
    hide Low, ShiftRight, Keeps, ByteOf, Shift8, ByteP, Add, Shl;
    KeepsStep(m, v, k);
    if k == 0 {
      LowNoBits(m, 0);
      LowNoBits(v, 0);
      ShiftRightStep(m, 0);
      KeepsStep(m, v, 0);
    } else {
      KeepsIsLow(Shift8(m), Shift8(v), k - 1);
      FirstByte(m, 8 * k);
      FirstByte(v, 8 * k);
    }
  }

  /** The mask of the k low bytes. */
  function LowMask(k: nat): bv64 {
    if k == 0 then 0 else (LowMask(k - 1) << 8) | 0xff
  }

  /** m == v & (the mask of the k low bytes) */
  ghost predicate Masked(m: bv64, v: bv64, k: nat) {
    IsAnd(m, v, LowMask(k))
  }

  lemma AndLowByte(m: bv64, v: bv64, mask: bv64)
    requires IsAnd(m, v, mask) && mask & 0xff == 0xff
    ensures ByteOf(m) == ByteOf(v)
  {
  }

  lemma AndRest(m: bv64, v: bv64, mask: bv64, rest: bv64)
    requires IsAnd(m, v, mask) && rest == mask >> 8
    ensures IsAnd(Shift8(m), Shift8(v), rest)
  {
  }

  lemma LowMasks()
    ensures LowMask(0) == 0 && LowMask(1) == 0xff && LowMask(2) == 0xffff
    ensures LowMask(3) == 0xff_ffff && LowMask(4) == 0xffff_ffff
  {
  }

  lemma MaskedStep(m: bv64, v: bv64, k: nat)
    requires 1 <= k <= 4 && Masked(m, v, k)
    ensures ByteOf(m) == ByteOf(v) && Masked(Shift8(m), Shift8(v), k - 1)
  {
    hide IsAnd, ByteOf, Shift8;
    LowMasks();
    AndLowByte(m, v, LowMask(k));
    AndRest(m, v, LowMask(k), LowMask(k - 1));
  }

  lemma {:induction false} MaskedKeeps(m: bv64, v: bv64, k: nat)
    requires k <= 4 && Masked(m, v, k)
    ensures Keeps(m, v, k)
    decreases k
  {
    hide Masked, ByteOf, Shift8, Keeps;
    if k == 0 {
      MaskedNothing(m, v);
    } else {
      MaskedStep(m, v, k);
      KeepsStep(m, v, k);
      MaskedKeeps(Shift8(m), Shift8(v), k - 1);
    }
  }

  lemma MaskedNothing(m: bv64, v: bv64)
    ensures Masked(m, v, 0) ==> Keeps(m, v, 0)
  {
  }

  lemma KeepsAll(v: bv64)
    ensures IsLow(v, v, 8)
  {
    hide Low;
    ShiftRight64(v, 64);
  }

  // ----- a whole extension step

  /** The lookups ts for the bytes of w, from the lowest, in the k rows from 8 - k on. */
  ghost predicate Lookups(ts: seq<bv64>, w: bv64, k: nat, p: nat, d: nat)
    requires |ts| <= k <= 8
  {
    forall j :: 0 <= j < |ts| ==> TableEntry(ts[j], 8 - k + j, ByteOf(ShiftRight(w, 8 * j)), p, d)
  }

  function SumOf(start: bv64, ts: seq<bv64>): bv64 {
    if ts == [] then start else SumOf(start, ts[..|ts| - 1]) ^ ts[|ts| - 1]
  }

  lemma SumStep(start: bv64, ts: seq<bv64>)
    ensures SumOf(start, []) == start
    ensures ts != [] ==> IsXor(SumOf(start, ts), SumOf(start, ts[..|ts| - 1]), ts[|ts| - 1])
  {
  }

  lemma {:induction false} FoldAll(start: bv64, base: nat, ts: seq<bv64>, w: bv64, k: nat, p: nat, d: nat)
    requires IsModulus(p, d) && |ts| <= k <= 8 && Lookups(ts, w, k, p, d) && View(start) == base
    ensures Folded(SumOf(start, ts), base, w, |ts|, k, p, d)
    decreases |ts|
  {
    hide TableEntry, Folded, IsModulus, SumOf, IsXor, View, ByteOf, ShiftRight;
    SumStep(start, ts);
    if ts == [] {
      FoldStart(start, base, w, k, p, d);
    } else {
      var j := |ts| - 1;
      FoldAll(start, base, ts[..j], w, k, p, d);
      var v := ShiftRight(w, 8 * j);
      FoldByte(SumOf(start, ts[..j]), ts[j], SumOf(start, ts), base, w, v, ByteOf(v), j, k, p, d);
    }
  }

  /** Adding m to f and then the lookups of its k low bytes to what is left after shifting them
      out extends f by the k low bytes of v. */
  lemma StepEnd(f: bv64, v: bv64, m: bv64, w: bv64, ts: seq<bv64>, r: bv64, k: nat, p: nat, d: nat)
    requires IsModulus(p, d) && |ts| == k <= 8 && IsLow(m, v, k) && IsXor(w, f, m)
    requires Lookups(ts, w, k, p, d) && r == SumOf(ShiftRight(w, 8 * k), ts)
    ensures Rem(View(r), p, d) == Rem(Extended(View(f), LittleEndian(v, k)), p, d)
  {
    hide *;
    var start := ShiftRight(w, 8 * k);
    FoldAll(start, View(start), ts, w, k, p, d);
    IsLowParts(m, v, k);
    FoldEnd(r, f, v, m, w, k, p, d);
  }

  lemma IsLowParts(m: bv64, v: bv64, k: nat)
    requires IsLow(m, v, k)
    ensures k <= 8 && Low(m, 8 * k) == Low(v, 8 * k) && ShiftRight(m, 8 * k) == 0
  {
  }

  /** r is congruent to f extended by the k low bytes of v. */
  ghost predicate Extends(r: bv64, f: bv64, v: bv64, k: nat, p: nat, d: nat) {
    Rem(View(r), p, d) == Rem(Extended(View(f), LittleEndian(v, k)), p, d)
  }

  /** What holds after the lookups ts: acc is their sum and rest what is left of w. */
  ghost predicate Looked(acc: bv64, start: bv64, rest: bv64, w: bv64, ts: seq<bv64>, k: nat, p: nat, d: nat) {
    && |ts| <= k <= 8 && Lookups(ts, w, k, p, d)
    && acc == SumOf(start, ts) && rest == ShiftRight(w, 8 * |ts|)
  }

  lemma LookedStart(start: bv64, w: bv64, k: nat, p: nat, d: nat)
    requires k <= 8
    ensures Looked(start, start, w, w, [], k, p, d)
  {
  }

  lemma LookedNext(acc: bv64, acc': bv64, t: bv64, start: bv64, rest: bv64, rest': bv64, w: bv64, ts: seq<bv64>,
                   k: nat, p: nat, d: nat)
    requires Looked(acc, start, rest, w, ts, k, p, d) && |ts| < k
    requires TableEntry(t, 8 - k + |ts|, ByteOf(rest), p, d) && acc' == acc ^ t && rest' == Shift8(rest)
    ensures Looked(acc', start, rest', w, ts + [t], k, p, d)
  {
    hide TableEntry, SumOf, View, ByteOf, ShiftRight, Shift8;
    SumSnoc(start, ts, t);
    NextPlace(w, 8 * |ts|, rest, rest');
  }

  lemma SumSnoc(start: bv64, ts: seq<bv64>, t: bv64)
    ensures SumOf(start, ts + [t]) == SumOf(start, ts) ^ t
  {
    assert (ts + [t])[..|ts|] == ts;
  }

  lemma NextPlace(w: bv64, n: nat, v: bv64, u: bv64)
    requires v == ShiftRight(w, n) && u == Shift8(v)
    ensures u == ShiftRight(w, n + 8)
  {
    hide ShiftRight;
    var u' := NextByte(w, n, v);
  }

  lemma LookedEnd(r: bv64, start: bv64, rest: bv64, f: bv64, v: bv64, m: bv64, w: bv64, ts: seq<bv64>,
                  k: nat, p: nat, d: nat)
    requires IsModulus(p, d) && |ts| == k && Looked(r, start, rest, w, ts, k, p, d)
    requires start == ShiftRight(w, 8 * k) && w == f ^ m && IsLow(m, v, k)
    ensures Extends(r, f, v, k, p, d)
  {
    hide Lookups, SumOf, IsModulus, View, ShiftRight, IsLow, Extended, LittleEndian;
    NamedXor(w, f, m);
    StepEnd(f, v, m, w, ts, r, k, p, d);
  }

  lemma NamedXor(u: bv64, v: bv64, w: bv64)
    requires u == v ^ w
    ensures IsXor(u, v, w)
  {
  }

  /** Masking with the k low bytes, k <= 4. */
  lemma MaskedIsLow(m: bv64, v: bv64, k: nat)
    requires k <= 4 && Masked(m, v, k)
    ensures IsLow(m, v, k)
  {
    hide *;
    MaskedKeeps(m, v, k);
    KeepsIsLow(m, v, k);
  }
}
