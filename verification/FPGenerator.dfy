/** The table-driven fingerprint generator. */
module FPGenerators {
  import opened Polynomials
  import opened Words
  import opened Fingerprints
  import opened FingerprintLaws

  const ALL_ONES: bv64 := 0xffff_ffff_ffff_ffff

  /** The conversion of a (signed) byte to an int. */
  function ByteToInt(b: bv8): bv32 {
    if b & 0x80 != 0 then 0xffff_ff00 | (b as bv32) else b as bv32
  }

  /** The conversion of a char to an int. */
  function CharToInt(c: bv16): bv32 {
    c as bv32
  }

  lemma ByteInput(b: bv8)
    ensures LittleEndian(IntWord(ByteToInt(b)), 1) == [b]
  {
    var w := IntWord(ByteToInt(b));
    assert ByteOf(w) == b;
    LittleEndianStep(w, 1);
    LittleEndianStep(w >> 8, 0);
  }

  lemma CharInput(s: seq<bv16>, c: bv16)
    ensures CharBytes([]) == [] && IntWord(CharToInt(c)) == CharWord(c)
    ensures CharBytes(s + [c]) == CharBytes(s) + LittleEndian(CharWord(c), 2)
  {
    hide LittleEndian;
    assert (s + [c])[..|s|] == s;
  }

  lemma LowInput(s: seq<bv16>, c: bv16)
    ensures LowBytes([]) == [] && IntWord(CharToInt(c)) == CharWord(c)
    ensures LowBytes(s + [c]) == LowBytes(s) + LittleEndian(CharWord(c), 1)
  {
    hide LittleEndian;
    assert (s + [c])[..|s|] == s;
  }

  lemma IntInput(s: seq<bv32>, v: bv32)
    ensures IntBytes([]) == []
    ensures IntBytes(s + [v]) == IntBytes(s) + LittleEndian(IntWord(v), 4)
  {
    hide LittleEndian;
    assert (s + [v])[..|s|] == s;
  }

  lemma LongInput(s: seq<bv64>, v: bv64)
    ensures LongBytes([]) == []
    ensures LongBytes(s + [v]) == LongBytes(s) + LittleEndian(v, 8)
  {
    hide LittleEndian;
    assert (s + [v])[..|s|] == s;
  }

  /** The conversion of an int to a long. */
  function SignExtended(v: bv32): bv64 {
    if v & 0x8000_0000 != 0 then 0xffff_ffff_0000_0000 | (v as bv64) else v as bv64
  }

  lemma InputInt(m: bv64, v: bv32)
    requires m == 0xffff_ffff & SignExtended(v)
    ensures IsLow(m, IntWord(v), 4)
  {
    hide IsLow, LowMask, SignExtended;
    LowMasks();
    LowInt(m, v);
    MaskedIsLow(m, v as bv64, 4);
  }

  lemma LowInt(m: bv64, v: bv32)
    requires m == 0xffff_ffff & SignExtended(v)
    ensures m == (v as bv64) & 0xffff_ffff
  {
    hide SignExtended;
    SignCases(v);
    LowPart(v as bv64, SignExtended(v), m);
  }

  lemma SignCases(v: bv32)
    ensures SignExtended(v) == 0xffff_ffff_0000_0000 | (v as bv64) || SignExtended(v) == v as bv64
  {
  }

  lemma LowPart(w: bv64, u: bv64, m: bv64)
    requires (u == 0xffff_ffff_0000_0000 | w || u == w) && m == 0xffff_ffff & u
    ensures m == w & 0xffff_ffff
  {
  }

  lemma ZeroXor(r: bv64, t: bv64)
    requires r == t
    ensures r == 0 ^ t
  {
  }

  /** The n low bytes of i and w are the same. */
  ghost predicate Agrees(i: bv64, w: bv64, n: nat) {
    n <= 4 && SameUnder(i, w, LowMask(n))
  }

  ghost predicate SameUnder(i: bv64, w: bv64, mask: bv64) {
    i & mask == w & mask
  }

  lemma IntStart(i: bv64, w: bv64)
    requires i == w & 0xffff_ffff
    ensures Agrees(i, w, 4)
  {
    LowMasks();
    hide LowMask;
  }

  lemma IntByte(i: bv64, w: bv64, n: nat)
    requires Agrees(i, w, n) && n > 0
    ensures ByteOf(i) == ByteOf(w)
  {
    SameByte(i, w, LowMask(n), LowMask(n - 1));
  }

  lemma IntNext(i: bv64, i': bv64, w: bv64, n: nat)
    requires Agrees(i, w, n) && n > 0 && i' == i >> 8
    ensures Agrees(i', Shift8(w), n - 1)
  {
    hide LowMask, Shift8, SameUnder;
    LowMaskStep(n);
    NextBytes(i, i', w, LowMask(n), LowMask(n - 1));
  }

  lemma LowMaskStep(n: nat)
    requires 0 < n <= 4
    ensures LowMask(n) == (LowMask(n - 1) << 8) | 0xff
    ensures LowMask(n - 1) & 0xff00_0000_0000_0000 == 0
  {
    LowMasks();
  }

  lemma NextBytes(i: bv64, i': bv64, w: bv64, mask: bv64, rest: bv64)
    requires SameUnder(i, w, mask) && mask == (rest << 8) | 0xff && rest & 0xff00_0000_0000_0000 == 0
    requires i' == i >> 8
    ensures SameUnder(i', Shift8(w), rest)
  {
  }

  lemma SameByte(i: bv64, w: bv64, mask: bv64, rest: bv64)
    requires SameUnder(i, w, mask) && mask == (rest << 8) | 0xff
    ensures ByteOf(i) == ByteOf(w)
  {
  }

  lemma NamedShift(w: bv64, u: bv64)
    requires u == w >> 8
    ensures u == Shift8(w)
  {
  }

  lemma Shifted(w: bv64)
    ensures w >> 8 == ShiftRight(w, 8) && w >> 16 == ShiftRight(w, 16) && w >> 32 == ShiftRight(w, 32)
  {
    ShiftedTimes(w);
    hide ShiftRight, Shift8;
    ShiftRightStep(w, 0);
    NextPlace(w, 0, w, Shift8(w));
    NextPlace(w, 8, Shift8(w), Shift8(Shift8(w)));
    NextPlace(w, 16, Shift8(Shift8(w)), Shift8(Shift8(Shift8(w))));
    NextPlace(w, 24, Shift8(Shift8(Shift8(w))), Shift8(Shift8(Shift8(Shift8(w)))));
  }

  lemma ShiftedTimes(w: bv64)
    ensures w >> 8 == Shift8(w) && w >> 16 == Shift8(Shift8(w)) && w >> 32 == Shift8(Shift8(Shift8(Shift8(w))))
  {
  }

  lemma InputByte(m: bv64, v: bv32)
    requires m == (0xff & v) as bv64
    ensures IsLow(m, IntWord(v), 1)
  {
    hide IsLow, LowMask;
    LowMasks();
    MaskedIsLow(m, v as bv64, 1);
  }

  lemma InputChar(m: bv64, v: bv32)
    requires m == (0xffff & v) as bv64
    ensures IsLow(m, IntWord(v), 2)
  {
    hide IsLow, LowMask;
    LowMasks();
    MaskedIsLow(m, v as bv64, 2);
  }

  lemma ReduceStep(temp: bv64, t: bv64, temp': bv64, fp: bv64, rest: bv64, rest': bv64, i: nat, p: nat, d: nat)
    requires IsModulus(p, d) && i < 8
    requires rest == ShiftRight(fp, 8 * i) && TableEntry(t, 8 + i, ByteOf(rest), p, d)
    requires Folded(temp, 0, fp, i, 0, p, d) && View(temp) < X(d)
    requires temp' == temp ^ t && rest' == rest >> 8
    ensures rest' == ShiftRight(fp, 8 * (i + 1))
    ensures Folded(temp', 0, fp, i + 1, 0, p, d) && View(temp') < X(d)
  {
    hide View, X, IsModulus, TableEntry, Folded, ShiftRight, ByteOf;
    assert rest' == Shift8(rest);
    NamedXor(temp', temp, t);
    EntryDegree(temp', temp, t, 8 + i, ByteOf(rest), p, d);
    FoldByte(temp, t, temp', 0, fp, rest, ByteOf(rest), i, 0, p, d);
    NextPlace(fp, 8 * i, rest, rest');
  }

  /** N == 8 ? 0 : fp & (-1L << 8*N) */
  function Upper(fp: bv64, n: nat): bv64
    requires n <= 8
  {
    if n == 8 then 0 else fp & (ALL_ONES << (8 * n))
  }

  lemma UpperIs(fp: bv64, n: nat)
    requires n <= 8
    ensures if n == 8 then Upper(fp, n) == 0 else IsAnd(Upper(fp, n), fp, HighMask(n))
  {
    hide HighMask;
    if n < 8 {
      HighMaskIsShift(n);
    }
  }

  lemma StartReduce(fp: bv64, p: nat, d: nat)
    requires IsModulus(p, d)
    ensures ShiftRight(fp, 0) == fp && Folded(0, 0, fp, 0, 0, p, d) && View(0) < X(d)
  {
    hide View, Folded, X;
    LowIsZero64();
    FoldStart(0, 0, fp, 0, p, d);
    XMonotone(0, d);
  }

  lemma FirstPower(p: nat, d: nat)
    requires IsModulus(p, d)
    ensures View(ONE) == Rem(X(0), p, d) && d >= 1
  {
    hide View, Rem;
    ViewOne();
    XMonotone(1, d);
    RemSmall(1, p, d);
  }

  lemma NamedHalf(h: bv64, w: bv64)
    requires h == w >> 1
    ensures h == Half(w)
  {
  }

  lemma NamedAnd(v: bv64, w: bv64, m: bv64)
    requires v == w & m
    ensures IsAnd(v, w, m)
  {
  }

  lemma NamedBit(w: bv64, m: bv64, k: nat, v': bv64, v: bv64, t: bv64)
    requires k < 8 && m == 1 << k
    requires v' == if w & m != 0 then v ^ t else v
    ensures BitMask(m, k)
    ensures if Tests(w, m) then IsXor(v', v, t) else v' == v
  {
    ShiftedOne(m, k);
  }

  class FPGenerator {
    /** Fingerprint of the empty string of bytes. */
    const empty: bv64
    /** The number of bits in fingerprints. */
    const degree: nat
    const polynomial: bv64
    const byteModTable: array2<bv64>
    /** The polynomial everything is taken modulo. */
    ghost const modulus: nat

    ghost predicate Valid()
      reads byteModTable
    {
      && degree <= 64 && IsModulus(modulus, degree) && modulus == ModulusOf(polynomial, degree)
      && View(empty) == Rem(X(64), modulus, degree)
      && byteModTable.Length0 == 16 && byteModTable.Length1 == 256
      && forall i, j {:trigger byteModTable[i, j]} :: 0 <= i < 16 && 0 <= j < 256 ==>
           TableEntry(byteModTable[i, j], i, j as bv8, modulus, degree)
    }

    /** The only demand on the polynomial is its degree. */
    constructor (polynomial: bv64, degree: nat)
      requires degree <= 64 && IsModulus(ModulusOf(polynomial, degree), degree)
      ensures Valid() && fresh(byteModTable)
      ensures this.polynomial == polynomial && this.degree == degree
      ensures modulus == ModulusOf(polynomial, degree)
    {
      hide ModulusOf, IsModulus, View, Rem, X, TableEntry;
      this.degree := degree;
      this.polynomial := polynomial;
      modulus := ModulusOf(polynomial, degree);
      var powerTable := FPGenerator.PowerTable(polynomial, degree);
      empty := powerTable[64];
      var table := FPGenerator.ByteModTable(powerTable, ModulusOf(polynomial, degree), degree);
      byteModTable := table;
    }

    /** The powers x^0 to x^127, reduced. */
    static method PowerTable(polynomial: bv64, degree: nat) returns (powerTable: array<bv64>)
      requires degree <= 64 && IsModulus(ModulusOf(polynomial, degree), degree)
      ensures fresh(powerTable) && powerTable.Length == 128
      ensures forall i :: 0 <= i < 128 ==> View(powerTable[i]) == Rem(X(i), ModulusOf(polynomial, degree), degree)
    {
      hide ModulusOf, View, Rem, X, IsAnd, ShiftRight, IsXor;
      ghost var p := ModulusOf(polynomial, degree);
      powerTable := new bv64[128];
      var x_to_the_i := ONE;
      var x_to_the_degree_minus_one := ShiftRight(ONE, degree - 1);
      FirstPower(p, degree);
      for i := 0 to 128
        invariant View(x_to_the_i) == Rem(X(i), p, degree)
        invariant forall j :: 0 <= j < i ==> View(powerTable[j]) == Rem(X(j), p, degree)
      {
        powerTable[i] := x_to_the_i;
        var masked := x_to_the_i & x_to_the_degree_minus_one;
        var overflow := masked != 0;
        var shifted := x_to_the_i >> 1;
        NamedHalf(shifted, x_to_the_i);
        NamedAnd(masked, x_to_the_i, x_to_the_degree_minus_one);
        ghost var before := x_to_the_i;
        x_to_the_i := shifted;
        if overflow {
          x_to_the_i := x_to_the_i ^ polynomial;
          NamedXor(x_to_the_i, shifted, polynomial);
        }
        PowerStep(before, x_to_the_i, masked, x_to_the_degree_minus_one, polynomial, i, p, degree);
      }
    }

    /** The innermost loop: the sum of x^(127-8i-k) over the bits k of b, reduced. */
    static method SumOfPowers(powerTable: array<bv64>, i: nat, b: bv8, ghost p: nat, degree: nat) returns (v: bv64)
      requires IsModulus(p, degree) && powerTable.Length == 128 && i < 16
      requires forall i :: 0 <= i < 128 ==> View(powerTable[i]) == Rem(X(i), p, degree)
      ensures TableEntry(v, i, b, p, degree)
    {
      hide View, Rem, X, IsModulus, TableEntry, PartialEntry, BitMask, Tests, IsXor;
      var w := b as bv64;
      v := 0;
      EntryStart(i, w, p, degree);
      for k := 0 to 8
        invariant PartialEntry(v, i, w, k, p, degree)
      {
        var mask: bv64 := 1 << k;
        var before := v;
        var t := powerTable[127 - i * 8 - k];
        if w & mask != 0 {
          v := v ^ t;
        }
        NamedBit(w, mask, k, v, before, t);
        EntryStep(before, v, t, w, mask, i, k, p, degree);
      }
      EntryEnd(v, i, b, p, degree);
    }

    /** Row i, column j: the sum of x^(127-8i-k) over the bits k of j, reduced. */
    static method ByteModTable(powerTable: array<bv64>, ghost p: nat, degree: nat) returns (table: array2<bv64>)
      requires IsModulus(p, degree) && powerTable.Length == 128
      requires forall i :: 0 <= i < 128 ==> View(powerTable[i]) == Rem(X(i), p, degree)
      ensures fresh(table) && table.Length0 == 16 && table.Length1 == 256
      ensures forall i, j {:trigger table[i, j]} ::
                0 <= i < 16 && 0 <= j < 256 ==> TableEntry(table[i, j], i, j as bv8, p, degree)
    {
      hide View, Rem, X, IsModulus, TableEntry;
      table := new bv64[16, 256];
      for i := 0 to 16
        invariant forall r, j {:trigger table[r, j]} ::
            0 <= r < i && 0 <= j < 256 ==> TableEntry(table[r, j], r, j as bv8, p, degree)
      {
        for j := 0 to 256
          invariant forall r, c {:trigger table[r, c]} ::
              0 <= r < i && 0 <= c < 256 ==> TableEntry(table[r, c], r, c as bv8, p, degree)
          invariant forall c {:trigger table[i, c]} :: 0 <= c < j ==> TableEntry(table[i, c], i, c as bv8, p, degree)
        {
          var v := SumOfPowers(powerTable, i, j as bv8, p, degree);
          table[i, j] := v;
        }
      }
    }

    /** ByteModTable[i][(int) w & 0xff] */
    function Entry(i: nat, w: bv64): (t: bv64)
      requires Valid() && i < 16
      reads byteModTable
      ensures IsModulus(modulus, degree) && TableEntry(t, i, ByteOf(w), modulus, degree)
    {
      hide IsModulus, TableEntry, View, Rem, X, ModulusOf, ByteOf, Index;
      byteModTable[i, Index(w)]
    }

    /** The only word of degree below `degree` congruent to fp. */
    method Reduce(fp: bv64) returns (r: bv64)
      requires Valid()
      ensures r == Reduced(fp, modulus, degree)
    {
      hide View, Rem, X, IsModulus, ModulusOf, TableEntry, Folded, IsXor, IsAnd, HighMask, ShiftRight, Index, ByteOf, Residue, Upper;
      var N := 8 - degree / 8;
      var local := Upper(fp, N);
      UpperIs(fp, N);
      var temp: bv64 := 0;
      var rest := fp;
      StartReduce(fp, modulus, degree);
      for i := 0 to N
        invariant rest == ShiftRight(fp, 8 * i)
        invariant Folded(temp, 0, fp, i, 0, modulus, degree) && View(temp) < X(degree)
      {
        var t := Entry(8 + i, rest);
        ghost var temp0, rest0 := temp, rest;
        temp := temp ^ t;
        rest := rest >> 8;
        ReduceStep(temp0, t, temp, fp, rest0, rest, i, modulus, degree);
      }
      r := local ^ temp;
      NamedXor(r, local, temp);
      ReduceEnd(r, local, temp, fp, N, modulus, degree);
      ResidueIs(r, View(fp), modulus, degree);
    }

    /** The low eight bits of v, without reduction. */
    method ExtendByte(f: bv64, v: bv32) returns (result: bv64)
      requires Valid()
      ensures Extends(result, f, IntWord(v), 1, modulus, degree)
    {
      hide *;
      var m := (0xff & v) as bv64;
      var w := f ^ m;
      InputByte(m, v);
      var i := w & 0xffff_ffff; // (int) w
      IntStart(i, w);
      result := w >> 8;
      Shifted(w);
      ghost var start := result;
      LookedStart(start, w, 1, modulus, degree);
      IntByte(i, w, 4);
      var t7 := Entry(7, i);
      ghost var r7 := result;
      result := result ^ t7;
      LookedNext(r7, result, t7, start, w, Shift8(w), w, [], 1, modulus, degree);
      LookedEnd(result, start, Shift8(w), f, IntWord(v), m, w, [] + [t7], 1, modulus, degree);
    }

    /** The low sixteen bits of v, without reduction. */
    method ExtendChar(f: bv64, v: bv32) returns (result: bv64)
      requires Valid()
      ensures Extends(result, f, IntWord(v), 2, modulus, degree)
    {
      hide *;
      var m := (0xffff & v) as bv64;
      var w := f ^ m;
      InputChar(m, v);
      var i := w & 0xffff_ffff; // (int) w
      IntStart(i, w);
      result := w >> 16;
      Shifted(w);
      ghost var start := result;
      LookedStart(start, w, 2, modulus, degree);
      IntByte(i, w, 4);
      var t6 := Entry(6, i);
      ghost var r6 := result;
      result := result ^ t6;
      LookedNext(r6, result, t6, start, w, Shift8(w), w, [], 2, modulus, degree);
      ghost var i1 := i;
      i := i >> 8;
      IntNext(i1, i, w, 4);
      IntByte(i, Shift8(w), 3);
      var t7 := Entry(7, i);
      ghost var r7 := result;
      result := result ^ t7;
      LookedNext(r7, result, t7, start, Shift8(w), Shift8(Shift8(w)), w, [] + [t6], 2, modulus, degree);
      LookedEnd(result, start, Shift8(Shift8(w)), f, IntWord(v), m, w, [] + [t6] + [t7], 2, modulus, degree);
    }

    /** All bits of v, without reduction. */
    method ExtendInt(f: bv64, v: bv32) returns (result: bv64)
      requires Valid()
      ensures Extends(result, f, IntWord(v), 4, modulus, degree)
    {
      hide *;
      var m := 0xffff_ffff & SignExtended(v);
      var w := f ^ m;
      InputInt(m, v);
      var i := w & 0xffff_ffff; // (int) w
      IntStart(i, w);
      result := w >> 32;
      Shifted(w);
      ghost var start := result;
      LookedStart(start, w, 4, modulus, degree);
      IntByte(i, w, 4);
      var t4 := Entry(4, i);
      ghost var r4 := result;
      result := result ^ t4;
      LookedNext(r4, result, t4, start, w, Shift8(w), w, [], 4, modulus, degree);
      ghost var i1 := i;
      i := i >> 8;
      IntNext(i1, i, w, 4);
      IntByte(i, Shift8(w), 3);
      var t5 := Entry(5, i);
      ghost var r5 := result;
      result := result ^ t5;
      LookedNext(r5, result, t5, start, Shift8(w), Shift8(Shift8(w)), w, [] + [t4], 4, modulus, degree);
      ghost var i2 := i;
      i := i >> 8;
      IntNext(i2, i, Shift8(w), 3);
      IntByte(i, Shift8(Shift8(w)), 2);
      var t6 := Entry(6, i);
      ghost var r6 := result;
      result := result ^ t6;
      LookedNext(r6, result, t6, start, Shift8(Shift8(w)), Shift8(Shift8(Shift8(w))), w, [] + [t4] + [t5], 4, modulus, degree);
      ghost var i3 := i;
      i := i >> 8;
      IntNext(i3, i, Shift8(Shift8(w)), 2);
      IntByte(i, Shift8(Shift8(Shift8(w))), 1);
      var t7 := Entry(7, i);
      ghost var r7 := result;
      result := result ^ t7;
      LookedNext(r7, result, t7, start, Shift8(Shift8(Shift8(w))), Shift8(Shift8(Shift8(Shift8(w)))), w, [] + [t4] + [t5] + [t6], 4, modulus, degree);
      LookedEnd(result, start, Shift8(Shift8(Shift8(Shift8(w)))), f, IntWord(v), m, w, [] + [t4] + [t5] + [t6] + [t7], 4, modulus, degree);
    }

    /** All bits of v, without reduction. */
    method ExtendLong(f: bv64, v: bv64) returns (result: bv64)
      requires Valid()
      ensures Extends(result, f, v, 8, modulus, degree)
    {
      hide *;
      var g := f ^ v;
      ghost var w := g;
      KeepsAll(v);
      ShiftRight64(w, 64);
      LookedStart(0, w, 8, modulus, degree);
      var t0 := Entry(0, g);
      result := t0;
      ZeroXor(result, t0);
      LookedNext(0, result, t0, 0, g, Shift8(g), w, [], 8, modulus, degree);
      ghost var g1, r1 := g, result;
      g := g >> 8;
      NamedShift(g1, g);
      var t1 := Entry(1, g);
      result := result ^ t1;
      LookedNext(r1, result, t1, 0, g, Shift8(g), w, [] + [t0], 8, modulus, degree);
      ghost var g2, r2 := g, result;
      g := g >> 8;
      NamedShift(g2, g);
      var t2 := Entry(2, g);
      result := result ^ t2;
      LookedNext(r2, result, t2, 0, g, Shift8(g), w, [] + [t0] + [t1], 8, modulus, degree);
      ghost var g3, r3 := g, result;
      g := g >> 8;
      NamedShift(g3, g);
      var t3 := Entry(3, g);
      result := result ^ t3;
      LookedNext(r3, result, t3, 0, g, Shift8(g), w, [] + [t0] + [t1] + [t2], 8, modulus, degree);
      ghost var g4, r4 := g, result;
      g := g >> 8;
      NamedShift(g4, g);
      var t4 := Entry(4, g);
      result := result ^ t4;
      LookedNext(r4, result, t4, 0, g, Shift8(g), w, [] + [t0] + [t1] + [t2] + [t3], 8, modulus, degree);
      ghost var g5, r5 := g, result;
      g := g >> 8;
      NamedShift(g5, g);
      var t5 := Entry(5, g);
      result := result ^ t5;
      LookedNext(r5, result, t5, 0, g, Shift8(g), w, [] + [t0] + [t1] + [t2] + [t3] + [t4], 8, modulus, degree);
      ghost var g6, r6 := g, result;
      g := g >> 8;
      NamedShift(g6, g);
      var t6 := Entry(6, g);
      result := result ^ t6;
      LookedNext(r6, result, t6, 0, g, Shift8(g), w, [] + [t0] + [t1] + [t2] + [t3] + [t4] + [t5], 8, modulus, degree);
      ghost var g7, r7 := g, result;
      g := g >> 8;
      NamedShift(g7, g);
      var t7 := Entry(7, g);
      result := result ^ t7;
      LookedNext(r7, result, t7, 0, g, Shift8(g), w, [] + [t0] + [t1] + [t2] + [t3] + [t4] + [t5] + [t6], 8, modulus, degree);
      LookedEnd(result, 0, Shift8(g), f, v, v, w, [] + [t0] + [t1] + [t2] + [t3] + [t4] + [t5] + [t6] + [t7], 8, modulus, degree);
    }

    /** The parameters of the generator, as facts. */
    lemma Parameters()
      requires Valid()
      ensures IsModulus(modulus, degree) && degree <= 64 && View(empty) == Rem(X(64), modulus, degree)
    {
    }

    /** One byte, reduced. */
    method ExtendOneByte(f: bv64, v: bv8) returns (r: bv64)
      requires Valid()
      ensures r == ExtendedWord(f, [v], modulus, degree)
    {
      hide *;
      Parameters();
      var e := ExtendByte(f, ByteToInt(v));
      r := Reduce(e);
      ReachStart(f, modulus, degree);
      ReachNext(f, e, f, [], IntWord(ByteToInt(v)), 1, modulus, degree);
      ByteInput(v);
      assert [] + [v] == [v];
      ReachEnd(e, r, f, [v], modulus, degree);
    }

    /** One character, reduced. */
    method ExtendOneChar(f: bv64, v: bv16) returns (r: bv64)
      requires Valid()
      ensures r == ExtendedWord(f, LittleEndian(CharWord(v), 2), modulus, degree)
    {
      hide *;
      Parameters();
      var e := ExtendChar(f, CharToInt(v));
      r := Reduce(e);
      ReachStart(f, modulus, degree);
      CharInput([], v);
      ReachNext(f, e, f, [], CharWord(v), 2, modulus, degree);
      assert [] + LittleEndian(CharWord(v), 2) == LittleEndian(CharWord(v), 2);
      ReachEnd(e, r, f, LittleEndian(CharWord(v), 2), modulus, degree);
    }

    /** One int, reduced. */
    method ExtendOneInt(f: bv64, v: bv32) returns (r: bv64)
      requires Valid()
      ensures r == ExtendedWord(f, LittleEndian(IntWord(v), 4), modulus, degree)
    {
      hide *;
      Parameters();
      var e := ExtendInt(f, v);
      r := Reduce(e);
      ReachStart(f, modulus, degree);
      ReachNext(f, e, f, [], IntWord(v), 4, modulus, degree);
      assert [] + LittleEndian(IntWord(v), 4) == LittleEndian(IntWord(v), 4);
      ReachEnd(e, r, f, LittleEndian(IntWord(v), 4), modulus, degree);
    }

    /** One long, reduced. */
    method ExtendOneLong(f: bv64, v: bv64) returns (r: bv64)
      requires Valid()
      ensures r == ExtendedWord(f, LittleEndian(v, 8), modulus, degree)
    {
      hide *;
      Parameters();
      var e := ExtendLong(f, v);
      r := Reduce(e);
      ReachStart(f, modulus, degree);
      ReachNext(f, e, f, [], v, 8, modulus, degree);
      assert [] + LittleEndian(v, 8) == LittleEndian(v, 8);
      ReachEnd(e, r, f, LittleEndian(v, 8), modulus, degree);
    }

    /** The n bytes of buf from start, reduced at the end. */
    method ExtendByteBuffer(f: bv64, buf: array<bv8>, start: nat, n: nat) returns (r: bv64)
      requires Valid()
      requires start + n <= buf.Length
      ensures r == ExtendedWord(f, buf[start..start + n], modulus, degree)
    {
      hide *;
      Parameters();
      var cur := f;
      ReachStart(f, modulus, degree);
      ByteInput(0);
      assert buf[start..start + 0] == [];
      for i := 0 to n
        invariant Reaches(cur, f, buf[start..start + i], modulus, degree)
      {
        var next := ExtendByte(cur, ByteToInt(buf[start + i]));
        ByteInput(buf[start + i]);
        assert buf[start..start + i + 1] == buf[start..start + i] + [buf[start + i]];
        ReachNext(cur, next, f, buf[start..start + i], IntWord(ByteToInt(buf[start + i])), 1, modulus, degree);
        cur := next;
      }
      r := Reduce(cur);
      ReachEnd(cur, r, f, buf[start..start + n], modulus, degree);
    }

    /** All bits of n characters of buf, reduced at the end. */
    method ExtendCharBuffer(f: bv64, buf: array<bv16>, start: nat, n: nat) returns (r: bv64)
      requires Valid()
      requires start + n <= buf.Length
      ensures r == ExtendedWord(f, CharBytes(buf[start..start + n]), modulus, degree)
    {
      hide *;
      Parameters();
      var cur := f;
      ReachStart(f, modulus, degree);
      CharInput([], 0);
      assert buf[start..start + 0] == [];
      for i := 0 to n
        invariant Reaches(cur, f, CharBytes(buf[start..start + i]), modulus, degree)
      {
        var next := ExtendChar(cur, CharToInt(buf[start + i]));
        CharInput(buf[start..start + i], buf[start + i]);
        assert buf[start..start + i + 1] == buf[start..start + i] + [buf[start + i]];
        ReachNext(cur, next, f, CharBytes(buf[start..start + i]), CharWord(buf[start + i]), 2, modulus, degree);
        cur := next;
      }
      r := Reduce(cur);
      ReachEnd(cur, r, f, CharBytes(buf[start..start + n]), modulus, degree);
    }

    /** All bits of the characters of s, reduced at the end. */
    method ExtendCharSequence(f: bv64, s: seq<bv16>) returns (r: bv64)
      requires Valid()
      ensures r == ExtendedWord(f, CharBytes(s), modulus, degree)
    {
      hide *;
      Parameters();
      var n := |s|;
      var cur := f;
      ReachStart(f, modulus, degree);
      CharInput([], 0);
      assert s[..0] == [];
      for i := 0 to n
        invariant Reaches(cur, f, CharBytes(s[..i]), modulus, degree)
      {
        var next := ExtendChar(cur, CharToInt(s[i]));
        CharInput(s[..i], s[i]);
        assert s[..i + 1] == s[..i] + [s[i]];
        ReachNext(cur, next, f, CharBytes(s[..i]), CharWord(s[i]), 2, modulus, degree);
        cur := next;
      }
      assert s[..n] == s;
      r := Reduce(cur);
      ReachEnd(cur, r, f, CharBytes(s), modulus, degree);
    }

    /** All bits of n ints of buf, reduced at the end. */
    method ExtendIntBuffer(f: bv64, buf: array<bv32>, start: nat, n: nat) returns (r: bv64)
      requires Valid()
      requires start + n <= buf.Length
      ensures r == ExtendedWord(f, IntBytes(buf[start..start + n]), modulus, degree)
    {
      hide *;
      Parameters();
      var cur := f;
      ReachStart(f, modulus, degree);
      IntInput([], 0);
      assert buf[start..start + 0] == [];
      for i := 0 to n
        invariant Reaches(cur, f, IntBytes(buf[start..start + i]), modulus, degree)
      {
        var next := ExtendInt(cur, buf[start + i]);
        IntInput(buf[start..start + i], buf[start + i]);
        assert buf[start..start + i + 1] == buf[start..start + i] + [buf[start + i]];
        ReachNext(cur, next, f, IntBytes(buf[start..start + i]), IntWord(buf[start + i]), 4, modulus, degree);
        cur := next;
      }
      r := Reduce(cur);
      ReachEnd(cur, r, f, IntBytes(buf[start..start + n]), modulus, degree);
    }

    /** All bits of n longs of buf, reduced at the end. */
    method ExtendLongBuffer(f: bv64, buf: array<bv64>, start: nat, n: nat) returns (r: bv64)
      requires Valid()
      requires start + n <= buf.Length
      ensures r == ExtendedWord(f, LongBytes(buf[start..start + n]), modulus, degree)
    {
      hide *;
      Parameters();
      var cur := f;
      ReachStart(f, modulus, degree);
      LongInput([], 0);
      assert buf[start..start + 0] == [];
      for i := 0 to n
        invariant Reaches(cur, f, LongBytes(buf[start..start + i]), modulus, degree)
      {
        var next := ExtendLong(cur, buf[start + i]);
        LongInput(buf[start..start + i], buf[start + i]);
        assert buf[start..start + i + 1] == buf[start..start + i] + [buf[start + i]];
        ReachNext(cur, next, f, LongBytes(buf[start..start + i]), buf[start + i], 8, modulus, degree);
        cur := next;
      }
      r := Reduce(cur);
      ReachEnd(cur, r, f, LongBytes(buf[start..start + n]), modulus, degree);
    }

    /** The low eight bits of the characters of s, reduced at the end. */
    method Extend8String(f: bv64, s: seq<bv16>) returns (r: bv64)
      requires Valid()
      ensures r == ExtendedWord(f, LowBytes(s), modulus, degree)
    {
      hide *;
      Parameters();
      var n := |s|;
      var cur := f;
      ReachStart(f, modulus, degree);
      LowInput([], 0);
      assert s[..0] == [];
      for i := 0 to n
        invariant Reaches(cur, f, LowBytes(s[..i]), modulus, degree)
      {
        var next := ExtendByte(cur, CharToInt(s[i]));
        LowInput(s[..i], s[i]);
        assert s[..i + 1] == s[..i] + [s[i]];
        ReachNext(cur, next, f, LowBytes(s[..i]), CharWord(s[i]), 1, modulus, degree);
        cur := next;
      }
      assert s[..n] == s;
      r := Reduce(cur);
      ReachEnd(cur, r, f, LowBytes(s), modulus, degree);
    }

    /** The low eight bits of n characters of buf, reduced at the end. */
    method Extend8CharBuffer(f: bv64, buf: array<bv16>, start: nat, n: nat) returns (r: bv64)
      requires Valid()
      requires start + n <= buf.Length
      ensures r == ExtendedWord(f, LowBytes(buf[start..start + n]), modulus, degree)
    {
      hide *;
      Parameters();
      var cur := f;
      ReachStart(f, modulus, degree);
      LowInput([], 0);
      assert buf[start..start + 0] == [];
      for i := 0 to n
        invariant Reaches(cur, f, LowBytes(buf[start..start + i]), modulus, degree)
      {
        var next := ExtendByte(cur, CharToInt(buf[start + i]));
        LowInput(buf[start..start + i], buf[start + i]);
        assert buf[start..start + i + 1] == buf[start..start + i] + [buf[start + i]];
        ReachNext(cur, next, f, LowBytes(buf[start..start + i]), CharWord(buf[start + i]), 1, modulus, degree);
        cur := next;
      }
      r := Reduce(cur);
      ReachEnd(cur, r, f, LowBytes(buf[start..start + n]), modulus, degree);
    }

    /** The fingerprint of n bytes of buf. */
    method FpBytes(buf: array<bv8>, start: nat, n: nat) returns (r: bv64)
      requires Valid()
      requires start + n <= buf.Length
      ensures r == Fingerprint(buf[start..start + n], modulus, degree)
    {
      hide *;
      Parameters();
      r := ExtendByteBuffer(empty, buf, start, n);
      FromEmpty(empty, buf[start..start + n], modulus, degree);
    }

    /** The fingerprint of n characters of buf: that of their little-endian bytes. */
    method FpChars(buf: array<bv16>, start: nat, n: nat) returns (r: bv64)
      requires Valid()
      requires start + n <= buf.Length
      ensures r == Fingerprint(CharBytes(buf[start..start + n]), modulus, degree)
    {
      hide *;
      Parameters();
      r := ExtendCharBuffer(empty, buf, start, n);
      FromEmpty(empty, CharBytes(buf[start..start + n]), modulus, degree);
    }

    /** The fingerprint of the characters of s. */
    method FpCharSequence(s: seq<bv16>) returns (r: bv64)
      requires Valid()
      ensures r == Fingerprint(CharBytes(s), modulus, degree)
    {
      hide *;
      Parameters();
      r := ExtendCharSequence(empty, s);
      FromEmpty(empty, CharBytes(s), modulus, degree);
    }

    /** The fingerprint of n ints of buf: that of their little-endian bytes. */
    method FpInts(buf: array<bv32>, start: nat, n: nat) returns (r: bv64)
      requires Valid()
      requires start + n <= buf.Length
      ensures r == Fingerprint(IntBytes(buf[start..start + n]), modulus, degree)
    {
      hide *;
      Parameters();
      r := ExtendIntBuffer(empty, buf, start, n);
      FromEmpty(empty, IntBytes(buf[start..start + n]), modulus, degree);
    }

    /** The fingerprint of n longs of buf: that of their little-endian bytes. */
    method FpLongs(buf: array<bv64>, start: nat, n: nat) returns (r: bv64)
      requires Valid()
      requires start + n <= buf.Length
      ensures r == Fingerprint(LongBytes(buf[start..start + n]), modulus, degree)
    {
      hide *;
      Parameters();
      r := ExtendLongBuffer(empty, buf, start, n);
      FromEmpty(empty, LongBytes(buf[start..start + n]), modulus, degree);
    }

    /** The fingerprint of the low bytes of the characters of s. */
    method Fp8String(s: seq<bv16>) returns (r: bv64)
      requires Valid()
      ensures r == Fingerprint(LowBytes(s), modulus, degree)
    {
      hide *;
      Parameters();
      r := Extend8String(empty, s);
      FromEmpty(empty, LowBytes(s), modulus, degree);
    }

    /** The fingerprint of the low bytes of n characters of buf. */
    method Fp8Chars(buf: array<bv16>, start: nat, n: nat) returns (r: bv64)
      requires Valid()
      requires start + n <= buf.Length
      ensures r == Fingerprint(LowBytes(buf[start..start + n]), modulus, degree)
    {
      hide *;
      Parameters();
      r := Extend8CharBuffer(empty, buf, start, n);
      FromEmpty(empty, LowBytes(buf[start..start + n]), modulus, degree);
    }
  }
}
