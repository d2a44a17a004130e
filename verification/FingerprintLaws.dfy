/** Fingerprints as words, and the laws they obey. */
module FingerprintLaws {
  import opened Polynomials
  import opened Words
  import opened Fingerprints

  /** The word of degree below d congruent to a. */
  function Residue(a: nat, p: nat, d: nat): bv64 {
    Word(Rem(a, p, d), 64)
  }

  /** What a reduction returns. */
  function Reduced(f: bv64, p: nat, d: nat): bv64 {
    Residue(View(f), p, d)
  }

  /** What extending f by the bytes s returns, reduced. */
  function ExtendedWord(f: bv64, s: seq<bv8>, p: nat, d: nat): bv64 {
    Residue(Extended(View(f), s), p, d)
  }

  /** The sum of b_i * x^(8(n-1-i)) over the n bytes of s. */
  function Tail(s: seq<bv8>): nat {
    if s == [] then 0 else Add(Shl(ByteP(s[0]), 8 * (|s| - 1)), Tail(s[1..]))
  }

  /** The polynomial of a string: a leading one, then its bytes. */
  function Message(s: seq<bv8>): nat {
    Add(X(8 * |s|), Tail(s))
  }

  /** The fingerprint of a string of bytes: the remainder of x^64 times its polynomial. */
  function Fingerprint(s: seq<bv8>, p: nat, d: nat): bv64 {
    Residue(Shl(Message(s), 64), p, d)
  }

  // ----- words and remainders

  lemma ViewResidue(a: nat, p: nat, d: nat)
    requires IsModulus(p, d) && d <= 64
    ensures View(Residue(a, p, d)) == Rem(a, p, d) < X(d)
  {
    hide View, IsModulus, Rem, X, Word;
    RemDegree(a, p, d);
    XMonotone(d, 64);
    ViewWord(Rem(a, p, d), 64);
  }

  /** A word that stands for the remainder is the residue. */
  lemma ResidueIs(w: bv64, a: nat, p: nat, d: nat)
    requires IsModulus(p, d) && d <= 64 && View(w) == Rem(a, p, d)
    ensures w == Residue(a, p, d)
  {
    hide *;
    ViewResidue(a, p, d);
    ViewInjective(w, Residue(a, p, d));
  }

  /** Two polynomials have the same residue exactly when they are congruent. */
  lemma ResidueEqual(a: nat, b: nat, p: nat, d: nat)
    requires IsModulus(p, d) && d <= 64
    ensures Residue(a, p, d) == Residue(b, p, d) <==> Rem(a, p, d) == Rem(b, p, d)
    ensures Residue(a, p, d) == Residue(b, p, d) <==> Congruent(a, b, p)
  {
    hide View, IsModulus, Rem, X, Word, Congruent;
    ViewResidue(a, p, d);
    ViewResidue(b, p, d);
    CongruentIffSameRemainder(a, b, p, d);
  }

  /** Reducing gives the one word of degree below d in the class, whatever d from 1 to 64. */
  lemma ReducedIsCanonical(f: bv64, r: bv64, p: nat, d: nat)
    requires IsModulus(p, d) && d <= 64
    ensures r == Reduced(f, p, d) <==> View(r) < X(d) && Congruent(View(r), View(f), p)
  {
    hide View, IsModulus, Rem, X, Word, Congruent, Residue;
    ViewResidue(View(f), p, d);
    RemainderIsUnique(View(f), View(r), p, d);
    if View(r) == Rem(View(f), p, d) {
      ResidueIs(r, View(f), p, d);
    }
  }

  lemma ReducedLaws(f: bv64, g: bv64, p: nat, d: nat)
    requires IsModulus(p, d) && d <= 64
    ensures Reduced(Reduced(f, p, d), p, d) == Reduced(f, p, d)
    ensures Reduced(f, p, d) == f <==> View(f) < X(d)
    ensures Reduced(f, p, d) == Reduced(g, p, d) <==> Congruent(View(f), View(g), p)
  {
    hide View, IsModulus, Rem, X, Word, Congruent, Residue;
    var r := Reduced(f, p, d);
    ViewResidue(View(f), p, d);
    ReducedIsCanonical(r, r, p, d);
    ReducedIsCanonical(f, f, p, d);
    CongruentIffSameRemainder(View(r), View(r), p, d);
    CongruentIffSameRemainder(View(f), View(f), p, d);
    ResidueEqual(View(f), View(g), p, d);
  }

  // ----- chunks and deferred reduction

  /** Extending by two chunks is extending by their concatenation. */
  lemma ChunksCompose(f: bv64, s: seq<bv8>, t: seq<bv8>, p: nat, d: nat)
    requires IsModulus(p, d) && d <= 64
    ensures ExtendedWord(ExtendedWord(f, s, p, d), t, p, d) == ExtendedWord(f, s + t, p, d)
  {
    hide View, IsModulus, Rem, X, Word, Congruent, Residue, Extended;
    var a := Extended(View(f), s);
    ViewResidue(a, p, d);
    RemIdempotent(a, p, d);
    ExtendedCongruent(View(ExtendedWord(f, s, p, d)), a, t, p, d);
    ExtendedConcat(View(f), s, t);
    ResidueEqual(Extended(View(ExtendedWord(f, s, p, d)), t), Extended(View(f), s + t), p, d);
  }

  /** One chunk after the other. */
  function Flattened(chunks: seq<seq<bv8>>): seq<bv8> {
    if chunks == [] then [] else Flattened(chunks[..|chunks| - 1]) + chunks[|chunks| - 1]
  }

  /** Extending by one chunk at a time, with a reduction after every one. */
  function EachReduced(f: bv64, chunks: seq<seq<bv8>>, p: nat, d: nat): bv64 {
    if chunks == [] then f
    else ExtendedWord(EachReduced(f, chunks[..|chunks| - 1], p, d), chunks[|chunks| - 1], p, d)
  }

  /** Reducing after every chunk is the same as reducing once at the end, whatever the sizes of the chunks. */
  lemma {:induction false} ReductionMayBeDeferred(f: bv64, chunks: seq<seq<bv8>>, p: nat, d: nat)
    requires IsModulus(p, d) && d <= 64 && chunks != []
    ensures EachReduced(f, chunks, p, d) == ExtendedWord(f, Flattened(chunks), p, d)
  {
    hide View, IsModulus, Rem, X, Word, Residue, Extended, ExtendedWord;
    var before, last := chunks[..|chunks| - 1], chunks[|chunks| - 1];
    if before == [] {
      assert [] + last == last;
    } else {
      ReductionMayBeDeferred(f, before, p, d);
      ChunksCompose(f, Flattened(before), last, p, d);
    }
  }

  // The same for buffers of bytes, characters, ints, longs, and of characters of which the low bytes count.

  function ByteChunks(s: seq<bv8>): seq<seq<bv8>> {
    if s == [] then [] else ByteChunks(s[..|s| - 1]) + [[s[|s| - 1]]]
  }

  function CharChunks(s: seq<bv16>): seq<seq<bv8>> {
    if s == [] then [] else CharChunks(s[..|s| - 1]) + [LittleEndian(CharWord(s[|s| - 1]), 2)]
  }

  function IntChunks(s: seq<bv32>): seq<seq<bv8>> {
    if s == [] then [] else IntChunks(s[..|s| - 1]) + [LittleEndian(IntWord(s[|s| - 1]), 4)]
  }

  function LongChunks(s: seq<bv64>): seq<seq<bv8>> {
    if s == [] then [] else LongChunks(s[..|s| - 1]) + [LittleEndian(s[|s| - 1], 8)]
  }

  function LowChunks(s: seq<bv16>): seq<seq<bv8>> {
    if s == [] then [] else LowChunks(s[..|s| - 1]) + [LittleEndian(CharWord(s[|s| - 1]), 1)]
  }

  lemma FlattenedSnoc(chunks: seq<seq<bv8>>, last: seq<bv8>)
    ensures Flattened(chunks + [last]) == Flattened(chunks) + last
    ensures Flattened([]) == []
  {
    assert (chunks + [last])[..|chunks|] == chunks;
  }

  lemma {:induction false} ByteChunksFlattened(s: seq<bv8>)
    ensures Flattened(ByteChunks(s)) == s
  {
    hide Flattened;
    if s == [] {
      FlattenedSnoc([], []);
    } else {
      ByteChunksFlattened(s[..|s| - 1]);
      FlattenedSnoc(ByteChunks(s[..|s| - 1]), [s[|s| - 1]]);
      assert s[..|s| - 1] + [s[|s| - 1]] == s;
    }
  }

  lemma {:induction false} CharChunksFlattened(s: seq<bv16>)
    ensures Flattened(CharChunks(s)) == CharBytes(s)
  {
    hide Flattened, LittleEndian, CharWord;
    if s == [] {
      FlattenedSnoc([], []);
    } else {
      CharChunksFlattened(s[..|s| - 1]);
      FlattenedSnoc(CharChunks(s[..|s| - 1]), LittleEndian(CharWord(s[|s| - 1]), 2));
    }
  }

  lemma {:induction false} IntChunksFlattened(s: seq<bv32>)
    ensures Flattened(IntChunks(s)) == IntBytes(s)
  {
    hide Flattened, LittleEndian, IntWord;
    if s == [] {
      FlattenedSnoc([], []);
    } else {
      IntChunksFlattened(s[..|s| - 1]);
      FlattenedSnoc(IntChunks(s[..|s| - 1]), LittleEndian(IntWord(s[|s| - 1]), 4));
    }
  }

  lemma {:induction false} LongChunksFlattened(s: seq<bv64>)
    ensures Flattened(LongChunks(s)) == LongBytes(s)
  {
    hide Flattened, LittleEndian;
    if s == [] {
      FlattenedSnoc([], []);
    } else {
      LongChunksFlattened(s[..|s| - 1]);
      FlattenedSnoc(LongChunks(s[..|s| - 1]), LittleEndian(s[|s| - 1], 8));
    }
  }

  lemma {:induction false} LowChunksFlattened(s: seq<bv16>)
    ensures Flattened(LowChunks(s)) == LowBytes(s)
  {
    hide Flattened, LittleEndian, CharWord;
    if s == [] {
      FlattenedSnoc([], []);
    } else {
      LowChunksFlattened(s[..|s| - 1]);
      FlattenedSnoc(LowChunks(s[..|s| - 1]), LittleEndian(CharWord(s[|s| - 1]), 1));
    }
  }

  /** Reducing after every byte. */
  lemma BytesMayBeDeferred(f: bv64, s: seq<bv8>, p: nat, d: nat)
    requires IsModulus(p, d) && d <= 64 && s != []
    ensures EachReduced(f, ByteChunks(s), p, d) == ExtendedWord(f, s, p, d)
  {
    hide IsModulus, ExtendedWord, EachReduced, Flattened;
    ReductionMayBeDeferred(f, ByteChunks(s), p, d);
    ByteChunksFlattened(s);
  }

  /** Reducing after every character. */
  lemma CharsMayBeDeferred(f: bv64, s: seq<bv16>, p: nat, d: nat)
    requires IsModulus(p, d) && d <= 64 && s != []
    ensures EachReduced(f, CharChunks(s), p, d) == ExtendedWord(f, CharBytes(s), p, d)
  {
    hide IsModulus, ExtendedWord, EachReduced, Flattened;
    ReductionMayBeDeferred(f, CharChunks(s), p, d);
    CharChunksFlattened(s);
  }

  /** Reducing after every int. */
  lemma IntsMayBeDeferred(f: bv64, s: seq<bv32>, p: nat, d: nat)
    requires IsModulus(p, d) && d <= 64 && s != []
    ensures EachReduced(f, IntChunks(s), p, d) == ExtendedWord(f, IntBytes(s), p, d)
  {
    hide IsModulus, ExtendedWord, EachReduced, Flattened;
    ReductionMayBeDeferred(f, IntChunks(s), p, d);
    IntChunksFlattened(s);
  }

  /** Reducing after every long. */
  lemma LongsMayBeDeferred(f: bv64, s: seq<bv64>, p: nat, d: nat)
    requires IsModulus(p, d) && d <= 64 && s != []
    ensures EachReduced(f, LongChunks(s), p, d) == ExtendedWord(f, LongBytes(s), p, d)
  {
    hide IsModulus, ExtendedWord, EachReduced, Flattened;
    ReductionMayBeDeferred(f, LongChunks(s), p, d);
    LongChunksFlattened(s);
  }

  /** Reducing after the low byte of every character. */
  lemma LowBytesMayBeDeferred(f: bv64, s: seq<bv16>, p: nat, d: nat)
    requires IsModulus(p, d) && d <= 64 && s != []
    ensures EachReduced(f, LowChunks(s), p, d) == ExtendedWord(f, LowBytes(s), p, d)
  {
    hide IsModulus, ExtendedWord, EachReduced, Flattened;
    ReductionMayBeDeferred(f, LowChunks(s), p, d);
    LowChunksFlattened(s);
  }

  lemma {:induction false} CharBytesConcat(s: seq<bv16>, t: seq<bv16>)
    ensures CharBytes(s + t) == CharBytes(s) + CharBytes(t)
  {
    hide LittleEndian, CharWord;
    if t == [] {
      assert s + t == s;
    } else {
      assert (s + t)[..|s + t| - 1] == s + t[..|t| - 1];
      CharBytesConcat(s, t[..|t| - 1]);
    }
  }

  lemma {:induction false} IntBytesConcat(s: seq<bv32>, t: seq<bv32>)
    ensures IntBytes(s + t) == IntBytes(s) + IntBytes(t)
  {
    hide LittleEndian, IntWord;
    if t == [] {
      assert s + t == s;
    } else {
      assert (s + t)[..|s + t| - 1] == s + t[..|t| - 1];
      IntBytesConcat(s, t[..|t| - 1]);
    }
  }

  lemma {:induction false} LongBytesConcat(s: seq<bv64>, t: seq<bv64>)
    ensures LongBytes(s + t) == LongBytes(s) + LongBytes(t)
  {
    hide LittleEndian;
    if t == [] {
      assert s + t == s;
    } else {
      assert (s + t)[..|s + t| - 1] == s + t[..|t| - 1];
      LongBytesConcat(s, t[..|t| - 1]);
    }
  }

  lemma {:induction false} LowBytesConcat(s: seq<bv16>, t: seq<bv16>)
    ensures LowBytes(s + t) == LowBytes(s) + LowBytes(t)
  {
    hide LittleEndian, CharWord;
    if t == [] {
      assert s + t == s;
    } else {
      assert (s + t)[..|s + t| - 1] == s + t[..|t| - 1];
      LowBytesConcat(s, t[..|t| - 1]);
    }
  }

  /** Two buffers of one kind extend like their concatenation: characters (all bits or low bytes), ints and longs. */
  lemma BuffersCompose(f: bv64, c: seq<bv16>, c': seq<bv16>, i: seq<bv32>, i': seq<bv32>, l: seq<bv64>, l': seq<bv64>,
                       p: nat, d: nat)
    requires IsModulus(p, d) && d <= 64
    ensures ExtendedWord(ExtendedWord(f, CharBytes(c), p, d), CharBytes(c'), p, d) == ExtendedWord(f, CharBytes(c + c'), p, d)
    ensures ExtendedWord(ExtendedWord(f, LowBytes(c), p, d), LowBytes(c'), p, d) == ExtendedWord(f, LowBytes(c + c'), p, d)
    ensures ExtendedWord(ExtendedWord(f, IntBytes(i), p, d), IntBytes(i'), p, d) == ExtendedWord(f, IntBytes(i + i'), p, d)
    ensures ExtendedWord(ExtendedWord(f, LongBytes(l), p, d), LongBytes(l'), p, d) == ExtendedWord(f, LongBytes(l + l'), p, d)
  {
    hide *;
    CharBytesConcat(c, c');
    LowBytesConcat(c, c');
    IntBytesConcat(i, i');
    LongBytesConcat(l, l');
    ChunksCompose(f, CharBytes(c), CharBytes(c'), p, d);
    ChunksCompose(f, LowBytes(c), LowBytes(c'), p, d);
    ChunksCompose(f, IntBytes(i), IntBytes(i'), p, d);
    ChunksCompose(f, LongBytes(l), LongBytes(l'), p, d);
  }

  lemma TailStep(b: bv8, s: seq<bv8>)
    ensures Tail([]) == 0
    ensures Tail([b] + s) == Add(Shl(ByteP(b), 8 * |s|), Tail(s))
  {
    assert ([b] + s)[1..] == s;
  }

  lemma {:induction false} ExtendedIsMessage(m: nat, s: seq<bv8>)
    ensures Extended(m, s) == Add(Shl(m, 8 * |s|), Shl(Tail(s), 64))
    decreases |s|
  {
    hide *;
    if s == [] {
      ExtendedStep(m, [], 0);
      TailStep(0, []);
      ShlZero(64);
      ShlStep(m, 0);
      AddComm(m, 0);
    } else {
      var b, t := s[0], s[1..];
      assert s == [b] + t;
      var n, q := 8 * |t|, ByteP(b);
      var m' := Shl(Add(m, Shl(q, 56)), 8);
      calc {
        Extended(m, s);
        { ExtendedConcat(m, [b], t); ExtendedOne(m, b); }
        Extended(m', t);
        { ExtendedIsMessage(m', t); }
        Add(Shl(m', n), Shl(Tail(t), 64));
        { ShlShl(Add(m, Shl(q, 56)), 8, n); ShlAdd(m, Shl(q, 56), n + 8); ShlShl(q, 56, n + 8); }
        Add(Add(Shl(m, n + 8), Shl(q, n + 64)), Shl(Tail(t), 64));
        { AddAssoc(Shl(m, n + 8), Shl(q, n + 64), Shl(Tail(t), 64)); ShlShl(q, n, 64); }
        Add(Shl(m, n + 8), Add(Shl(Shl(q, n), 64), Shl(Tail(t), 64)));
        { ShlAdd(Shl(q, n), Tail(t), 64); TailStep(b, t); }
        Add(Shl(m, n + 8), Shl(Tail(s), 64));
      }
    }
  }

  /** Starting from x^64, extension gives x^64 times the polynomial of the string. */
  lemma ExtendedFromEmpty(s: seq<bv8>)
    ensures Extended(X(64), s) == Shl(Message(s), 64)
  {
    hide Add, Shl, Tail, Extended;
    ExtendedIsMessage(X(64), s);
    ShlShl(1, 64, 8 * |s|);
    ShlShl(1, 8 * |s|, 64);
    ShlAdd(X(8 * |s|), Tail(s), 64);
  }

  // ----- different strings

  /** The bytes where s and t differ, added up. */
  lemma {:induction false} TailConcat(s: seq<bv8>, t: seq<bv8>)
    ensures Tail(s + t) == Add(Shl(Tail(s), 8 * |t|), Tail(t))
    decreases |s|
  {
    hide *;
    if s == [] {
      TailStep(0, []);
      ShlZero(8 * |t|);
      assert s + t == t;
      AddComm(0, Tail(t));
    } else {
      var b, u := s[0], s[1..];
      var q, n := ByteP(b), 8 * |t|;
      assert s == [b] + u && s + t == [b] + (u + t);
      TailConcat(u, t);
      TailStep(b, u);
      TailStep(b, u + t);
      ShlAdd(Shl(q, 8 * |u|), Tail(u), n);
      ShlShl(q, 8 * |u|, n);
      AddAssoc(Shl(q, 8 * |u| + n), Shl(Tail(u), n), Tail(t));
    }
  }

  lemma {:induction false} TailDegree(s: seq<bv8>)
    ensures Tail(s) < X(8 * |s|)
    decreases |s|
  {
    hide *;
    if s == [] {
      TailStep(0, []);
      XMonotone(0, 0);
    } else {
      var b, t := s[0], s[1..];
      assert s == [b] + t;
      TailStep(b, t);
      TailDegree(t);
      BytePDegree(b);
      AddDegreeSplit(ByteP(b), Tail(t), 8 * |t|, 8 * |s|);
    }
  }

  lemma BytePDegree(b: bv8)
    ensures ByteP(b) < X(8)
  {
    hide Low, X;
    LowDegree(b as bv64, 8);
  }

  lemma BytePInjective(b: bv8, c: bv8)
    requires ByteP(b) == ByteP(c)
    ensures b == c
  {
    hide Low, Add;
    var v, w := b as bv64, c as bv64;
    var u := v ^ w;
    LowXor(u, v, w, 8);
    AddSelf(ByteP(b));
    ShiftRight8(u);
    assert u >> 8 == 0;
    LowIsZero(u, 8);
  }

  /** Strings of one length are determined by their polynomials. */
  lemma {:induction false} TailInjective(s: seq<bv8>, t: seq<bv8>)
    requires |s| == |t| && Tail(s) == Tail(t)
    ensures s == t
    decreases |s|
  {
    hide *;
    if s != [] {
      var b, u, c, v := s[0], s[1..], t[0], t[1..];
      assert s == [b] + u && t == [c] + v;
      TailStep(b, u);
      TailStep(c, v);
      TailDegree(u);
      TailDegree(v);
      var n := 8 * |u|;
      SplitUnique(ByteP(b), Tail(u), ByteP(c), Tail(v), n);
      BytePInjective(b, c);
      TailInjective(u, v);
    }
  }

  lemma SplitUnique(a: nat, r: nat, b: nat, s: nat, n: nat)
    requires r < X(n) && s < X(n) && Add(Shl(a, n), r) == Add(Shl(b, n), s)
    ensures a == b && r == s
  {
    hide *;
    AddSwap(Shl(a, n), r, Shl(b, n), s);
    AddSelf(Add(Shl(a, n), r));
    ShlAdd(a, b, n);
    AddZero(Shl(Add(a, b), n), Add(r, s));
    AddDegree(r, s, n);
    ShlSmall(Add(a, b), n);
    AddZero(a, b);
    AddInject(Shl(a, n), r, s);
  }

  /** When P has constant term 1, two strings of one length that differ, and differ only inside a
      window of at most d/8 bytes, have different fingerprints. */
  lemma WindowsAreSeparated(before: seq<bv8>, s: seq<bv8>, t: seq<bv8>, after: seq<bv8>, p: nat, d: nat)
    requires IsModulus(p, d) && d <= 64 && p % 2 == 1
    requires |s| == |t| && 8 * |s| <= d && s != t
    ensures Fingerprint(before + s + after, p, d) != Fingerprint(before + t + after, p, d)
  {
    hide *;
    var n, k := 8 * |s|, 8 * |after|;
    var diff := Add(Tail(s), Tail(t));
    var a, b := Message(before + s + after), Message(before + t + after);
    assert Add(a, b) == Shl(diff, k) by { MessageDifference(before, s, t, after); }
    if Fingerprint(before + s + after, p, d) == Fingerprint(before + t + after, p, d) {
      FingerprintEqual(before + s + after, before + t + after, p, d);
      RemAdd(Shl(a, 64), Shl(b, 64), p, d);
      AddSelf(Rem(Shl(a, 64), p, d));
      ShlAdd(a, b, 64);
      ShlShl(diff, k, 64);
      RemCancelShl(diff, k + 64, p, d);
      TailDegree(s);
      TailDegree(t);
      AddDegree(Tail(s), Tail(t), n);
      XMonotone(n, d);
      RemSmall(diff, p, d);
      AddZero(Tail(s), Tail(t));
      TailInjective(s, t);
      assert false;
    }
  }

  lemma FingerprintEqual(s: seq<bv8>, t: seq<bv8>, p: nat, d: nat)
    requires IsModulus(p, d) && d <= 64
    ensures Fingerprint(s, p, d) == Fingerprint(t, p, d) <==>
            Rem(Shl(Message(s), 64), p, d) == Rem(Shl(Message(t), 64), p, d)
  {
    hide Residue, IsModulus, Rem, Shl, Message;
    ResidueEqual(Shl(Message(s), 64), Shl(Message(t), 64), p, d);
  }

  lemma MessageDifference(before: seq<bv8>, s: seq<bv8>, t: seq<bv8>, after: seq<bv8>)
    requires |s| == |t|
    ensures Add(Message(before + s + after), Message(before + t + after)) == Shl(Add(Tail(s), Tail(t)), 8 * |after|)
  {
    hide *;
    var k, n := 8 * |after|, 8 * (|s| + |after|);
    var h, l := Shl(Tail(before), n), Tail(after);
    var a, b := Shl(Tail(s), k), Shl(Tail(t), k);
    var u, v := Tail(before + s + after), Tail(before + t + after);
    var x := X(8 * (|before| + |s| + |after|));
    calc {
      Add(Message(before + s + after), Message(before + t + after));
      { MessageIs(before + s + after); MessageIs(before + t + after); }
      Add(Add(x, u), Add(x, v));
      { AddCommon(x, u, v); TailParts(before, s, after); TailParts(before, t, after); }
      Add(Add(h, Add(a, l)), Add(h, Add(b, l)));
      { AddCommon(h, Add(a, l), Add(b, l)); AddComm(a, l); AddComm(b, l); AddCommon(l, a, b); }
      Add(a, b);
      { ShlAdd(Tail(s), Tail(t), k); }
      Shl(Add(Tail(s), Tail(t)), k);
    }
  }

  lemma MessageIs(s: seq<bv8>)
    ensures Message(s) == Add(X(8 * |s|), Tail(s))
  {
  }

  /** (x + u) + (x + v) == u + v */
  lemma AddCommon(x: nat, u: nat, v: nat)
    ensures Add(Add(x, u), Add(x, v)) == Add(u, v)
  {
    hide *;
    AddSwap(x, u, x, v);
    AddSelf(x);
    AddComm(0, Add(u, v));
    AddZeroLeft(Add(u, v));
  }

  lemma AddZeroLeft(a: nat)
    ensures Add(0, a) == a
  {
  }

  lemma TailParts(before: seq<bv8>, s: seq<bv8>, after: seq<bv8>)
    ensures Tail(before + s + after) ==
            Add(Shl(Tail(before), 8 * (|s| + |after|)), Add(Shl(Tail(s), 8 * |after|), Tail(after)))
  {
    hide *;
    assert before + s + after == before + (s + after);
    TailConcat(before, s + after);
    TailConcat(s, after);
  }

  /** Short strings of one length never collide. */
  lemma ShortStringsAreSeparated(s: seq<bv8>, t: seq<bv8>, p: nat, d: nat)
    requires IsModulus(p, d) && d <= 64 && p % 2 == 1
    requires |s| == |t| && 8 * |s| <= d
    ensures Fingerprint(s, p, d) == Fingerprint(t, p, d) <==> s == t
  {
    hide *;
    if s != t {
      WindowsAreSeparated([], s, t, [], p, d);
      assert [] + s + [] == s && [] + t + [] == t;
    }
  }

  /** The constant term matters: modulo x^d every string has the fingerprint zero. */
  lemma ConstantTermMatters(s: seq<bv8>, d: nat)
    requires 1 <= d <= 64
    ensures IsModulus(X(d), d) && Fingerprint(s, X(d), d) == 0
  {
    hide Shl, Message, View, Rem, Residue;
    XStep(d);
    XMonotone(0, d);
    var m := Message(s);
    MulX(m, d);
    RemMul(m, X(d), d);
    ShlShl(m, d, 64 - d);
    RemZero(X(d), d);
    RemCongruence(Shl(m, d), 0, 0, 64 - d, X(d), d);
    ShlZero(64 - d);
    LowIsZero64();
    ResidueIs(0, Shl(m, 64), X(d), d);
  }

  lemma {:induction false} MulX(m: nat, d: nat)
    ensures Mul(m, X(d)) == Shl(m, d)
  {
    MulStep(m, X(d));
    hide Mul, Add, Shl;
    ShlZero(d);
    if m > 0 {
      MulX(m / 2, d);
      ShlDouble(m / 2, d);
      ShlStep(m / 2, d + 1);
      ShlAdd(m % 2, 2 * (m / 2), d);
      AddBit(m);
    }
  }

  lemma MulStep(q: nat, p: nat)
    ensures Mul(0, p) == 0
    ensures q > 0 ==> Mul(q, p) == Add(if q % 2 == 1 then p else 0, 2 * Mul(q / 2, p))
  {
  }

  lemma AddBit(m: nat)
    ensures Add(m % 2, 2 * (m / 2)) == m
  {
    if m % 2 == 1 {
      AddOne(m / 2);
    }
  }

  // ----- loops over buffers

  /** cur is congruent to f extended by s. */
  ghost predicate Reaches(cur: bv64, f: bv64, s: seq<bv8>, p: nat, d: nat) {
    Rem(View(cur), p, d) == Rem(Extended(View(f), s), p, d)
  }

  lemma ReachStart(f: bv64, p: nat, d: nat)
    ensures Reaches(f, f, [], p, d)
  {
  }

  lemma ReachNext(cur: bv64, next: bv64, f: bv64, s: seq<bv8>, v: bv64, k: nat, p: nat, d: nat)
    requires IsModulus(p, d) && Reaches(cur, f, s, p, d) && Extends(next, cur, v, k, p, d)
    ensures Reaches(next, f, s + LittleEndian(v, k), p, d)
  {
    hide View, Rem, Extended, LittleEndian, IsModulus;
    ExtendChunk(View(f), s, View(cur), LittleEndian(v, k), View(next), p, d);
  }

  /** Reducing at the end of a loop. */
  lemma ReachEnd(cur: bv64, r: bv64, f: bv64, s: seq<bv8>, p: nat, d: nat)
    requires IsModulus(p, d) && d <= 64 && Reaches(cur, f, s, p, d) && r == Reduced(cur, p, d)
    ensures r == ExtendedWord(f, s, p, d)
  {
    hide View, Rem, Extended, IsModulus, Residue;
    ResidueEqual(View(cur), Extended(View(f), s), p, d);
  }

  /** Extending the fingerprint of the empty string. */
  lemma FromEmpty(empty: bv64, s: seq<bv8>, p: nat, d: nat)
    requires IsModulus(p, d) && d <= 64 && View(empty) == Rem(X(64), p, d)
    ensures ExtendedWord(empty, s, p, d) == Fingerprint(s, p, d)
  {
    hide View, Rem, Extended, IsModulus, Residue, X, Shl, Message;
    RemIdempotent(X(64), p, d);
    ExtendedCongruent(View(empty), X(64), s, p, d);
    ExtendedFromEmpty(s);
    ResidueEqual(Extended(View(empty), s), Shl(Message(s), 64), p, d);
  }
}
