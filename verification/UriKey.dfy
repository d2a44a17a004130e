/** The layout of a key: 24 bits, then 40 bits. */
module KeyBits {

  /** The 24 high bits of one word before the 40 high bits of another. */
  function Joined(a: bv64, b: bv64): bv64 {
    a | (b >> 24)
  }

  /** The top 24 bits. */
  function HostPart(key: bv64): bv64 {
    key & 0xffff_ff00_0000_0000
  }

  /** The low 40 bits, in the high bits of a word. */
  function UrlPart(key: bv64): bv64 {
    key << 24
  }

  lemma JoinedParts(a: bv64, b: bv64)
    requires a & 0xff_ffff_ffff == 0 && b & 0xff_ffff == 0
    ensures HostPart(Joined(a, b)) == a && UrlPart(Joined(a, b)) == b
  {
  }

  /** The order of keys as signed longs, which is the order in which the store keeps them. */
  predicate SignedLe(a: bv64, b: bv64) {
    a ^ 0x8000_0000_0000_0000 <= b ^ 0x8000_0000_0000_0000
  }

  lemma NoDifference56(a: bv64, k: bv64, b: bv64)
    requires HostPart(a) == HostPart(b) && SignedLe(a, k) && SignedLe(k, b)
    ensures (k ^ a) & 0xff00_0000_0000_0000 == 0
  {
  }

  lemma NoDifference48(a: bv64, k: bv64, b: bv64)
    requires HostPart(a) == HostPart(b) && SignedLe(a, k) && SignedLe(k, b)
    ensures (k ^ a) & 0xff_0000_0000_0000 == 0
  {
  }

  lemma NoDifference40(a: bv64, k: bv64, b: bv64)
    requires HostPart(a) == HostPart(b) && SignedLe(a, k) && SignedLe(k, b)
    ensures (k ^ a) & 0xff00_0000_0000 == 0
  {
  }

  lemma SameHostPart(a: bv64, k: bv64)
    requires (k ^ a) & 0xff00_0000_0000_0000 == 0
    requires (k ^ a) & 0xff_0000_0000_0000 == 0
    requires (k ^ a) & 0xff00_0000_0000 == 0
    ensures HostPart(k) == HostPart(a)
  {
  }

  /** A key between two keys with the same top bits has them too. */
  lemma SignedBetween(a: bv64, k: bv64, b: bv64)
    requires HostPart(a) == HostPart(b) && SignedLe(a, k) && SignedLe(k, b)
    ensures HostPart(k) == HostPart(a)
  {
    hide *;
    NoDifference56(a, k, b);
    NoDifference48(a, k, b);
    NoDifference40(a, k, b);
    SameHostPart(a, k);
  }
}

/** The 64-bit key under which a URI is remembered. */
module UriKeys {
  import opened Polynomials
  import opened Words
  import opened Fingerprints
  import opened FingerprintLaws
  import opened FPGenerators
  import opened KeyBits
  import opened Texts

  /** UTF-16 code units. */
  type Chars = seq<bv16>

  const COLON_SLASH_SLASH: Chars := [0x3a, 0x2f, 0x2f]
  const SLASH: Chars := [0x2f]

  /** polynomials[24][0] and polynomials[40][0] */
  const POLYNOMIAL_24: bv64 := 0x8E37_5B80_0000_0000
  const POLYNOMIAL_40: bv64 := 0x8643_FFF6_2180_0000

  /** The part of a URI that the key's first 24 bits are taken from. */
  function HostPlusScheme(url: Chars): Chars {
    var index := IndexOf(url, COLON_SLASH_SLASH, 0);
    var end := if index > 0 then IndexOf(url, SLASH, index + |COLON_SLASH_SLASH|) else index;
    if end == -1 then url else url[..end]
  }

  // ----- what it is, with the code units of "://" and "/" written out

  /** Of a URI with a path it is the scheme and the host, of one without the whole. */
  lemma HostOfUrl(scheme: Chars, host: Chars, path: Chars)
    requires scheme != [] && 0x3a !in scheme && 0x2f !in host
    ensures var short := scheme + [0x3a, 0x2f, 0x2f] + host;
            HostPlusScheme(short + [0x2f] + path) == short && HostPlusScheme(short) == short
  {
    hide IndexOf;
    var short, long := scheme + [0x3a, 0x2f, 0x2f] + host, scheme + [0x3a, 0x2f, 0x2f] + host + [0x2f] + path;
    assert long == scheme + [0x3a, 0x2f, 0x2f] + (host + [0x2f] + path);
    SchemeEnds(scheme, host, short);
    SchemeEnds(scheme, host + [0x2f] + path, long);
    forall i | |scheme| + 3 <= i < |short| ensures !OccursAt(long, SLASH, i) && !OccursAt(short, SLASH, i) {
      assert long[i] == host[i - |scheme| - 3] && short[i] == host[i - |scheme| - 3];
      NotAt(long, SLASH, i, 0);
      NotAt(short, SLASH, i, 0);
    }
    forall i | |short| <= i ensures !OccursAt(short, SLASH, i) {
      NotAt(short, SLASH, i, 0);
    }
    assert long[|short|..|short| + 1] == SLASH;
    assert OccursAt(long, SLASH, |short|);
    assert long[..|short|] == short;
  }

  /** Of a text without a scheme it is the whole, and of one that begins where the scheme should end nothing. */
  lemma HostWithoutScheme(url: Chars, rest: Chars)
    requires forall i :: 0 <= i < |url| - 2 ==> url[i] != 0x3a || url[i + 1] != 0x2f || url[i + 2] != 0x2f
    ensures HostPlusScheme(url) == url && HostPlusScheme([0x3a, 0x2f, 0x2f] + rest) == []
  {
    hide IndexOf;
    forall i ensures !OccursAt(url, COLON_SLASH_SLASH, i) {
      if 0 <= i < |url| - 2 {
        NotAt(url, COLON_SLASH_SLASH, i, if url[i] != 0x3a then 0 else if url[i + 1] != 0x2f then 1 else 2);
      }
    }
    SchemeEnds([], rest, [0x3a, 0x2f, 0x2f] + rest);
  }

  lemma SchemeEnds(scheme: Chars, rest: Chars, url: Chars)
    requires 0x3a !in scheme && url == scheme + [0x3a, 0x2f, 0x2f] + rest
    ensures IndexOf(url, COLON_SLASH_SLASH, 0) == |scheme|
  {
    hide IndexOf;
    forall i | 0 <= i < |scheme| ensures !OccursAt(url, COLON_SLASH_SLASH, i) {
      assert url[i] == scheme[i];
      NotAt(url, COLON_SLASH_SLASH, i, 0);
    }
    assert url[|scheme|..|scheme| + 3] == COLON_SLASH_SLASH;
    assert OccursAt(url, COLON_SLASH_SLASH, |scheme|);
  }

  ghost function Fingerprint24(s: Chars): bv64 {
    Fingerprint(CharBytes(s), ModulusOf(POLYNOMIAL_24, 24), 24)
  }

  ghost function Fingerprint40(s: Chars): bv64 {
    Fingerprint(CharBytes(s), ModulusOf(POLYNOMIAL_40, 40), 40)
  }

  ghost function Key(url: Chars): bv64 {
    Joined(Fingerprint24(HostPlusScheme(url)), Fingerprint40(url))
  }

  /** std24 and std40 of the generators. */
  ghost predicate Standard(std24: FPGenerator, std40: FPGenerator)
    reads std24.byteModTable, std40.byteModTable
  {
    && std24.Valid() && std24.degree == 24 && std24.polynomial == POLYNOMIAL_24
    && std40.Valid() && std40.degree == 40 && std40.polynomial == POLYNOMIAL_40
  }

  method CreateKey(std24: FPGenerator, std40: FPGenerator, url: Chars) returns (key: bv64)
    requires Standard(std24, std40)
    ensures key == Key(url)
  {
    hide Standard, Fingerprint, Key, HostPlusScheme, ModulusOf, CharBytes, IndexOf, Joined, IsModulus;
    var index := IndexOf(url, COLON_SLASH_SLASH, 0);
    if index > 0 {
      index := IndexOf(url, SLASH, index + |COLON_SLASH_SLASH|);
    }
    var hostPlusScheme := if index == -1 then url else url[..index];
    HostIs(url, hostPlusScheme, index);
    StandardParts(std24, std40);
    var tmp := std24.FpCharSequence(hostPlusScheme);
    var whole := std40.FpCharSequence(url);
    key := Joined(tmp, whole);
    KeyIs(url, tmp, whole, key);
  }

  lemma HostIs(url: Chars, host: Chars, end: int)
    requires var index := IndexOf(url, COLON_SLASH_SLASH, 0);
             end == if index > 0 then IndexOf(url, SLASH, index + |COLON_SLASH_SLASH|) else index
    requires host == if end == -1 then url else url[..end]
    ensures host == HostPlusScheme(url)
  {
  }

  lemma StandardParts(std24: FPGenerator, std40: FPGenerator)
    requires Standard(std24, std40)
    ensures std24.Valid() && std24.degree == 24 && std24.modulus == ModulusOf(POLYNOMIAL_24, 24)
    ensures std40.Valid() && std40.degree == 40 && std40.modulus == ModulusOf(POLYNOMIAL_40, 40)
  {
  }

  lemma KeyIs(url: Chars, tmp: bv64, whole: bv64, key: bv64)
    requires tmp == Fingerprint(CharBytes(HostPlusScheme(url)), ModulusOf(POLYNOMIAL_24, 24), 24)
    requires whole == Fingerprint(CharBytes(url), ModulusOf(POLYNOMIAL_40, 40), 40)
    requires key == Joined(tmp, whole)
    ensures key == Key(url)
  {
    hide Fingerprint, ModulusOf, CharBytes, HostPlusScheme, Joined;
  }

  // ----- the standard generators

  lemma {:induction false} TrailingBits(w: bv64, n: nat)
    requires n < 64 && Low(w, n) == 0 && BitAt(w, n) == 1
    ensures X(63 - n) <= View(w) < X(64 - n)
  {
    hide Low, Add, Shl, ShiftRight, LowBit;
    var y := ShiftRight(w, n);
    LowSplit(w, n, 64 - n);
    ShlZero(64 - n);
    AddZeroLeft(Low(y, 64 - n));
    LowDegree(y, 64 - n);
    LowStep(y, 64 - n);
    LowDegree(Half(y), 63 - n);
    AddAtLeast(X(63 - n), Low(Half(y), 63 - n), 63 - n);
  }

  lemma ConstantTerm(w: bv64)
    ensures View(w) % 2 == BitAt(w, 63)
  {
    hide Low, ShiftRight, LowBit;
    LowSnoc(w, 63);
    AddStep(2 * Low(w, 63), BitAt(w, 63));
  }

  /** A word whose trailing bits are n zeros and a one, the zeros being k bytes and j bits. */
  lemma Trailing(w: bv64, k: nat, j: nat, y: bv64)
    requires 8 * k + j < 64 && IsAnd(w, w, HighMask(k))
    requires y == ShiftRight(w, 8 * k) && Low(y, j) == 0 && BitAt(y, j) == 1
    ensures Low(w, 8 * k + j) == 0 && BitAt(w, 8 * k + j) == 1
  {
    hide *;
    Cleared(w, w, k);
    LowSplit(w, 8 * k, j);
    ShlZero(j);
    AddZeroLeft(0);
    BitAtShifted(w, 8 * k, j);
  }

  lemma BitAtShifted(w: bv64, n: nat, j: nat)
    ensures BitAt(w, n + j) == BitAt(ShiftRight(w, n), j)
  {
    hide ShiftRight, LowBit;
    ShiftRightAdd(w, n, j);
  }

  /** What the check of a listed polynomial of degree d < 64 comes to. */
  lemma ListedPolynomial(w: bv64, k: nat, j: nat, y: bv64, d: nat)
    requires d == 63 - (8 * k + j) && 1 <= d && IsAnd(w, w, HighMask(k))
    requires y == ShiftRight(w, 8 * k) && Low(y, j) == 0 && BitAt(y, j) == 1
    requires w & ONE != 0
    ensures IsModulus(ModulusOf(w, d), d) && ModulusOf(w, d) % 2 == 1
  {
    hide Low, ShiftRight, HighMask, IsAnd, View, X, BitAt;
    Trailing(w, k, j, y);
    TrailingBits(w, 63 - d);
    ConstantTerm(w);
    TopTest(w);
  }

  lemma TopTest(w: bv64)
    requires w & ONE != 0
    ensures BitAt(w, 63) == 1
  {
    OneStart();
    hide ShiftRight, BitAt;
    MaskTest(w & ONE, w, ONE, 0);
  }

  lemma Bytes(w: bv64)
    ensures ShiftRight(w, 16) == w >> 16 && ShiftRight(w, 32) == w >> 32
  {
    hide *;
    Shifted(w);
  }

  lemma Standard24()
    ensures IsModulus(ModulusOf(POLYNOMIAL_24, 24), 24) && ModulusOf(POLYNOMIAL_24, 24) % 2 == 1
  {
    hide IsModulus, ModulusOf;
    var w := POLYNOMIAL_24;
    Bytes(w);
    assert HighMask(4) == 0xffff_ffff_0000_0000;
    assert w >> 32 == 0x8E37_5B80;
    assert Low(0x8E37_5B80, 7) == 0;
    assert BitAt(0x8E37_5B80, 7) == 1;
    ListedPolynomial(w, 4, 7, 0x8E37_5B80, 24);
  }

  lemma Standard40()
    ensures IsModulus(ModulusOf(POLYNOMIAL_40, 40), 40) && ModulusOf(POLYNOMIAL_40, 40) % 2 == 1
  {
    hide IsModulus, ModulusOf;
    var w := POLYNOMIAL_40;
    Bytes(w);
    assert HighMask(2) == 0xffff_ffff_ffff_0000;
    assert w >> 16 == 0x8643_FFF6_2180;
    assert Low(0x8643_FFF6_2180, 7) == 0;
    assert BitAt(0x8643_FFF6_2180, 7) == 1;
    ListedPolynomial(w, 2, 7, 0x8643_FFF6_2180, 40);
  }

  // ----- the two fingerprints do not overlap

  lemma {:induction false} LowBytesZero(w: bv64, k: nat)
    requires Low(w, 8 * k) == 0
    ensures k > 0 ==> ByteOf(w) == 0 && Low(Shift8(w), 8 * (k - 1)) == 0
  {
    if k > 0 {
      hide *;
      FirstByte(w, 8 * k);
      var b, n := ByteOf(w), 8 * k - 8;
      LowDegree(Shift8(w), n);
      AddZero(Shl(ByteP(b), n), Low(Shift8(w), n));
      ShlSmall(ByteP(b), n);
      ZeroByte(b);
      ShlZero(n);
    }
  }

  lemma ZeroByte(b: bv8)
    requires ByteP(b) == 0
    ensures b == 0
  {
    hide ByteP;
    ZeroByteP();
    BytePInjective(b, 0);
  }

  lemma ZeroByteP()
    ensures ByteP(0) == 0
  {
    LowOfZero(8);
  }

  /** A word of degree below d = 64 - 8k has its k low bytes zero. */
  lemma HighWord(w: bv64, k: nat)
    requires k <= 8 && View(w) < X(64 - 8 * k)
    ensures Low(w, 8 * k) == 0
  {
    hide Low, Add, Shl, ShiftRight;
    var n, d := 8 * k, 64 - 8 * k;
    var y := ShiftRight(w, n);
    LowSplit(w, n, d);
    LowDegree(y, d);
    if Low(w, n) != 0 {
      ShlMonotone(Low(w, n), 1, d);
      AddComm(Shl(Low(w, n), d), Low(y, d));
      AddAtLeast(Shl(Low(w, n), d), Low(y, d), d);
      assert false;
    }
  }

  lemma FiveBytes(w: bv64)
    requires Low(w, 40) == 0
    ensures w & 0xff_ffff_ffff == 0
  {
    hide Low, ByteOf, Shift8;
    LowBytesZero(w, 5);
    LowBytesZero(Shift8(w), 4);
    LowBytesZero(Shift8(Shift8(w)), 3);
    LowBytesZero(Shift8(Shift8(Shift8(w))), 2);
    LowBytesZero(Shift8(Shift8(Shift8(Shift8(w)))), 1);
    FiveZero(w);
  }

  lemma FiveZero(w: bv64)
    requires ByteOf(w) == 0 && ByteOf(Shift8(w)) == 0 && ByteOf(Shift8(Shift8(w))) == 0
    requires ByteOf(Shift8(Shift8(Shift8(w)))) == 0 && ByteOf(Shift8(Shift8(Shift8(Shift8(w))))) == 0
    ensures w & 0xff_ffff_ffff == 0
  {
  }

  lemma ThreeBytes(w: bv64)
    requires Low(w, 24) == 0
    ensures w & 0xff_ffff == 0
  {
    hide Low, ByteOf, Shift8;
    LowBytesZero(w, 3);
    LowBytesZero(Shift8(w), 2);
    LowBytesZero(Shift8(Shift8(w)), 1);
    ThreeZero(w);
  }

  lemma ThreeZero(w: bv64)
    requires ByteOf(w) == 0 && ByteOf(Shift8(w)) == 0 && ByteOf(Shift8(Shift8(w))) == 0
    ensures w & 0xff_ffff == 0
  {
  }

  lemma Fingerprint24Bits(s: Chars)
    ensures Fingerprint24(s) & 0xff_ffff_ffff == 0
  {
    hide *;
    Standard24();
    Residue24(s);
    HighWord(Fingerprint24(s), 5);
    FiveBytes(Fingerprint24(s));
  }

  lemma Residue24(s: Chars)
    requires IsModulus(ModulusOf(POLYNOMIAL_24, 24), 24)
    ensures View(Fingerprint24(s)) < X(24)
  {
    hide Shl, Message, Residue, View, X, ModulusOf, IsModulus, CharBytes;
    ViewResidue(Shl(Message(CharBytes(s)), 64), ModulusOf(POLYNOMIAL_24, 24), 24);
  }

  lemma Fingerprint40Bits(s: Chars)
    ensures Fingerprint40(s) & 0xff_ffff == 0
  {
    hide *;
    Standard40();
    Residue40(s);
    HighWord(Fingerprint40(s), 3);
    ThreeBytes(Fingerprint40(s));
  }

  lemma Residue40(s: Chars)
    requires IsModulus(ModulusOf(POLYNOMIAL_40, 40), 40)
    ensures View(Fingerprint40(s)) < X(40)
  {
    hide Shl, Message, Residue, View, X, ModulusOf, IsModulus, CharBytes;
    ViewResidue(Shl(Message(CharBytes(s)), 64), ModulusOf(POLYNOMIAL_40, 40), 40);
  }

  /** Both fingerprints can be read back from a key. */
  lemma KeyParts(url: Chars)
    ensures HostPart(Key(url)) == Fingerprint24(HostPlusScheme(url))
    ensures UrlPart(Key(url)) == Fingerprint40(url)
  {
    hide Fingerprint24, Fingerprint40, HostPlusScheme, Joined, HostPart, UrlPart;
    Fingerprint24Bits(HostPlusScheme(url));
    Fingerprint40Bits(url);
    JoinedParts(Fingerprint24(HostPlusScheme(url)), Fingerprint40(url));
  }

  /** Keys are equal exactly when both fingerprints are. */
  lemma KeysEqual(u: Chars, v: Chars)
    ensures Key(u) == Key(v) <==>
            Fingerprint24(HostPlusScheme(u)) == Fingerprint24(HostPlusScheme(v)) && Fingerprint40(u) == Fingerprint40(v)
  {
    KeyParts(u);
    KeyParts(v);
    hide Fingerprint24, Fingerprint40, HostPlusScheme, Joined, HostPart, UrlPart;
  }

  /** A URI of the scheme and the host: these alone, or a slash and a path behind them. */
  ghost predicate UrlOf(url: Chars, scheme: Chars, host: Chars) {
    var short := scheme + [0x3a, 0x2f, 0x2f] + host;
    url == short || exists path: Chars :: url == short + [0x2f] + path
  }

  /** The host part of a key is the fingerprint of scheme and host, whatever the path. */
  lemma HostPartOfKey(url: Chars, scheme: Chars, host: Chars)
    requires scheme != [] && 0x3a !in scheme && 0x2f !in host && UrlOf(url, scheme, host)
    ensures HostPart(Key(url)) == Fingerprint24(scheme + [0x3a, 0x2f, 0x2f] + host)
  {
    hide *;
    HostOfUrl(scheme, host, []);
    KeyParts(url);
    assert HostPlusScheme(url) == scheme + [0x3a, 0x2f, 0x2f] + host by {
      HostIsShort(url, scheme, host);
    }
  }

  lemma HostIsShort(url: Chars, scheme: Chars, host: Chars)
    requires scheme != [] && 0x3a !in scheme && 0x2f !in host && UrlOf(url, scheme, host)
    ensures HostPlusScheme(url) == scheme + [0x3a, 0x2f, 0x2f] + host
  {
    hide HostPlusScheme;
    var short := scheme + [0x3a, 0x2f, 0x2f] + host;
    HostOfUrl(scheme, host, []);
    if url != short {
      var path: Chars :| url == short + [0x2f] + path;
      HostOfUrl(scheme, host, path);
    }
  }

  /** All keys between two keys of one scheme and host, whatever URIs they come from, have the fingerprint of that
      scheme and host: the keys of a host are contiguous in the store. */
  lemma KeysOfHostAreContiguous(u: Chars, v: Chars, w: Chars, scheme: Chars, host: Chars)
    requires scheme != [] && 0x3a !in scheme && 0x2f !in host && UrlOf(u, scheme, host) && UrlOf(w, scheme, host)
    requires SignedLe(Key(u), Key(v)) && SignedLe(Key(v), Key(w))
    ensures HostPart(Key(v)) == HostPart(Key(u)) == HostPart(Key(w))
    ensures HostPart(Key(v)) == Fingerprint24(scheme + [0x3a, 0x2f, 0x2f] + host)
  {
    hide *;
    HostPartOfKey(u, scheme, host);
    HostPartOfKey(w, scheme, host);
    SignedBetween(Key(u), Key(v), Key(w));
  }

  // ----- different URIs

  function LowOf(c: bv16): bv8 {
    (c & 0xff) as bv8
  }

  function HighOf(c: bv16): bv8 {
    (c >> 8) as bv8
  }

  lemma TwoBytes(c: bv16)
    ensures LittleEndian(CharWord(c), 2) == [LowOf(c), HighOf(c)]
  {
    hide LittleEndian, CharWord, ByteOf, LowOf, HighOf;
    var w := CharWord(c);
    LittleEndianStep(w, 2);
    LittleEndianStep(w >> 8, 1);
    LittleEndianStep(w >> 8 >> 8, 0);
    LowAndHigh(c);
  }

  lemma LowAndHigh(c: bv16)
    ensures ByteOf(CharWord(c)) == LowOf(c) && ByteOf(CharWord(c) >> 8) == HighOf(c)
  {
  }

  lemma SameChar(c: bv16, d: bv16)
    requires LowOf(c) == LowOf(d) && HighOf(c) == HighOf(d)
    ensures c == d
  {
  }

  lemma CharBytesLast(s: Chars)
    requires s != []
    ensures CharBytes(s) == CharBytes(s[..|s| - 1]) + [LowOf(s[|s| - 1]), HighOf(s[|s| - 1])]
  {
    hide LittleEndian, CharWord, LowOf, HighOf;
    TwoBytes(s[|s| - 1]);
  }

  lemma {:induction false} CharBytesInjective(s: Chars, t: Chars)
    requires |s| == |t| && CharBytes(s) == CharBytes(t)
    ensures s == t
  {
    hide *;
    if s != [] {
      var n := |s| - 1;
      CharBytesLast(s);
      CharBytesLast(t);
      CharBytesLength(s[..n]);
      CharBytesLength(t[..n]);
      LastTwo(CharBytes(s[..n]), CharBytes(t[..n]), LowOf(s[n]), HighOf(s[n]), LowOf(t[n]), HighOf(t[n]));
      SameChar(s[n], t[n]);
      CharBytesInjective(s[..n], t[..n]);
      assert s == s[..n] + [s[n]] && t == t[..n] + [t[n]];
    }
  }

  lemma LastTwo(u: seq<bv8>, v: seq<bv8>, a: bv8, b: bv8, c: bv8, d: bv8)
    requires |u| == |v| && u + [a, b] == v + [c, d]
    ensures u == v && a == c && b == d
  {
    var s, t := u + [a, b], v + [c, d];
    assert u == s[..|u|] && v == t[..|u|];
    assert s[|u|] == a && t[|u|] == c && s[|u| + 1] == b && t[|u| + 1] == d;
  }

  lemma {:induction false} CharBytesLength(s: Chars)
    ensures |CharBytes(s)| == 2 * |s|
  {
    if s != [] {
      CharBytesLength(s[..|s| - 1]);
    }
  }

  /** Texts of one length that differ inside one window only have different fingerprints, if the window has at most
      d/16 characters. */
  lemma CharWindows(before: Chars, s: Chars, t: Chars, after: Chars, p: nat, d: nat)
    requires IsModulus(p, d) && d <= 64 && p % 2 == 1
    requires |s| == |t| && 16 * |s| <= d && s != t
    ensures Fingerprint(CharBytes(before + s + after), p, d) != Fingerprint(CharBytes(before + t + after), p, d)
  {
    hide *;
    CharBytesConcat(before + s, after);
    CharBytesConcat(before, s);
    CharBytesConcat(before + t, after);
    CharBytesConcat(before, t);
    CharBytesLength(s);
    CharBytesLength(t);
    if CharBytes(s) == CharBytes(t) {
      CharBytesInjective(s, t);
    }
    WindowsAreSeparated(CharBytes(before), CharBytes(s), CharBytes(t), CharBytes(after), p, d);
  }

  /** URIs of one length that differ only inside a window of two characters never share a key. */
  lemma NearUrisDiffer(before: Chars, s: Chars, t: Chars, after: Chars)
    requires |s| == |t| <= 2 && s != t
    ensures Key(before + s + after) != Key(before + t + after)
  {
    hide Fingerprint, CharBytes, ModulusOf, IsModulus, Fingerprint24, HostPlusScheme, Key;
    Standard40();
    CharWindows(before, s, t, after, ModulusOf(POLYNOMIAL_40, 40), 40);
    KeysEqual(before + s + after, before + t + after);
  }

  /** Hosts of one length that differ in one character never share the part of the key that orders them. */
  lemma NearHostsDiffer(before: Chars, c: bv16, d: bv16, after: Chars)
    requires c != d
    ensures Fingerprint24(before + [c] + after) != Fingerprint24(before + [d] + after)
  {
    hide Fingerprint, CharBytes, ModulusOf, IsModulus;
    Standard24();
    CharWindows(before, [c], [d], after, ModulusOf(POLYNOMIAL_24, 24), 24);
  }
}
