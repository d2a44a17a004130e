/** Longs as eight bytes, the most significant first. */
module LongByteArrays {

  /** The k most significant bytes. */
  function Top(l: bv64, k: nat): bv64
    requires k <= 8
  {
    match k
    case 0 => 0
    case 1 => l >> 56
    case 2 => l >> 48
    case 3 => l >> 40
    case 4 => l >> 32
    case 5 => l >> 24
    case 6 => l >> 16
    case 7 => l >> 8
    case _ => l
  }

  /** Byte i from the most significant end. */
  function ByteAt(l: bv64, i: nat): bv8
    requires i < 8
  {
    (0xff & Top(l, i + 1)) as bv8
  }

  function Bytes(l: bv64): (s: seq<bv8>)
    ensures |s| == 8
  {
    seq(8, (i: int) requires 0 <= i < 8 => ByteAt(l, i))
  }

  /** One more byte at the low end. */
  function Appended(result: bv64, b: bv8): bv64 {
    (result << 8) | (0xff & (b & 0xff) as bv64)
  }

  function Value(s: seq<bv8>): bv64 {
    if s == [] then 0 else Appended(Value(s[..|s| - 1]), s[|s| - 1])
  }

  /** The bytes written at an offset. */
  function Stored(a: seq<bv8>, l: bv64, offset: nat): seq<bv8>
    requires offset + 8 <= |a|
  {
    a[..offset] + Bytes(l) + a[offset + 8..]
  }

  /** The bytes read from an offset: not eight, but those before index 8. */
  function Read(a: seq<bv8>, offset: nat): bv64
    requires offset >= 8 || |a| >= 8
  {
    if offset >= 8 then 0 else Value(a[offset..8])
  }

  predicate IsShift(shift: bv64, i: nat) {
    match i
    case 0 => shift == 56
    case 1 => shift == 48
    case 2 => shift == 40
    case 3 => shift == 32
    case 4 => shift == 24
    case 5 => shift == 16
    case 6 => shift == 8
    case 7 => shift == 0
    case _ => true
  }

  lemma ShiftStep(shift: bv64, i: nat)
    requires i < 8 && IsShift(shift, i)
    ensures shift <= 56 && IsShift(shift - 8, i + 1)
  {
  }

  lemma ShiftIsTop(l: bv64, shift: bv64, i: nat)
    requires i < 8 && IsShift(shift, i)
    ensures shift <= 56 && l >> shift == Top(l, i + 1)
  {
  }

  method LongIntoByteArray(l: bv64, bytes: array<bv8>, offset: nat)
    requires offset + 8 <= bytes.Length
    modifies bytes
    ensures bytes[..] == Stored(old(bytes[..]), l, offset)
  {
    hide IsShift, Top;
    var i, shift := 0, 56 as bv64;
    assert IsShift(shift, 0) by { FirstShift(); }
    while i < 8
      invariant 0 <= i <= 8 && IsShift(shift, i)
      invariant forall k :: 0 <= k < i ==> bytes[offset + k] == ByteAt(l, k)
      invariant forall k :: 0 <= k < bytes.Length && !(offset <= k < offset + i) ==> bytes[k] == old(bytes[k])
    {
      ShiftIsTop(l, shift, i);
      ShiftStep(shift, i);
      bytes[offset + i] := (0xff & (l >> shift)) as bv8;
      i, shift := i + 1, shift - 8;
    }
  }

  lemma FirstShift()
    ensures IsShift(56, 0)
  {
  }

  lemma ValueStep(s: seq<bv8>, b: bv8)
    ensures Value(s + [b]) == Appended(Value(s), b)
    ensures Value([]) == 0
  {
    assert (s + [b])[..|s|] == s;
  }

  lemma ReadIs(a: seq<bv8>, offset: nat)
    requires offset >= 8 || |a| >= 8
    ensures Read(a, offset) == if offset >= 8 then 0 else Value(a[offset..8])
  {
    hide Value;
  }

  method ByteArrayIntoLong(bytearray: array<bv8>, offset: nat) returns (result: bv64)
    requires offset >= 8 || bytearray.Length >= 8
    ensures result == Read(bytearray[..], offset)
  {
    hide Value, Read, Appended;
    result := 0;
    var i := offset;
    ReadIs(bytearray[..], offset);
    while i < 8
      invariant offset <= i && (offset >= 8 ==> result == 0)
      invariant offset < 8 ==> i <= 8 && (i == offset ==> result == 0)
      invariant offset < i <= 8 ==> result == Value(bytearray[..][offset..i])
    {
      ValueStep(bytearray[..][offset..i], bytearray[i]);
      assert bytearray[..][offset..i + 1] == bytearray[..][offset..i] + [bytearray[i]];
      result := Appended(result, bytearray[i]);
      i := i + 1;
    }
  }

  ghost predicate IsHigh(h: bv64, x: bv64) {
    h == x >> 8
  }

  lemma LowByte(x: bv64, h: bv64, b: bv8)
    requires IsHigh(h, x) && b == (0xff & x) as bv8
    ensures Appended(h, b) == x
  {
  }

  lemma Shifts(l: bv64)
    ensures IsHigh(0, l >> 56) && IsHigh(l >> 56, l >> 48) && IsHigh(l >> 48, l >> 40) && IsHigh(l >> 40, l >> 32)
    ensures IsHigh(l >> 32, l >> 24) && IsHigh(l >> 24, l >> 16) && IsHigh(l >> 16, l >> 8) && IsHigh(l >> 8, l)
  {
  }

  lemma TopShift(l: bv64, k: nat)
    requires k < 8
    ensures IsHigh(Top(l, k), Top(l, k + 1))
  {
    hide IsHigh;
    Shifts(l);
  }

  lemma TopStep(l: bv64, k: nat)
    requires k < 8
    ensures Appended(Top(l, k), ByteAt(l, k)) == Top(l, k + 1)
  {
    hide Top, Appended, IsHigh;
    TopShift(l, k);
    LowByte(Top(l, k + 1), Top(l, k), ByteAt(l, k));
  }

  lemma {:induction false} ValueOfBytes(l: bv64, k: nat)
    requires k <= 8
    ensures Value(Bytes(l)[..k]) == Top(l, k)
  {
    hide Top, ByteAt, Appended;
    if k == 0 {
      NoTop(l);
    } else {
      ValueOfBytes(l, k - 1);
      TopStep(l, k - 1);
      assert Bytes(l)[..k][..k - 1] == Bytes(l)[..k - 1];
    }
  }

  lemma NoTop(l: bv64)
    ensures Top(l, 0) == 0
  {
  }

  lemma ShiftsFar(l: bv64)
    ensures l >> 56 == l <==> l == 0
    ensures l >> 48 == l <==> l == 0
    ensures l >> 40 == l <==> l == 0
    ensures l >> 32 == l <==> l == 0
  {
  }

  lemma ShiftsNear(l: bv64)
    ensures l >> 24 == l <==> l == 0
    ensures l >> 16 == l <==> l == 0
    ensures l >> 8 == l <==> l == 0
  {
  }

  lemma TopIsAll(l: bv64, k: nat)
    requires k <= 8
    ensures Top(l, k) == l <==> k == 8 || l == 0
  {
    ShiftsFar(l);
    ShiftsNear(l);
  }

  /** What was stored at an offset is read back from it exactly if the offset is 0 or the long is; otherwise
      only its most significant bytes are. */
  lemma StoredIsRead(a: seq<bv8>, l: bv64, offset: nat)
    requires offset + 8 <= |a|
    ensures Read(Stored(a, l, offset), offset) == if offset >= 8 then 0 else Top(l, 8 - offset)
    ensures Read(Stored(a, l, offset), offset) == l <==> offset == 0 || l == 0
  {
    hide Top, Value, Bytes;
    if offset < 8 {
      ValueOfBytes(l, 8 - offset);
      TopIsAll(l, 8 - offset);
      assert Stored(a, l, offset)[offset..8] == Bytes(l)[..8 - offset];
    }
  }
}
