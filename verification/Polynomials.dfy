/** Polynomials with coefficients in Z(2), encoded as natural numbers: bit i of the number is
    the coefficient of x^i.  Addition is exclusive or, multiplying by x is doubling, and a
    polynomial has degree below d exactly when its number is below that of x^d. */
module Polynomials {

  /** The sum, coefficient by coefficient. */
  function Add(a: nat, b: nat): (r: nat)
    ensures a == 0 ==> r == b
    ensures b == 0 ==> r == a
  {
    if a == 0 then b
    else if b == 0 then a
    else 2 * Add(a / 2, b / 2) + (a + b) % 2
  }

  /** a * x^k */
  function Shl(a: nat, k: nat): nat {
    if k == 0 then a else 2 * Shl(a, k - 1)
  }

  /** x^k */
  function X(k: nat): nat {
    Shl(1, k)
  }

  /** The schoolbook product q * p. */
  function Mul(q: nat, p: nat): nat {
    if q == 0 then 0 else Add(if q % 2 == 1 then p else 0, 2 * Mul(q / 2, p))
  }

  // ----- addition is a commutative group in which every element is its own inverse

  lemma {:induction false} AddStep(a: nat, b: nat)
    ensures Add(a, b) / 2 == Add(a / 2, b / 2)
    ensures Add(a, b) % 2 == (a + b) % 2
    ensures Add(a, b) == 2 * Add(a / 2, b / 2) + (a + b) % 2
  {
    if a == 0 || b == 0 {
    } else {
    }
  }

  lemma AddComm(a: nat, b: nat)
    ensures Add(a, b) == Add(b, a)
  {
  }

  lemma {:induction false} AddAssoc(a: nat, b: nat, c: nat)
    ensures Add(Add(a, b), c) == Add(a, Add(b, c))
  {
    if a == 0 || b == 0 || c == 0 {
    } else {
      AddAssoc(a / 2, b / 2, c / 2);
      var ab, bc := Add(a, b), Add(b, c);
      AddStep(a, b);
      AddStep(b, c);
      assert Add(ab, c) == 2 * Add(ab / 2, c / 2) + (ab + c) % 2 by { AddStep(ab, c); }
      assert Add(a, bc) == 2 * Add(a / 2, bc / 2) + (a + bc) % 2 by { AddStep(a, bc); }
      Parity(a, b, c, ab, bc);
    }
  }

  lemma Parity(a: nat, b: nat, c: nat, ab: nat, bc: nat)
    requires ab % 2 == (a + b) % 2 && bc % 2 == (b + c) % 2
    ensures (ab + c) % 2 == (a + bc) % 2
  {
  }

  lemma {:induction false} AddSelf(a: nat)
    ensures Add(a, a) == 0
  {
    if a != 0 {
      AddSelf(a / 2);
    }
  }

  lemma AddCancel(a: nat, b: nat)
    ensures Add(a, Add(a, b)) == b
  {
    AddAssoc(a, a, b);
    AddSelf(a);
  }

  lemma AddZero(a: nat, b: nat)
    requires Add(a, b) == 0
    ensures a == b
  {
    AddCancel(a, b);
  }

  lemma AddInject(a: nat, b: nat, c: nat)
    requires Add(a, b) == Add(a, c)
    ensures b == c
  {
    AddCancel(a, b);
    AddCancel(a, c);
  }

  /** (a + b) + (c + e) == (a + c) + (b + e) */
  lemma AddSwap(a: nat, b: nat, c: nat, e: nat)
    ensures Add(Add(a, b), Add(c, e)) == Add(Add(a, c), Add(b, e))
  {
    AddAssoc(a, b, Add(c, e));
    AddAssoc(b, c, e);
    AddComm(b, c);
    AddAssoc(c, b, e);
    AddAssoc(a, c, Add(b, e));
  }

  lemma {:induction false} AddBits(a: nat, i: nat, b: nat, j: nat)
    requires i < 2 && j < 2
    ensures Add(2 * a + i, 2 * b + j) == 2 * Add(a, b) + (i + j) % 2
  {
    hide Add;
    var m, n := 2 * a + i, 2 * b + j;
    assert m / 2 == a && n / 2 == b && (m + n) % 2 == (i + j) % 2;
    AddStep(m, n);
  }

  lemma {:induction false} AddDouble(a: nat, b: nat)
    ensures Add(2 * a, 2 * b) == 2 * Add(a, b)
  {
    hide Add;
    AddBits(a, 0, b, 0);
  }

  // ----- shifting

  lemma {:induction false} ShlAdd(a: nat, b: nat, k: nat)
    ensures Shl(Add(a, b), k) == Add(Shl(a, k), Shl(b, k))
  {
    if k != 0 {
      ShlAdd(a, b, k - 1);
      AddDouble(Shl(a, k - 1), Shl(b, k - 1));
    }
  }

  lemma {:induction false} ShlShl(a: nat, j: nat, k: nat)
    ensures Shl(Shl(a, j), k) == Shl(a, j + k)
  {
    if k != 0 {
      ShlShl(a, j, k - 1);
    }
  }

  lemma {:induction false} ShlZero(k: nat)
    ensures Shl(0, k) == 0
  {
    if k != 0 {
      ShlZero(k - 1);
    }
  }

  lemma {:induction false} ShlMonotone(a: nat, b: nat, k: nat)
    ensures a < b <==> Shl(a, k) < Shl(b, k)
    ensures Shl(a, k) >= a
  {
    if k != 0 {
      ShlMonotone(a, b, k - 1);
    }
  }

  lemma XStep(k: nat)
    ensures X(k + 1) == 2 * X(k)
  {
  }

  lemma {:induction false} XMonotone(j: nat, k: nat)
    requires j <= k
    ensures 0 < X(j) <= X(k)
  {
    if j < k {
      XMonotone(j, k - 1);
    } else {
      ShlMonotone(0, 1, j);
      ShlZero(j);
    }
  }

  /** A polynomial times x^k, of degree below k, is zero. */
  lemma ShlSmall(a: nat, k: nat)
    requires Shl(a, k) < X(k)
    ensures a == 0
  {
    ShlMonotone(a, 1, k);
  }

  // ----- degrees

  lemma {:induction false} AddDegree(a: nat, b: nat, d: nat)
    requires a < X(d) && b < X(d)
    ensures Add(a, b) < X(d)
  {
    if d != 0 {
      AddStep(a, b);
      AddDegree(a / 2, b / 2, d - 1);
    }
  }

  /** Two polynomials of degree exactly d: the leading terms cancel. */
  lemma {:induction false} AddLeading(a: nat, b: nat, d: nat)
    requires X(d) <= a < X(d + 1) && X(d) <= b < X(d + 1)
    ensures Add(a, b) < X(d)
  {
    if d != 0 {
      AddStep(a, b);
      AddLeading(a / 2, b / 2, d - 1);
    } else {
      assert a == 1 && b == 1;
    }
  }

  lemma ShlDegree(a: nat, k: nat, d: nat)
    ensures a < X(d) <==> Shl(a, k) < X(d + k)
  {
    ShlMonotone(a, X(d), k);
    ShlShl(1, d, k);
  }

  /** Sum of a part of degree below k and a multiple of x^k. */
  lemma AddDegreeSplit(a: nat, b: nat, k: nat, d: nat)
    requires k <= d && a < X(d - k) && b < X(k)
    ensures Add(Shl(a, k), b) < X(d)
  {
    ShlDegree(a, k, d - k);
    XMonotone(k, d);
    AddDegree(Shl(a, k), b, d);
  }

  // ----- remainders

  /** p has degree d, and d is at least 1. */
  ghost predicate IsModulus(p: nat, d: nat) {
    d >= 1 && X(d) <= p < X(d + 1)
  }

  /** Subtracts p once when r has degree d. */
  function Lower(r: nat, p: nat, d: nat): nat {
    if r >= X(d) then Add(r, p) else r
  }

  /** The remainder of a by p, by long division from the highest coefficient down. */
  function Rem(a: nat, p: nat, d: nat): nat {
    if a == 0 then 0 else Lower(2 * Rem(a / 2, p, d) + a % 2, p, d)
  }

  lemma {:induction false} RemStep(a: nat, p: nat, d: nat)
    requires IsModulus(p, d)
    ensures Rem(a, p, d) == Lower(2 * Rem(a / 2, p, d) + a % 2, p, d)
  {
    XMonotone(0, d);
  }

  lemma {:induction false} RemBits(a: nat, i: nat, p: nat, d: nat)
    requires IsModulus(p, d) && i < 2
    ensures Rem(2 * a + i, p, d) == Lower(2 * Rem(a, p, d) + i, p, d)
  {
    assert (2 * a + i) / 2 == a && (2 * a + i) % 2 == i;
    RemStep(2 * a + i, p, d);
  }

  lemma {:induction false} RemDouble(a: nat, p: nat, d: nat)
    requires IsModulus(p, d)
    ensures Rem(2 * a, p, d) == Lower(2 * Rem(a, p, d), p, d)
  {
    RemBits(a, 0, p, d);
  }

  lemma {:induction false} RemDegree(a: nat, p: nat, d: nat)
    requires IsModulus(p, d)
    ensures Rem(a, p, d) < X(d)
  {
    XMonotone(0, d);
    if a != 0 {
      RemDegree(a / 2, p, d);
      var r := 2 * Rem(a / 2, p, d) + a % 2;
      if r >= X(d) {
        AddLeading(r, p, d);
      }
    }
  }

  lemma {:induction false} RemSmall(a: nat, p: nat, d: nat)
    requires IsModulus(p, d) && a < X(d)
    ensures Rem(a, p, d) == a
  {
    if a != 0 {
      RemSmall(a / 2, p, d);
    }
  }

  lemma LowerAdd(r: nat, s: nat, p: nat, d: nat)
    requires IsModulus(p, d) && r < X(d + 1) && s < X(d + 1)
    ensures Lower(Add(r, s), p, d) == Add(Lower(r, p, d), Lower(s, p, d))
  {
    if r >= X(d) && s >= X(d) {
      AddLeading(r, s, d);
      AddSwap(r, p, s, p);
      AddSelf(p);
    } else if r >= X(d) {
      AddAtLeast(r, s, d);
      AddAssoc(r, s, p);
      AddComm(s, p);
      AddAssoc(r, p, s);
    } else if s >= X(d) {
      AddComm(r, s);
      AddAtLeast(s, r, d);
      AddAssoc(r, s, p);
    } else {
      AddDegree(r, s, d);
    }
  }

  lemma {:induction false} AddAtLeast(a: nat, b: nat, d: nat)
    requires a >= X(d) && b < X(d)
    ensures Add(a, b) >= X(d)
  {
    AddStep(a, b);
    if d != 0 {
      AddAtLeast(a / 2, b / 2, d - 1);
    }
  }

  lemma RemZero(p: nat, d: nat)
    ensures Rem(0, p, d) == 0
  {
  }

  /** Taking remainders is additive. */
  lemma {:induction false} RemAdd(a: nat, b: nat, p: nat, d: nat)
    requires IsModulus(p, d)
    ensures Rem(Add(a, b), p, d) == Add(Rem(a, p, d), Rem(b, p, d))
  {
    RemZero(p, d);
    hide Add, Rem, X;
    if a != 0 && b != 0 {
      RemAdd(a / 2, b / 2, p, d);
      RemAddBits(a / 2, a % 2, b / 2, b % 2, p, d);
    }
  }

  lemma {:induction false} RemAddBits(a: nat, i: nat, b: nat, j: nat, p: nat, d: nat)
    requires IsModulus(p, d) && i < 2 && j < 2
    requires Rem(Add(a, b), p, d) == Add(Rem(a, p, d), Rem(b, p, d))
    ensures Rem(Add(2 * a + i, 2 * b + j), p, d) == Add(Rem(2 * a + i, p, d), Rem(2 * b + j, p, d))
  {
    hide Add, Rem, X, Lower;
    var r, s := Rem(a, p, d), Rem(b, p, d);
    var r', s' := 2 * r + i, 2 * s + j;
    calc {
      Rem(Add(2 * a + i, 2 * b + j), p, d);
      { AddBits(a, i, b, j); }
      Rem(2 * Add(a, b) + (i + j) % 2, p, d);
      { RemBits(Add(a, b), (i + j) % 2, p, d); }
      Lower(2 * Add(r, s) + (i + j) % 2, p, d);
      { AddBits(r, i, s, j); }
      Lower(Add(r', s'), p, d);
      { RemDegree(a, p, d); RemDegree(b, p, d); XStep(d); LowerAdd(r', s', p, d); }
      Add(Lower(r', p, d), Lower(s', p, d));
      { RemBits(a, i, p, d); RemBits(b, j, p, d); }
      Add(Rem(2 * a + i, p, d), Rem(2 * b + j, p, d));
    }
  }

  lemma RemIdempotent(a: nat, p: nat, d: nat)
    requires IsModulus(p, d)
    ensures Rem(Rem(a, p, d), p, d) == Rem(a, p, d)
  {
    RemDegree(a, p, d);
    RemSmall(Rem(a, p, d), p, d);
  }

  /** Multiplying by x^k may be done before or after taking the remainder. */
  lemma {:induction false} RemShl(a: nat, k: nat, p: nat, d: nat)
    requires IsModulus(p, d)
    ensures Rem(Shl(Rem(a, p, d), k), p, d) == Rem(Shl(a, k), p, d)
  {
    if k == 0 {
      RemIdempotent(a, p, d);
    } else {
      RemShl(a, k - 1, p, d);
      RemDouble(Shl(Rem(a, p, d), k - 1), p, d);
      RemDouble(Shl(a, k - 1), p, d);
    }
  }

  /** Equal remainders stay equal under addition of a common polynomial and shifting. */
  lemma RemCongruence(a: nat, b: nat, c: nat, k: nat, p: nat, d: nat)
    requires IsModulus(p, d) && Rem(a, p, d) == Rem(b, p, d)
    ensures Rem(Add(a, c), p, d) == Rem(Add(b, c), p, d)
    ensures Rem(Shl(a, k), p, d) == Rem(Shl(b, k), p, d)
  {
    RemAdd(a, c, p, d);
    RemAdd(b, c, p, d);
    RemShl(a, k, p, d);
    RemShl(b, k, p, d);
  }

  /** When p has constant term 1, x has an inverse modulo p, so x^k cancels. */
  lemma {:induction false} RemCancelShl(a: nat, k: nat, p: nat, d: nat)
    requires IsModulus(p, d) && p % 2 == 1
    requires Rem(Shl(a, k), p, d) == 0
    ensures Rem(a, p, d) == 0
  {
    if k != 0 {
      var b := Shl(a, k - 1);
      RemDouble(b, p, d);
      var r := 2 * Rem(b, p, d);
      if r >= X(d) {
        AddZero(r, p);
        assert false;
      }
      RemCancelShl(a, k - 1, p, d);
    }
  }

  // ----- congruence: the difference is a multiple of p

  ghost predicate Congruent(a: nat, b: nat, p: nat) {
    exists q: nat :: Add(a, b) == Mul(q, p)
  }

  lemma {:induction false} RemMul(q: nat, p: nat, d: nat)
    requires IsModulus(p, d)
    ensures Rem(Mul(q, p), p, d) == 0
  {
    if q != 0 {
      var m := Mul(q / 2, p);
      RemMul(q / 2, p, d);
      var e := if q % 2 == 1 then p else 0;
      RemAdd(e, 2 * m, p, d);
      assert Rem(2 * m, p, d) == 0 by {
        RemDouble(m, p, d);
        XMonotone(0, d);
      }
      assert Rem(e, p, d) == 0 by { RemOfModulus(p, d); }
    }
  }

  lemma MulOdd(q: nat, p: nat)
    ensures Mul(2 * q + 1, p) == Add(p, 2 * Mul(q, p))
  {
    assert (2 * q + 1) / 2 == q;
  }

  lemma MulEven(q: nat, p: nat)
    ensures Mul(2 * q, p) == 2 * Mul(q, p)
  {
    assert (2 * q) / 2 == q;
  }

  lemma RemOfModulus(p: nat, d: nat)
    requires IsModulus(p, d)
    ensures Rem(p, p, d) == 0
  {
    RemStep(p, p, d);
    assert X(d + 1) == 2 * X(d);
    assert p / 2 < X(d);
    RemSmall(p / 2, p, d);
    assert Rem(p, p, d) == Add(p, p);
    AddSelf(p);
  }

  lemma NoQuotient(p: nat, d: nat)
    requires IsModulus(p, d)
    ensures Add(0, Rem(0, p, d)) == Mul(0, p)
  {
    RemZero(p, d);
  }

  /** Division with remainder: a is a multiple of p plus its remainder. */
  lemma {:induction false} RemQuotient(a: nat, p: nat, d: nat) returns (q: nat)
    requires IsModulus(p, d)
    ensures Add(a, Rem(a, p, d)) == Mul(q, p)
  {
    hide Add, Rem, Mul, IsModulus;
    if a == 0 {
      NoQuotient(p, d);
      q := 0;
    } else {
      q := RemQuotient(a / 2, p, d);
      q := QuotientBits(a / 2, a % 2, q, p, d);
    }
  }

  lemma {:induction false} QuotientBits(a: nat, i: nat, q: nat, p: nat, d: nat) returns (q': nat)
    requires IsModulus(p, d) && i < 2
    requires Add(a, Rem(a, p, d)) == Mul(q, p)
    ensures Add(2 * a + i, Rem(2 * a + i, p, d)) == Mul(q', p)
  {
    hide Add, Rem, X, Mul;
    var r := Rem(a, p, d);
    var s := 2 * r + i;
    AddBits(a, i, r, i);
    RemBits(a, i, p, d);
    assert Add(2 * a + i, s) == 2 * Mul(q, p);
    if s >= X(d) {
      q' := 2 * q + 1;
      MulOdd(q, p);
      AddAssoc(2 * a + i, s, p);
      AddComm(Add(2 * a + i, s), p);
    } else {
      q' := 2 * q;
      MulEven(q, p);
    }
  }

  /** Congruence modulo p is equality of remainders, so a class has exactly one member of
      degree below d. */
  lemma CongruentIffSameRemainder(a: nat, b: nat, p: nat, d: nat)
    requires IsModulus(p, d)
    ensures Congruent(a, b, p) <==> Rem(a, p, d) == Rem(b, p, d)
  {
    RemAdd(a, b, p, d);
    if Congruent(a, b, p) {
      var q: nat :| Add(a, b) == Mul(q, p);
      RemMul(q, p, d);
      AddZero(Rem(a, p, d), Rem(b, p, d));
    }
    if Rem(a, p, d) == Rem(b, p, d) {
      AddSelf(Rem(a, p, d));
      var q := RemQuotient(Add(a, b), p, d);
      assert Add(a, b) == Mul(q, p);
    }
  }

  /** Rem is the only polynomial of degree below d congruent to a. */
  lemma RemainderIsUnique(a: nat, r: nat, p: nat, d: nat)
    requires IsModulus(p, d)
    ensures r == Rem(a, p, d) <==> r < X(d) && Congruent(r, a, p)
  {
    RemDegree(a, p, d);
    CongruentIffSameRemainder(r, a, p, d);
    RemIdempotent(a, p, d);
    if r < X(d) {
      RemSmall(r, p, d);
    }
  }
}
