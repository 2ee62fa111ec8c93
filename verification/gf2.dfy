/** Polynomials over the two-element field, as natural numbers: bit `i` of the number is the
    coefficient of `x^i`, addition is exclusive or. */
module Gf2 {

  function Xor(a: nat, b: nat): nat
    decreases a + b
  {
    if a == 0 && b == 0 then 0
    else 2 * Xor(a / 2, b / 2) + (if a % 2 == b % 2 then 0 else 1)
  }

  function Pow2(k: nat): (p: nat)
    ensures p > 0
  {
    if k == 0 then 1 else 2 * Pow2(k - 1)
  }

  /** Multiplication by `x^n`: a shift to the left. */
  function Raise(v: nat, n: nat): nat {
    if n == 0 then v else 2 * Raise(v, n - 1)
  }

  // ---------- Exclusive or ----------

  lemma XorBits(a: nat, b: nat)
    ensures Xor(a, b) / 2 == Xor(a / 2, b / 2)
    ensures Xor(a, b) % 2 == if a % 2 == b % 2 then 0 else 1
  {
  }

  lemma {:induction false} XorZero(a: nat)
    ensures Xor(a, 0) == a && Xor(0, a) == a
  {
    if a == 0 {
    } else {
      XorZero(a / 2);
    }
  }

  lemma {:induction false} XorCommutes(a: nat, b: nat)
    ensures Xor(a, b) == Xor(b, a)
    decreases a + b
  {
    if a == 0 && b == 0 {
    } else {
      XorCommutes(a / 2, b / 2);
    }
  }

  lemma {:induction false} XorAssociates(a: nat, b: nat, c: nat)
    ensures Xor(Xor(a, b), c) == Xor(a, Xor(b, c))
    decreases a + b + c
  {
    if a == 0 && b == 0 && c == 0 {
    } else {
      XorAssociates(a / 2, b / 2, c / 2);
      XorBits(a, b);
      XorBits(b, c);
      XorBits(Xor(a, b), c);
      XorBits(a, Xor(b, c));
    }
  }

  lemma {:induction false} XorSelf(a: nat)
    ensures Xor(a, a) == 0
  {
    if a == 0 {
    } else {
      XorSelf(a / 2);
    }
  }

  lemma XorCancels(a: nat, b: nat)
    ensures Xor(Xor(a, b), b) == a
  {
    XorAssociates(a, b, b);
    XorSelf(b);
    XorZero(a);
  }

  lemma XorIsZero(a: nat, b: nat)
    requires Xor(a, b) == 0
    ensures a == b
  {
    XorCancels(a, b);
    XorZero(b);
  }

  /** Sums of sums can be regrouped pairwise. */
  lemma XorExchange(a: nat, b: nat, c: nat, d: nat)
    ensures Xor(Xor(a, b), Xor(c, d)) == Xor(Xor(a, c), Xor(b, d))
  {
    XorAssociates(a, b, Xor(c, d));
    XorAssociates(b, c, d);
    XorCommutes(b, c);
    XorAssociates(c, b, d);
    XorAssociates(a, c, Xor(b, d));
  }

  lemma XorSwaps(a: nat, b: nat, c: nat)
    ensures Xor(Xor(a, b), c) == Xor(Xor(a, c), b)
  {
    XorAssociates(a, b, c);
    XorCommutes(b, c);
    XorAssociates(a, c, b);
  }

  /** Doubling is multiplication by `x`, and adding into the vacated coefficient is free. */
  lemma XorDouble(a: nat, b: nat, bit: nat)
    requires bit < 2
    ensures Xor(2 * a, 2 * b) == 2 * Xor(a, b)
    ensures Xor(2 * a, bit) == 2 * a + bit
  {
    hide Xor;
    XorBits(2 * a, 2 * b);
    XorBits(2 * a, bit);
    XorZero(a);
  }

  lemma {:induction false} XorBound(a: nat, b: nat, k: nat)
    requires a < Pow2(k) && b < Pow2(k)
    ensures Xor(a, b) < Pow2(k)
  {
    if k == 0 {
    } else {
      XorBound(a / 2, b / 2, k - 1);
    }
  }

  /** A leading coefficient that only one of two summands has survives in the sum. */
  lemma {:induction false} XorLeading(a: nat, b: nat, k: nat)
    requires Pow2(k) <= a < 2 * Pow2(k) && b < Pow2(k)
    ensures Pow2(k) <= Xor(a, b) < 2 * Pow2(k)
  {
    if k == 0 {
    } else {
      XorLeading(a / 2, b / 2, k - 1);
    }
  }

  /** Adding a polynomial of degree below `k` cannot bring down one of degree `k` or more. */
  lemma {:induction false} XorStaysLarge(a: nat, b: nat, k: nat)
    requires Pow2(k) <= a && b < Pow2(k)
    ensures Pow2(k) <= Xor(a, b)
  {
    XorBits(a, b);
    if k > 0 {
      XorStaysLarge(a / 2, b / 2, k - 1);
    } else {
      XorZero(a);
    }
  }

  // ---------- Shifting ----------

  lemma {:induction false} RaiseSum(a: nat, b: nat, n: nat)
    ensures Raise(a + b, n) == Raise(a, n) + Raise(b, n)
  {
    if n == 0 {
    } else {
      RaiseSum(a, b, n - 1);
    }
  }

  lemma {:induction false} RaiseTwice(v: nat, m: nat, n: nat)
    ensures Raise(Raise(v, m), n) == Raise(v, m + n)
  {
    if n == 0 {
    } else {
      RaiseTwice(v, m, n - 1);
    }
  }

  lemma {:induction false} RaiseXor(a: nat, b: nat, n: nat)
    ensures Raise(Xor(a, b), n) == Xor(Raise(a, n), Raise(b, n))
  {
    if n == 0 {
    } else {
      RaiseXor(a, b, n - 1);
      XorDouble(Raise(a, n - 1), Raise(b, n - 1), 0);
    }
  }

  lemma {:induction false} RaiseDigit(n: nat)
    ensures Raise(0, n) == 0 && Raise(1, n) == Pow2(n)
  {
    if n == 0 {
    } else {
      RaiseDigit(n - 1);
    }
  }

  lemma AddBelow(low: nat, up: nat)
    requires Xor(low / 2, up) == low / 2 + up
    ensures Xor(low, 2 * up) == low + 2 * up
  {
    hide Xor;
    XorBits(low, 2 * up);
    assert 2 * up / 2 == up && 2 * up % 2 == 0;
    var v := Xor(low, 2 * up);
    assert v == 2 * (v / 2) + v % 2 && low == 2 * (low / 2) + low % 2;
  }

  /** Adding below the shifted part is exclusive or with it. */
  lemma {:induction false} XorBelow(low: nat, high: nat, k: nat)
    requires low < Pow2(k)
    ensures Xor(low, Raise(high, k)) == low + Raise(high, k)
  {
    hide Xor;
    if k == 0 {
      XorZero(high);
    } else {
      var up := Raise(high, k - 1);
      XorBelow(low / 2, high, k - 1);
      AddBelow(low, up);
    }
  }

  lemma XorPairs(low: nat, high: nat, low': nat, high': nat, k: nat)
    requires low < Pow2(k) && low' < Pow2(k)
    ensures Xor(low, low') < Pow2(k)
    ensures Xor(low + Raise(high, k), low' + Raise(high', k)) ==
            Xor(low, low') + Raise(Xor(high, high'), k)
  {
    hide Xor;
    var up, up' := Raise(high, k), Raise(high', k);
    XorBelow(low, high, k);
    XorBelow(low', high', k);
    XorExchange(low, up, low', up');
    RaiseXor(high, high', k);
    XorBound(low, low', k);
    XorBelow(Xor(low, low'), Xor(high, high'), k);
  }

  // ---------- Multiplication ----------

  /** Carry-less product. */
  function Times(q: nat, p: nat): nat {
    if q == 0 then 0 else Xor(2 * Times(q / 2, p), if q % 2 == 1 then p else 0)
  }

  /** A nonzero multiple of a polynomial of degree `k` has degree at least `k`. */
  lemma {:induction false} MultipleIsLarge(q: nat, p: nat, k: nat)
    requires q > 0 && Pow2(k) <= p < Pow2(k + 1)
    ensures Times(q, p) >= Pow2(k)
  {
    if q == 1 {
      XorZero(p);
      assert Times(0, p) == 0;
    } else {
      MultipleIsLarge(q / 2, p, k);
      var doubled := 2 * Times(q / 2, p);
      assert doubled >= Pow2(k + 1);
      if q % 2 == 1 {
        XorStaysLarge(doubled, p, k + 1);
      } else {
        XorZero(doubled);
      }
    }
  }

  /** Multiples of `p` are closed under addition. */
  lemma {:induction false} TimesDistributes(q: nat, r: nat, p: nat)
    ensures Xor(Times(q, p), Times(r, p)) == Times(Xor(q, r), p)
    decreases q + r
  {
    if q == 0 && r == 0 {
      XorZero(0);
    } else {
      TimesDistributes(q / 2, r / 2, p);
      var qb, rb := if q % 2 == 1 then p else 0, if r % 2 == 1 then p else 0;
      var qs, rs := Times(q / 2, p), Times(r / 2, p);
      TimesUnfolds(q, p);
      TimesUnfolds(r, p);
      TimesUnfolds(Xor(q, r), p);
      XorExchange(2 * qs, qb, 2 * rs, rb);
      XorDouble(qs, rs, 0);
      XorBits(q, r);
      XorSelf(p);
      XorZero(p);
      XorZero(0);
    }
  }

  /** The last coefficient of the multiplier adds one copy of `p`. */
  lemma TimesUnfolds(q: nat, p: nat)
    ensures Times(q, p) == Xor(2 * Times(q / 2, p), if q % 2 == 1 then p else 0)
  {
    if q == 0 {
      XorZero(0);
    }
  }

  /** A remainder of degree below that of the divisor is unique. */
  lemma RemainderIsUnique(a: nat, q: nat, r: nat, p: nat, k: nat)
    requires Pow2(k) <= p < Pow2(k + 1)
    requires Xor(a, Times(q, p)) < Pow2(k)
    requires Xor(a, Times(r, p)) < Pow2(k)
    ensures q == r
  {
    var left, right := Xor(a, Times(q, p)), Xor(a, Times(r, p));
    XorBound(left, right, k);
    XorExchange(a, Times(q, p), a, Times(r, p));
    XorSelf(a);
    XorZero(Xor(Times(q, p), Times(r, p)));
    TimesDistributes(q, r, p);
    assert Xor(left, right) == Times(Xor(q, r), p);
    if Xor(q, r) > 0 {
      MultipleIsLarge(Xor(q, r), p, k);
      assert false;
    }
    XorIsZero(q, r);
  }
}
