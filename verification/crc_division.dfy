/** What the checksum means: the remainder of dividing the message polynomial by the Castagnoli
    polynomial of section 12.1 of RFC 3720. */
module CrcDivision {
  import opened Words
  import opened Gf2
  import opened Crc32c

  /** The Castagnoli polynomial, `x^32` included. */
  const GENERATOR: nat := 0x1_1EDC_6F41

  /** The low `w` bits of `v` in the opposite order. */
  function Reflect(v: nat, w: nat): nat {
    if w == 0 then 0 else Raise(v % 2, w - 1) + Reflect(v / 2, w - 1)
  }

  /** The polynomial whose coefficients are the message bits, first bit highest. */
  function Polynomial(bits: seq<bool>): nat {
    if bits == [] then 0
    else 2 * Polynomial(bits[..|bits| - 1]) + Digit(bits[|bits| - 1])
  }

  ghost predicate IsRemainder(dividend: nat, divisor: nat, r: nat) {
    r < MOD_32 && exists q: nat :: Xor(dividend, Times(q, divisor)) == r
  }

  /** What is divided: the message times `x^32`, with the first 32 bits complemented. */
  function Dividend(bits: seq<bool>): nat {
    Xor(Raise(Polynomial(bits), 32), Raise(ALL_ONES, |bits|))
  }

  /** The Castagnoli polynomial by its exponents: section 12.1 of RFC 3720. */
  lemma GeneratorIs()
    ensures GENERATOR ==
            Pow2(32) + Pow2(28) + Pow2(27) + Pow2(26) + Pow2(25) + Pow2(23) + Pow2(22) + Pow2(20) + Pow2(19)
            + Pow2(18) + Pow2(14) + Pow2(13) + Pow2(11) + Pow2(10) + Pow2(9) + Pow2(8) + Pow2(6) + Pow2(0)
  {
    Sizes();
    assert Pow2(6) == 64 && Pow2(8) == 256;
    assert Pow2(14) == 64 * Pow2(8);
    assert Pow2(20) == 64 * Pow2(14);
    assert Pow2(26) == 64 * Pow2(20);
  }

  lemma {:induction false} ReflectBound(v: nat, w: nat)
    ensures Reflect(v, w) < Pow2(w)
  {
    if w == 0 {
    } else {
      ReflectBound(v / 2, w - 1);
      RaiseDigit(w - 1);
    }
  }

  lemma {:induction false} ReflectIsLinear(a: nat, b: nat, w: nat)
    ensures Reflect(Xor(a, b), w) == Xor(Reflect(a, w), Reflect(b, w))
  {
    hide Xor;
    if w == 0 {
      XorZero(0);
    } else {
      XorBits(a, b);
      DigitIsLinear(a % 2 == 1, b % 2 == 1);
      ReflectIsLinear(a / 2, b / 2, w - 1);
      ReflectBound(a / 2, w - 1);
      ReflectBound(b / 2, w - 1);
      XorPairs(Reflect(a / 2, w - 1), a % 2, Reflect(b / 2, w - 1), b % 2, w - 1);
    }
  }

  /** Reflecting a concatenation swaps and reflects the parts. */
  lemma {:induction false} ReflectConcat(high: nat, low: nat, w: nat, k: nat)
    requires low < Pow2(k)
    ensures Reflect(Raise(high, k) + low, k + w) == Raise(Reflect(low, k), w) + Reflect(high, w)
    decreases k
  {
    if k == 0 {
      RaiseDigit(w);
    } else {
      var v := Raise(high, k) + low;
      assert v / 2 == Raise(high, k - 1) + low / 2 && v % 2 == low % 2;
      ReflectConcat(high, low / 2, w, k - 1);
      RaiseSum(Raise(low % 2, k - 1), Reflect(low / 2, k - 1), w);
      RaiseTwice(low % 2, k - 1, w);
    }
  }

  lemma {:induction false} ReflectTwice(v: nat, w: nat)
    requires v < Pow2(w)
    ensures Reflect(Reflect(v, w), w) == v
  {
    if w == 0 {
    } else {
      ReflectTwice(v / 2, w - 1);
      ReflectBound(v / 2, w - 1);
      ReflectConcat(v % 2, Reflect(v / 2, w - 1), 1, w - 1);
      assert Reflect(v % 2, 1) == v % 2;
      assert Raise(v / 2, 1) == 2 * (v / 2);
    }
  }

  /** Reflection as a loop would do it: bits leave `v` at the bottom and enter `acc` there. */
  function ReflectInto(v: nat, w: nat, acc: nat): nat {
    if w == 0 then acc else ReflectInto(v / 2, w - 1, 2 * acc + v % 2)
  }

  lemma {:induction false} ReflectIntoReflects(v: nat, w: nat, acc: nat)
    ensures ReflectInto(v, w, acc) == Raise(acc, w) + Reflect(v, w)
    decreases w
  {
    if w == 0 {
    } else {
      ReflectIntoReflects(v / 2, w - 1, 2 * acc + v % 2);
      RaiseSum(2 * acc, v % 2, w - 1);
      RaiseTwice(acc, 1, w - 1);
    }
  }

  lemma ReflectNibble(v: nat, w: nat, acc: nat)
    requires w >= 4
    ensures ReflectInto(v, w, acc) ==
            ReflectInto(v / 16, w - 4,
                        16 * acc + 8 * (v % 2) + 4 * (v / 2 % 2) + 2 * (v / 4 % 2) + v / 8 % 2)
  {
    var acc2 := 4 * acc + 2 * (v % 2) + v / 2 % 2;
    assert ReflectInto(v, w, acc) == ReflectInto(v / 2, w - 1, 2 * acc + v % 2);
    assert ReflectInto(v / 2, w - 1, 2 * acc + v % 2) == ReflectInto(v / 4, w - 2, acc2);
    assert ReflectInto(v / 4, w - 2, acc2) == ReflectInto(v / 8, w - 3, 2 * acc2 + v / 4 % 2);
  }

  lemma ReflectedNibbles(w: nat)
    requires w >= 32
    ensures ReflectInto(POLYNOMIAL, w, 0) == ReflectInto(0, w - 32, 0x1EDC_6F41)
  {
    hide ReflectInto;
    ReflectNibble(0x82F63B78, w, 0);
    ReflectNibble(0x82F63B7, w - 4, 1);
    ReflectNibble(0x82F63B, w - 8, 0x1E);
    ReflectNibble(0x82F63, w - 12, 0x1ED);
    ReflectNibble(0x82F6, w - 16, 0x1EDC);
    ReflectNibble(0x82F, w - 20, 0x1EDC6);
    ReflectNibble(0x82, w - 24, 0x1EDC6F);
    ReflectNibble(0x8, w - 28, 0x1EDC6F4);
  }

  lemma ReflectedPolynomial(w: nat)
    requires w == 32
    ensures Reflect(POLYNOMIAL, w) == GENERATOR - MOD_32
  {
    hide Raise, Reflect;
    ReflectIntoReflects(POLYNOMIAL, w, 0);
    RaiseDigit(w);
    ReflectedNibbles(w);
  }

  lemma {:induction false} ReflectedOnes(w: nat)
    ensures Reflect(Pow2(w) - 1, w) == Pow2(w) - 1
  {
    if w == 0 {
    } else {
      ReflectedOnes(w - 1);
      RaiseDigit(w - 1);
      assert (Pow2(w) - 1) / 2 == Pow2(w - 1) - 1 && (Pow2(w) - 1) % 2 == 1;
    }
  }

  /** Shifting the reflected register right is multiplying the remainder by `x`, except for the
      coefficient that leaves. */
  lemma ReflectHalf(c: nat, w: nat)
    requires c < MOD_32 && w == 32
    ensures Reflect(c / 2, w) == Xor(2 * Reflect(c, w), Raise(c % 2, w))
  {
    hide Xor;
    Sizes();
    var h := c / 2;
    var narrow := Reflect(h, w - 1);
    assert Reflect(h, w) == 2 * narrow by {
      RaiseDigit(w - 1);
      ReflectConcat(0, h, 1, w - 1);
      assert Raise(narrow, 1) == 2 * Raise(narrow, 0);
    }
    ReflectBound(h, w);
    XorBelow(2 * narrow, c % 2, w);
    XorCancels(2 * narrow, Raise(c % 2, w));
  }

  /** One step of the register is one step of long division: bring down the next coefficient, and
      subtract the divisor if it fits. */
  lemma ShiftDivides(c: nat, bit: bool, w: nat)
    requires c < MOD_32 && w == 32
    ensures var fits := Xor(c, Digit(bit)) % 2 == 1;
            Reflect(Shift(c, bit), w) ==
            Xor(Xor(2 * Reflect(c, w), Raise(Digit(bit), w)), if fits then GENERATOR else 0)
  {
    hide Xor, Reflect;
    var d := Digit(bit);
    var c' := Xor(c, d);
    var f := c' % 2;
    ShiftBound(c, bit);
    ReflectHalf(c', w);
    assert 2 * Reflect(c', w) == Xor(2 * Reflect(c, w), Raise(d, w)) by {
      ReflectIsLinear(c, d, w);
      ReflectOfDigit(d, w);
      XorDouble(Reflect(c, w), Raise(d, w - 1), 0);
    }
    var poly := if f == 1 then POLYNOMIAL else 0;
    ReflectIsLinear(c' / 2, poly, w);
    XorAssociates(2 * Reflect(c', w), Raise(f, w), Reflect(poly, w));
    assert Xor(Raise(f, w), Reflect(poly, w)) == if f == 1 then GENERATOR else 0 by {
      Sizes();
      RaiseDigit(w);
      RaiseDigit(w - 1);
      ReflectOfDigit(0, w);
      ReflectedPolynomial(w);
      XorZero(0);
      XorBelow(Reflect(poly, w), f, w);
      XorCommutes(Raise(f, w), Reflect(poly, w));
    }
  }

  lemma {:induction false} ReflectOfDigit(d: nat, w: nat)
    requires d < 2 && w > 0
    ensures Reflect(d, w) == Raise(d, w - 1)
  {
    if w == 1 {
    } else {
      ReflectOfDigit(0, w - 1);
      RaiseDigit(w - 2);
    }
  }

  /** The register is the remainder; its quotient is returned. */
  lemma {:induction false} RegisterDivides(c: nat, bits: seq<bool>, w: nat) returns (q: nat)
    requires c < MOD_32 && w == 32
    ensures Xor(Xor(Raise(Polynomial(bits), w), Raise(Reflect(c, w), |bits|)), Times(q, GENERATOR))
            == Reflect(Register(c, bits), w)
    decreases bits
  {
    hide Xor, Reflect;
    if bits == [] {
      q := 0;
      RaiseDigit(w);
      XorZero(Reflect(c, w));
    } else {
      var n := |bits| - 1;
      var before, bit := bits[..n], bits[n];
      var p := RegisterDivides(c, before, w);
      var reg := Register(c, before);
      RegisterBound(c, before);
      ShiftDivides(reg, bit, w);
      var f := Xor(reg, Digit(bit)) % 2;
      q := 2 * p + f;
      assert Register(c, bits) == Shift(reg, bit) by {
        assert bits == before + [bit];
        RegisterConcat(c, before, [bit]);
        assert Register(reg, [bit]) == Register(Shift(reg, bit), []);
      }
      var last := if f == 1 then GENERATOR else 0;
      assert Times(q, GENERATOR) == Xor(2 * Times(p, GENERATOR), last) by {
        TimesUnfolds(q, GENERATOR);
        assert q / 2 == p && q % 2 == f;
      }
      var m := Polynomial(before);
      assert Raise(2 * m + Digit(bit), w) == Xor(2 * Raise(m, w), Raise(Digit(bit), w)) by {
        XorDouble(m, m, Digit(bit));
        RaiseXor(2 * m, Digit(bit), w);
        RaiseTwice(m, 1, w);
      }
      BringDown(Raise(m, w), Raise(Reflect(c, w), n), Times(p, GENERATOR), Raise(Digit(bit), w), last);
    }
  }

  /** The algebra of one step of long division. */
  lemma BringDown(a: nat, b: nat, t: nat, d: nat, f: nat)
    ensures Xor(Xor(Xor(2 * a, d), 2 * b), Xor(2 * t, f)) ==
            Xor(Xor(2 * Xor(Xor(a, b), t), d), f)
  {
    XorSwaps(2 * a, d, 2 * b);
    XorDouble(a, b, 0);
    XorExchange(2 * Xor(a, b), d, 2 * t, f);
    XorDouble(Xor(a, b), t, 0);
    XorAssociates(2 * Xor(Xor(a, b), t), d, f);
  }

  /** The checksum is, up to reflection and complement, the one and only remainder of dividing
      the message polynomial by the Castagnoli polynomial. */
  lemma ChecksumIsRemainder(data: seq<u8>, w: nat)
    requires w == 32
    ensures forall r ::
              IsRemainder(Dividend(Message(data)), GENERATOR, r) <==>
              r == Reflect(ALL_ONES - Checksum(data), w)
  {
    hide Xor, Reflect, Times, Register, Preset;
    PresetIsAllOnes();
    var bits := Message(data);
    var dividend, found := Dividend(bits), Reflect(Register(Preset(), bits), w);
    var q := RegisterDivides(Preset(), bits, w);
    Sizes();
    ReflectedOnes(w);
    ReflectBound(Register(Preset(), bits), w);
    assert IsRemainder(dividend, GENERATOR, found);
    forall r | IsRemainder(dividend, GENERATOR, r)
      ensures r == found
    {
      var q' :| Xor(dividend, Times(q', GENERATOR)) == r;
      RemainderIsUnique(dividend, q, q', GENERATOR, w);
    }
  }
}
