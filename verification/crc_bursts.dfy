/** What the check detects: no burst of up to 32 wrong bits is ever accepted. */
module CrcBursts {
  import opened Words
  import opened Gf2
  import opened Crc32c

  lemma StepIsInjective(a: nat, b: nat)
    requires a < MOD_32 && b < MOD_32 && Step(a) == Step(b)
    ensures a == b
  {
    Sizes();
    StepIsLinear(a, b);
    XorSelf(Step(a));
    var d := Xor(a, b);
    XorBound(a, b, 32);
    if d % 2 == 1 {
      StepOfOdd(d);
    } else {
      StepOfEven(d / 2);
    }
    XorIsZero(a, b);
  }

  /** With no differences left to feed, a nonzero difference register never becomes zero. */
  lemma {:induction false} QuietTail(d: nat, bits: seq<bool>)
    requires d < MOD_32 && Register(d, bits) == 0
    requires forall i :: 0 <= i < |bits| ==> !bits[i]
    ensures d == 0
    decreases bits
  {
    if bits == [] {
    } else {
      ShiftBound(d, false);
      QuietTail(Shift(d, false), bits[1..]);
      XorZero(d);
      XorZero(0);
      StepIsInjective(d, 0);
    }
  }

  lemma {:induction false} QuietHead(bits: seq<bool>)
    requires forall i :: 0 <= i < |bits| ==> !bits[i]
    ensures Register(0, bits) == 0
  {
    if bits == [] {
    } else {
      XorZero(0);
      assert Shift(0, false) == 0;
      QuietHead(bits[1..]);
    }
  }

  /** Running a burst backwards from zero, only as many low bits can be set as there are bits
      still to come: no one ever falls out. */
  lemma {:induction false} BurstBackwards(d: nat, bits: seq<bool>)
    requires d < MOD_32 && |bits| <= 32 && Register(d, bits) == 0
    ensures d < Pow2(|bits|)
    decreases bits
  {
    if bits == [] {
    } else {
      var d' := Xor(d, Digit(bits[0]));
      ShiftBound(d, bits[0]);
      BurstBackwards(Shift(d, bits[0]), bits[1..]);
      PowerGrows(|bits| - 1, 31);
      Sizes();
      if d' % 2 == 1 {
        StepOfOdd(d');
        assert false;
      }
      StepOfEven(d' / 2);
      XorBits(d, Digit(bits[0]));
      XorZero(d / 2);
    }
  }

  lemma {:induction false} PowerGrows(a: nat, b: nat)
    requires a <= b
    ensures Pow2(a) <= Pow2(b)
  {
    if a >= b {
    } else {
      PowerGrows(a, b - 1);
    }
  }

  lemma ShiftFromZero()
    ensures Shift(0, true) == POLYNOMIAL && Shift(0, false) == 0
  {
    hide Xor;
    XorZero(1);
    XorZero(0);
    XorZero(POLYNOMIAL);
  }

  /** A burst that leaves no trace in a zero register was no burst. */
  lemma {:induction false} BurstForwards(bits: seq<bool>)
    requires |bits| <= 32 && Register(0, bits) == 0
    ensures forall i :: 0 <= i < |bits| ==> !bits[i]
  {
    hide Xor;
    if bits == [] {
    } else {
      ShiftBound(0, bits[0]);
      BurstBackwards(Shift(0, bits[0]), bits[1..]);
      PowerGrows(|bits| - 1, 31);
      Sizes();
      ShiftFromZero();
      BurstForwards(bits[1..]);
      assert forall i :: 1 <= i < |bits| ==> bits[i] == bits[1..][i - 1];
    }
  }

  // ---------- The residue ----------

  /** What the register holds after any frame with a correct trailer. */
  function Residue(): nat {
    Register(Preset(), seq(32, _ => false))
  }

  lemma {:induction false} XorComplement(r: nat, k: nat)
    requires r < Pow2(k)
    ensures Xor(r, Pow2(k) - 1 - r) == Pow2(k) - 1
  {
    if k == 0 {
    } else {
      var c := Pow2(k) - 1 - r;
      XorComplement(r / 2, k - 1);
      assert c / 2 == Pow2(k - 1) - 1 - r / 2 && c % 2 != r % 2;
    }
  }

  lemma {:induction false} StepsAreInjective(n: nat, a: nat, b: nat)
    requires a < MOD_32 && b < MOD_32 && Steps(n, a) == Steps(n, b)
    ensures a == b
  {
    if n == 0 {
    } else {
      StepBound(a);
      StepBound(b);
      StepsAreInjective(n - 1, Step(a), Step(b));
      StepIsInjective(a, b);
    }
  }

  lemma {:induction false} BitsOfBytes(v: nat, n: nat)
    ensures Message(LittleEndian(v, n)) == Bits(v, 8 * n)
  {
    if n == 0 {
    } else {
      BitsOfBytes(v / 256, n - 1);
      var rest := LittleEndian(v / 256, n - 1);
      assert LittleEndian(v, n)[1..] == rest;
      BitsSplit(v, 8, 8 * (n - 1));
      ByteShift(v, 8);
    }
  }

  /** The bits of `v` from bit `k` on. */
  function Drop(v: nat, k: nat): nat {
    if k == 0 then v else Drop(v / 2, k - 1)
  }

  lemma {:induction false} BitsSplit(v: nat, k: nat, n: nat)
    ensures Bits(v, k + n) == Bits(v, k) + Bits(Drop(v, k), n)
    decreases k
  {
    if k == 0 {
    } else {
      BitsSplit(v / 2, k - 1, n);
    }
  }

  lemma ByteShift(v: nat, k: nat)
    requires k == 8
    ensures Drop(v, k) == v / 256 && Bits(v, k) == Bits(v % 256, k)
  {
    DropNibble(v, k);
    DropNibble(v / 16, k - 4);
    BitsOfLowPart(v % 256, v / 256, k);
    ByteWidth(v / 256, k);
  }

  lemma DropNibble(v: nat, k: nat)
    requires k >= 4
    ensures Drop(v, k) == Drop(v / 16, k - 4)
  {
    assert Drop(v, k) == Drop(v / 2, k - 1);
    assert Drop(v / 2, k - 1) == Drop(v / 4, k - 2);
    assert Drop(v / 4, k - 2) == Drop(v / 8, k - 3);
  }

  lemma {:induction false} BitsOfLowPart(low: nat, high: nat, k: nat)
    ensures Bits(low + Raise(high, k), k) == Bits(low, k)
    decreases k
  {
    if k == 0 {
    } else {
      assert (low + Raise(high, k)) / 2 == low / 2 + Raise(high, k - 1);
      BitsOfLowPart(low / 2, high, k - 1);
    }
  }

  lemma {:induction false} QuietSteps(c: nat, bits: seq<bool>)
    requires forall i :: 0 <= i < |bits| ==> !bits[i]
    ensures Register(c, bits) == Steps(|bits|, c)
    decreases bits
  {
    if bits == [] {
    } else {
      XorZero(c);
      QuietSteps(Step(c), bits[1..]);
    }
  }

  /** The trailer replaces the register by a constant: adding a number to its own complement gives
      all ones, whatever the number was. */
  lemma ResidueAfterTrailer(r: u32, trailer: u32)
    ensures Register(r, Message(LittleEndian(trailer, 4))) == Residue()
            <==> trailer == ALL_ONES - r
  {
    hide Xor, Steps, Bits, Register, Message, LittleEndian, Preset;
    var k := 32;
    PresetIsAllOnes();
    QuietSteps(Preset(), seq(k, _ => false));
    Sizes();
    BitsOfBytes(trailer, 4);
    BitsAtOnce(r, trailer, k);
    XorBound(r, trailer, k);
    XorComplement(r, k);
    if Register(r, Message(LittleEndian(trailer, 4))) == Residue() {
      StepsAreInjective(k, Xor(r, trailer), ALL_ONES);
      XorCommutes(r, trailer);
      XorCancels(trailer, r);
      XorCommutes(r, ALL_ONES - r);
      XorCancels(ALL_ONES - r, r);
    }
  }

  /** A frame passes exactly when the register ends at the residue. */
  lemma PassesIffResidue(frame: seq<u8>)
    requires |frame| >= 4
    ensures Passes(frame) <==> Register(Preset(), Message(frame)) == Residue()
  {
    hide Register, Preset;
    PresetIsAllOnes();
    var n := |frame| - 4;
    var body, trailer := frame[..n], GetU32(frame, n);
    GetU32Image(frame, n);
    assert frame == body + frame[n..] && frame[n..] == frame[n..n + 4];
    MessageConcat(body, frame[n..]);
    RegisterConcat(Preset(), Message(body), Message(frame[n..]));
    RegisterBound(Preset(), Message(body));
    ResidueAfterTrailer(Register(Preset(), Message(body)), trailer);
  }

  // ---------- Burst detection ----------

  /** `a` and `b` agree on every bit outside the 32 positions from `at` on. */
  ghost predicate DifferInBurst(a: seq<u8>, b: seq<u8>, at: nat) {
    |a| == |b| &&
    forall k :: 0 <= k < |Message(a)| && !(at <= k < at + 32) ==> Message(a)[k] == Message(b)[k]
  }

  lemma {:induction false} BitsAreFaithful(v: nat, w: nat, k: nat)
    requires v < Pow2(k) && w < Pow2(k) && Bits(v, k) == Bits(w, k)
    ensures v == w
  {
    if k == 0 {
    } else {
      assert Bits(v, k)[0] == Bits(w, k)[0];
      assert Bits(v, k)[1..] == Bits(w, k)[1..];
      BitsAreFaithful(v / 2, w / 2, k - 1);
    }
  }

  lemma {:induction false} MessageIsFaithful(a: seq<u8>, b: seq<u8>)
    requires Message(a) == Message(b)
    ensures a == b
  {
    if a == [] {
    } else {
      assert |b| == |a|;
      assert Message(a)[..8] == Bits(a[0], 8) && Message(b)[..8] == Bits(b[0], 8);
      assert Message(a)[8..] == Message(a[1..]) && Message(b)[8..] == Message(b[1..]);
      MessageIsFaithful(a[1..], b[1..]);
      ByteWidth(0, 8);
      BitsAreFaithful(a[0], b[0], 8);
    }
  }

  /** A zero register, some differences confined to a burst, and a zero register again: there were
      no differences. */
  lemma NoSilentBurst(diff: seq<bool>, at: nat)
    requires Register(0, diff) == 0
    requires forall k :: 0 <= k < |diff| && !(at <= k < at + 32) ==> !diff[k]
    ensures forall k :: 0 <= k < |diff| ==> !diff[k]
  {
    hide Xor, Register;
    var from := if at < |diff| then at else |diff|;
    var to := if at + 32 < |diff| then at + 32 else |diff|;
    var head, burst, tail := diff[..from], diff[from..to], diff[to..];
    assert diff == head + (burst + tail);
    RegisterConcat(0, head, burst + tail);
    QuietHead(head);
    RegisterConcat(0, burst, tail);
    RegisterBound(0, burst);
    QuietTail(Register(0, burst), tail);
    BurstForwards(burst);
    forall k | 0 <= k < |diff|
      ensures !diff[k]
    {
      if from <= k < to {
        assert diff[k] == burst[k - from];
      }
    }
  }

  /** No burst error of up to 32 bits is ever accepted, wherever it lies: two frames of one length
      that both pass the check and differ only inside such a burst are the same frame. */
  lemma BurstDetected(a: seq<u8>, b: seq<u8>, at: nat)
    requires Passes(a) && Passes(b) && DifferInBurst(a, b, at)
    ensures a == b
  {
    hide Xor, Register, Preset;
    var x, y := Message(a), Message(b);
    PassesIffResidue(a);
    PassesIffResidue(b);
    RegisterIsLinear(Preset(), Preset(), x, y);
    XorSelf(Preset());
    XorSelf(Residue());
    NoSilentBurst(Differences(x, y), at);
    assert x == y;
    MessageIsFaithful(a, b);
  }
}
