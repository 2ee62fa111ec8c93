/** The checksum of every frame: CRC32C, computed byte by byte with a 256-entry table.

    The reference is the bit-serial division register; the table is proved to be a correct fast
    form of eight of its steps, for messages of every length. */
module Crc32c {
  import opened Words
  import opened Gf2

  const POLYNOMIAL: u32 := 0x82F63B78
  const ALL_ONES: u32 := 0xFFFF_FFFF

  /** The number with the given binary digits, least significant first. */
  function Number(bits: seq<bool>): nat {
    if bits == [] then 0
    else Number(bits[..|bits| - 1]) + Raise(Digit(bits[|bits| - 1]), |bits| - 1)
  }

  /** What the register starts from: all 32 bits set. */
  function Preset(): nat {
    Number(seq(32, _ => true))
  }

  // ---------- The bit-serial reference ----------

  /** One step of the reflected register: shift right, subtract the polynomial if a one fell out. */
  function Step(c: nat): nat {
    Xor(c / 2, if c % 2 == 1 then POLYNOMIAL else 0)
  }

  function Steps(n: nat, c: nat): nat {
    if n == 0 then c else Steps(n - 1, Step(c))
  }

  function Digit(bit: bool): nat {
    if bit then 1 else 0
  }

  /** The register after one message bit. */
  function Shift(c: nat, bit: bool): nat {
    Step(Xor(c, Digit(bit)))
  }

  /** The register after a string of message bits. */
  function Register(c: nat, bits: seq<bool>): nat
    decreases bits
  {
    if bits == [] then c else Register(Shift(c, bits[0]), bits[1..])
  }

  /** The low `n` bits of `v`, least significant first. */
  function Bits(v: nat, n: nat): (bits: seq<bool>)
    ensures |bits| == n
  {
    if n == 0 then [] else [v % 2 == 1] + Bits(v / 2, n - 1)
  }

  /** A byte string as the bit string it is sent as. */
  function Message(data: seq<u8>): (bits: seq<bool>)
    ensures |bits| == 8 * |data|
  {
    if data == [] then [] else Bits(data[0], 8) + Message(data[1..])
  }

  /** The final register, complemented. */
  function Checksum(data: seq<u8>): u32 {
    PresetIsAllOnes();
    RegisterBound(Preset(), Message(data));
    Preset() - Register(Preset(), Message(data))
  }

  // ---------- The register is a linear, injective machine ----------

  lemma Sizes()
    ensures Pow2(31) == 0x8000_0000 && Pow2(32) == MOD_32
    ensures Pow2(33) == 2 * MOD_32
  {
    assert Pow2(8) == 256;
    assert Pow2(16) == 256 * Pow2(8);
    assert Pow2(24) == 256 * Pow2(16);
    assert Pow2(31) == 128 * Pow2(24);
  }

  lemma {:induction false} NumberOfOnes(bits: seq<bool>)
    requires forall i :: 0 <= i < |bits| ==> bits[i]
    ensures Number(bits) == Pow2(|bits|) - 1
  {
    if bits == [] {
    } else {
      NumberOfOnes(bits[..|bits| - 1]);
      RaiseDigit(|bits| - 1);
    }
  }

  lemma PresetIsAllOnes()
    ensures Preset() == ALL_ONES
  {
    hide Number;
    Sizes();
    NumberOfOnes(seq(32, _ => true));
  }

  lemma StepBound(c: nat)
    requires c < MOD_32
    ensures Step(c) < MOD_32
  {
    Sizes();
    XorBound(c / 2, if c % 2 == 1 then POLYNOMIAL else 0, 32);
  }

  lemma ShiftBound(c: nat, bit: bool)
    requires c < MOD_32
    ensures Xor(c, Digit(bit)) < MOD_32 && Shift(c, bit) < MOD_32
  {
    Sizes();
    XorBound(c, Digit(bit), 32);
    StepBound(Xor(c, Digit(bit)));
  }

  lemma {:induction false} RegisterBound(c: nat, bits: seq<bool>)
    requires c < MOD_32
    ensures Register(c, bits) < MOD_32
    decreases bits
  {
    if bits == [] {
    } else {
      ShiftBound(c, bits[0]);
      RegisterBound(Shift(c, bits[0]), bits[1..]);
    }
  }

  lemma StepIsLinear(a: nat, b: nat)
    ensures Step(Xor(a, b)) == Xor(Step(a), Step(b))
  {
    var pa, pb := if a % 2 == 1 then POLYNOMIAL else 0, if b % 2 == 1 then POLYNOMIAL else 0;
    XorBits(a, b);
    XorExchange(a / 2, pa, b / 2, pb);
    XorSelf(POLYNOMIAL);
    XorZero(POLYNOMIAL);
    XorZero(0);
  }

  /** Steps that no one falls out of are plain shifts. */
  lemma StepOfEven(c: nat)
    ensures Step(2 * c) == c
  {
    XorZero(c);
  }

  /** A one that falls out sets the top bit of the register. */
  lemma StepOfOdd(c: nat)
    requires c < MOD_32 && c % 2 == 1
    ensures Step(c) >= 0x8000_0000
  {
    Sizes();
    XorCommutes(c / 2, POLYNOMIAL);
    XorLeading(POLYNOMIAL, c / 2, 31);
  }

  lemma {:induction false} RegisterIsLinear(c: nat, d: nat, x: seq<bool>, y: seq<bool>)
    requires |x| == |y|
    ensures Register(Xor(c, d), Differences(x, y)) == Xor(Register(c, x), Register(d, y))
    decreases |x|
  {
    if x == [] {
    } else {
      var xy := Differences(x, y);
      assert xy[1..] == Differences(x[1..], y[1..]);
      DigitIsLinear(x[0], y[0]);
      XorExchange(c, d, Digit(x[0]), Digit(y[0]));
      StepIsLinear(Xor(c, Digit(x[0])), Xor(d, Digit(y[0])));
      RegisterIsLinear(Shift(c, x[0]), Shift(d, y[0]), x[1..], y[1..]);
    }
  }

  lemma DigitIsLinear(a: bool, b: bool)
    ensures Digit(a != b) == Xor(Digit(a), Digit(b))
  {
    XorZero(Digit(a));
    XorZero(Digit(b));
    XorSelf(1);
  }

  /** Where two bit strings of one length disagree. */
  function Differences(x: seq<bool>, y: seq<bool>): (z: seq<bool>)
    requires |x| == |y|
    ensures |z| == |x| && forall i :: 0 <= i < |z| ==> z[i] == (x[i] != y[i])
  {
    seq(|x|, i requires 0 <= i < |x| => x[i] != y[i])
  }

  lemma {:induction false} RegisterConcat(c: nat, x: seq<bool>, y: seq<bool>)
    ensures Register(c, x + y) == Register(Register(c, x), y)
    decreases |x|
  {
    if x == [] {
      assert x + y == y;
    } else {
      assert (x + y)[1..] == x[1..] + y;
      RegisterConcat(Shift(c, x[0]), x[1..], y);
    }
  }

  lemma {:induction false} MessageConcat(x: seq<u8>, y: seq<u8>)
    ensures Message(x + y) == Message(x) + Message(y)
  {
    if x == [] {
      assert x + y == y;
    } else {
      assert (x + y)[1..] == x[1..] + y;
      MessageConcat(x[1..], y);
    }
  }

  // ---------- Many bits at once ----------

  /** Feeding the `k` bits of `v` one at a time is the same as adding `v` into the register first
      and then stepping `k` times. */
  lemma {:induction false} BitsAtOnce(c: nat, v: nat, k: nat)
    requires v < Pow2(k)
    ensures Register(c, Bits(v, k)) == Steps(k, Xor(c, v))
    decreases k
  {
    hide Xor, Step;
    if k == 0 {
      XorZero(c);
    } else {
      var bit, rest := v % 2 == 1, v / 2;
      var first := Xor(c, Digit(bit));
      BitsAtOnce(Step(first), rest, k - 1);
      assert Bits(v, k)[1..] == Bits(rest, k - 1);
      XorDouble(rest, 0, Digit(bit));
      XorCommutes(2 * rest, Digit(bit));
      XorAssociates(c, Digit(bit), 2 * rest);
      StepIsLinear(first, 2 * rest);
      StepOfEven(rest);
    }
  }

  lemma {:induction false} StepsAreLinear(n: nat, a: nat, b: nat)
    ensures Steps(n, Xor(a, b)) == Xor(Steps(n, a), Steps(n, b))
  {
    if n == 0 {
    } else {
      StepIsLinear(a, b);
      StepsAreLinear(n - 1, Step(a), Step(b));
    }
  }

  lemma {:induction false} ShiftsUndoRaise(n: nat, h: nat)
    ensures Steps(n, Raise(h, n)) == h
  {
    if n == 0 {
    } else {
      StepOfEven(Raise(h, n - 1));
      ShiftsUndoRaise(n - 1, h);
    }
  }

  /** Feeding `k` bits touches only the low `k` bits of the register; the others just move down. */
  lemma BitsMeetLowPart(low: nat, high: nat, v: nat, k: nat)
    requires low < Pow2(k) && v < Pow2(k)
    ensures Register(low + Raise(high, k), Bits(v, k)) == Xor(Steps(k, Xor(low, v)), high)
  {
    hide Xor, Steps;
    var up := Raise(high, k);
    assert Xor(low + up, v) == Xor(Xor(low, v), up) by {
      RaiseDigit(k);
      XorZero(high);
      XorPairs(low, high, v, 0, k);
      XorBelow(Xor(low, v), high, k);
    }
    assert Register(low + up, Bits(v, k)) == Steps(k, Xor(low + up, v)) by {
      BitsAtOnce(low + up, v, k);
    }
    assert Steps(k, Xor(Xor(low, v), up)) == Xor(Steps(k, Xor(low, v)), high) by {
      StepsAreLinear(k, Xor(low, v), up);
      ShiftsUndoRaise(k, high);
    }
  }

  /** One table lookup does the work of eight bit steps. */
  lemma TableStep(c: nat, b: u8)
    ensures Register(c, Bits(b, 8)) == Xor(Steps(8, Xor(c, b) % 256), c / 256)
  {
    ByteStep(c, b, 8);
  }

  lemma ByteStep(c: nat, b: u8, k: nat)
    requires k == 8
    ensures Register(c, Bits(b, k)) == Xor(Steps(k, Xor(c, b) % 256), c / 256)
  {
    hide Xor, Raise, Steps, Register, Bits;
    var low, high := c % 256, c / 256;
    LowByte(low, high, b, k);
    ByteWidth(high, k);
    BitsMeetLowPart(low, high, b, k);
  }

  lemma LowByte(low: u8, high: nat, b: u8, k: nat)
    requires k == 8
    ensures Xor(256 * high + low, b) % 256 == Xor(low, b)
  {
    hide Xor, Raise;
    ByteWidth(high, k);
    RaiseDigit(k);
    XorPairs(low, high, b, 0, k);
    ByteWidth(Xor(high, 0), k);
  }

  lemma ByteWidth(h: nat, k: nat)
    requires k == 8
    ensures Pow2(k) == 256 && Raise(h, k) == 256 * h
  {
    assert Pow2(k) == 16 * Pow2(k - 4) && Pow2(k - 4) == 16 * Pow2(k - 8);
    RaiseTwice(h, 4, 4);
    RaiseNibble(h);
    RaiseNibble(16 * h);
  }

  lemma RaiseNibble(h: nat)
    ensures Raise(h, 4) == 16 * h
  {
    assert Raise(h, 4) == 2 * Raise(h, 3);
    assert Raise(h, 3) == 2 * Raise(h, 2);
    assert Raise(h, 2) == 2 * Raise(h, 1);
  }

  // ---------- The program ----------

  /** A table that is correct up to entry `n`: entry `i` is the register eight steps after `i`. */
  ghost predicate Tabulates(table: seq<u32>, n: nat) {
    n <= |table| && forall i: nat :: i < n ==> table[i] == Steps(8, i)
  }

  ghost predicate IsTable(table: seq<u32>) {
    |table| == 256 && Tabulates(table, 256)
  }

  method Table() returns (table: array<u32>)
    ensures fresh(table) && IsTable(table[..])
  {
    table := new u32[256](_ => 0);
    for i: int := 0 to 256
      invariant Tabulates(table[..], i)
    {
      var crc: u32 := i;
      ghost var entry, before := Steps(8, i), table[..];
      for bit := 0 to 8
        invariant Steps(8 - bit, crc) == entry
        invariant table[..] == before
      {
        StepBound(crc);
        crc := Xor(crc / 2, if crc % 2 != 0 then POLYNOMIAL else 0);
      }
      table[i] := crc;
      assert table[..] == before[i := crc];
    }
  }

  lemma NextByte(table: seq<u32>, data: seq<u8>, i: nat, crc: u32)
    requires IsTable(table) && i < |data|
    requires crc == Register(Preset(), Message(data[..i]))
    ensures Register(Preset(), Message(data[..i + 1])) ==
            Xor(table[Xor(crc, data[i]) % 256], crc / 256) < MOD_32
  {
    hide Xor, Steps, Register, Bits, Preset;
    PresetIsAllOnes();
    TableStep(crc, data[i]);
    assert data[..i + 1] == data[..i] + [data[i]];
    MessageConcat(data[..i], [data[i]]);
    assert Message([data[i]]) == Bits(data[i], 8) + Message([]);
    assert Message([data[i]]) == Bits(data[i], 8);
    RegisterConcat(Preset(), Message(data[..i]), Bits(data[i], 8));
    RegisterBound(crc, Bits(data[i], 8));
  }

  method Compute(data: seq<u8>) returns (crc: u32)
    ensures crc == Checksum(data)
  {
    crc := ALL_ONES;
    PresetIsAllOnes();
    var table := Table();
    for i := 0 to |data|
      invariant IsTable(table[..])
      invariant crc == Register(Preset(), Message(data[..i]))
    {
      NextByte(table[..], data, i, crc);
      crc := Xor(table[Xor(crc, data[i]) % 256], crc / 256);
    }
    assert data[..|data|] == data;
    crc := ALL_ONES - crc;
  }

  /** The acceptance test of every decoder: the last four bytes are the checksum of the others. */
  predicate Passes(frame: seq<u8>) {
    |frame| >= 4 && GetU32(frame, |frame| - 4) == Checksum(frame[..|frame| - 4])
  }
}
