/** Machine integers and their explicit little-endian images.

    Bytes and words are mathematical integers constrained to their width, so every wrap-around of
    the program is written out where it happens. */
module Words {

  const MOD_32 := 0x1_0000_0000
  const MOD_64 := 0x1_0000_0000_0000_0000

  type u8 = x: int | 0 <= x < 0x100
  type u32 = x: int | 0 <= x < 0x1_0000_0000
  type u64 = x: int | 0 <= x < 0x1_0000_0000_0000_0000

  /** Addition of a `std::uint64_t` / Go `uint64`: it wraps. */
  function Add64(x: u64, y: nat): u64 {
    (x + y) % MOD_64
  }

  function Sub64(x: u64, y: u64): u64 {
    (x - y + MOD_64) % MOD_64
  }

  /** Wrapping after every addition is wrapping once. */
  lemma AddWraps(a: nat, b: nat)
    ensures Add64(a % MOD_64, b) == (a + b) % MOD_64
  {
    var x := a % MOD_64 + b;
    RemainderIs(a + b, a / MOD_64 + x / MOD_64, x % MOD_64);
  }

  lemma RemainderIs(n: nat, q: nat, r: nat)
    requires n == MOD_64 * q + r && r < MOD_64
    ensures n % MOD_64 == r
  {
  }

  function Wrap64(x: nat): u64 {
    x % MOD_64
  }

  lemma WrapAdds(x: nat, y: nat)
    ensures Add64(Wrap64(x), y) == Wrap64(x + y)
  {
    AddWraps(x, y);
  }

  // ---------- Images ----------

  /** The `n` low-order bytes of `v`, least significant first. */
  function LittleEndian(v: nat, n: nat): (s: seq<u8>)
    ensures |s| == n
  {
    if n == 0 then [] else [v % 256] + LittleEndian(v / 256, n - 1)
  }

  /** The number whose least significant byte comes first in `s`. */
  function Value(s: seq<u8>): nat {
    if s == [] then 0 else s[0] + 256 * Value(s[1..])
  }

  function Pow256(n: nat): (p: nat)
    ensures p > 0
  {
    if n == 0 then 1 else 256 * Pow256(n - 1)
  }

  function Zeros(n: nat): (s: seq<u8>)
    ensures |s| == n && forall i :: 0 <= i < n ==> s[i] == 0
  {
    seq(n, i => 0)
  }

  lemma {:induction false} ValueBound(s: seq<u8>)
    ensures Value(s) < Pow256(|s|)
  {
    if s == [] {
    } else {
      ValueBound(s[1..]);
    }
  }

  lemma {:induction false} ValueOfLittleEndian(v: nat, n: nat)
    requires v < Pow256(n)
    ensures Value(LittleEndian(v, n)) == v
  {
    if n == 0 {
    } else {
      ValueOfLittleEndian(v / 256, n - 1);
      assert LittleEndian(v, n)[1..] == LittleEndian(v / 256, n - 1);
    }
  }

  lemma {:induction false} LittleEndianOfZero(n: nat)
    ensures LittleEndian(0, n) == Zeros(n)
  {
    if n == 0 {
    } else {
      LittleEndianOfZero(n - 1);
    }
  }

  /** Writing back a number that was read from `s`, in at least as many bytes, gives `s` padded
      with zero bytes. */
  lemma {:induction false} LittleEndianOfValue(s: seq<u8>, n: nat)
    requires |s| <= n
    ensures LittleEndian(Value(s), n) == s + Zeros(n - |s|)
  {
    if s == [] {
      LittleEndianOfZero(n);
    } else {
      LittleEndianOfValue(s[1..], n - 1);
      assert s == [s[0]] + s[1..];
    }
  }

  lemma Widths()
    ensures Pow256(4) == MOD_32 && Pow256(8) == MOD_64
  {
    assert Pow256(4) == 256 * 256 * 256 * 256 * Pow256(0);
    assert Pow256(8) == 256 * 256 * 256 * 256 * Pow256(4);
  }

  lemma RoundTrip32(v: u32)
    ensures Value(LittleEndian(v, 4)) == v
  {
    Widths();
    ValueOfLittleEndian(v, 4);
  }

  lemma RoundTrip64(v: u64)
    ensures Value(LittleEndian(v, 8)) == v
  {
    Widths();
    ValueOfLittleEndian(v, 8);
  }

  lemma ImageOfRead(s: seq<u8>)
    ensures LittleEndian(Value(s), |s|) == s
  {
    LittleEndianOfValue(s, |s|);
    assert s + Zeros(0) == s;
  }

  // ---------- Reading from a byte string ----------

  function GetU32(s: seq<u8>, at: nat): u32
    requires at + 4 <= |s|
  {
    Widths();
    ValueBound(s[at..at + 4]);
    Value(s[at..at + 4])
  }

  lemma GetU32Image(s: seq<u8>, at: nat)
    requires at + 4 <= |s|
    ensures LittleEndian(GetU32(s, at), 4) == s[at..at + 4]
  {
    hide LittleEndian, Value;
    ImageOfRead(s[at..at + 4]);
  }

  function GetU64(s: seq<u8>, at: nat): u64
    requires at + 8 <= |s|
  {
    Widths();
    ValueBound(s[at..at + 8]);
    Value(s[at..at + 8])
  }

  lemma GetU64Image(s: seq<u8>, at: nat)
    requires at + 8 <= |s|
    ensures LittleEndian(GetU64(s, at), 8) == s[at..at + 8]
  {
    hide LittleEndian, Value;
    ImageOfRead(s[at..at + 8]);
  }

  /** The word read is the only one with that image. */
  lemma GetU32Is(s: seq<u8>, at: nat, v: u32)
    requires at + 4 <= |s| && s[at..at + 4] == LittleEndian(v, 4)
    ensures GetU32(s, at) == v
  {
    RoundTrip32(v);
  }

  lemma GetU64Is(s: seq<u8>, at: nat, v: u64)
    requires at + 8 <= |s| && s[at..at + 8] == LittleEndian(v, 8)
    ensures GetU64(s, at) == v
  {
    RoundTrip64(v);
  }

  // ---------- Writing into a buffer ----------

  method PutU32(output: array<u8>, at: nat, value: u32)
    requires at + 4 <= output.Length
    modifies output
    ensures output[..at + 4] == old(output[..at]) + LittleEndian(value, 4)
    ensures forall k :: at + 4 <= k < output.Length ==> output[k] == old(output[k])
  {
    output[at] := value % 256;
    output[at + 1] := value / 0x100 % 256;
    output[at + 2] := value / 0x1_0000 % 256;
    output[at + 3] := value / 0x100_0000 % 256;
    assert LittleEndian(value, 4) == [value % 256] + LittleEndian(value / 256, 3);
    assert LittleEndian(value / 256, 3) == [value / 256 % 256] + LittleEndian(value / 256 / 256, 2);
    assert value / 256 / 256 == value / 0x1_0000 && value / 256 / 256 / 256 == value / 0x100_0000;
  }

  lemma NextByte(v: nat, n: nat)
    requires n > 0
    ensures LittleEndian(v, n) == [v % 256] + LittleEndian(v / 256, n - 1)
  {
  }

  lemma NoBytes(v: nat)
    ensures LittleEndian(v, 0) == []
  {
  }

  method PutU64(output: array<u8>, at: nat, value: u64)
    requires at + 8 <= output.Length
    modifies output
    ensures output[..at + 8] == old(output[..at]) + LittleEndian(value, 8)
    ensures forall k :: at + 8 <= k < output.Length ==> output[k] == old(output[k])
  {
    hide LittleEndian;
    var rest: nat := value;
    for i := 0 to 8
      invariant output[..at] == old(output[..at])
      invariant output[at..at + i] + LittleEndian(rest, 8 - i) == LittleEndian(value, 8)
      invariant forall k :: at + 8 <= k < output.Length ==> output[k] == old(output[k])
    {
      ghost var done := output[at..at + i];
      NextByte(rest, 8 - i);
      output[at + i] := rest % 256;
      assert output[at..at + i + 1] == done + [rest % 256];
      rest := rest / 256;
    }
    NoBytes(rest);
  }
}
