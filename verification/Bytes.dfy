/** Bytes, fixed-width words, big-endian layout and exclusive or, as the wire codecs use them.
    Words are bounded integers; every truncation of the source is written as a remainder. */
module Bytes {

  type byte = x: int | 0 <= x < 0x100
  type uint16 = x: int | 0 <= x < 0x1_0000
  type uint32 = x: int | 0 <= x < 0x1_0000_0000
  type uint64 = x: int | 0 <= x < 0x1_0000_0000_0000_0000

  datatype Option<+T> = None | Some(value: T)

  ghost predicate Distinct<T>(s: seq<T>) {
    forall i, j :: 0 <= i < j < |s| ==> s[i] != s[j]
  }

  // ---- exclusive or ----

  function Xor(a: nat, b: nat): nat {
    if a == 0 && b == 0 then 0
    else (if a % 2 == b % 2 then 0 else 1) + 2 * Xor(a / 2, b / 2)
  }

  ghost function Pow2(k: nat): (p: nat)
    ensures p > 0
  {
    if k == 0 then 1 else 2 * Pow2(k - 1)
  }

  lemma {:induction false} Pow2Sum(a: nat, b: nat)
    ensures Pow2(a + b) == Pow2(a) * Pow2(b)
  {
    if a > 0 {
      Pow2Sum(a - 1, b);
      assert Pow2(a + b) == 2 * Pow2(a - 1 + b);
    }
  }

  lemma Pow2Values()
    ensures Pow2(8) == 0x100 && Pow2(16) == 0x1_0000
    ensures Pow2(32) == 0x1_0000_0000 && Pow2(64) == 0x1_0000_0000_0000_0000
  {
    assert Pow2(8) == 0x100;
    Pow2Sum(8, 8);
    Pow2Sum(16, 16);
    Pow2Sum(32, 32);
  }

  lemma {:induction false} XorBound(a: nat, b: nat, k: nat)
    requires a < Pow2(k) && b < Pow2(k)
    ensures Xor(a, b) < Pow2(k)
  {
    if k > 0 {
      XorBound(a / 2, b / 2, k - 1);
    }
  }

  /** Masking twice with the same word restores the original. */
  lemma {:induction false} XorInvolution(a: nat, b: nat)
    ensures Xor(Xor(a, b), b) == a
  {
    if a != 0 || b != 0 {
      XorInvolution(a / 2, b / 2);
      var x := Xor(a, b);
      assert x / 2 == Xor(a / 2, b / 2) && x % 2 == (if a % 2 == b % 2 then 0 else 1);
    }
  }

  // ---- bits ----

  ghost function Bit(a: nat, k: nat): nat {
    a / Pow2(k) % 2
  }

  lemma Quotient(a: nat, d: nat, q: nat)
    requires q * d <= a < (q + 1) * d
    ensures a / d == q
  {
    var t := a / d;
    assert t * d <= a < (t + 1) * d;
    if t > q {
      TimesMonotone(q + 1, t, d);
    } else if t < q {
      TimesMonotone(t + 1, q, d);
    }
  }

  lemma TimesMonotone(x: nat, y: nat, d: nat)
    requires x <= y
    ensures x * d <= y * d
  {
  }

  lemma HalfThenDivide(a: nat, d: nat)
    requires d > 0
    ensures a / (2 * d) == a / 2 / d
  {
    var q := a / 2 / d;
    assert q * d <= a / 2 < (q + 1) * d;
    assert q * (2 * d) == 2 * (q * d) && (q + 1) * (2 * d) == 2 * ((q + 1) * d);
    Quotient(a, 2 * d, q);
  }

  lemma BitStep(a: nat, k: nat)
    ensures Bit(a, 0) == a % 2
    ensures k > 0 ==> Bit(a, k) == Bit(a / 2, k - 1)
  {
    if k > 0 {
      HalfThenDivide(a, Pow2(k - 1));
    }
  }

  /** Bit by bit, the exclusive or is 1 exactly where its operands differ. */
  lemma {:induction false} XorBits(a: nat, b: nat, k: nat)
    ensures Bit(Xor(a, b), k) == if Bit(a, k) == Bit(b, k) then 0 else 1
  {
    hide Bit;
    BitStep(a, k);
    BitStep(b, k);
    BitStep(Xor(a, b), k);
    if k > 0 {
      XorBits(a / 2, b / 2, k - 1);
      assert Xor(a, b) / 2 == Xor(a / 2, b / 2);
    }
  }

  lemma {:induction false} LowBits(a: nat, n: nat, k: nat)
    requires k < n
    ensures Bit(a % Pow2(n), k) == Bit(a, k)
  {
    hide Bit;
    var low := a % Pow2(n);
    HalfOfRemainder(a, Pow2(n - 1));
    BitStep(a, k);
    BitStep(low, k);
    if k > 0 {
      LowBits(a / 2, n - 1, k - 1);
    }
  }

  lemma HalfOfRemainder(a: nat, d: nat)
    requires d > 0
    ensures a % (2 * d) % 2 == a % 2 && a % (2 * d) / 2 == a / 2 % d
  {
    var q := a / (2 * d);
    HalfThenDivide(a, d);
    assert a == q * (2 * d) + a % (2 * d) && a / 2 == q * d + a / 2 % d;
    assert q * (2 * d) == 2 * (q * d);
  }

  ghost function Shifted(a: nat, n: nat): nat {
    if n == 0 then a else Shifted(a / 2, n - 1)
  }

  lemma {:induction false} ShiftedDivides(a: nat, n: nat)
    ensures Shifted(a, n) == a / Pow2(n)
  {
    if n > 0 {
      ShiftedDivides(a / 2, n - 1);
      HalfThenDivide(a, Pow2(n - 1));
    }
  }

  lemma {:induction false} HighBits(a: nat, n: nat, k: nat)
    ensures Bit(a, n + k) == Bit(Shifted(a, n), k)
  {
    hide Bit;
    if n > 0 {
      BitStep(a, n + k);
      HighBits(a / 2, n - 1, k);
    }
  }

  lemma {:induction false} ComplementBits(a: nat, n: nat, k: nat)
    requires a < Pow2(n) && k < n
    ensures Bit(Pow2(n) - 1 - a, k) == 1 - Bit(a, k)
  {
    hide Bit;
    var c := Pow2(n) - 1 - a;
    BitStep(a, k);
    BitStep(c, k);
    assert c / 2 == Pow2(n - 1) - 1 - a / 2 && c % 2 == 1 - a % 2;
    if k > 0 {
      ComplementBits(a / 2, n - 1, k - 1);
    }
  }

  /** `x` is the exclusive or of the low `n` bits of `a` and `b`. */
  ghost predicate MaskedBits(x: nat, a: nat, b: nat, n: nat) {
    forall k :: 0 <= k < n ==> Bit(x, k) == if Bit(a, k) == Bit(b, k) then 0 else 1
  }

  lemma XorMasks(a: nat, b: nat, n: nat)
    ensures MaskedBits(Xor(a, b), a, b, n)
  {
    hide Bit, Xor;
    forall k | 0 <= k < n ensures Bit(Xor(a, b), k) == if Bit(a, k) == Bit(b, k) then 0 else 1 {
      XorBits(a, b, k);
    }
  }

  /** Numbers of `n` bits with the same bits are the same. */
  lemma {:induction false} BitsDetermine(x: nat, y: nat, n: nat)
    requires x < Pow2(n) && y < Pow2(n) && forall k :: 0 <= k < n ==> Bit(x, k) == Bit(y, k)
    ensures x == y
  {
    hide Bit;
    if n > 0 {
      BitStep(x, 0);
      BitStep(y, 0);
      forall k | 0 <= k < n - 1 ensures Bit(x / 2, k) == Bit(y / 2, k) {
        BitStep(x, k + 1);
        BitStep(y, k + 1);
        assert Bit(x, k + 1) == Bit(y, k + 1);
      }
      BitsDetermine(x / 2, y / 2, n - 1);
    }
  }

  /** Of `n` bits, only the exclusive or is masked that way. */
  lemma MaskedIsXor(x: nat, a: nat, b: nat, n: nat)
    requires x < Pow2(n) && a < Pow2(n) && b < Pow2(n)
    ensures MaskedBits(x, a, b, n) <==> x == Xor(a, b)
  {
    hide Bit, Xor, Pow2;
    XorMasks(a, b, n);
    XorBound(a, b, n);
    if MaskedBits(x, a, b, n) {
      assert forall k :: 0 <= k < n ==> Bit(x, k) == Bit(Xor(a, b), k);
      BitsDetermine(x, Xor(a, b), n);
    }
  }

  /** Masking with the low bits of a word is masking with the word. */
  lemma XorMasksLow(a: nat, b: nat, n: nat)
    ensures MaskedBits(Xor(a, b % Pow2(n)), a, b, n)
  {
    hide Bit, Xor, Pow2;
    forall k | 0 <= k < n ensures Bit(Xor(a, b % Pow2(n)), k) == if Bit(a, k) == Bit(b, k) then 0 else 1 {
      XorBits(a, b % Pow2(n), k);
      LowBits(b, n, k);
    }
  }

  function Xor8(a: byte, b: byte): (r: byte) {
    Pow2Values();
    XorBound(a, b, 8);
    Xor(a, b)
  }

  lemma Xor8Twice(a: byte, b: byte)
    ensures Xor8(Xor8(a, b), b) == a
  {
    XorInvolution(a, b);
  }

  function Xor16(a: uint16, b: uint16): (r: uint16) {
    Pow2Values();
    XorBound(a, b, 16);
    Xor(a, b)
  }

  lemma Xor16Twice(a: uint16, b: uint16)
    ensures Xor16(Xor16(a, b), b) == a
  {
    XorInvolution(a, b);
  }

  function Xor32(a: uint32, b: uint32): (r: uint32) {
    Pow2Values();
    XorBound(a, b, 32);
    Xor(a, b)
  }

  function Xor64(a: uint64, b: uint64): (r: uint64) {
    Pow2Values();
    XorBound(a, b, 64);
    Xor(a, b)
  }

  lemma Xor64Twice(a: uint64, b: uint64)
    ensures Xor64(Xor64(a, b), b) == a
  {
    XorInvolution(a, b);
  }

  // ---- two's complement ----

  function ToInt64(v: uint64): int {
    if v < 0x8000_0000_0000_0000 then v else v - 0x1_0000_0000_0000_0000
  }

  function ToUint64(i: int): uint64 {
    i % 0x1_0000_0000_0000_0000
  }

  /** The int64 that an out-of-range result wraps to. */
  function Wrap64(i: int): int {
    ToInt64(ToUint64(i))
  }

  // ---- big endian ----

  function PutU16(v: uint16): (s: seq<byte>)
    ensures |s| == 2
  {
    [v / 0x100, v % 0x100]
  }

  function GetU16(s: seq<byte>): uint16
    requires |s| == 2
  {
    (s[0] as int) * 0x100 + s[1]
  }

  function PutU32(v: uint32): (s: seq<byte>)
    ensures |s| == 4
  {
    [v / 0x100_0000, v / 0x1_0000 % 0x100, v / 0x100 % 0x100, v % 0x100]
  }

  function GetU32(s: seq<byte>): uint32
    requires |s| == 4
  {
    (s[0] as int) * 0x100_0000 + (s[1] as int) * 0x1_0000 + (s[2] as int) * 0x100 + s[3]
  }

  function PutU64(v: uint64): (s: seq<byte>)
    ensures |s| == 8
  {
    PutU32(v / 0x1_0000_0000) + PutU32(v % 0x1_0000_0000)
  }

  function GetU64(s: seq<byte>): uint64
    requires |s| == 8
  {
    GetU32(s[..4]) * 0x1_0000_0000 + GetU32(s[4..])
  }

  /** Reading back a written word, and writing back a read word, are both the identity. */
  lemma U16RoundTrip(v: uint16, s: seq<byte>)
    requires |s| == 2
    ensures GetU16(PutU16(v)) == v
    ensures PutU16(GetU16(s)) == s
  {
    var w := GetU16(s);
    assert w / 0x100 == s[0] && w % 0x100 == s[1];
  }

  lemma U32Read(v: uint32)
    ensures GetU32(PutU32(v)) == v
  {
    var v1 := v / 0x100;
    var v2 := v1 / 0x100;
    assert v / 0x1_0000 == v2 && v / 0x100_0000 == v2 / 0x100;
  }

  lemma U32Write(s: seq<byte>)
    requires |s| == 4
    ensures PutU32(GetU32(s)) == s
  {
    var w := GetU32(s);
    var w3, w2 := w / 0x100, w / 0x1_0000;
    assert w3 == (s[0] as int) * 0x1_0000 + (s[1] as int) * 0x100 + s[2] && w % 0x100 == s[3];
    assert w2 == (s[0] as int) * 0x100 + s[1] && w3 % 0x100 == s[2];
    assert w / 0x100_0000 == s[0] && w2 % 0x100 == s[1];
  }

  lemma U32RoundTrip(v: uint32, s: seq<byte>)
    requires |s| == 4
    ensures GetU32(PutU32(v)) == v
    ensures PutU32(GetU32(s)) == s
  {
    hide GetU32, PutU32;
    U32Read(v);
    U32Write(s);
  }

  lemma U64RoundTrip(v: uint64, s: seq<byte>)
    requires |s| == 8
    ensures GetU64(PutU64(v)) == v
    ensures PutU64(GetU64(s)) == s
  {
    var hi, lo := v / 0x1_0000_0000, v % 0x1_0000_0000;
    U32RoundTrip(hi, s[..4]);
    U32RoundTrip(lo, s[4..]);
    assert PutU64(v)[..4] == PutU32(hi) && PutU64(v)[4..] == PutU32(lo);
    var w := GetU64(s);
    assert w / 0x1_0000_0000 == GetU32(s[..4]) && w % 0x1_0000_0000 == GetU32(s[4..]);
    assert s == s[..4] + s[4..];
  }

  /** The number a string of bytes stands for, most significant byte first. */
  ghost function BigEndian(s: seq<byte>): nat {
    if s == [] then 0 else BigEndian(s[..|s| - 1]) * 0x100 + s[|s| - 1]
  }

  lemma BigEndianTwo(a: byte, b: byte)
    ensures BigEndian([a, b]) == (a as int) * 0x100 + b
  {
    var none: seq<byte> := [a][..0];
    assert [a, b][..1] == [a] && none == [] && BigEndian([a]) == BigEndian(none) * 0x100 + a;
  }

  lemma BigEndianFour(a: byte, b: byte, c: byte, d: byte)
    ensures BigEndian([a, b, c, d]) == (a as int) * 0x100_0000 + (b as int) * 0x1_0000 + (c as int) * 0x100 + d
  {
    assert [a, b, c, d][..3] == [a, b, c] && [a, b, c][..2] == [a, b];
    BigEndianTwo(a, b);
  }

  lemma ShiftedSum(s: nat, p: nat, t: nat, b: nat)
    ensures (s * p + t) * 0x100 + b == s * (0x100 * p) + (t * 0x100 + b)
  {
    assert (s * p) * 0x100 == s * (0x100 * p);
  }

  lemma {:induction false} BigEndianConcat(s: seq<byte>, t: seq<byte>)
    ensures BigEndian(s + t) == BigEndian(s) * Pow2(8 * |t|) + BigEndian(t)
  {
    if t == [] {
      assert s + t == s;
    } else {
      hide Pow2;
      var init, last := t[..|t| - 1], t[|t| - 1];
      BigEndianConcat(s, init);
      assert (s + t)[..|s + t| - 1] == s + init;
      Pow2Sum(8, 8 * |init|);
      Pow2Values();
      ShiftedSum(BigEndian(s), Pow2(8 * |init|), BigEndian(init), last);
    }
  }

  /** What is written for a word stands for it. */
  lemma WrittenBigEndian16(v: uint16)
    ensures BigEndian(PutU16(v)) == v
  {
    BigEndianTwo(v / 0x100, v % 0x100);
  }

  lemma WrittenBigEndian32(v: uint32)
    ensures BigEndian(PutU32(v)) == v
  {
    U32Read(v);
    var s := PutU32(v);
    BigEndianFour(s[0], s[1], s[2], s[3]);
  }

  lemma WrittenBigEndian64(v: uint64)
    ensures BigEndian(PutU64(v)) == v
  {
    hide PutU32, BigEndian;
    var hi, lo := v / 0x1_0000_0000, v % 0x1_0000_0000;
    WrittenBigEndian32(hi);
    WrittenBigEndian32(lo);
    BigEndianConcat(PutU32(hi), PutU32(lo));
    Pow2Values();
  }

  /** What is read from bytes is the number they stand for. */
  lemma ReadBigEndian16(s: seq<byte>)
    requires |s| == 2
    ensures GetU16(s) == BigEndian(s)
  {
    hide GetU16, PutU16, BigEndian;
    U16RoundTrip(0, s);
    WrittenBigEndian16(GetU16(s));
  }

  lemma ReadBigEndian32(s: seq<byte>)
    requires |s| == 4
    ensures GetU32(s) == BigEndian(s)
  {
    hide GetU32, PutU32, BigEndian;
    U32RoundTrip(0, s);
    WrittenBigEndian32(GetU32(s));
  }

  lemma ReadBigEndian64(s: seq<byte>)
    requires |s| == 8
    ensures GetU64(s) == BigEndian(s)
  {
    hide GetU64, PutU64, BigEndian;
    U64RoundTrip(0, s);
    WrittenBigEndian64(GetU64(s));
  }

  /** Writes `bytes` into `a` from index `at` on and leaves the rest alone. */
  method Store(a: array<byte>, at: nat, bytes: seq<byte>)
    requires at + |bytes| <= a.Length
    modifies a
    ensures a[..] == old(a[..at]) + bytes + old(a[at + |bytes|..])
  {
    for i := 0 to |bytes|
      invariant a[..at] == old(a[..at])
      invariant a[at..at + i] == bytes[..i]
      invariant a[at + i..] == old(a[at + i..])
    {
      a[at + i] := bytes[i];
      assert a[at..at + i + 1] == bytes[..i] + [bytes[i]];
    }
  }
}
