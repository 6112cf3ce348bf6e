/**
 Machine words as natural numbers: shifts, bitwise or and xor, little-endian bytes and C strings.

 Wrap-around is written out with `%`.  `std::size_t` is 64 bits wide.
 */
module Words {
  type byte = b: nat | b < 256
  type u32 = n: nat | n < 0x1_0000_0000
  type u64 = n: nat | n < 0x1_0000_0000_0000_0000
  type i32 = n: int | -0x8000_0000 <= n < 0x8000_0000
  type i64 = n: int | -0x8000_0000_0000_0000 <= n < 0x8000_0000_0000_0000

  const TWO_64: nat := 0x1_0000_0000_0000_0000
  const U32_MAX: nat := 0xFFFF_FFFF
  const SIZE_MAX: nat := 0xFFFF_FFFF_FFFF_FFFF

  function Pow2(k: nat): (p: nat)
    ensures p >= 1
  {
    if k == 0 then 1 else 2 * Pow2(k - 1)
  }

  function ShiftRight(n: nat, k: nat): nat
    decreases k
  {
    if k == 0 then n else ShiftRight(n / 2, k - 1)
  }

  function ShiftLeft(n: nat, k: nat): nat {
    if k == 0 then n else 2 * ShiftLeft(n, k - 1)
  }

  function Xor(a: nat, b: nat): nat {
    if a == 0 && b == 0 then 0
    else 2 * Xor(a / 2, b / 2) + (if a % 2 == b % 2 then 0 else 1)
  }

  function Or(a: nat, b: nat): nat {
    if a == 0 && b == 0 then 0
    else 2 * Or(a / 2, b / 2) + (if a % 2 == 1 || b % 2 == 1 then 1 else 0)
  }

  // -------- Bitwise facts --------

  lemma XorHalves(a: nat, b: nat)
    ensures Xor(a, b) == (if a % 2 == b % 2 then 0 else 1) + 2 * Xor(a / 2, b / 2)
  {
  }

  lemma {:induction false} XorCancels(a: nat, b: nat)
    ensures Xor(Xor(a, b), b) == a
    decreases a + b
  {
    if a != 0 || b != 0 {
      hide Xor;
      XorHalves(a, b);
      XorHalves(Xor(a, b), b);
      XorCancels(a / 2, b / 2);
    }
  }

  lemma {:induction false} XorBound(a: nat, b: nat, k: nat)
    requires a < Pow2(k) && b < Pow2(k)
    ensures Xor(a, b) < Pow2(k)
  {
    if k > 0 && (a != 0 || b != 0) {
      XorBound(a / 2, b / 2, k - 1);
    }
  }

  lemma HalfOfSum(n: nat, l: nat)
    ensures (2 * n + l) / 2 == n + l / 2 && (2 * n + l) % 2 == l % 2
  {
  }

  // The bits from `k` up and the bits below do not mix.
  lemma {:induction false} XorSplit(h: nat, l: nat, g: nat, m: nat, k: nat)
    requires l < Pow2(k) && m < Pow2(k)
    ensures Xor(Pow2(k) * h + l, Pow2(k) * g + m) == Pow2(k) * Xor(h, g) + Xor(l, m)
  {
    hide Xor;
    if k == 0 {
      XorZero(0);
    } else {
      var p := Pow2(k - 1);
      Doubled(p, h);
      Doubled(p, g);
      Doubled(p, Xor(h, g));
      HalfOfSum(p * h, l);
      HalfOfSum(p * g, m);
      XorSplit(h, l / 2, g, m / 2, k - 1);
      XorHalves(Pow2(k) * h + l, Pow2(k) * g + m);
      XorHalves(l, m);
    }
  }

  lemma Doubled(p: nat, h: nat)
    ensures 2 * p * h == 2 * (p * h)
  {
  }

  // The lowest four bits of a xor, bit by bit.
  function XorNibble(a: nat, b: nat): nat {
    (if a % 2 == b % 2 then 0 else 1) + (if a / 2 % 2 == b / 2 % 2 then 0 else 2)
    + (if a / 4 % 2 == b / 4 % 2 then 0 else 4) + (if a / 8 % 2 == b / 8 % 2 then 0 else 8)
  }

  lemma XorQuarters(a: nat, b: nat)
    ensures Xor(a, b) == (if a % 2 == b % 2 then 0 else 1) + (if a / 2 % 2 == b / 2 % 2 then 0 else 2)
                         + 4 * Xor(a / 4, b / 4)
  {
    assert Xor(a, b) == (if a % 2 == b % 2 then 0 else 1) + 2 * Xor(a / 2, b / 2);
    assert a / 2 / 2 == a / 4 && b / 2 / 2 == b / 4;
  }

  lemma XorOfDigits(p: nat, r: nat)
    requires p < 16 && r < 16
    ensures Xor(p, r) == XorNibble(p, r)
  {
    hide Xor;
    XorQuarters(p, r);
    XorQuarters(p / 4, r / 4);
    XorZero(0);
    assert p / 4 / 2 == p / 8 && r / 4 / 2 == r / 8 && p / 4 / 4 == 0 && r / 4 / 4 == 0;
  }

  // Two bytes, each as its two hexadecimal digits.
  lemma XorByDigits(p: nat, q: nat, r: nat, s: nat)
    requires p < 16 && q < 16 && r < 16 && s < 16
    ensures Xor(16 * p + q, 16 * r + s) == 16 * XorNibble(p, r) + XorNibble(q, s)
  {
    hide Xor, XorNibble;
    assert Pow2(4) == 16;
    XorSplit(p, q, r, s, 4);
    XorOfDigits(p, r);
    XorOfDigits(q, s);
  }

  lemma {:induction false} XorZero(a: nat)
    ensures Xor(a, 0) == a
  {
    if a != 0 {
      XorZero(a / 2);
    }
  }

  lemma {:induction false} XorSymmetric(a: nat, b: nat)
    ensures Xor(a, b) == Xor(b, a)
    decreases a + b
  {
    if a != 0 || b != 0 {
      XorSymmetric(a / 2, b / 2);
    }
  }

  lemma {:induction false} OrZero(b: nat)
    ensures Or(0, b) == b
  {
    if b != 0 {
      OrZero(b / 2);
    }
  }

  // Or-ing in bits above all the bits already there is adding them.
  lemma {:induction false} OrAbove(a: nat, b: nat, k: nat)
    requires a < Pow2(k)
    ensures Or(a, ShiftLeft(b, k)) == a + ShiftLeft(b, k)
  {
    if k == 0 {
      OrZero(b);
    } else {
      OrAbove(a / 2, b, k - 1);
    }
  }

  // -------- Little-endian bytes --------

  function LittleEndian(n: nat, width: nat): (bytes: seq<byte>)
    ensures |bytes| == width
  {
    if width == 0 then [] else [n % 256] + LittleEndian(n / 256, width - 1)
  }

  function FromLittleEndian(bytes: seq<byte>): nat {
    if bytes == [] then 0 else bytes[0] + 256 * FromLittleEndian(bytes[1..])
  }

  lemma {:induction false} PowStep(k: nat)
    ensures Pow2(8 * (k + 1)) == 256 * Pow2(8 * k)
  {
    var j := 8 * k;
    assert Pow2(j + 8) == 2 * Pow2(j + 7) && Pow2(j + 7) == 2 * Pow2(j + 6) && Pow2(j + 6) == 2 * Pow2(j + 5);
    assert Pow2(j + 5) == 2 * Pow2(j + 4) && Pow2(j + 4) == 2 * Pow2(j + 3) && Pow2(j + 3) == 2 * Pow2(j + 2);
    assert Pow2(j + 2) == 2 * Pow2(j + 1) && Pow2(j + 1) == 2 * Pow2(j);
  }

  lemma ShiftByte(n: nat, k: nat)
    ensures ShiftRight(n, k + 8) == ShiftRight(n / 256, k)
    ensures ShiftLeft(n, k + 8) == 256 * ShiftLeft(n, k)
  {
    assert ShiftRight(n, k + 8) == ShiftRight(n / 2, k + 7) == ShiftRight(n / 4, k + 6) == ShiftRight(n / 8, k + 5);
    assert ShiftRight(n / 8, k + 5) == ShiftRight(n / 16, k + 4) == ShiftRight(n / 32, k + 3);
    assert ShiftRight(n / 32, k + 3) == ShiftRight(n / 64, k + 2) == ShiftRight(n / 128, k + 1)
        == ShiftRight(n / 256, k);
    assert ShiftLeft(n, k + 8) == 2 * ShiftLeft(n, k + 7) == 4 * ShiftLeft(n, k + 6) == 8 * ShiftLeft(n, k + 5);
    assert ShiftLeft(n, k + 5) == 2 * ShiftLeft(n, k + 4) == 4 * ShiftLeft(n, k + 3) == 8 * ShiftLeft(n, k + 2);
    assert ShiftLeft(n, k + 2) == 2 * ShiftLeft(n, k + 1) == 4 * ShiftLeft(n, k);
  }

  // Byte i is what shifting right by 8 * i and truncating leaves.
  lemma {:induction false} ByteByShift(n: nat, width: nat, i: nat)
    requires i < width
    ensures LittleEndian(n, width)[i] == ShiftRight(n, 8 * i) % 256
  {
    if i > 0 {
      hide ShiftRight;
      ByteByShift(n / 256, width - 1, i - 1);
      ShiftByte(n, 8 * (i - 1));
    }
  }

  lemma {:induction false} FromBound(bytes: seq<byte>)
    ensures FromLittleEndian(bytes) < Pow2(8 * |bytes|)
  {
    if bytes != [] {
      FromBound(bytes[1..]);
      PowStep(|bytes| - 1);
    }
  }

  // Appending a byte adds it in above the others.
  lemma {:induction false} FromAppend(bytes: seq<byte>, b: byte)
    ensures FromLittleEndian(bytes + [b]) == FromLittleEndian(bytes) + ShiftLeft(b, 8 * |bytes|)
  {
    if bytes == [] {
      assert bytes + [b] == [b];
    } else {
      assert (bytes + [b])[1..] == bytes[1..] + [b];
      FromAppend(bytes[1..], b);
      ShiftByte(b, 8 * (|bytes| - 1));
    }
  }

  lemma {:induction false} ReadWritten(n: nat, width: nat)
    requires n < Pow2(8 * width)
    ensures FromLittleEndian(LittleEndian(n, width)) == n
  {
    if width > 0 {
      PowStep(width - 1);
      ReadWritten(n / 256, width - 1);
      assert LittleEndian(n, width)[1..] == LittleEndian(n / 256, width - 1);
    }
  }

  lemma {:induction false} WriteRead(bytes: seq<byte>)
    ensures LittleEndian(FromLittleEndian(bytes), |bytes|) == bytes
  {
    if bytes != [] {
      WriteRead(bytes[1..]);
      var rest := FromLittleEndian(bytes[1..]);
      assert (bytes[0] + 256 * rest) / 256 == rest && (bytes[0] + 256 * rest) % 256 == bytes[0];
    }
  }

  lemma WidthBounds()
    ensures Pow2(8 * 1) == 256 && Pow2(8 * 4) == U32_MAX + 1 && Pow2(8 * 8) == TWO_64
  {
    forall k: nat ensures Pow2(8 * (k + 1)) == 256 * Pow2(8 * k) {
      PowStep(k);
    }
    assert Pow2(8 * 0) == 1;
    assert Pow2(8 * 1) == 256;
    assert Pow2(8 * 2) == 0x1_0000;
    assert Pow2(8 * 3) == 0x100_0000;
    assert Pow2(8 * 4) == 0x1_0000_0000;
    assert Pow2(8 * 5) == 0x100_0000_0000;
    assert Pow2(8 * 6) == 0x1_0000_0000_0000;
    assert Pow2(8 * 7) == 0x100_0000_0000_0000;
  }

  // -------- Signed numbers --------

  // The bits of a two's complement number, and back.
  function ToBits(n: i64): u64 {
    if n >= 0 then n else n + TWO_64
  }

  function FromBits(bits: u64): i64 {
    if bits < TWO_64 / 2 then bits else bits - TWO_64
  }

  lemma BitsInverse(n: i64, bits: u64)
    ensures FromBits(ToBits(n)) == n && ToBits(FromBits(bits)) == bits
  {
  }

  // -------- C strings --------

  // The bytes before the terminator.
  function CString(text: seq<byte>): (name: seq<byte>)
    ensures 0 !in name && |name| <= |text|
  {
    if text == [] || text[0] == 0 then [] else [text[0]] + CString(text[1..])
  }

  // A name, its terminator and whatever memory follows: the name comes back.
  lemma {:induction false} CStringMeaning(name: seq<byte>, rest: seq<byte>)
    requires 0 !in name
    ensures CString(name + [0] + rest) == name
  {
    if name != [] {
      assert (name + [0] + rest)[1..] == name[1..] + [0] + rest;
      CStringMeaning(name[1..], rest);
    }
  }
}
