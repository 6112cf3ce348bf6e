/**
 Symbol ids: the 64-bit FNV-1a hash (section 2 of draft-eastlake-fnv) of an exported name.
 */
module Symbols {
  import opened Words

  const OFFSET_BASIS: u64 := 14695981039346656037
  const PRIME: u64 := 1099511628211
  // PRIME * PRIME_INVERSE is 1 modulo 2^64.
  const PRIME_INVERSE: u64 := 14886173955864302971

  type Name = seq<byte>

  function Absorb(hash: u64, b: byte): u64 {
    Xor(hash, b) * PRIME % TWO_64
  }

  function HashFrom(hash: u64, name: seq<byte>): u64
    decreases |name|
  {
    if name == [] then hash else HashFrom(Absorb(hash, name[0]), name[1..])
  }

  function SymbolId(name: seq<byte>): u64 {
    HashFrom(OFFSET_BASIS, name)
  }

  // The loop over a terminated C string.
  method ComputeSymbolId(text: seq<byte>) returns (hash: u64)
    requires 0 in text
    ensures hash == SymbolId(CString(text))
  {
    hash := OFFSET_BASIS;
    var current := 0;
    while text[current] != 0
      invariant 0 <= current < |text| && 0 in text[current..]
      invariant HashFrom(hash, CString(text[current..])) == SymbolId(CString(text))
      decreases |text| - current
    {
      assert text[current..][1..] == text[current + 1..];
      assert CString(text[current..])[1..] == CString(text[current + 1..]);
      hash := Absorb(hash, text[current]);
      current := current + 1;
    }
  }

  // -------- One byte permutes the 64-bit states --------

  function Unabsorb(hash: u64, b: byte): nat {
    Xor(hash * PRIME_INVERSE % TWO_64, b)
  }

  lemma WordXor(a: u64, b: u64)
    ensures Xor(a, b) < TWO_64
  {
    WidthBounds();
    XorBound(a, b, 64);
  }

  lemma TimesPrimeInvertible(x: u64)
    ensures x * PRIME % TWO_64 * PRIME_INVERSE % TWO_64 == x
    ensures x * PRIME_INVERSE % TWO_64 * PRIME % TWO_64 == x
  {
    var m := (PRIME * PRIME_INVERSE - 1) / TWO_64;
    assert PRIME * PRIME_INVERSE == m * TWO_64 + 1;
    var (q1, r1) := (x * PRIME / TWO_64, x * PRIME % TWO_64);
    assert r1 * PRIME_INVERSE == x + (x * m - q1 * PRIME_INVERSE) * TWO_64;
    RemainderUnique(r1 * PRIME_INVERSE, x, x * m - q1 * PRIME_INVERSE);
    var (q2, r2) := (x * PRIME_INVERSE / TWO_64, x * PRIME_INVERSE % TWO_64);
    assert r2 * PRIME == x + (x * m - q2 * PRIME) * TWO_64;
    RemainderUnique(r2 * PRIME, x, x * m - q2 * PRIME);
  }

  lemma RemainderUnique(n: int, r: u64, q: int)
    requires n == r + q * TWO_64
    ensures n % TWO_64 == r
  {
  }

  lemma AbsorbIsPermutation(hash: u64, b: byte)
    ensures Unabsorb(Absorb(hash, b), b) == hash
    ensures Unabsorb(hash, b) < TWO_64 && Absorb(Unabsorb(hash, b), b) == hash
  {
    WordXor(hash, b);
    TimesPrimeInvertible(Xor(hash, b));
    XorCancels(hash, b);
    var x := hash * PRIME_INVERSE % TWO_64;
    WordXor(x, b);
    XorCancels(x, b);
    TimesPrimeInvertible(hash);
  }

  // From one state, different bytes lead to different states.
  lemma AbsorbSeparates(hash: u64, b: byte, c: byte)
    ensures Absorb(hash, b) == Absorb(hash, c) <==> b == c
  {
    WordXor(hash, b);
    WordXor(hash, c);
    TimesPrimeInvertible(Xor(hash, b));
    TimesPrimeInvertible(Xor(hash, c));
    XorSymmetric(hash, b);
    XorSymmetric(hash, c);
    XorCancels(b, hash);
    XorCancels(c, hash);
  }

  // -------- Main results --------

  lemma {:induction false} HashFromConcat(hash: u64, a: seq<byte>, b: seq<byte>)
    ensures HashFrom(hash, a + b) == HashFrom(HashFrom(hash, a), b)
    decreases |a|
  {
    if a == [] {
      assert a + b == b;
    } else {
      assert (a + b)[1..] == a[1..] + b;
      HashFromConcat(Absorb(hash, a[0]), a[1..], b);
    }
  }

  lemma {:induction false} HashFromInjective(g: u64, h: u64, name: seq<byte>)
    ensures HashFrom(g, name) == HashFrom(h, name) <==> g == h
    decreases |name|
  {
    if name != [] {
      HashFromInjective(Absorb(g, name[0]), Absorb(h, name[0]), name[1..]);
      AbsorbIsPermutation(g, name[0]);
      AbsorbIsPermutation(h, name[0]);
    }
  }

  // A common ending neither makes nor breaks a collision.
  lemma CommonSuffix(a: seq<byte>, b: seq<byte>, s: seq<byte>)
    ensures SymbolId(a + s) == SymbolId(b + s) <==> SymbolId(a) == SymbolId(b)
  {
    HashFromConcat(OFFSET_BASIS, a, s);
    HashFromConcat(OFFSET_BASIS, b, s);
    HashFromInjective(SymbolId(a), SymbolId(b), s);
  }

  // Names of equal length that differ in exactly one byte never collide.
  lemma OneByteApart(a: seq<byte>, b: seq<byte>, i: nat)
    requires |a| == |b| && i < |a| && a[i] != b[i]
    requires forall j | 0 <= j < |a| && j != i :: a[j] == b[j]
    ensures SymbolId(a) != SymbolId(b)
  {
    var (before, after) := (a[..i], a[i + 1..]);
    assert a == before + [a[i]] + after && b == before + [b[i]] + after;
    CommonSuffix(before + [a[i]], before + [b[i]], after);
    HashFromConcat(OFFSET_BASIS, before, [a[i]]);
    HashFromConcat(OFFSET_BASIS, before, [b[i]]);
    AbsorbSeparates(SymbolId(before), a[i], b[i]);
    var hash := SymbolId(before);
    assert forall c: byte :: HashFrom(hash, [c]) == HashFrom(Absorb(hash, c), [c][1..]);
  }

  // -------- A collision --------

  // 7mohtcOFVz in ASCII.
  const TWIN: Name := [55, 109, 111, 104, 116, 99, 79, 70, 86, 122]

  // c1E51sSEyx in ASCII.
  const OTHER_TWIN: Name := [99, 49, 69, 53, 49, 115, 83, 69, 121, 120]

  // Absorbing a byte, in numbers: only the low byte of the state meets it.
  lemma AbsorbInNumbers(hash: u64, b: byte)
    ensures Absorb(hash, b) == (hash - hash % 256 + Xor(hash % 256, b)) * PRIME % TWO_64
  {
    assert Pow2(8) == 256;
    XorSplit(hash / 256, hash % 256, 0, b, 8);
    XorZero(hash / 256);
  }

  // One byte of a name.  Its hexadecimal digits are `r` and `s`, those of the state's low byte `p` and `q`,
  // and those of their xor `x` and `y`.
  lemma HashStep(name: Name, i: nat, hash: u64, p: nat, q: nat, r: nat, s: nat, x: nat, y: nat, next: u64)
    requires p < 16 && q < 16 && r < 16 && s < 16 && XorNibble(p, r) == x && XorNibble(q, s) == y
    requires i < |name| && name[i] == 16 * r + s && hash % 256 == 16 * p + q
    requires (hash - (16 * p + q) + (16 * x + y)) * PRIME % TWO_64 == next
    ensures HashFrom(hash, name[i..]) == HashFrom(next, name[i + 1..])
  {
    hide Absorb, Xor, XorNibble;
    XorByDigits(p, q, r, s);
    AbsorbInNumbers(hash, 16 * r + s);
    assert name[i..][1..] == name[i + 1..];
  }

  lemma TwinFirstXors()
    ensures XorNibble(2, 3) == 1 && XorNibble(5, 7) == 2 && XorNibble(9, 6) == 15 && XorNibble(6, 13) == 11
    ensures XorNibble(8, 6) == 14 && XorNibble(1, 15) == 14 && XorNibble(6, 6) == 0 && XorNibble(10, 8) == 2
    ensures XorNibble(6, 7) == 1 && XorNibble(6, 4) == 2
  {
  }

  lemma TwinLastXors()
    ensures XorNibble(9, 6) == 15 && XorNibble(6, 3) == 5 && XorNibble(4, 4) == 0 && XorNibble(15, 15) == 0
    ensures XorNibble(0, 4) == 4 && XorNibble(0, 6) == 6 && XorNibble(15, 5) == 10 && XorNibble(2, 6) == 4
    ensures XorNibble(10, 7) == 13 && XorNibble(12, 10) == 6
  {
  }

  lemma TwinHash(name: Name)
    requires |name| == 10
    requires name[0] == 55 && name[1] == 109 && name[2] == 111 && name[3] == 104 && name[4] == 116
    requires name[5] == 99 && name[6] == 79 && name[7] == 70 && name[8] == 86 && name[9] == 122
    ensures HashFrom(OFFSET_BASIS, name[0..]) == HashFrom(1750456160711431074, name[10..])
  {
    hide HashFrom, XorNibble;
    TwinFirstXors();
    TwinLastXors();
    HashStep(name, 0, 14695981039346656037, 2, 5, 3, 7, 1, 2, 12638132224974231446);
    HashStep(name, 1, 12638132224974231446, 9, 6, 6, 13, 15, 11, 572620191284150145);
    HashStep(name, 2, 572620191284150145, 8, 1, 6, 15, 14, 14, 3895785304836776298);
    HashStep(name, 3, 3895785304836776298, 6, 10, 6, 8, 0, 2, 15697928596512478822);
    HashStep(name, 4, 15697928596512478822, 6, 6, 7, 4, 1, 2, 13866281977647530134);
    HashStep(name, 5, 13866281977647530134, 9, 6, 6, 3, 15, 5, 1260827028797562959);
    HashStep(name, 6, 1260827028797562959, 4, 15, 4, 15, 0, 0, 7784607862602326016);
    HashStep(name, 7, 7784607862602326016, 0, 0, 4, 6, 4, 6, 12847167518936798962);
    HashStep(name, 8, 12847167518936798962, 15, 2, 5, 6, 10, 4, 2187208122500937900);
    HashStep(name, 9, 2187208122500937900, 10, 12, 7, 10, 13, 6, 1750456160711431074);
  }

  lemma OtherTwinFirstXors()
    ensures XorNibble(2, 6) == 4 && XorNibble(5, 3) == 6 && XorNibble(15, 3) == 12 && XorNibble(2, 1) == 3
    ensures XorNibble(5, 4) == 1 && XorNibble(9, 5) == 12 && XorNibble(9, 3) == 10 && XorNibble(4, 5) == 1
    ensures XorNibble(3, 1) == 2
  {
  }

  lemma OtherTwinLastXors()
    ensures XorNibble(15, 3) == 12 && XorNibble(5, 4) == 1 && XorNibble(4, 5) == 1 && XorNibble(4, 7) == 3
    ensures XorNibble(6, 3) == 5 && XorNibble(0, 5) == 5 && XorNibble(14, 7) == 9 && XorNibble(3, 9) == 10
    ensures XorNibble(10, 7) == 13 && XorNibble(14, 8) == 6
  {
  }

  lemma OtherTwinHash(name: Name)
    requires |name| == 10
    requires name[0] == 99 && name[1] == 49 && name[2] == 69 && name[3] == 53 && name[4] == 49
    requires name[5] == 115 && name[6] == 83 && name[7] == 69 && name[8] == 121 && name[9] == 120
    ensures HashFrom(OFFSET_BASIS, name[0..]) == HashFrom(1750456160711431074, name[10..])
  {
    hide HashFrom, XorNibble;
    OtherTwinFirstXors();
    OtherTwinLastXors();
    HashStep(name, 0, 14695981039346656037, 2, 5, 6, 3, 4, 6, 12638189399578898418);
    HashStep(name, 1, 12638189399578898418, 15, 2, 3, 1, 12, 3, 622199369613600857);
    HashStep(name, 2, 622199369613600857, 5, 9, 4, 5, 1, 12, 17763874892692776852);
    HashStep(name, 3, 17763874892692776852, 9, 4, 3, 5, 10, 1, 6091344522220115603);
    HashStep(name, 4, 6091344522220115603, 9, 3, 3, 1, 10, 2, 1732743233326871878);
    HashStep(name, 5, 1732743233326871878, 4, 6, 7, 3, 3, 5, 4989808898452531471);
    HashStep(name, 6, 4989808898452531471, 0, 15, 5, 3, 5, 12, 239808830595647316);
    HashStep(name, 7, 239808830595647316, 5, 4, 4, 5, 1, 1, 5726027283246301667);
    HashStep(name, 8, 5726027283246301667, 14, 3, 7, 9, 9, 10, 2187208122500937902);
    HashStep(name, 9, 2187208122500937902, 10, 14, 7, 8, 13, 6, 1750456160711431074);
  }

  // Different names of ten characters do collide.
  lemma CollisionsExist()
    ensures TWIN != OTHER_TWIN && |TWIN| == |OTHER_TWIN| == 10 && 0 !in TWIN && 0 !in OTHER_TWIN
    ensures SymbolId(TWIN) == SymbolId(OTHER_TWIN)
  {
    hide HashFrom;
    assert TWIN[0..] == TWIN && OTHER_TWIN[0..] == OTHER_TWIN && TWIN[10..] == OTHER_TWIN[10..];
    TwinHash(TWIN);
    OtherTwinHash(OTHER_TWIN);
    assert TWIN[0] != OTHER_TWIN[0];
  }
}
