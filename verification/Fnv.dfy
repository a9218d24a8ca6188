/** FNV-1a 64 as fixtures/bwc/BwcDump.java (`Fnv`) and fixtures/src/GenAnalysisIcu.java
    (`fnv`) compute it, in arithmetic modulo 2^64.

    A digest is only evidence if small differences cannot hide in it: streams of equal
    length that differ inside any window of four bytes always get different digests. */
module Fnv {
  import opened Common
  import opened VarInt

  const MODULUS: int := 0x1_0000_0000_0000_0000
  const OFFSET: int := 0xcbf2_9ce4_8422_2325
  const PRIME: int := 0x100_0000_01b3

  type Word = h: int | 0 <= h < MODULUS

  /** Bitwise exclusive or. */
  function Xor(x: nat, y: nat): (z: nat)
    decreases x + y
  {
    if x == 0 && y == 0 then 0 else (x + y) % 2 + 2 * Xor(x / 2, y / 2)
  }

  lemma XorBits(x: nat, y: nat)
    ensures Xor(x, y) / 2 == Xor(x / 2, y / 2) && Xor(x, y) % 2 == (x + y) % 2
  {
    if x == 0 && y == 0 {
    } else {
      var half, bit := Xor(x / 2, y / 2), (x + y) % 2;
      assert Xor(x, y) == 2 * half + bit;
    }
  }

  lemma {:induction false} XorUndoes(x: nat, y: nat)
    ensures Xor(Xor(x, y), y) == x
    decreases x + y
  {
    hide Xor;
    XorZero(0);
    if x != 0 || y != 0 {
      var z := Xor(x, y);
      XorBits(x, y);
      XorBits(z, y);
      XorUndoes(x / 2, y / 2);
      assert ((x + y) % 2 + y) % 2 == x % 2;
    }
  }

  lemma {:induction false} XorZero(x: nat)
    ensures Xor(x, 0) == x
    decreases x
  {
    if x != 0 {
      XorZero(x / 2);
    }
  }

  lemma {:induction false} XorCommutes(x: nat, y: nat)
    ensures Xor(x, y) == Xor(y, x)
    decreases x + y
  {
    if x != 0 || y != 0 {
      XorCommutes(x / 2, y / 2);
    }
  }

  /** A small operand changes only the bits it has: the result stays in the same block. */
  lemma {:induction false} XorLowBits(x: nat, y: nat, bits: nat, q: nat)
    requires y < Pow2(bits) && Pow2(bits) * q <= x < Pow2(bits) * (q + 1)
    ensures Pow2(bits) * q <= Xor(x, y) < Pow2(bits) * (q + 1)
    decreases bits
  {
    if bits == 0 {
      XorZero(x);
    } else {
      var p := Pow2(bits - 1);
      Doubled(p, q);
      Doubled(p, q + 1);
      XorLowBits(x / 2, y / 2, bits - 1, q);
      XorBits(x, y);
    }
  }

  lemma Doubled(p: nat, q: nat)
    ensures 2 * p * q == 2 * (p * q)
  {
  }

  // ---------------------------------------------------------------------------
  // The digest
  // ---------------------------------------------------------------------------

  function Mix(h: Word, b: Byte): (r: Word) {
    MixedWord(h, b) * PRIME % MODULUS
  }

  /** `h ^ b` */
  function MixedWord(h: Word, b: Byte): nat {
    Xor(h, b)
  }

  function Fold(h: Word, bytes: seq<Byte>): (r: Word) {
    if bytes == [] then h else Mix(Fold(h, bytes[..|bytes| - 1]), bytes[|bytes| - 1])
  }

  function Digest(bytes: seq<Byte>): Word {
    Fold(OFFSET, bytes)
  }

  lemma OffsetXorA()
    ensures Xor(OFFSET, 0x61) == 0xcbf2_9ce4_8422_2344
  {
    hide Xor;
    XorZero(0x197_e539_c908_4446);
    XorBits(0x32f_ca73_9210_888c, 0x1);
    XorBits(0x65f_94e7_2421_1119, 0x3);
    XorBits(0xcbf_29ce_4842_2232, 0x6);
    XorBits(0x197e_539c_9084_4464, 0xc);
    XorBits(0x32fc_a739_2108_88c9, 0x18);
    XorBits(0x65f9_4e72_4211_1192, 0x30);
    XorBits(0xcbf2_9ce4_8422_2325, 0x61);
  }

  /** The published FNV-1a 64 digest of the one-byte text "a". */
  lemma KnownAnswer()
    ensures Digest([0x61]) == 0xaf63_dc4c_8601_ec8c
  {
    hide Xor, Fold;
    OffsetXorA();
    FoldOne(OFFSET, 0x61);
  }

  lemma FoldOne(h: Word, b: Byte)
    ensures Fold(h, [b]) == Mix(h, b)
  {
    hide Mix;
    assert [b][..0] == [];
  }

  lemma {:induction false} FoldAppend(h: Word, a: seq<Byte>, b: seq<Byte>)
    ensures Fold(h, a + b) == Fold(Fold(h, a), b)
    decreases |b|
  {
    if b == [] {
      assert a + b == a;
    } else {
      var init := b[..|b| - 1];
      assert (a + b)[..|a + b| - 1] == a + init;
      FoldAppend(h, a, init);
    }
  }

  lemma FoldTwo(h: Word, a: Byte, b: Byte)
    ensures Fold(h, []) == h && Fold(h, [a, b]) == Mix(Mix(h, a), b)
  {
    assert [a, b][..1] == [a] && [a][..0] == [];
    assert Fold(h, [a]) == Mix(Fold(h, []), a);
  }

  /** The `count` least significant bytes of a Java `long`, lowest first. */
  function LongBytes(v: int, count: nat): (bytes: seq<Byte>)
    ensures |bytes| == count
    decreases count
  {
    if count == 0 then [] else [v % 256] + LongBytes(v / 256, count - 1)
  }

  lemma LongExample()
    ensures LongBytes(0x0102_0304_0506_0708, 8) == [8, 7, 6, 5, 4, 3, 2, 1]
    ensures LongBytes(-2, 8) == [254, 255, 255, 255, 255, 255, 255, 255]
  {
    LongStep(0x0102_0304_0506_0708, 7);
    LongStep(0x01_0203_0405_0607, 6);
    LongStep(0x0102_0304_0506, 5);
    LongStep(0x01_0203_0405, 4);
    LongStep(0x0102_0304, 3);
    LongStep(0x01_0203, 2);
    LongStep(0x0102, 1);
    LongStep(1, 0);
    LongStep(-2, 7);
    LongStep(-1, 6);
    LongStep(-1, 5);
    LongStep(-1, 4);
    LongStep(-1, 3);
    LongStep(-1, 2);
    LongStep(-1, 1);
    LongStep(-1, 0);
    hide LongBytes;
  }

  lemma LongStep(v: int, count: nat)
    ensures LongBytes(v, count + 1) == [v % 256] + LongBytes(v / 256, count) && LongBytes(v, 0) == []
    ensures LongBytes(v / 256, 0) == []
  {
  }

  lemma LongBytesStep(v: int, count: nat)
    requires count >= 1
    ensures LongBytes(v, count) == [v % 256] + LongBytes(v / 256, count - 1)
  {
  }

  /** The high and the low byte of every UTF-16 unit. */
  function UnitBytes(units: seq<Unit>): (bytes: seq<Byte>)
    ensures |bytes| == 2 * |units|
  {
    if units == [] then []
    else
      var last := units[|units| - 1];
      UnitBytes(units[..|units| - 1]) + [last / 256, last % 256]
  }

  type Unit = c: int | 0 <= c < 0x1_0000

  // ---------------------------------------------------------------------------
  // The two implementations
  // ---------------------------------------------------------------------------

  /** `BwcDump.Fnv`; `stream` is what it has been fed. */
  class Hasher {
    var h: Word
    var n: nat
    ghost var stream: seq<Byte>

    ghost predicate Valid()
      reads this
    {
      h == Digest(stream)
    }

    constructor ()
      ensures Valid() && stream == [] && n == 0
    {
      h, n, stream := OFFSET, 0, [];
    }

    method Step(b: Byte)
      requires Valid()
      modifies this
      ensures Valid() && stream == old(stream) + [b] && n == old(n)
    {
      h := Mix(h, b);
      assert (stream + [b])[..|stream|] == stream;
      stream := stream + [b];
    }

    method Bytes(b: seq<Byte>)
      requires Valid()
      modifies this
      ensures Valid() && stream == old(stream) + b && n == old(n)
    {
      for i := 0 to |b|
        invariant Valid() && stream == old(stream) + b[..i] && n == old(n)
      {
        Step(b[i]);
        assert b[..i + 1] == b[..i] + [b[i]];
      }
      assert b[..|b|] == b;
    }

    /** `l`: eight bytes, least significant first, shifting the value down. */
    method Long(v: int)
      requires Valid()
      modifies this
      ensures Valid() && stream == old(stream) + LongBytes(v, 8) && n == old(n) + 1
    {
      hide LongBytes, Digest;
      var rest := v;
      for i := 0 to 8
        invariant Valid() && n == old(n)
        invariant stream + LongBytes(rest, 8 - i) == old(stream) + LongBytes(v, 8)
      {
        ghost var before := stream;
        Step(rest % 256);
        LongBytesStep(rest, 8 - i);
        assert before + ([rest % 256] + LongBytes(rest / 256, 7 - i)) == stream + LongBytes(rest / 256, 7 - i);
        rest := rest / 256;
      }
      assert LongBytes(rest, 0) == [] && stream + [] == stream;
      n := n + 1;
    }

    /** `b`: the length, then the bytes. */
    method Block(b: seq<Byte>)
      requires Valid()
      modifies this
      ensures Valid() && stream == old(stream) + LongBytes(|b|, 8) + b && n == old(n) + 1
    {
      Long(|b|);
      Bytes(b);
    }
  }

  /** `GenAnalysisIcu.fnv`: the high byte of every unit, then the low one. */
  method DigestUnits(s: seq<Unit>) returns (h: Word)
    ensures h == Digest(UnitBytes(s))
  {
    hide Mix, Fold;
    h := OFFSET;
    FoldTwo(OFFSET, 0, 0);
    for i := 0 to |s|
      invariant h == Digest(UnitBytes(s[..i]))
    {
      var c := s[i];
      FoldAppend(OFFSET, UnitBytes(s[..i]), [c / 256, c % 256]);
      FoldTwo(h, c / 256, c % 256);
      h := Mix(h, c / 256);
      h := Mix(h, c % 256);
      assert s[..i + 1][..i] == s[..i];
    }
    assert s[..|s|] == s;
  }

  // ---------------------------------------------------------------------------
  // Small differences never collide
  // ---------------------------------------------------------------------------

  /** How far `h ^ b` is from `h`. */
  function Shift(h: Word, b: Byte): (e: int) {
    MixedWord(h, b) - h
  }

  lemma ShiftIsSmall(h: Word, b: Byte)
    ensures -255 <= Shift(h, b) <= 255 && 0 <= MixedWord(h, b) < MODULUS
  {
    assert Pow2(8) == 256;
    XorLowBits(h, b, 8, h / 256);
  }

  lemma SameWordSameByte(h: Word, b: Byte, b': Byte)
    ensures MixedWord(h, b) == MixedWord(h, b') ==> b == b'
  {
    XorCommutes(h, b);
    XorCommutes(h, b');
    XorUndoes(b, h);
    XorUndoes(b', h);
  }

  /** The prime is odd, so multiplying by it loses nothing modulo 2^64. */
  lemma PrimeCancels(d: int)
    requires d * PRIME % MODULUS == 0
    ensures d % MODULUS == 0
  {
    var inverse := 0xce96_5057_aff6_957b;
    assert PRIME * inverse == 887285111055 * MODULUS + 1;
    var t := d * PRIME / MODULUS;
    assert d * PRIME == t * MODULUS;
    assert d == (t * inverse - d * 887285111055) * MODULUS;
    MultipleIsZero(t * inverse - d * 887285111055);
  }

  lemma MultipleIsZero(k: int)
    ensures k * MODULUS % MODULUS == 0
  {
  }

  lemma SameRemainder(a: int, b: int)
    ensures a % MODULUS == b % MODULUS <==> (a - b) % MODULUS == 0
  {
  }

  lemma ProductsDiffer(x: Word, x': Word)
    requires x != x'
    ensures x * PRIME % MODULUS != x' * PRIME % MODULUS
  {
    if x * PRIME % MODULUS == x' * PRIME % MODULUS {
      SameRemainder(x * PRIME, x' * PRIME);
      PrimeCancels(x - x');
      assert false;
    }
  }

  /** One step tells states apart. */
  lemma MixInjective(h: Word, h': Word, b: Byte)
    requires h != h'
    ensures Mix(h, b) != Mix(h', b)
  {
    hide Xor;
    ShiftIsSmall(h, b);
    ShiftIsSmall(h', b);
    XorUndoes(h, b);
    XorUndoes(h', b);
    ProductsDiffer(MixedWord(h, b), MixedWord(h', b));
  }

  lemma {:induction false} FoldInjective(h: Word, h': Word, bytes: seq<Byte>)
    requires h != h'
    ensures Fold(h, bytes) != Fold(h', bytes)
    decreases |bytes|
  {
    if bytes != [] {
      var init := bytes[..|bytes| - 1];
      FoldInjective(h, h', init);
      MixInjective(Fold(h, init), Fold(h', init), bytes[|bytes| - 1]);
    }
  }

  // A difference d between two states becomes (d + e) * PRIME after one more byte each,
  // where e, the difference of the two shifts, is small.

  ghost predicate Apart(h: Word, h': Word, d: int) {
    (h' - h - d) % MODULUS == 0
  }

  lemma NextApart(h: Word, h': Word, d: int, b: Byte, b': Byte) returns (e: int)
    requires Apart(h, h', d)
    ensures -510 <= e <= 510 && Apart(Mix(h, b), Mix(h', b'), (d + e) * PRIME)
    ensures h == h' && d == 0 ==> -255 <= e <= 255 && (e == 0 ==> b == b')
  {
    hide Xor;
    ShiftIsSmall(h, b);
    ShiftIsSmall(h', b');
    SameWordSameByte(h, b, b');
    var x, x' := MixedWord(h, b), MixedWord(h', b');
    e := Shift(h', b') - Shift(h, b);
    if h == h' && d == 0 {
      SameBlock(h, b, b');
    }
    assert (x' - x - (d + e)) % MODULUS == 0;
    ScaledApart(x, x', d + e);
  }

  lemma SameBlock(h: Word, b: Byte, b': Byte)
    ensures -255 <= Xor(h, b') - Xor(h, b) <= 255
  {
    assert Pow2(8) == 256;
    XorLowBits(h, b, 8, h / 256);
    XorLowBits(h, b', 8, h / 256);
  }

  lemma ScaledApart(x: int, x': int, d: int)
    requires (x' - x - d) % MODULUS == 0
    ensures (x' * PRIME % MODULUS - x * PRIME % MODULUS - d * PRIME) % MODULUS == 0
  {
    var t := (x' - x - d) / MODULUS;
    assert x' == x + d + t * MODULUS;
    var q, q' := x * PRIME / MODULUS, x' * PRIME / MODULUS;
    assert x' * PRIME % MODULUS - x * PRIME % MODULUS - d * PRIME == (t * PRIME - q' + q) * MODULUS;
    MultipleIsZero(t * PRIME - q' + q);
  }

  /** The arithmetic heart: with PRIME = 2^40 + 435, no small coefficients, the first
      one nonzero, make the cubic in PRIME vanish modulo 2^64. */
  lemma NoSmallCubicRoot(e0: int, e1: int, e2: int, e3: int)
    requires -255 <= e0 <= 255 && e0 != 0
    requires -510 <= e1 <= 510 && -510 <= e2 <= 510 && -510 <= e3 <= 510
    ensures (((e0 * PRIME + e1) * PRIME + e2) * PRIME + e3) % MODULUS != 0
  {
    var high := 567675 * e0 + 870 * e1 + e2;
    var low := 82312875 * e0 + 189225 * e1 + 435 * e2 + e3;
    var value := ((e0 * PRIME + e1) * PRIME + e2) * PRIME + e3;
    NotBothHalves(e0, e1, e2, e3);
    if value % MODULUS == 0 {
      var t := value / MODULUS - (e0 * 72057594123452416 + e1 * 65536);
      HalvesVanish(high, low, t);
      assert false;
    }
  }

  lemma HalvesVanish(high: int, low: int, t: int)
    requires -0x80_0000_0000 < low < 0x80_0000_0000
    requires high * 0x100_0000_0000 + low == t * MODULUS
    ensures low == 0 && high == t * 0x100_0000
  {
    assert low == (t * 0x100_0000 - high) * 0x100_0000_0000;
  }

  /** Modulo 2^64 the cubic is high * 2^40 + low. In base 435 the low half vanishes only
      for e0 = 1 or -1, and then the high half is neither zero nor as large as 2^24. */
  lemma NotBothHalves(e0: int, e1: int, e2: int, e3: int)
    requires -255 <= e0 <= 255 && e0 != 0
    requires -510 <= e1 <= 510 && -510 <= e2 <= 510 && -510 <= e3 <= 510
    ensures 82312875 * e0 + 189225 * e1 + 435 * e2 + e3 == 0 ==> (567675 * e0 + 870 * e1 + e2) % 0x100_0000 != 0
  {
    if 82312875 * e0 + 189225 * e1 + 435 * e2 + e3 == 0 {
      var k := -(189225 * e0 + 435 * e1 + e2);
      assert e3 == 435 * k && -1 <= k <= 1;
      var j := -(435 * e0 + e1);
      assert e2 + k == 435 * j && -1 <= j <= 1;
      assert e0 == 1 || e0 == -1;
      var high := 567675 * e0 + 870 * e1 + e2;
      assert 0 < high < 0x100_0000 || -0x100_0000 < high < 0;
    }
  }

  lemma {:induction false} FourBytes(h: Word, a: seq<Byte>, b: seq<Byte>)
    requires |a| == |b| == 4 && a[0] != b[0]
    ensures Fold(h, a) != Fold(h, b)
  {
    hide Mix;
    var a1, b1 := Mix(h, a[0]), Mix(h, b[0]);
    var a2, b2 := Mix(a1, a[1]), Mix(b1, b[1]);
    var a3, b3 := Mix(a2, a[2]), Mix(b2, b[2]);
    FoldFour(h, a);
    FoldFour(h, b);
    var e0 := NextApart(h, h, 0, a[0], b[0]);
    var e1 := NextApart(a1, b1, e0 * PRIME, a[1], b[1]);
    var e2 := NextApart(a2, b2, (e0 * PRIME + e1) * PRIME, a[2], b[2]);
    var d3 := ((e0 * PRIME + e1) * PRIME + e2) * PRIME;
    var e3 := NextApart(a3, b3, d3, a[3], b[3]);
    NoSmallCubicRoot(e0, e1, e2, e3);
    if Fold(h, a) == Fold(h, b) {
      assert (-((d3 + e3) * PRIME)) % MODULUS == 0;
      SameRemainder(0, (d3 + e3) * PRIME);
      PrimeCancels(d3 + e3);
      assert false;
    }
  }

  lemma FoldFour(h: Word, a: seq<Byte>)
    requires |a| == 4
    ensures Fold(h, a) == Mix(Mix(Mix(Mix(h, a[0]), a[1]), a[2]), a[3])
  {
    hide Mix;
    assert a == [a[0], a[1]] + [a[2], a[3]];
    FoldAppend(h, [a[0], a[1]], [a[2], a[3]]);
    FoldTwo(h, a[0], a[1]);
    FoldTwo(Fold(h, [a[0], a[1]]), a[2], a[3]);
  }

  /** Windows of up to four bytes, from one state: strip what agrees, pad to four. */
  lemma {:induction false} WindowFold(h: Word, a: seq<Byte>, b: seq<Byte>)
    requires |a| == |b| <= 4 && a != b
    ensures Fold(h, a) != Fold(h, b)
    decreases |a|
  {
    hide Fold;
    if a[0] == b[0] {
      assert a == a[..1] + a[1..] && b == a[..1] + b[1..];
      FoldAppend(h, a[..1], a[1..]);
      FoldAppend(h, a[..1], b[1..]);
      WindowFold(Fold(h, a[..1]), a[1..], b[1..]);
    } else {
      var pad := seq(4 - |a|, _ => 0);
      FoldAppend(h, a, pad);
      FoldAppend(h, b, pad);
      FourBytes(h, a + pad, b + pad);
    }
  }

  /** Equal-length streams that differ only inside four adjacent bytes have different digests. */
  lemma WindowNeverCollides(before: seq<Byte>, a: seq<Byte>, b: seq<Byte>, after: seq<Byte>)
    requires |a| == |b| <= 4 && a != b
    ensures Digest(before + a + after) != Digest(before + b + after)
  {
    hide Fold;
    var h := Fold(OFFSET, before);
    FoldAppend(OFFSET, before + a, after);
    FoldAppend(OFFSET, before + b, after);
    FoldAppend(OFFSET, before, a);
    FoldAppend(OFFSET, before, b);
    WindowFold(h, a, b);
    FoldInjective(Fold(h, a), Fold(h, b), after);
  }

  /** One byte anywhere. */
  lemma OneByteNeverCollides(x: seq<Byte>, y: seq<Byte>, at: nat)
    requires at < |x| == |y| && x[at] != y[at]
    requires forall k :: 0 <= k < |x| && k != at ==> x[k] == y[k]
    ensures Digest(x) != Digest(y)
  {
    assert x == x[..at] + [x[at]] + x[at + 1..];
    assert y == x[..at] + [y[at]] + x[at + 1..];
    WindowNeverCollides(x[..at], [x[at]], [y[at]], x[at + 1..]);
  }

  /** One UTF-16 unit anywhere, or two adjacent ones: so also one supplementary character. */
  lemma {:induction false} TwoUnitsNeverCollide(before: seq<Unit>, a: seq<Unit>, b: seq<Unit>, after: seq<Unit>)
    requires |a| == |b| <= 2 && a != b
    ensures Digest(UnitBytes(before + a + after)) != Digest(UnitBytes(before + b + after))
  {
    UnitBytesAppend(before + a, after);
    UnitBytesAppend(before + b, after);
    UnitBytesAppend(before, a);
    UnitBytesAppend(before, b);
    UnitBytesDiffer(a, b);
    WindowNeverCollides(UnitBytes(before), UnitBytes(a), UnitBytes(b), UnitBytes(after));
  }

  lemma {:induction false} UnitBytesAppend(a: seq<Unit>, b: seq<Unit>)
    ensures UnitBytes(a + b) == UnitBytes(a) + UnitBytes(b)
    decreases |b|
  {
    if b == [] {
      assert a + b == a;
    } else {
      assert (a + b)[..|a + b| - 1] == a + b[..|b| - 1];
      UnitBytesAppend(a, b[..|b| - 1]);
    }
  }

  lemma {:induction false} UnitBytesDiffer(a: seq<Unit>, b: seq<Unit>)
    requires |a| == |b| && a != b
    ensures UnitBytes(a) != UnitBytes(b)
    decreases |a|
  {
    var n := |a| - 1;
    var x, y := UnitBytes(a), UnitBytes(b);
    assert x[2 * n] == a[n] / 256 && x[2 * n + 1] == a[n] % 256;
    assert y[2 * n] == b[n] / 256 && y[2 * n + 1] == b[n] % 256;
    if a[n] == b[n] {
      assert a == a[..n] + [a[n]] && b == b[..n] + [b[n]];
      UnitBytesDiffer(a[..n], b[..n]);
      assert x[..2 * n] == UnitBytes(a[..n]) && y[..2 * n] == UnitBytes(b[..n]);
    }
  }
}
