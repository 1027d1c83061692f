/** CRC-32C (Castagnoli, section 12.1 of RFC 3720) as a bit-serial shift register, and why it
    separates texts that differ in one short window. Bits are listed lowest first. */
module Crc32c {
  import opened Strings
  import opened Base64

  function Pow2(k: nat): nat { if k == 0 then 1 else 2 * Pow2(k - 1) }

  /** The low `k` bits of a number. */
  function Bits(n: nat, k: nat): (b: seq<bool>)
    ensures |b| == k
  {
    if k == 0 then [] else [n % 2 == 1] + Bits(n / 2, k - 1)
  }

  function NatOf(b: seq<bool>): nat {
    if b == [] then 0 else (if b[0] then 1 else 0) + 2 * NatOf(b[1..])
  }

  lemma {:induction false} BitsRoundTrip(b: seq<bool>)
    ensures Bits(NatOf(b), |b|) == b && NatOf(b) < Pow2(|b|)
  {
    if b != [] {
      BitsRoundTrip(b[1..]);
      assert NatOf(b) / 2 == NatOf(b[1..]);
    }
  }

  lemma {:induction false} NatRoundTrip(n: nat, k: nat)
    requires n < Pow2(k)
    ensures NatOf(Bits(n, k)) == n
  {
    if k > 0 {
      NatRoundTrip(n / 2, k - 1);
      assert Bits(n, k)[1..] == Bits(n / 2, k - 1);
    }
  }

  lemma {:induction false} TopBit(n: nat, k: nat)
    requires Pow2(k) <= n < Pow2(k + 1)
    ensures Bits(n, k + 1)[k]
  {
    if k > 0 {
      TopBit(n / 2, k - 1);
    }
  }

  // The register holds 32 bits; the polynomial is given in the reflected form the table uses.
  type Register = s: seq<bool> | |s| == 32 witness Bits(0, 32)

  const Polynomial: nat := 0x82F6_3B78
  const Taps: Register := Bits(Polynomial, 32)

  lemma TopTap()
    ensures Taps[31]
  {
    assert Pow2(8) == 256 && Pow2(16) == 65536 by { assert Pow2(4) == 16; assert Pow2(12) == 4096; }
    assert Pow2(24) == 65536 * 256 by { assert Pow2(20) == 65536 * 16; }
    assert Pow2(31) == 65536 * 256 * 128 by { assert Pow2(28) == 65536 * 256 * 16; }
    TopBit(Polynomial, 31);
  }

  /** One input bit: the register shifts down; the bit leaving it, added to the input, drives the taps. */
  function ShiftWith(taps: Register, s: Register, bit: bool): Register {
    seq(32, i requires 0 <= i < 32 => (i < 31 && s[i + 1]) != (s[0] != bit && taps[i]))
  }

  function Shift(s: Register, bit: bool): Register { ShiftWith(Taps, s, bit) }

  function Feed(s: Register, bits: seq<bool>): Register
    decreases |bits|
  {
    if bits == [] then s else Feed(Shift(s, bits[0]), bits[1..])
  }

  function BodyBits(body: GoString): seq<bool> {
    if body == [] then [] else Bits(Code(body[0]), 8) + BodyBits(body[1..])
  }

  const AllOnes: Register := Bits(0xFFFF_FFFF, 32)

  function Complement(s: Register): Register { seq(32, i requires 0 <= i < 32 => !s[i]) }

  /** crc32.Checksum with the Castagnoli table. */
  function Checksum(body: GoString): (sum: nat)
    ensures sum < 0x1_0000_0000
  {
    var r := Complement(Feed(AllOnes, BodyBits(body)));
    BitsRoundTrip(r);
    WordSize();
    NatOf(r)
  }

  lemma WordSize()
    ensures Pow2(32) == 0x1_0000_0000
  {
    assert Pow2(8) == 256 by { assert Pow2(4) == 16; }
    assert Pow2(16) == 65536 by { assert Pow2(12) == 4096; }
    assert Pow2(24) == 65536 * 256 by { assert Pow2(20) == 65536 * 16; }
    assert Pow2(28) == 65536 * 256 * 16;
  }

  // ---- The register forgets nothing ----

  lemma ShiftInjective(s: Register, t: Register, bit: bool)
    requires Shift(s, bit) == Shift(t, bit)
    ensures s == t
  {
    TopTap();
    ShiftWithInjective(Taps, s, t, bit);
  }

  lemma ShiftWithInjective(taps: Register, s: Register, t: Register, bit: bool)
    requires taps[31] && ShiftWith(taps, s, bit) == ShiftWith(taps, t, bit)
    ensures s == t
  {
    var s', t' := ShiftWith(taps, s, bit), ShiftWith(taps, t, bit);
    assert s'[31] == (s[0] != bit) && t'[31] == (t[0] != bit);
    forall i | 0 < i < 32 ensures s[i] == t[i] {
      assert s'[i - 1] == (s[i] != (s[0] != bit && taps[i - 1]));
      assert t'[i - 1] == (t[i] != (t[0] != bit && taps[i - 1]));
    }
  }

  lemma {:induction false} FeedInjective(s: Register, t: Register, bits: seq<bool>)
    requires Feed(s, bits) == Feed(t, bits)
    ensures s == t
    decreases |bits|
  {
    if bits != [] {
      FeedInjective(Shift(s, bits[0]), Shift(t, bits[0]), bits[1..]);
      ShiftInjective(s, t, bits[0]);
    }
  }

  lemma {:induction false} FeedConcat(s: Register, a: seq<bool>, b: seq<bool>)
    ensures Feed(s, a + b) == Feed(Feed(s, a), b)
    decreases |a|
  {
    if a == [] {
      assert a + b == b;
    } else {
      assert (a + b)[1..] == a[1..] + b;
      FeedConcat(Shift(s, a[0]), a[1..], b);
    }
  }

  function Zeros(n: nat): seq<bool> { seq(n, i => false) }

  /** The register with a window of input bits added in place. */
  function Place(s: Register, w: seq<bool>): Register
    requires |w| <= 32
  {
    seq(32, i requires 0 <= i < 32 => s[i] != (i < |w| && w[i]))
  }

  /** Feeding up to 32 bits is adding them to the register and shifting that many times. */
  lemma {:induction false} FeedIsPlace(s: Register, w: seq<bool>)
    requires |w| <= 32
    ensures Feed(s, w) == Feed(Place(s, w), Zeros(|w|))
    decreases |w|
  {
    if w == [] {
      assert Place(s, w) == s;
    } else {
      FeedIsPlace(Shift(s, w[0]), w[1..]);
      PlaceShifts(Taps, s, w);
      assert Zeros(|w|)[1..] == Zeros(|w| - 1);
    }
  }

  lemma PlaceShifts(taps: Register, s: Register, w: seq<bool>)
    requires 0 < |w| <= 32
    ensures ShiftWith(taps, Place(s, w), false) == Place(ShiftWith(taps, s, w[0]), w[1..])
  {
    var p := Place(s, w);
    assert p[0] == (s[0] != w[0]);
    forall i | 0 <= i < 32 ensures ShiftWith(taps, p, false)[i] == Place(ShiftWith(taps, s, w[0]), w[1..])[i] {
      assert i < 31 ==> p[i + 1] == (s[i + 1] != (i + 1 < |w| && w[i + 1]));
      assert i < |w| - 1 ==> w[1..][i] == w[i + 1];
    }
  }

  /** Two windows of at most 32 bits that leave the register the same are the same. */
  lemma WindowInjective(s: Register, v: seq<bool>, w: seq<bool>)
    requires |v| == |w| <= 32 && Feed(s, v) == Feed(s, w)
    ensures v == w
  {
    FeedIsPlace(s, v);
    FeedIsPlace(s, w);
    FeedInjective(Place(s, v), Place(s, w), Zeros(|v|));
    forall i | 0 <= i < |v| ensures v[i] == w[i] {
      assert Place(s, v)[i] == Place(s, w)[i];
    }
  }

  /** A burst: inputs that agree before and after a window of at most 32 bits, and not in it,
      always leave different registers. The window may start at any bit. */
  lemma BurstDetected(s: Register, before: seq<bool>, v: seq<bool>, w: seq<bool>, after: seq<bool>)
    requires |v| == |w| <= 32 && v != w
    ensures Feed(s, before + v + after) != Feed(s, before + w + after)
  {
    if Feed(s, before + v + after) == Feed(s, before + w + after) {
      FeedConcat(s, before + v, after);
      FeedConcat(s, before + w, after);
      FeedInjective(Feed(s, before + v), Feed(s, before + w), after);
      FeedConcat(s, before, v);
      FeedConcat(s, before, w);
      WindowInjective(Feed(s, before), v, w);
    }
  }

  lemma {:induction false} BodyBitsConcat(a: GoString, b: GoString)
    ensures BodyBits(a + b) == BodyBits(a) + BodyBits(b)
  {
    if a == [] {
      assert a + b == b;
    } else {
      assert (a + b)[1..] == a[1..] + b;
      BodyBitsConcat(a[1..], b);
    }
  }

  lemma {:induction false} BodyBitsInjective(a: GoString, b: GoString)
    requires |a| == |b| && BodyBits(a) == BodyBits(b)
    ensures a == b
  {
    if a != [] {
      var x, y := Bits(Code(a[0]), 8), Bits(Code(b[0]), 8);
      assert x == BodyBits(a)[..8] && y == BodyBits(b)[..8];
      assert BodyBits(a[1..]) == BodyBits(a)[8..] && BodyBits(b[1..]) == BodyBits(b)[8..];
      assert Pow2(8) == 256 by { assert Pow2(4) == 16; }
      NatRoundTrip(Code(a[0]), 8);
      NatRoundTrip(Code(b[0]), 8);
      BodyBitsInjective(a[1..], b[1..]);
    }
  }

  lemma {:induction false} BodyBitsLength(a: GoString)
    ensures |BodyBits(a)| == 8 * |a|
  {
    if a != [] {
      BodyBitsLength(a[1..]);
    }
  }

  /** Texts that differ only within four adjacent bytes have different checksums. */
  lemma ChecksumSeparates(before: GoString, v: GoString, w: GoString, after: GoString)
    requires |v| == |w| <= 4 && v != w
    ensures Checksum(before + v + after) != Checksum(before + w + after)
  {
    var p, x, y, q := BodyBits(before), BodyBits(v), BodyBits(w), BodyBits(after);
    BodyBitsConcat(before, v);
    BodyBitsConcat(before + v, after);
    BodyBitsConcat(before, w);
    BodyBitsConcat(before + w, after);
    BodyBitsLength(v);
    BodyBitsLength(w);
    if x == y {
      BodyBitsInjective(v, w);
    }
    BurstDetected(AllOnes, p, x, y, q);
    SumInjective(Feed(AllOnes, p + x + q), Feed(AllOnes, p + y + q));
  }

  lemma SumInjective(s: Register, t: Register)
    requires s != t
    ensures NatOf(Complement(s)) != NatOf(Complement(t))
  {
    BitsRoundTrip(Complement(s));
    BitsRoundTrip(Complement(t));
    if Complement(s) == Complement(t) {
      forall i | 0 <= i < 32 ensures s[i] == t[i] {
        assert Complement(s)[i] == Complement(t)[i];
      }
    }
  }
}
