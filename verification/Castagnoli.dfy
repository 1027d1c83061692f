/** That the register of Crc32c computes CRC-32C and no other sum: its state is the remainder of the
    message on long division by the Castagnoli polynomial, and the published check value comes out. */
module Castagnoli {
  import opened Strings
  import opened Base64
  import opened Crc32c

  // ---- Division of polynomials over GF(2), coefficients listed from the highest power down ----

  /** The powers in the generator of section 12.1 of RFC 3720. */
  const Exponents: set<nat> := {32, 28, 27, 26, 25, 23, 22, 20, 19, 18, 14, 13, 11, 10, 9, 8, 6, 0}

  predicate Coefficient(power: int) { power in Exponents }

  /** Subtraction of the generator, lined up with the highest power. */
  function Subtract(p: seq<bool>): (r: seq<bool>)
    requires |p| >= 33
    ensures |r| == |p|
  {
    seq(|p|, i requires 0 <= i < |p| => p[i] != (i < 33 && Coefficient(32 - i)))
  }

  /** Long division: while more than 32 coefficients are left, the generator is subtracted if the highest
      one is set, and that coefficient is dropped. */
  function Remainder(p: seq<bool>): (r: seq<bool>)
    ensures |p| >= 32 ==> |r| == 32
    decreases |p|
  {
    if |p| <= 32 then p else Remainder((if p[0] then Subtract(p) else p)[1..])
  }

  /** `first` added to the highest coefficients. */
  function AddFirst(p: seq<bool>, first: seq<bool>): seq<bool> {
    seq(|p|, i requires 0 <= i < |p| => p[i] != (i < |first| && first[i]))
  }

  // ---- The taps are the generator ----

  /** The four bits of a hexadecimal digit. */
  function DigitBits(d: nat): (b: seq<bool>)
    ensures |b| == 4
  {
    [d % 2 == 1, d / 2 % 2 == 1, d / 4 % 2 == 1, d / 8 % 2 == 1]
  }

  /** Digits and their bits, lowest first. */
  function AllDigitBits(digits: seq<nat>): (b: seq<bool>)
    ensures |b| == 4 * |digits|
  {
    if digits == [] then [] else DigitBits(digits[0]) + AllDigitBits(digits[1..])
  }

  function ValueOf(digits: seq<nat>): nat { if digits == [] then 0 else digits[0] + 16 * ValueOf(digits[1..]) }

  lemma BitFirst(n: nat, bit: nat, k: nat)
    requires bit < 2
    ensures Bits(2 * n + bit, k + 1) == [bit == 1] + Bits(n, k)
  {
    assert (2 * n + bit) / 2 == n;
  }

  lemma TwoBits(n: nat, n1: nat, n2: nat, a: nat, b: nat, k: nat)
    requires a < 2 && b < 2 && n1 == 2 * n + b && n2 == 2 * n1 + a
    ensures Bits(n2, k + 2) == [a == 1, b == 1] + Bits(n, k)
  {
    BitFirst(n, b, k);
    BitFirst(n1, a, k + 1);
  }

  lemma Regroup(a: bool, b: bool, c: bool, d: bool, r: seq<bool>)
    ensures [a, b] + ([c, d] + r) == [a, b, c, d] + r
  {
  }

  lemma FourBits(n: nat, n1: nat, n2: nat, n3: nat, n4: nat, a: nat, b: nat, c: nat, d: nat, k: nat)
    requires a < 2 && b < 2 && c < 2 && d < 2
    requires n1 == 2 * n + d && n2 == 2 * n1 + c && n3 == 2 * n2 + b && n4 == 2 * n3 + a
    ensures Bits(n4, k + 4) == [a == 1, b == 1, c == 1, d == 1] + Bits(n, k)
  {
    TwoBits(n, n1, n2, c, d, k);
    TwoBits(n2, n3, n4, a, b, k + 2);
    Regroup(a == 1, b == 1, c == 1, d == 1, Bits(n, k));
  }

  lemma DigitFirst(n: nat, d: nat, k: nat)
    requires d < 16
    ensures Bits(16 * n + d, k + 4) == DigitBits(d) + Bits(n, k)
  {
    var b, c, e := d / 2 % 2, d / 4 % 2, d / 8 % 2;
    assert d == 8 * e + 4 * c + 2 * b + d % 2;
    FourBits(n, 2 * n + e, 4 * n + 2 * e + c, 8 * n + 4 * e + 2 * c + b, 16 * n + d, d % 2, b, c, e, k);
  }

  predicate AllHex(digits: seq<nat>) { forall i :: 0 <= i < |digits| ==> digits[i] < 16 }

  lemma {:induction false} BitsOfDigits(digits: seq<nat>, k: nat)
    requires AllHex(digits) && k == 4 * |digits|
    ensures Bits(ValueOf(digits), k) == AllDigitBits(digits)
  {
    if digits != [] {
      var rest, d := digits[1..], digits[0];
      assert d < 16 && AllHex(rest);
      BitsOfDigits(rest, k - 4);
      DigitFirst(ValueOf(rest), d, k - 4);
    }
  }

  lemma {:induction false} DigitAt(digits: seq<nat>, q: nat, j: nat)
    requires q < |digits| && j < 4
    ensures AllDigitBits(digits)[4 * q + j] == DigitBits(digits[q])[j]
  {
    if q > 0 {
      DigitAt(digits[1..], q - 1, j);
    }
  }

  lemma EightDigits(a: nat, b: nat, c: nat, d: nat, e: nat, f: nat, g: nat, h: nat)
    ensures ValueOf([a, b, c, d, e, f, g, h]) == a + 16 * (b + 16 * (c + 16 * (d + 16 * (e + 16 * (f + 16 * (g + 16 * h))))))
  {
    FourDigits(e, f, g, h);
    assert [a, b, c, d, e, f, g, h][1..] == [b, c, d, e, f, g, h];
    assert [b, c, d, e, f, g, h][1..] == [c, d, e, f, g, h];
    assert [c, d, e, f, g, h][1..] == [d, e, f, g, h];
    assert [d, e, f, g, h][1..] == [e, f, g, h];
    assert ValueOf([d, e, f, g, h]) == d + 16 * ValueOf([e, f, g, h]);
    assert ValueOf([c, d, e, f, g, h]) == c + 16 * ValueOf([d, e, f, g, h]);
  }

  lemma FourDigits(a: nat, b: nat, c: nat, d: nat)
    ensures ValueOf([a, b, c, d]) == a + 16 * (b + 16 * (c + 16 * d))
  {
    assert [a, b, c, d][1..] == [b, c, d];
    assert [b, c, d][1..] == [c, d];
    assert [c, d][1..] == [d];
    assert ValueOf([d]) == d;
    assert ValueOf([c, d]) == c + 16 * ValueOf([d]);
  }

  const TapDigits: seq<nat> := [0x8, 0x7, 0xB, 0x3, 0x6, 0xF, 0x2, 0x8]

  lemma ByDigits(n: nat, digits: seq<nat>)
    requires |digits| == 8 && AllHex(digits) && n == ValueOf(digits)
    ensures Bits(n, 32) == AllDigitBits(digits)
  {
    BitsOfDigits(digits, 32);
  }

  lemma TapsByDigit()
    ensures Taps == AllDigitBits(TapDigits)
  {
    EightDigits(0x8, 0x7, 0xB, 0x3, 0x6, 0xF, 0x2, 0x8);
    ByDigits(Polynomial, TapDigits);
  }

  lemma DigitIsGenerator(q: nat, j: nat)
    requires q < 8 && j < 4
    ensures DigitBits(TapDigits[q])[j] == Coefficient(31 - (4 * q + j))
  {
  }

  lemma TapAt(taps: seq<bool>, digits: seq<nat>, q: nat, j: nat)
    requires taps == AllDigitBits(digits) && q < |digits| && j < 4
    ensures taps[4 * q + j] == DigitBits(digits[q])[j]
  {
    DigitAt(digits, q, j);
  }

  lemma TapIsCoefficient(q: nat, j: nat)
    requires q < 8 && j < 4
    ensures Taps[4 * q + j] == Coefficient(31 - (4 * q + j))
  {
    TapsByDigit();
    TapAt(Taps, TapDigits, q, j);
    DigitIsGenerator(q, j);
  }

  lemma LineUp(taps: seq<bool>, i: nat)
    requires |taps| == 32 && i < 32
    requires taps[4 * (i / 4) + i % 4] == Coefficient(31 - (4 * (i / 4) + i % 4))
    ensures taps[i] == Coefficient(31 - i)
  {
    assert i == 4 * (i / 4) + i % 4;
  }

  lemma TapsAreGenerator()
    ensures LinedUp(Taps)
  {
    forall i | 0 <= i < 32 ensures Taps[i] == Coefficient(31 - i) {
      TapIsCoefficient(i / 4, i % 4);
      LineUp(Taps, i);
    }
  }

  ghost predicate LinedUp(taps: Register) { forall i :: 0 <= i < 32 ==> taps[i] == Coefficient(31 - i) }

  /** One shift is one line of the division. */
  lemma ShiftDivides(taps: Register, s: Register, bits: seq<bool>)
    requires LinedUp(taps) && bits != []
    ensures var p := AddFirst(bits + Zeros(32), s);
            (if p[0] then Subtract(p) else p)[1..] == AddFirst(bits[1..] + Zeros(32), ShiftWith(taps, s, bits[0]))
  {
    var p := AddFirst(bits + Zeros(32), s);
    var left, right := (if p[0] then Subtract(p) else p)[1..], AddFirst(bits[1..] + Zeros(32), ShiftWith(taps, s, bits[0]));
    assert (bits + Zeros(32))[1..] == bits[1..] + Zeros(32);
    forall i | 0 <= i < |right| ensures left[i] == right[i] {
      assert (bits + Zeros(32))[i + 1] == (bits[1..] + Zeros(32))[i];
    }
  }

  /** The register after some bits is the remainder of those bits, followed by thirty-two zeros, with the
      register before them added to the highest coefficients. */
  lemma {:induction false} FeedIsRemainder(s: Register, bits: seq<bool>)
    ensures Feed(s, bits) == Remainder(AddFirst(bits + Zeros(32), s))
    decreases |bits|
  {
    if bits == [] {
      assert AddFirst([] + Zeros(32), s) == s;
    } else {
      TapsAreGenerator();
      ShiftDivides(Taps, s, bits);
      FeedIsRemainder(Shift(s, bits[0]), bits[1..]);
    }
  }

  /** The checksum of a text: thirty-two zeros after its bits, the highest thirty-two coefficients flipped,
      the remainder taken and flipped in turn. */
  lemma ChecksumIsRemainder(body: GoString)
    ensures Checksum(body) == NatOf(Complement(Remainder(AddFirst(BodyBits(body) + Zeros(32), AllOnes))))
  {
    FeedIsRemainder(AllOnes, BodyBits(body));
  }

  // ---- The check value ----

  // The same register as a machine word, to run it on one text.

  /** The register and the word hold the same bits, lowest first. */
  ghost predicate Same(r: seq<bool>, w: bv32) {
    if r == [] then w == 0 else r[0] == (w & 1 != 0) && Same(r[1..], w >> 1)
  }

  ghost predicate IsSum(a: seq<bool>, b: seq<bool>, c: seq<bool>) {
    |a| == |b| == |c| && forall i :: 0 <= i < |a| ==> c[i] == (a[i] != b[i])
  }

  lemma SumTail(a: seq<bool>, b: seq<bool>, c: seq<bool>)
    requires IsSum(a, b, c) && a != []
    ensures IsSum(a[1..], b[1..], c[1..]) && c[0] == (a[0] != b[0])
  {
  }

  lemma {:induction false} SameSum(a: seq<bool>, x: bv32, b: seq<bool>, y: bv32, c: seq<bool>)
    requires Same(a, x) && Same(b, y) && IsSum(a, b, c)
    ensures Same(c, x ^ y)
  {
    SumBits(x, y);
    if a != [] {
      SumTail(a, b, c);
      SameSum(a[1..], x >> 1, b[1..], y >> 1, c[1..]);
    }
  }

  lemma SumBits(x: bv32, y: bv32)
    ensures ((x ^ y) & 1 != 0) == ((x & 1 != 0) != (y & 1 != 0))
    ensures (x ^ y) >> 1 == (x >> 1) ^ (y >> 1)
    ensures x == 0 && y == 0 ==> x ^ y == 0
  {
  }

  lemma {:induction false} SameLonger(r: seq<bool>, w: bv32)
    requires Same(r, w)
    ensures Same(r + [false], w)
  {
    if r != [] {
      SameLonger(r[1..], w >> 1);
      assert (r + [false])[1..] == r[1..] + [false];
    }
  }

  lemma {:induction false} SameUnique(a: seq<bool>, b: seq<bool>, w: bv32)
    requires |a| == |b| && Same(a, w) && Same(b, w)
    ensures a == b
  {
    if a != [] {
      SameUnique(a[1..], b[1..], w >> 1);
      assert a == [a[0]] + a[1..] && b == [b[0]] + b[1..];
    }
  }

  predicate LowDigit(w: bv32, d: nat) {
    && (w & 1 != 0) == (d % 2 == 1) && (w & 2 != 0) == (d / 2 % 2 == 1)
    && (w & 4 != 0) == (d / 4 % 2 == 1) && (w & 8 != 0) == (d / 8 % 2 == 1)
  }

  lemma FourShifts(w: bv32)
    ensures w >> 1 >> 1 >> 1 >> 1 == w >> 4
    ensures (w >> 1) & 1 != 0 <==> w & 2 != 0
    ensures (w >> 1 >> 1) & 1 != 0 <==> w & 4 != 0
    ensures (w >> 1 >> 1 >> 1) & 1 != 0 <==> w & 8 != 0
  {
  }

  lemma SameDigit(d: nat, r: seq<bool>, w: bv32)
    requires Same(r, w >> 4) && LowDigit(w, d)
    ensures Same(DigitBits(d) + r, w)
  {
    FourShifts(w);
    var b := DigitBits(d);
    assert (b + r)[1..][1..][1..][1..] == r;
    assert Same((b + r)[1..][1..][1..], w >> 1 >> 1 >> 1);
    assert Same((b + r)[1..][1..], w >> 1 >> 1);
  }

  /** The digits from the `k`th on are those of the word. */
  lemma SameFrom(digits: seq<nat>, k: nat, w: bv32, up: bv32)
    requires k < |digits| && LowDigit(w, digits[k]) && w >> 4 == up && Same(AllDigitBits(digits[k + 1..]), up)
    ensures Same(AllDigitBits(digits[k..]), w)
  {
    assert digits[k..][1..] == digits[k + 1..];
    SameDigit(digits[k], AllDigitBits(digits[k + 1..]), w);
  }

  lemma SameUpper(digits: seq<nat>, e: bv32, f: bv32, g: bv32, h: bv32)
    requires |digits| == 8
    requires LowDigit(e, digits[4]) && LowDigit(f, digits[5]) && LowDigit(g, digits[6]) && LowDigit(h, digits[7])
    requires e >> 4 == f && f >> 4 == g && g >> 4 == h && h >> 4 == 0
    ensures Same(AllDigitBits(digits[4..]), e)
  {
    SameFrom(digits, 7, h, 0);
    SameFrom(digits, 6, g, h);
    SameFrom(digits, 5, f, g);
    SameFrom(digits, 4, e, f);
  }

  /** A word and the words left as its digits are shifted out. */
  lemma SameEight(digits: seq<nat>, a: bv32, b: bv32, c: bv32, d: bv32, e: bv32)
    requires |digits| == 8 && Same(AllDigitBits(digits[4..]), e)
    requires LowDigit(a, digits[0]) && LowDigit(b, digits[1]) && LowDigit(c, digits[2]) && LowDigit(d, digits[3])
    requires a >> 4 == b && b >> 4 == c && c >> 4 == d && d >> 4 == e
    ensures Same(AllDigitBits(digits), a)
  {
    SameFrom(digits, 3, d, e);
    SameFrom(digits, 2, c, d);
    SameFrom(digits, 1, b, c);
    SameFrom(digits, 0, a, b);
    assert digits[0..] == digits;
  }

  lemma SameTaps()
    ensures Same(Taps, 0x82F6_3B78)
  {
    TapsByDigit();
    SameUpper(TapDigits, 0x82F6, 0x82F, 0x82, 0x8);
    SameEight(TapDigits, 0x82F6_3B78, 0x82F_63B7, 0x82_F63B, 0x8_2F63, 0x82F6);
  }

  function ShiftWord(w: bv32, bit: bool): bv32 {
    if (w & 1 != 0) != bit then (w >> 1) ^ 0x82F6_3B78 else w >> 1
  }

  lemma ShiftIsSum(taps: Register, r: Register, bit: bool)
    ensures r[0] == bit ==> ShiftWith(taps, r, bit) == r[1..] + [false]
    ensures r[0] != bit ==> IsSum(r[1..] + [false], taps, ShiftWith(taps, r, bit))
  {
    if r[0] == bit {
      assert ShiftWith(taps, r, bit) == r[1..] + [false];
    }
  }

  lemma SameShiftWith(taps: Register, t: bv32, r: Register, w: bv32, bit: bool)
    requires Same(taps, t) && Same(r, w)
    ensures Same(ShiftWith(taps, r, bit), if (w & 1 != 0) != bit then (w >> 1) ^ t else w >> 1)
  {
    var next := ShiftWith(taps, r, bit);
    ShiftIsSum(taps, r, bit);
    SameLonger(r[1..], w >> 1);
    if r[0] != bit {
      SameSum(r[1..] + [false], w >> 1, taps, t, next);
    }
  }

  lemma SameShift(r: Register, w: bv32, bit: bool)
    requires Same(r, w)
    ensures Same(Shift(r, bit), ShiftWord(w, bit))
  {
    SameTaps();
    SameShiftWith(Taps, 0x82F6_3B78, r, w, bit);
  }

  /** The low half of a byte into a word, lowest bit first. */
  function HalfWord(w: bv32, b: bv8): bv32 {
    ShiftWord(ShiftWord(ShiftWord(ShiftWord(w, b & 1 != 0), b & 2 != 0), b & 4 != 0), b & 8 != 0)
  }

  function FeedWord(w: bv32, b: bv8): bv32 {
    ShiftWord(ShiftWord(ShiftWord(ShiftWord(HalfWord(w, b), b & 16 != 0), b & 32 != 0), b & 64 != 0), b & 128 != 0)
  }

  lemma SameTwo(r: Register, w: bv32, a: bool, b: bool)
    requires Same(r, w)
    ensures Same(Feed(r, [a, b]), ShiftWord(ShiftWord(w, a), b))
  {
    SameShift(r, w, a);
    SameShift(Shift(r, a), ShiftWord(w, a), b);
    assert [a, b][1..] == [b];
    assert Feed(Shift(r, a), [b]) == Shift(Shift(r, a), b);
  }

  lemma SameFour(r: Register, w: bv32, a: bool, b: bool, c: bool, d: bool)
    requires Same(r, w)
    ensures Same(Feed(r, [a, b, c, d]), ShiftWord(ShiftWord(ShiftWord(ShiftWord(w, a), b), c), d))
  {
    SameTwo(r, w, a, b);
    SameTwo(Feed(r, [a, b]), ShiftWord(ShiftWord(w, a), b), c, d);
    FeedConcat(r, [a, b], [c, d]);
    assert [a, b] + [c, d] == [a, b, c, d];
  }

  predicate IsDigit(b: bv8, d: nat) {
    && (b & 1 != 0) == (d % 2 == 1) && (b & 2 != 0) == (d / 2 % 2 == 1)
    && (b & 4 != 0) == (d / 4 % 2 == 1) && (b & 8 != 0) == (d / 8 % 2 == 1)
    && b & 0xF0 == 0x30
  }

  lemma HighHalf(b: bv8)
    requires b & 0xF0 == 0x30
    ensures b & 16 != 0 && b & 32 != 0 && b & 64 == 0 && b & 128 == 0
  {
  }

  lemma CharacterBits(d: nat)
    requires d < 10
    ensures Bits(48 + d, 8) == DigitBits(d) + [true, true, false, false]
  {
    DigitFirst(3, d, 4);
    DigitFirst(0, 3, 0);
    assert DigitBits(3) + [] == [true, true, false, false];
  }

  /** Feeding the character of a decimal digit. */
  lemma SameCharacter(r: Register, w: bv32, d: nat, b: bv8)
    requires Same(r, w) && d < 10 && IsDigit(b, d)
    ensures Same(Feed(r, Bits(48 + d, 8)), FeedWord(w, b))
  {
    CharacterBits(d);
    HighHalf(b);
    var low := DigitBits(d);
    FeedConcat(r, low, [true, true, false, false]);
    SameFour(r, w, low[0], low[1], low[2], low[3]);
    SameFour(Feed(r, low), HalfWord(w, b), true, true, false, false);
  }

  /** After `text` the register, started at `start`, is the word. */
  ghost predicate State(start: Register, text: GoString, w: bv32) { Same(Feed(start, BodyBits(text)), w) }

  lemma NextDigit(start: Register, text: GoString, w: bv32, d: nat, b: bv8)
    requires State(start, text, w) && d < 10 && IsDigit(b, d)
    ensures State(start, text + [Byte(48 + d)], FeedWord(w, b))
  {
    BodyBitsConcat(text, [Byte(48 + d)]);
    assert BodyBits([Byte(48 + d)]) == Bits(48 + d, 8) + [];
    assert Bits(48 + d, 8) + [] == Bits(48 + d, 8);
    FeedConcat(start, BodyBits(text), Bits(48 + d, 8));
    SameCharacter(Feed(start, BodyBits(text)), w, d, b);
  }

  lemma NextChar(start: Register, text: GoString, w: bv32, d: nat, b: bv8, c: Octet, next: bv32)
    requires State(start, text, w) && d < 10 && IsDigit(b, d) && Code(c) == 48 + d && next == FeedWord(w, b)
    ensures State(start, text + [c], next)
  {
    assert c == Byte(48 + d);
    NextDigit(start, text, w, d, b);
  }

  lemma FirstDigits(start: Register, text: GoString)
    requires State(start, text, 0xFFFF_FFFF)
    ensures State(start, text + ['1'] + ['2'], 0x8CAA_3B9F)
  {
    NextChar(start, text, 0xFFFF_FFFF, 1, 0x31, '1', 0x6F0A_661C);
    NextChar(start, text + ['1'], 0x6F0A_661C, 2, 0x32, '2', 0x8CAA_3B9F);
  }

  lemma MiddleDigits(start: Register, text: GoString)
    requires State(start, text, 0x8CAA_3B9F)
    ensures State(start, text + ['3'] + ['4'] + ['5'], 0xE72E_DCCA)
  {
    NextChar(start, text, 0x8CAA_3B9F, 3, 0x33, '3', 0xEF84_D04D);
    NextChar(start, text + ['3'], 0xEF84_D04D, 4, 0x34, '4', 0x09C5_0B11);
    NextChar(start, text + ['3'] + ['4'], 0x09C5_0B11, 5, 0x35, '5', 0xE72E_DCCA);
  }

  lemma LaterDigits(start: Register, text: GoString)
    requires State(start, text, 0xE72E_DCCA)
    ensures State(start, text + ['6'] + ['7'], 0xEDBD_6815)
  {
    NextChar(start, text, 0xE72E_DCCA, 6, 0x36, '6', 0xBECA_8E79);
    NextChar(start, text + ['6'], 0xBECA_8E79, 7, 0x37, '7', 0xEDBD_6815);
  }

  lemma LastDigits(start: Register, text: GoString)
    requires State(start, text, 0xEDBD_6815)
    ensures State(start, text + ['8'] + ['9'], 0x1CF9_6D7C)
  {
    NextChar(start, text, 0xEDBD_6815, 8, 0x38, '8', 0x9F78_7F65);
    NextChar(start, text + ['8'], 0x9F78_7F65, 9, 0x39, '9', 0x1CF9_6D7C);
  }

  lemma NineCharacters()
    ensures [] + ['1'] + ['2'] + ['3'] + ['4'] + ['5'] + ['6'] + ['7'] + ['8'] + ['9'] == "123456789"
  {
  }

  lemma AllDigits(start: Register, text: GoString)
    requires Same(start, 0xFFFF_FFFF) && text == "123456789"
    ensures State(start, text, 0x1CF9_6D7C)
  {
    FirstDigits(start, []);
    MiddleDigits(start, [] + ['1'] + ['2']);
    LaterDigits(start, [] + ['1'] + ['2'] + ['3'] + ['4'] + ['5']);
    LastDigits(start, [] + ['1'] + ['2'] + ['3'] + ['4'] + ['5'] + ['6'] + ['7']);
    NineCharacters();
  }

  const OneDigits: seq<nat> := [0xF, 0xF, 0xF, 0xF, 0xF, 0xF, 0xF, 0xF]

  lemma SameOnes()
    ensures Same(AllOnes, 0xFFFF_FFFF)
  {
    EightDigits(0xF, 0xF, 0xF, 0xF, 0xF, 0xF, 0xF, 0xF);
    ByDigits(0xFFFF_FFFF, OneDigits);
    SameUpper(OneDigits, 0xFFFF, 0xFFF, 0xFF, 0xF);
    SameEight(OneDigits, 0xFFFF_FFFF, 0xFFF_FFFF, 0xFF_FFFF, 0xF_FFFF, 0xFFFF);
  }

  lemma {:induction false} OnesAreSet(n: nat, k: nat, i: nat)
    requires i < k && n == Pow2(k) - 1
    ensures Bits(n, k)[i]
  {
    assert n / 2 == Pow2(k - 1) - 1;
    if i > 0 {
      OnesAreSet(n / 2, k - 1, i - 1);
    }
  }

  lemma SameFlipped(r: Register, w: bv32, ones: Register)
    requires Same(r, w) && Same(ones, 0xFFFF_FFFF) && forall i :: 0 <= i < 32 ==> ones[i]
    ensures Same(Complement(r), w ^ 0xFFFF_FFFF)
  {
    SameSum(r, w, ones, 0xFFFF_FFFF, Complement(r));
  }

  const CheckDigits: seq<nat> := [0x3, 0x8, 0x2, 0x9, 0x6, 0x0, 0x3, 0xE]

  lemma ReadBack(b: seq<bool>, w: bv32, digits: seq<nat>, n: nat)
    requires |b| == 32 && |digits| == 8 && Same(b, w) && Same(AllDigitBits(digits), w)
    requires AllHex(digits) && n == ValueOf(digits) < 0x1_0000_0000
    ensures NatOf(b) == n
  {
    BitsOfDigits(digits, 32);
    SameUnique(b, AllDigitBits(digits), w);
    WordSize();
    NatRoundTrip(n, 32);
  }

  lemma CheckBits(b: seq<bool>)
    requires |b| == 32 && Same(b, 0xE306_9283)
    ensures NatOf(b) == 0xE306_9283
  {
    EightDigits(0x3, 0x8, 0x2, 0x9, 0x6, 0x0, 0x3, 0xE);
    SameUpper(CheckDigits, 0xE306, 0xE30, 0xE3, 0xE);
    SameEight(CheckDigits, 0xE306_9283, 0xE30_6928, 0xE3_0692, 0xE_3069, 0xE306);
    ReadBack(b, 0xE306_9283, CheckDigits, 0xE306_9283);
  }

  lemma FlippedCheck(start: Register, r: Register)
    requires Same(start, 0xFFFF_FFFF) && (forall i :: 0 <= i < 32 ==> start[i]) && Same(r, 0x1CF9_6D7C)
    ensures NatOf(Complement(r)) == 0xE306_9283
  {
    SameFlipped(r, 0x1CF9_6D7C, start);
    CheckBits(Complement(r));
  }

  lemma OnesFacts()
    ensures Same(AllOnes, 0xFFFF_FFFF) && forall i :: 0 <= i < 32 ==> AllOnes[i]
  {
    SameOnes();
    WordSize();
    forall i | 0 <= i < 32 ensures AllOnes[i] { OnesAreSet(0xFFFF_FFFF, 32, i); }
  }

  lemma ChecksumOf(text: GoString)
    requires State(AllOnes, text, 0x1CF9_6D7C)
    ensures Checksum(text) == 0xE306_9283
  {
    OnesFacts();
    FlippedCheck(AllOnes, Feed(AllOnes, BodyBits(text)));
  }

  /** The check value published for CRC-32C. */
  lemma CheckValue(text: GoString)
    requires text == "123456789"
    ensures Checksum(text) == 0xE306_9283
  {
    OnesFacts();
    AllDigits(AllOnes, text);
    ChecksumOf(text);
  }

  // ---- Thirty zeros ----

  lemma NextZero(start: Register, text: GoString, w: bv32, more: GoString, next: bv32)
    requires State(start, text, w) && more == text + ['0'] && next == FeedWord(w, 0x30)
    ensures State(start, more, next)
  {
    NextChar(start, text, w, 0, 0x30, '0', next);
  }

  lemma FiveZeros(start: Register, text: GoString, w: bv32, more: GoString, next: bv32)
    requires State(start, text, w) && more == text + "00000"
    requires next == FeedWord(FeedWord(FeedWord(FeedWord(FeedWord(w, 0x30), 0x30), 0x30), 0x30), 0x30)
    ensures State(start, more, next)
  {
    var w1 := FeedWord(w, 0x30);
    var w2 := FeedWord(w1, 0x30);
    var w3 := FeedWord(w2, 0x30);
    var t1, t2, t3, t4 := text + "0", text + "00", text + "000", text + "0000";
    NextZero(start, text, w, t1, w1);
    NextZero(start, t1, w1, t2, w2);
    NextZero(start, t2, w2, t3, w3);
    NextZero(start, t3, w3, t4, FeedWord(w3, 0x30));
    NextZero(start, t4, FeedWord(w3, 0x30), more, next);
  }

  const ZeroDigits: seq<nat> := [0x3, 0x0, 0x9, 0x5, 0xE, 0xD, 0x6, 0x3]

  lemma ZeroBits(b: seq<bool>)
    requires |b| == 32 && Same(b, 0x36DE_5903)
    ensures NatOf(b) == 0x36DE_5903
  {
    EightDigits(0x3, 0x0, 0x9, 0x5, 0xE, 0xD, 0x6, 0x3);
    SameUpper(ZeroDigits, 0x36DE, 0x36D, 0x36, 0x3);
    SameEight(ZeroDigits, 0x36DE_5903, 0x36D_E590, 0x36_DE59, 0x3_6DE5, 0x36DE);
    ReadBack(b, 0x36DE_5903, ZeroDigits, 0x36DE_5903);
  }

  lemma FifteenZeros(start: Register, five: GoString, ten: GoString, fifteen: GoString)
    requires Same(start, 0xFFFF_FFFF) && five == "00000" && ten == five + "00000" && fifteen == ten + "00000"
    ensures State(start, fifteen, 0x15D1_A5AE)
  {
    FiveZeros(start, [], 0xFFFF_FFFF, five, 0xF10D_2554);
    FiveZeros(start, five, 0xF10D_2554, ten, 0x3602_283B);
    FiveZeros(start, ten, 0x3602_283B, fifteen, 0x15D1_A5AE);
  }

  lemma ThirtyZeros(start: Register, fifteen: GoString, twenty: GoString, more: GoString, thirty: GoString)
    requires State(start, fifteen, 0x15D1_A5AE)
    requires twenty == fifteen + "00000" && more == twenty + "00000" && thirty == more + "00000"
    ensures State(start, thirty, 0xC921_A6FC)
  {
    FiveZeros(start, fifteen, 0x15D1_A5AE, twenty, 0xB324_F057);
    FiveZeros(start, twenty, 0xB324_F057, more, 0x6C32_8524);
    FiveZeros(start, more, 0x6C32_8524, thirty, 0xC921_A6FC);
  }

  lemma ZerosSum(text: GoString)
    requires State(AllOnes, text, 0xC921_A6FC)
    ensures Checksum(text) == 0x36DE_5903
  {
    OnesFacts();
    SameFlipped(Feed(AllOnes, BodyBits(text)), 0xC921_A6FC, AllOnes);
    ZeroBits(Complement(Feed(AllOnes, BodyBits(text))));
  }

  /** The sum of thirty zeros. */
  lemma ThirtyZerosSum(text: GoString)
    requires |text| == 30 && forall i :: 0 <= i < 30 ==> text[i] == '0'
    ensures Checksum(text) == 0x36DE_5903
  {
    OnesFacts();
    FiveMore(text, 0);
    assert text[..0] + "00000" == "00000" && text[..30] == text;
    FiveMore(text, 5);
    FiveMore(text, 10);
    FiveMore(text, 15);
    FiveMore(text, 20);
    FiveMore(text, 25);
    ZeroStates(AllOnes, text);
    ZerosSum(text);
  }

  lemma FiveMore(text: GoString, k: nat)
    requires k + 5 <= |text| && forall i :: 0 <= i < |text| ==> text[i] == '0'
    ensures text[..k + 5] == text[..k] + "00000"
  {
  }

  lemma ZeroStates(start: Register, text: GoString)
    requires Same(start, 0xFFFF_FFFF) && |text| == 30 && text[..5] == "00000" && text[..10] == text[..5] + "00000"
    requires text[..15] == text[..10] + "00000" && text[..20] == text[..15] + "00000"
    requires text[..25] == text[..20] + "00000" && text == text[..25] + "00000"
    ensures State(start, text, 0xC921_A6FC)
  {
    FifteenZeros(start, text[..5], text[..10], text[..15]);
    ThirtyZeros(start, text[..15], text[..20], text[..25], text);
  }
}
