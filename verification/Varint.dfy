/** encoding/binary's signed varint: zig-zag, then seven bits a byte, low bits first. */
module Varint {
  import opened Strings
  import opened Decimal
  import opened Base64

  const MaxLen := 10

  function ZigZag(x: Int64): (u: nat)
    ensures u < 0x1_0000_0000_0000_0000
  {
    var y: int := x;
    if y >= 0 then 2 * y else -2 * y - 1
  }

  function UnZigZag(u: nat): (x: Int64)
    requires u < 0x1_0000_0000_0000_0000
  {
    if u % 2 == 0 then u / 2 else -1 - (u / 2) as int
  }

  lemma ZigZagRoundTrip(x: Int64)
    ensures UnZigZag(ZigZag(x)) == x
  {
  }

  function PutUvarint(u: nat): (s: GoString)
    ensures s != []
  {
    if u < 128 then [Byte(u)] else [Byte(128 + u % 128)] + PutUvarint(u / 128)
  }

  /** What is left of the 64 bits at byte `i`: 2^64 / 128^i, down to the tenth byte's one bit. */
  function Room(i: nat): (r: nat)
    ensures r >= 2
    decreases MaxLen - i
  {
    if i >= 9 then 2 else 128 * Room(i + 1)
  }

  lemma RoomAtZero()
    ensures Room(0) == 0x1_0000_0000_0000_0000
  {
    assert Room(8) == 256;
    assert Room(6) == 128 * 128 * 256;
    assert Room(4) == 128 * 128 * 128 * 128 * 256;
    assert Room(2) == 128 * 128 * 128 * 128 * 128 * 128 * 256;
  }

  /** binary.Uvarint from its i-th byte: the value and the bytes used; None when the buffer ends
      early or the value overflows 64 bits. */
  function UvarintFrom(buf: GoString, i: nat): (r: Option<(nat, nat)>)
    ensures r.Some? && i <= 9 ==> r.value.0 < Room(i) && 1 <= r.value.1 <= |buf|
    decreases |buf|
  {
    if buf == [] || i >= MaxLen then None
    else
      var b := Code(buf[0]);
      if b < 128 then
        if i == MaxLen - 1 && b > 1 then None
        else
          assert i < 9 ==> Room(i) == 128 * Room(i + 1);
          Some((b, 1))
      else
        match UvarintFrom(buf[1..], i + 1)
        case None => None
        case Some((v, n)) => Some((b % 128 + 128 * v, n + 1))
  }

  lemma {:induction false} UvarintRoundTrip(u: nat, rest: GoString, i: nat)
    requires i < MaxLen && u < Room(i)
    ensures UvarintFrom(PutUvarint(u) + rest, i) == Some((u, |PutUvarint(u)|))
    ensures |PutUvarint(u)| <= MaxLen - i
  {
    var s := PutUvarint(u) + rest;
    if u >= 128 {
      UvarintRoundTrip(u / 128, rest, i + 1);
      assert s[1..] == PutUvarint(u / 128) + rest;
      assert Code(s[0]) == 128 + u % 128;
    } else {
      assert Code(s[0]) == u;
    }
  }

  function PutVarint(x: Int64): GoString { PutUvarint(ZigZag(x)) }

  function ReadVarint(buf: GoString): (r: Option<(Int64, nat)>)
    ensures r.Some? ==> 1 <= r.value.1 <= |buf|
  {
    RoomAtZero();
    match UvarintFrom(buf, 0)
    case None => None
    case Some((u, n)) => Some((UnZigZag(u), n))
  }

  /** Reading undoes writing for every 64-bit integer, whatever follows in the buffer. */
  lemma VarintRoundTrip(x: Int64, rest: GoString)
    ensures ReadVarint(PutVarint(x) + rest) == Some((x, |PutVarint(x)|))
    ensures |PutVarint(x)| <= MaxLen
  {
    RoomAtZero();
    UvarintRoundTrip(ZigZag(x), rest, 0);
    ZigZagRoundTrip(x);
  }

  /** binary.PutVarint: fills `buf` from `at` and says how many bytes it wrote. */
  method PutVarintInto(buf: array<Octet>, at: nat, x: Int64) returns (n: nat)
    requires at + MaxLen <= buf.Length
    modifies buf
    ensures n == |PutVarint(x)| && at + n <= buf.Length
    ensures buf[at..at + n] == PutVarint(x)
    ensures buf[..at] == old(buf[..at]) && buf[at + n..] == old(buf[..])[at + n..]
  {
    VarintRoundTrip(x, []);
    var u := ZigZag(x);
    ghost var done: GoString := [];
    n := 0;
    while u >= 128
      invariant n == |done| && at + n + |PutUvarint(u)| <= buf.Length
      invariant buf[at..at + n] == done && buf[..at] == old(buf[..at]) && buf[at + n..] == old(buf[..])[at + n..]
      invariant done + PutUvarint(u) == PutVarint(x)
      decreases u
    {
      var b := Byte(128 + u % 128);
      Associate(done, b, u);
      buf[at + n], n, u := b, n + 1, u / 128;
      done := done + [b];
    }
    buf[at + n], n := Byte(u), n + 1;
  }

  lemma Associate(done: GoString, b: Octet, u: nat)
    requires u >= 128 && b == Byte(128 + u % 128)
    ensures done + PutUvarint(u) == done + [b] + PutUvarint(u / 128)
  {
  }

  // ---- The bytes themselves ----

  /** Little-endian groups of seven bits. */
  function GroupsValue(s: GoString): nat { if s == [] then 0 else Code(s[0]) % 128 + 128 * GroupsValue(s[1..]) }

  lemma GroupsCons(b: Octet, rest: GoString)
    ensures GroupsValue([b] + rest) == Code(b) % 128 + 128 * GroupsValue(rest)
  {
    assert ([b] + rest)[1..] == rest;
  }

  /** The low seven bits of each byte, low groups first, make up the number. */
  lemma {:induction false} UvarintValue(u: nat)
    ensures GroupsValue(PutUvarint(u)) == u
  {
    if u >= 128 {
      UvarintValue(u / 128);
      GroupsCons(Byte(128 + u % 128), PutUvarint(u / 128));
    } else {
      GroupsCons(Byte(u), []);
      assert [Byte(u)] + [] == [Byte(u)];
    }
  }

  /** All bytes but the last have the high bit set, and the last has not. */
  lemma {:induction false} UvarintBytes(u: nat, i: nat)
    requires i < |PutUvarint(u)|
    ensures Code(PutUvarint(u)[i]) >= 128 <==> i < |PutUvarint(u)| - 1
  {
    if u >= 128 && i > 0 {
      UvarintBytes(u / 128, i - 1);
    }
  }

  /** Signed numbers in the order 0, -1, 1, -2, 2 and so on. */
  lemma ZigZagOrder(n: nat)
    requires n < 0x8000_0000_0000_0000
    ensures ZigZag(n) == 2 * n && ZigZag(-1 - n) == 2 * n + 1
  {
  }
}
