/** Base64 as in RFC 4648: the standard alphabet with padding (section 4) and the URL alphabet
    without it (section 5), decoded the way Go's encoding/base64 does. */
module Base64 {
  import opened Strings

  datatype Variant = Std | RawUrl

  /** The six-bit value as a character of the alphabet. */
  function Symbol(v: nat, variant: Variant): (c: Octet)
    requires v < 64
  {
    if v < 26 then ('A' as int + v) as char
    else if v < 52 then ('a' as int + (v - 26)) as char
    else if v < 62 then ('0' as int + (v - 52)) as char
    else if v == 62 then if variant.RawUrl? then '-' else '+'
    else if variant.RawUrl? then '_' else '/'
  }

  /** The value of an alphabet character; None for any other. */
  function Value(c: char, variant: Variant): (r: Option<nat>)
    ensures r.Some? ==> r.value < 64
  {
    if 'A' <= c <= 'Z' then Some(c as int - 'A' as int)
    else if 'a' <= c <= 'z' then Some(c as int - 'a' as int + 26)
    else if '0' <= c <= '9' then Some(c as int - '0' as int + 52)
    else if c == (if variant.RawUrl? then '-' else '+') then Some(62)
    else if c == (if variant.RawUrl? then '_' else '/') then Some(63)
    else None
  }

  lemma SymbolValue(v: nat, variant: Variant)
    requires v < 64
    ensures Value(Symbol(v, variant), variant) == Some(v)
    ensures Symbol(v, variant) != '=' && Symbol(v, variant) != '\n' && Symbol(v, variant) != '\r'
    ensures variant.Std? ==> Symbol(v, variant) != '_'
  {
  }

  function Byte(n: nat): Octet
    requires n < 256
  {
    n as char
  }

  function Code(c: Octet): (n: nat)
    ensures n < 256
  {
    c as int
  }

  /** The four sextets three bytes hold. */
  function Sextets(a: nat, b: nat, c: nat): (r: (nat, nat, nat, nat))
    requires a < 256 && b < 256 && c < 256
    ensures r.0 < 64 && r.1 < 64 && r.2 < 64 && r.3 < 64
  {
    (a / 4, a % 4 * 16 + b / 16, b % 16 * 4 + c / 64, c % 64)
  }

  /** The three bytes four sextets hold. */
  function Bytes(p: nat, q: nat, r: nat, s: nat): (t: (nat, nat, nat))
    requires p < 64 && q < 64 && r < 64 && s < 64
    ensures t.0 < 256 && t.1 < 256 && t.2 < 256
  {
    (p * 4 + q / 16, q % 16 * 16 + r / 4, r % 4 * 64 + s)
  }

  lemma TakeApart(high: nat, low: nat, size: nat)
    requires low < size && (size == 4 || size == 16)
    ensures (high * size + low) / size == high && (high * size + low) % size == low
  {
  }

  lemma FirstByte(a: nat, b: nat)
    requires a < 256 && b < 256
    ensures a / 4 * 4 + (a % 4 * 16 + b / 16) / 16 == a
  {
    TakeApart(a % 4, b / 16, 16);
  }

  lemma SecondByte(a: nat, b: nat, c: nat)
    requires a < 256 && b < 256 && c < 256
    ensures (a % 4 * 16 + b / 16) % 16 * 16 + (b % 16 * 4 + c / 64) / 4 == b
  {
    TakeApart(a % 4, b / 16, 16);
    TakeApart(b % 16, c / 64, 4);
  }

  lemma ThirdByte(b: nat, c: nat)
    requires b < 256 && c < 256
    ensures (b % 16 * 4 + c / 64) % 4 * 64 + c % 64 == c
  {
    TakeApart(b % 16, c / 64, 4);
  }

  lemma SextetsBytes(a: nat, b: nat, c: nat)
    requires a < 256 && b < 256 && c < 256
    ensures var x := Sextets(a, b, c); Bytes(x.0, x.1, x.2, x.3) == (a, b, c)
  {
    FirstByte(a, b);
    SecondByte(a, b, c);
    ThirdByte(b, c);
  }

  /** The symbols of one group, cut to the number the bytes need. */
  function Group(a: nat, b: nat, c: nat, variant: Variant): (g: GoString)
    requires a < 256 && b < 256 && c < 256
    ensures |g| == 4
  {
    var x := Sextets(a, b, c);
    [Symbol(x.0, variant), Symbol(x.1, variant), Symbol(x.2, variant), Symbol(x.3, variant)]
  }

  function Encode(data: GoString, variant: Variant): (s: GoString)
  {
    if data == [] then []
    else if |data| == 1 then
      Group(Code(data[0]), 0, 0, variant)[..2] + if variant.Std? then "==" else ""
    else if |data| == 2 then
      Group(Code(data[0]), Code(data[1]), 0, variant)[..3] + if variant.Std? then "=" else ""
    else Group(Code(data[0]), Code(data[1]), Code(data[2]), variant) + Encode(data[3..], variant)
  }

  /** The decoder skips line breaks wherever they stand. */
  function DropBreaks(s: string): string
  {
    if s == [] then []
    else if s[0] == '\n' || s[0] == '\r' then DropBreaks(s[1..])
    else [s[0]] + DropBreaks(s[1..])
  }

  /** Decodes whole groups; the last one may be short (RawUrl) or padded (Std). Bits past the
      last byte are not checked, and nothing may follow the padding. */
  function DecodeGroups(s: string, variant: Variant): Option<GoString>
  {
    if s == [] then Some([])
    else if |s| == 1 then None
    else
      match (Value(s[0], variant), Value(s[1], variant))
      case (Some(p), Some(q)) =>
        var pad := variant.Std?;
        if |s| == 2 then
          if pad then None else Some([Byte(Bytes(p, q, 0, 0).0)])
        else if pad && s[2] == '=' then
          if |s| == 4 && s[3] == '=' then Some([Byte(Bytes(p, q, 0, 0).0)]) else None
        else
          (match Value(s[2], variant)
           case None => None
           case Some(r) =>
             if |s| == 3 then
               if pad then None else Some([Byte(Bytes(p, q, r, 0).0), Byte(Bytes(p, q, r, 0).1)])
             else if pad && s[3] == '=' then
               if |s| == 4 then Some([Byte(Bytes(p, q, r, 0).0), Byte(Bytes(p, q, r, 0).1)]) else None
             else
               (match Value(s[3], variant)
                case None => None
                case Some(t) =>
                  var b := Bytes(p, q, r, t);
                  match DecodeGroups(s[4..], variant)
                  case None => None
                  case Some(rest) => Some([Byte(b.0), Byte(b.1), Byte(b.2)] + rest)))
      case _ => None
  }

  function Decode(s: string, variant: Variant): Option<GoString> { DecodeGroups(DropBreaks(s), variant) }

  predicate InAlphabet(s: string, variant: Variant) {
    forall i :: 0 <= i < |s| ==> Value(s[i], variant).Some? || (variant.Std? && s[i] == '=')
  }

  lemma {:induction false} EncodeInAlphabet(data: GoString, variant: Variant)
    ensures InAlphabet(Encode(data, variant), variant)
  {
    if |data| > 0 {
      var a, b, c := Code(data[0]), if |data| > 1 then Code(data[1]) else 0, if |data| > 2 then Code(data[2]) else 0;
      var x := Sextets(a, b, c);
      SymbolValue(x.0, variant);
      SymbolValue(x.1, variant);
      SymbolValue(x.2, variant);
      SymbolValue(x.3, variant);
      if |data| > 2 {
        EncodeInAlphabet(data[3..], variant);
      }
    }
  }

  lemma {:induction false} NoBreaks(s: string, variant: Variant)
    requires InAlphabet(s, variant)
    ensures DropBreaks(s) == s
  {
    if s != [] {
      assert Value(s[0], variant).Some? || s[0] == '=';
      NoBreaks(s[1..], variant);
    }
  }

  lemma GroupDecodes(a: nat, b: nat, c: nat, rest: string, variant: Variant)
    requires a < 256 && b < 256 && c < 256 && DecodeGroups(rest, variant).Some?
    ensures DecodeGroups(Group(a, b, c, variant) + rest, variant)
         == Some([Byte(a), Byte(b), Byte(c)] + DecodeGroups(rest, variant).value)
  {
    var x := Sextets(a, b, c);
    SymbolValue(x.0, variant);
    SymbolValue(x.1, variant);
    SymbolValue(x.2, variant);
    SymbolValue(x.3, variant);
    SextetsBytes(a, b, c);
    assert (Group(a, b, c, variant) + rest)[4..] == rest;
  }

  lemma OneDecodes(d: Octet, variant: Variant)
    ensures DecodeGroups(Encode([d], variant), variant) == Some([d])
  {
    var x := Sextets(Code(d), 0, 0);
    SymbolValue(x.0, variant);
    SymbolValue(x.1, variant);
    SextetsBytes(Code(d), 0, 0);
    var two := [Symbol(x.0, variant), Symbol(x.1, variant)];
    assert Encode([d], variant) == if variant.Std? then two + ['=', '='] else two;
    assert Bytes(x.0, x.1, 0, 0).0 == Code(d);
  }

  lemma TwoDecode(d: Octet, e: Octet, variant: Variant)
    ensures DecodeGroups(Encode([d, e], variant), variant) == Some([d, e])
  {
    var x := Sextets(Code(d), Code(e), 0);
    SymbolValue(x.0, variant);
    SymbolValue(x.1, variant);
    SymbolValue(x.2, variant);
    var three := [Symbol(x.0, variant), Symbol(x.1, variant), Symbol(x.2, variant)];
    assert Encode([d, e], variant) == if variant.Std? then three + ['='] else three;
    assert Bytes(x.0, x.1, x.2, 0).0 == Code(d) && Bytes(x.0, x.1, x.2, 0).1 == Code(e);
  }

  lemma {:induction false} GroupsRoundTrip(data: GoString, variant: Variant)
    ensures DecodeGroups(Encode(data, variant), variant) == Some(data)
  {
    if |data| > 2 {
      GroupsRoundTrip(data[3..], variant);
      GroupDecodes(Code(data[0]), Code(data[1]), Code(data[2]), Encode(data[3..], variant), variant);
      assert data == [data[0], data[1], data[2]] + data[3..];
    } else if |data| == 2 {
      TwoDecode(data[0], data[1], variant);
      assert data == [data[0], data[1]];
    } else if |data| == 1 {
      OneDecodes(data[0], variant);
      assert data == [data[0]];
    }
  }

  /** Decoding undoes encoding, for every byte string and both variants. */
  lemma RoundTrip(data: GoString, variant: Variant)
    ensures Decode(Encode(data, variant), variant) == Some(data)
  {
    EncodeInAlphabet(data, variant);
    NoBreaks(Encode(data, variant), variant);
    GroupsRoundTrip(data, variant);
  }

  /** Neither in the alphabet nor, where there is padding, the padding character. */
  predicate Foreign(c: char, variant: Variant) { Value(c, variant).None? && (variant.Std? ==> c != '=') }

  /** A foreign character, not a line break, makes the whole text undecodable. */
  lemma {:induction false} ForeignCharacter(s: string, i: nat, variant: Variant)
    requires i < |s| && Foreign(s[i], variant) && s[i] != '\n' && s[i] != '\r'
    ensures Decode(s, variant).None?
  {
    DropKeeps(s, s[i]);
    ForeignGroups(DropBreaks(s), s[i], variant);
  }

  lemma {:induction false} DropKeeps(s: string, c: char)
    requires c in s && c != '\n' && c != '\r'
    ensures c in DropBreaks(s)
  {
    if s[0] != c {
      DropKeeps(s[1..], c);
    }
  }

  lemma {:induction false} ForeignGroups(s: string, c: char, variant: Variant)
    requires c in s && Foreign(c, variant)
    ensures DecodeGroups(s, variant).None?
  {
    if |s| > 4 && c in s[4..] {
      ForeignGroups(s[4..], c, variant);
    }
  }

  // ---- The encoding of RFC 4648, and no other ----

  /** Table 1 of RFC 4648, section 4. */
  function AlphabetTable(): string { "ABCDEFGHIJKLMNOPQRSTUVWXYZ" + ("abcdefghijklmnopqrstuvwxyz" + "0123456789+/") }

  lemma LettersOfTable(v: nat)
    requires v < 26
    ensures ("ABCDEFGHIJKLMNOPQRSTUVWXYZ")[v] == ('A' as int + v) as char
    ensures ("abcdefghijklmnopqrstuvwxyz")[v] == ('a' as int + v) as char
  {
  }

  lemma AlphabetIsTable(v: nat, variant: Variant)
    requires v < 64
    ensures |AlphabetTable()| == 64
    ensures Symbol(v, variant) == if variant.RawUrl? && v == 62 then '-' else if variant.RawUrl? && v == 63 then '_' else AlphabetTable()[v]
  {
    if v < 26 {
      LettersOfTable(v);
    } else if v < 52 {
      LettersOfTable(v - 26);
    }
  }

  /** Three bytes and their four sextets are one 24-bit number, highest first. */
  lemma GroupIsNumber(a: nat, b: nat, c: nat)
    requires a < 256 && b < 256 && c < 256
    ensures var (p, q, r, s) := Sextets(a, b, c);
            0x4_0000 * p + 0x1000 * q + 0x40 * r + s == 0x1_0000 * a + 0x100 * b + c
  {
  }

  lemma OneGroupLonger(n: nat)
    ensures (n + 3 + 2) / 3 * 4 == (n + 2) / 3 * 4 + 4 && ((n + 3) * 4 + 2) / 3 == (n * 4 + 2) / 3 + 4
  {
  }

  /** Padded to whole groups, or cut to what the bytes need. */
  lemma {:induction false} EncodedLength(data: GoString, variant: Variant)
    ensures |Encode(data, variant)| == if variant.Std? then (|data| + 2) / 3 * 4 else (|data| * 4 + 2) / 3
  {
    if |data| > 2 {
      EncodedLength(data[3..], variant);
      OneGroupLonger(|data| - 3);
    }
  }
}
