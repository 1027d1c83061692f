/** The access tokens of auth/token.go: class prefix, thirty-character body, and a CRC-32C in
    six base-62 digits that lets a mistyped token be rejected offline. */
module Token {
  import opened Strings
  import opened Crc32c

  const BodyLen := 30
  const ChecksumLen := 6

  const ClassicPAT: GoString := "ghp_"
  const FineGrained: GoString := "github_pat_"
  const OAuth: GoString := "gho_"
  const UserToServer: GoString := "ghu_"
  const Install: GoString := "ghs_"
  const Refresh: GoString := "ghr_"

  /** The prefixes in the order classPrefix tries them. */
  function Prefixes(): seq<GoString> { [FineGrained, ClassicPAT, OAuth, UserToServer, Install, Refresh] }

  predicate KnownPrefix(p: GoString) {
    p == ClassicPAT || p == FineGrained || p == OAuth || p == UserToServer || p == Install || p == Refresh
  }

  // ---- Base 62 ----

  /** base62Alphabet[d]. */
  function Digit(d: nat): (c: Octet)
    requires d < 62
  {
    if d < 10 then ('0' as int + d) as char
    else if d < 36 then ('A' as int + (d - 10)) as char
    else ('a' as int + (d - 36)) as char
  }

  function Base62(n: nat): (s: GoString)
    ensures s != []
  {
    if n < 62 then [Digit(n)] else Base62(n / 62) + [Digit(n % 62)]
  }

  function Pow62(k: nat): (p: nat)
    ensures p > 0
  {
    if k == 0 then 1 else 62 * Pow62(k - 1)
  }

  /** A number below 62^k, k at least one, has at most k digits. */
  lemma {:induction false} Base62Length(n: nat, k: nat)
    requires k > 0 && n < Pow62(k)
    ensures |Base62(n)| <= k
  {
    if n >= 62 {
      assert Pow62(1) == 62;
      Base62Length(n / 62, k - 1);
    }
  }

  function Zeros0(k: nat): (s: GoString)
    ensures |s| == k
  {
    if k == 0 then [] else ['0'] + Zeros0(k - 1)
  }

  function LeftPadded(s: GoString, n: nat): (r: GoString)
    ensures |r| == if |s| < n then n else |s|
  {
    if |s| < n then Zeros0(n - |s|) + s else s
  }

  /** The base-62 number a text of digits denotes; characters outside the alphabet count as 0. */
  function DigitValue(c: char): nat {
    if '0' <= c <= '9' then c as int - '0' as int
    else if 'A' <= c <= 'Z' then c as int - 'A' as int + 10
    else if 'a' <= c <= 'z' then c as int - 'a' as int + 36
    else 0
  }

  function Base62Value(s: GoString): nat {
    if s == [] then 0 else 62 * Base62Value(s[..|s| - 1]) + DigitValue(s[|s| - 1])
  }

  lemma {:induction false} Base62RoundTrip(n: nat, k: nat)
    ensures Base62Value(Zeros0(k) + Base62(n)) == n
  {
    var s := Zeros0(k) + Base62(n);
    if n < 62 {
      assert s[..|s| - 1] == Zeros0(k);
      ZerosValue(k);
    } else {
      assert s[..|s| - 1] == Zeros0(k) + Base62(n / 62);
      Base62RoundTrip(n / 62, k);
    }
  }

  lemma {:induction false} ZerosSnoc(k: nat)
    ensures Zeros0(k + 1) == Zeros0(k) + ['0']
  {
    if k > 0 {
      ZerosSnoc(k - 1);
    }
  }

  lemma {:induction false} ZerosValue(k: nat)
    ensures Base62Value(Zeros0(k)) == 0
  {
    if k > 0 {
      ZerosSnoc(k - 1);
      assert Zeros0(k)[..k - 1] == Zeros0(k - 1);
      ZerosValue(k - 1);
    }
  }

  // ---- The checksum and its check ----

  /** checksum: the last six digits, were there more, else zero-padded on the left. */
  function ChecksumText(body: GoString): (c: GoString)
    ensures |c| == ChecksumLen
  {
    var c := Base62(Checksum(body));
    LeftPadded(if |c| > ChecksumLen then c[|c| - ChecksumLen..] else c, ChecksumLen)
  }

  /** Six digits are enough for 32 bits, so nothing is ever cut off. */
  lemma NothingTruncated(body: GoString)
    ensures |Base62(Checksum(body))| <= ChecksumLen
    ensures Base62Value(ChecksumText(body)) == Checksum(body)
  {
    SixDigits(Checksum(body));
  }

  lemma SixDigits(n: nat)
    requires n < 0x1_0000_0000
    ensures |Base62(n)| <= ChecksumLen && Base62Value(LeftPadded(Base62(n), ChecksumLen)) == n
  {
    var c := Base62(n);
    assert Pow62(3) == 238328;
    assert Pow62(6) == 238328 * 238328;
    Base62Length(n, ChecksumLen);
    Base62RoundTrip(n, ChecksumLen - |c|);
    assert Zeros0(0) + c == c;
  }

  /** classPrefix: the first prefix, in order, that the token starts with; "" when none does. */
  function ClassPrefix(token: GoString): GoString {
    if FineGrained <= token then FineGrained
    else if ClassicPAT <= token then ClassicPAT
    else if OAuth <= token then OAuth
    else if UserToServer <= token then UserToServer
    else if Install <= token then Install
    else if Refresh <= token then Refresh
    else ""
  }

  predicate VerifyChecksum(token: GoString) {
    var prefix := ClassPrefix(token);
    if prefix == "" then false
    else
      var rest := token[|prefix|..];
      |rest| == BodyLen + ChecksumLen && rest[BodyLen..] == ChecksumText(rest[..BodyLen])
  }

  /** No prefix starts a token of another class, so the class is read back whatever follows. */
  lemma ClassPrefixOf(prefix: GoString, rest: GoString)
    requires KnownPrefix(prefix)
    ensures ClassPrefix(prefix + rest) == prefix
  {
    var token := prefix + rest;
    assert prefix <= token;
    assert token[2] == prefix[2];
    assert FineGrained[2] == 't' && ClassicPAT[2] == 'p' && OAuth[2] == 'o';
    assert UserToServer[2] == 'u' && Install[2] == 's' && Refresh[2] == 'r';
  }

  /** A token issued for `body` under `prefix`. */
  predicate Issued(token: GoString, prefix: GoString, body: GoString) {
    KnownPrefix(prefix) && |body| == BodyLen && token == prefix + body + ChecksumText(body)
  }

  /** What passes the check, exactly: a known prefix, a thirty-character body, its checksum. */
  lemma VerifiesExactly(token: GoString)
    ensures VerifyChecksum(token) <==> exists prefix, body :: Issued(token, prefix, body)
  {
    if VerifyChecksum(token) {
      VerifiedIsIssued(token);
    }
    forall prefix, body | Issued(token, prefix, body) ensures VerifyChecksum(token) {
      TokenVerifies(prefix, body);
    }
  }

  lemma ClassPrefixIsKnown(token: GoString)
    ensures ClassPrefix(token) <= token
    ensures ClassPrefix(token) != "" ==> KnownPrefix(ClassPrefix(token))
  {
  }

  lemma SplitToken(token: GoString, prefix: GoString)
    requires prefix <= token && |token| - |prefix| >= BodyLen
    ensures var rest := token[|prefix|..]; token == prefix + rest[..BodyLen] + rest[BodyLen..]
  {
  }

  lemma VerifiedIsIssued(token: GoString)
    requires VerifyChecksum(token)
    ensures exists body :: Issued(token, ClassPrefix(token), body)
  {
    var prefix := ClassPrefix(token);
    ClassPrefixIsKnown(token);
    SplitToken(token, prefix);
    var rest := token[|prefix|..];
    IssuedParts(token, prefix, rest[..BodyLen], rest[BodyLen..]);
  }

  lemma IssuedParts(token: GoString, prefix: GoString, body: GoString, c: GoString)
    requires KnownPrefix(prefix) && |body| == BodyLen && c == ChecksumText(body) && token == prefix + body + c
    ensures Issued(token, prefix, body)
  {
  }

  lemma ClassPrefixOfToken(prefix: GoString, body: GoString, c: GoString)
    requires KnownPrefix(prefix)
    ensures ClassPrefix(prefix + body + c) == prefix
    ensures (prefix + body + c)[|prefix|..] == body + c
  {
    ClassPrefixOf(prefix, body + c);
    assert prefix + body + c == prefix + (body + c);
  }

  /** A text of a known class and the right length passes exactly when its last six characters are
      the checksum of its body. */
  lemma VerifyParts(prefix: GoString, body: GoString, c: GoString)
    requires KnownPrefix(prefix) && |body| == BodyLen
    ensures VerifyChecksum(prefix + body + c) <==> c == ChecksumText(body)
  {
    ClassPrefixOfToken(prefix, body, c);
    var rest := body + c;
    assert rest[..BodyLen] == body && rest[BodyLen..] == c;
    assert prefix != "";
  }

  lemma TokenVerifies(prefix: GoString, body: GoString)
    requires KnownPrefix(prefix) && |body| == BodyLen
    ensures VerifyChecksum(prefix + body + ChecksumText(body))
  {
    VerifyParts(prefix, body, ChecksumText(body));
  }

  /** A change confined to four adjacent characters of the body is rejected, the checksum staying
      as issued. */
  lemma BodyChangeRejected(prefix: GoString, before: GoString, v: GoString, w: GoString, after: GoString)
    requires KnownPrefix(prefix) && |before + v + after| == BodyLen
    requires |v| == |w| <= 4 && v != w
    ensures !VerifyChecksum(prefix + (before + w + after) + ChecksumText(before + v + after))
  {
    var issued, typed := before + v + after, before + w + after;
    ChecksumSeparates(before, v, w, after);
    NothingTruncated(issued);
    NothingTruncated(typed);
    VerifyParts(prefix, typed, ChecksumText(issued));
  }

  // ---- The code's own loops ----

  /** base62Uint: digits are written from the end of an eleven-byte buffer. */
  method Base62Uint(n: nat) returns (s: GoString)
    requires n < 0x1_0000_0000_0000_0000
    ensures s == Base62(n)
  {
    if n == 0 {
      return "0";
    }
    var b := new Octet[11](_ => '0');
    var i, m: nat := 11, n;
    ghost var done: GoString := [];
    Pow62Eleven();
    while m > 0
      invariant 0 <= i <= 11 && m < Pow62(i) && b[i..] == done
      invariant m > 0 ==> Base62(m) + done == Base62(n)
      invariant m == 0 ==> done == Base62(n)
      decreases m
    {
      PeelDigit(m, done);
      i := i - 1;
      b[i] := Digit(m % 62);
      done := [Digit(m % 62)] + done;
      assert b[i..] == done;
      m := m / 62;
    }
    s := b[i..];
  }

  lemma PeelDigit(m: nat, done: GoString)
    requires m > 0
    ensures m >= 62 ==> Base62(m) + done == Base62(m / 62) + ([Digit(m % 62)] + done)
    ensures m < 62 ==> Base62(m) + done == [Digit(m % 62)] + done
  {
  }

  lemma Pow62Eleven()
    ensures Pow62(11) > 0x1_0000_0000_0000_0000
  {
    assert Pow62(3) == 238328;
    assert Pow62(6) == 238328 * 238328;
    assert Pow62(9) == 238328 * 238328 * 238328;
  }

  method LeftPad(s: GoString, n: nat) returns (r: GoString)
    ensures r == LeftPadded(s, n)
  {
    r := s;
    while |r| < n
      invariant |s| <= |r| && (|r| <= n || r == s)
      invariant r == Zeros0(|r| - |s|) + s
      decreases n - |r|
    {
      r := ['0'] + r;
    }
  }

  method TokenChecksum(body: GoString) returns (c: GoString)
    ensures c == ChecksumText(body)
  {
    c := Base62Uint(Checksum(body));
    if |c| > ChecksumLen {
      c := c[|c| - ChecksumLen..];
    }
    c := LeftPad(c, ChecksumLen);
  }

  method FindClassPrefix(token: GoString) returns (p: GoString)
    ensures p == ClassPrefix(token)
  {
    var all := Prefixes();
    for i := 0 to |all|
      invariant forall j :: 0 <= j < i ==> !(all[j] <= token)
    {
      if all[i] <= token {
        assert i > 0 ==> !(all[0] <= token);
        assert i > 1 ==> !(all[1] <= token);
        assert i > 2 ==> !(all[2] <= token);
        assert i > 3 ==> !(all[3] <= token);
        assert i > 4 ==> !(all[4] <= token);
        return all[i];
      }
    }
    assert !(all[0] <= token) && !(all[1] <= token) && !(all[2] <= token);
    assert !(all[3] <= token) && !(all[4] <= token) && !(all[5] <= token);
    return "";
  }

  datatype Generated = Generated(plaintext: GoString, prefix: GoString, hash: GoString, last8: GoString)

  /** What GenerateToken promises of a token: its own class, a body kept whole, a passing check. */
  ghost predicate Proper(g: Generated, prefix: GoString, body: GoString, sha256: GoString -> GoString) {
    && g.prefix == prefix && ClassPrefix(g.plaintext) == prefix
    && VerifyChecksum(g.plaintext) && Issued(g.plaintext, prefix, body)
    && g.hash == sha256(g.plaintext)
    && |g.plaintext| >= 8 && g.last8 == g.plaintext[|g.plaintext| - 8..]
  }

  /** GenerateToken, the random body and the SHA-256 function being parameters: an unknown prefix is
      refused, and every token handed out is proper. */
  method GenerateToken(prefix: GoString, body: GoString, sha256: GoString -> GoString) returns (r: Result<Generated>)
    requires |body| == BodyLen
    ensures r.Ok? <==> KnownPrefix(prefix)
    ensures r.Ok? ==> Proper(r.value, prefix, body, sha256)
  {
    if !KnownPrefix(prefix) {
      return Err;
    }
    var sum := TokenChecksum(body);
    var plain := prefix + body + sum;
    IssuedIsProper(prefix, body);
    return Ok(Generated(plain, prefix, sha256(plain), plain[|plain| - 8..]));
  }

  lemma IssuedIsProper(prefix: GoString, body: GoString)
    requires KnownPrefix(prefix) && |body| == BodyLen
    ensures var plain := prefix + body + ChecksumText(body);
            Issued(plain, prefix, body) && ClassPrefix(plain) == prefix && VerifyChecksum(plain)
  {
    TokenVerifies(prefix, body);
    ClassPrefixOfToken(prefix, body, ChecksumText(body));
  }

  // ---- The digits ----

  /** The alphabet secret scanners look for. */
  function DigitTable(): string { "0123456789" + ("ABCDEFGHIJKLMNOPQRSTUVWXYZ" + "abcdefghijklmnopqrstuvwxyz") }

  lemma LettersOfTable(v: nat)
    requires v < 26
    ensures ("ABCDEFGHIJKLMNOPQRSTUVWXYZ")[v] == ('A' as int + v) as char
    ensures ("abcdefghijklmnopqrstuvwxyz")[v] == ('a' as int + v) as char
  {
  }

  lemma DigitsAreTable(d: nat)
    requires d < 62
    ensures |DigitTable()| == 62 && Digit(d) == DigitTable()[d]
  {
    if 10 <= d < 36 {
      LettersOfTable(d - 10);
    } else if d >= 36 {
      LettersOfTable(d - 36);
    }
  }

  /** A number and one more digit, written in order. */
  lemma Base62InOrder(n: nat, d: nat)
    requires n > 0 && d < 62
    ensures Base62(62 * n + d) == Base62(n) + [DigitTable()[d]] && Base62(d) == [DigitTable()[d]]
  {
    DigitsAreTable(d);
    assert (62 * n + d) / 62 == n && (62 * n + d) % 62 == d;
  }
}
