/** The code a person types in the device flow: genUserCode and normalizeUserCode (auth/device.go). */
module UserCode {

  predicate IsLower(c: char) { 'a' <= c <= 'z' }

  /** Kept as it is: an upper-case letter or a digit. */
  predicate IsKept(c: char) { 'A' <= c <= 'Z' || '0' <= c <= '9' }

  function Upper(c: char): (u: char)
    requires IsLower(c)
    ensures IsKept(u)
  {
    (c as int - 32) as char
  }

  /** The letters and digits of a typed code, in upper case. */
  function Letters(s: string): string {
    if s == "" then ""
    else
      var front, c := Letters(s[..|s| - 1]), s[|s| - 1];
      if IsLower(c) then front + [Upper(c)] else if IsKept(c) then front + [c] else front
  }

  /** Eight letters are shown as two groups of four. */
  function Dashed(code: string): string { if |code| == 8 then code[..4] + "-" + code[4..] else code }

  function Normalized(s: string): string { Dashed(Letters(s)) }

  method NormalizeUserCode(s: string) returns (r: string)
    ensures r == Normalized(s)
  {
    var code := "";
    for i := 0 to |s|
      invariant code == Letters(s[..i])
    {
      assert s[..i + 1][..i] == s[..i];
      if 'a' <= s[i] <= 'z' {
        code := code + [(s[i] as int - 32) as char];
      } else if ('A' <= s[i] <= 'Z') || ('0' <= s[i] <= '9') {
        code := code + [s[i]];
      }
    }
    assert s[..|s|] == s;
    if |code| == 8 {
      return code[..4] + "-" + code[4..];
    }
    return code;
  }

  predicate AllKept(s: string) { forall i :: 0 <= i < |s| ==> IsKept(s[i]) }

  lemma {:induction false} LettersAreKept(s: string)
    ensures AllKept(Letters(s))
  {
    if s != "" {
      LettersAreKept(s[..|s| - 1]);
    }
  }

  lemma {:induction false} LettersOfKept(s: string)
    requires AllKept(s)
    ensures Letters(s) == s
  {
    if s != "" {
      LettersOfKept(s[..|s| - 1]);
    }
  }

  lemma {:induction false} LettersConcat(a: string, b: string)
    ensures Letters(a + b) == Letters(a) + Letters(b)
  {
    if b == "" {
      assert a + b == a;
    } else {
      assert (a + b)[..|a + b| - 1] == a + b[..|b| - 1];
      LettersConcat(a, b[..|b| - 1]);
    }
  }

  lemma LettersOfDashed(code: string)
    requires AllKept(code)
    ensures Letters(Dashed(code)) == code
  {
    if |code| == 8 {
      var head, tail := code[..4], code[4..];
      LettersOfKept(head);
      LettersOfKept(tail);
      LettersConcat(head + "-", tail);
      LettersConcat(head, "-");
      assert Letters("-") == "" by { assert "-"[..0] == ""; }
      assert head + "" == head && head + tail == code;
    } else {
      LettersOfKept(code);
    }
  }

  /** Two typed codes are the same code exactly when they have the same letters and digits: case,
      dashes and spaces do not matter, and nothing else is forgiven. */
  lemma SameCode(s: string, t: string)
    ensures Normalized(s) == Normalized(t) <==> Letters(s) == Letters(t)
  {
    LettersAreKept(s);
    LettersAreKept(t);
    LettersOfDashed(Letters(s));
    LettersOfDashed(Letters(t));
  }

  const ALPHABET := "BCDFGHJKLMNPQRSTVWXZ"

  /** genUserCode over eight random bytes. */
  method GenUserCode(random: seq<nat>) returns (code: string)
    requires |random| == 8
    ensures exists letters :: |letters| == 8 && code == Dashed(letters) && forall i :: 0 <= i < 8 ==> letters[i] == ALPHABET[random[i] % 20]
    ensures |code| == 9 && code[4] == '-' && forall i :: 0 <= i < 8 ==> code[if i < 4 then i else i + 1] == ALPHABET[random[i] % 20]
  {
    var b := "";
    for i := 0 to 8
      invariant |b| == i && forall k :: 0 <= k < i ==> b[k] == ALPHABET[random[k] % 20]
    {
      b := b + [ALPHABET[random[i] % |ALPHABET|]];
    }
    code := b[..4] + "-" + b[4..];
    assert code == Dashed(b);
  }

  /** A generated code is stored in the form every way of typing it normalizes to. */
  lemma GeneratedMatches(letters: string, typed: string)
    requires |letters| == 8 && forall i :: 0 <= i < 8 ==> letters[i] in ALPHABET
    requires Letters(typed) == letters
    ensures Normalized(typed) == Dashed(letters) == Normalized(Dashed(letters))
  {
    forall i | 0 <= i < 8 ensures IsKept(letters[i]) {
      var k :| 0 <= k < |ALPHABET| && ALPHABET[k] == letters[i];
    }
    LettersOfDashed(letters);
  }

  // ---- What counts as the same typing ----

  /** One character, or the two cases of one letter. */
  predicate SameLetter(c: char, d: char) {
    || c == d || ('a' <= c <= 'z' && d as int + 32 == c as int) || ('a' <= d <= 'z' && c as int + 32 == d as int)
  }

  /** Typing a code in the other case, whole or in part, is typing the same code. */
  lemma {:induction false} CaseDoesNotMatter(s: string, t: string)
    requires |s| == |t| && forall i :: 0 <= i < |s| ==> SameLetter(s[i], t[i])
    ensures Letters(s) == Letters(t) && Normalized(s) == Normalized(t)
  {
    if s != "" {
      var n := |s| - 1;
      CaseDoesNotMatter(s[..n], t[..n]);
      assert SameLetter(s[n], t[n]);
    }
  }

  /** A character that is no ASCII letter or digit may be typed anywhere. */
  lemma OthersDoNotMatter(a: string, c: char, b: string)
    requires !('a' <= c <= 'z') && !('A' <= c <= 'Z') && !('0' <= c <= '9')
    ensures Normalized(a + [c] + b) == Normalized(a + b)
  {
    LettersConcat(a + [c], b);
    LettersConcat(a, b);
    assert (a + [c])[..|a|] == a;
  }

  /** Upper-case letters and digits are all significant. */
  lemma LettersAndDigitsMatter(s: string, t: string)
    requires forall i :: 0 <= i < |s| ==> 'A' <= s[i] <= 'Z' || '0' <= s[i] <= '9'
    requires forall i :: 0 <= i < |t| ==> 'A' <= t[i] <= 'Z' || '0' <= t[i] <= '9'
    ensures Normalized(s) == Normalized(t) <==> s == t
  {
    LettersOfKept(s);
    LettersOfKept(t);
    SameCode(s, t);
  }

  /** Every upper-case letter that is no vowel, and no other character. */
  lemma AlphabetExactly(c: char)
    ensures c in ALPHABET <==> 'A' <= c <= 'Z' && c !in "AEIOUY"
    ensures |ALPHABET| == 20
  {
    VowelsAre(c);
    if c in ALPHABET {
      AlphabetOnly(c);
    }
    if 'A' <= c <= 'Z' && c !in "AEIOUY" {
      AlphabetHas(c);
    }
  }

  lemma VowelsAre(c: char)
    ensures c in "AEIOUY" <==> c == 'A' || c == 'E' || c == 'I' || c == 'O' || c == 'U' || c == 'Y'
  {
    var v := "AEIOUY";
    assert v[0] == 'A' && v[1] == 'E' && v[2] == 'I' && v[3] == 'O' && v[4] == 'U' && v[5] == 'Y';
  }

  lemma AlphabetOnly(c: char)
    requires c in ALPHABET
    ensures 'A' <= c <= 'Z' && c != 'A' && c != 'E' && c != 'I' && c != 'O' && c != 'U' && c != 'Y'
  {
  }

  lemma AlphabetHas(c: char)
    requires 'A' <= c <= 'Z' && c != 'A' && c != 'E' && c != 'I' && c != 'O' && c != 'U' && c != 'Y'
    ensures c in ALPHABET
  {
    var n := c as int - 'A' as int;
    var k := if n < 4 then n - 1 else if n < 8 then n - 2 else if n < 14 then n - 3 else if n < 20 then n - 4 else if n < 24 then n - 5 else 19;
    assert ALPHABET[k] == c;
  }
}
