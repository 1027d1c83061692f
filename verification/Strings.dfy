/** The parts of Go's `strings` package the modelled code relies on, as functions on
    Dafny strings, with the splitting and joining laws the parsers need. */
module Strings {

  datatype Option<+T> = None | Some(value: T)

  datatype Result<+T> = Ok(value: T) | Err

  // A Go string is a sequence of bytes; where bytes matter a character stands for one byte.
  type Octet = c: char | c as int < 256
  type GoString = seq<Octet>

  /** strings.TrimPrefix: `s` without `prefix` when it starts with it, else `s`. */
  function TrimPrefix(s: string, prefix: string): (r: string)
    ensures prefix <= s ==> prefix + r == s
    ensures !(prefix <= s) ==> r == s
  {
    if prefix <= s then s[|prefix|..] else s
  }

  /** strings.IndexByte: the first index of `c` in `s`, or |s| when there is none. */
  function IndexOf(s: string, c: char): (i: nat)
    ensures i <= |s|
    ensures c !in s[..i]
    ensures i < |s| ==> s[i] == c
    ensures i == |s| <==> c !in s
  {
    if s == [] then 0
    else if s[0] == c then 0
    else
      var j := IndexOf(s[1..], c);
      assert s == [s[0]] + s[1..];
      assert s[..j + 1] == [s[0]] + s[1..][..j];
      j + 1
  }

  lemma IndexOfFirst(before: string, c: char, after: string)
    requires c !in before
    ensures IndexOf(before + [c] + after, c) == |before|
  {
    var s := before + [c] + after;
    var i := IndexOf(s, c);
    assert s[|before|] == c;
    assert forall k :: 0 <= k < |before| ==> s[k] == before[k];
    assert forall k :: 0 <= k < i ==> s[..i][k] == s[k];
  }

  /** strings.Cut around the single character `sep`. */
  function Cut(s: string, sep: char): (r: Option<(string, string)>)
    ensures r.Some? <==> sep in s
    ensures r.Some? ==> s == r.value.0 + [sep] + r.value.1 && sep !in r.value.0
  {
    var i := IndexOf(s, sep);
    if i == |s| then None else
      assert s == s[..i] + [sep] + s[i + 1..];
      Some((s[..i], s[i + 1..]))
  }

  lemma CutAt(before: string, sep: char, after: string)
    requires sep !in before
    ensures Cut(before + [sep] + after, sep) == Some((before, after))
  {
    IndexOfFirst(before, sep, after);
    var s := before + [sep] + after;
    assert s[..|before|] == before && s[|before| + 1..] == after;
  }

  /** strings.Cut around the first occurrence of `sep`. */
  function CutString(s: string, sep: string): (r: Option<(string, string)>)
    ensures r.Some? ==> s == r.value.0 + sep + r.value.1
  {
    if sep <= s then Some(([], s[|sep|..]))
    else if s == [] then None
    else match CutString(s[1..], sep)
      case None => None
      case Some((before, after)) => Some(([s[0]] + before, after))
  }

  /** The cut falls after `before` when `sep` cannot start inside it. */
  lemma {:induction false} CutStringAt(before: string, sep: string, after: string)
    requires sep != [] && sep[0] !in before
    ensures CutString(before + sep + after, sep) == Some((before, after))
  {
    var s := before + sep + after;
    if before == [] {
      assert s == sep + after;
    } else {
      assert s[0] == before[0];
      assert s[1..] == before[1..] + sep + after;
      CutStringAt(before[1..], sep, after);
      assert before == [before[0]] + before[1..];
    }
  }

  /** strings.Split by one character: always at least one part. */
  function Split(s: string, sep: char): (parts: seq<string>)
    ensures |parts| > 0
  {
    if s == [] then [[]]
    else
      var rest := Split(s[1..], sep);
      if s[0] == sep then [[]] + rest else OntoFirst(s[0], rest)
  }

  /** strings.Join with a one-character separator. */
  function Join(parts: seq<string>, sep: char): string
  {
    if parts == [] then []
    else if |parts| == 1 then parts[0]
    else parts[0] + [sep] + Join(parts[1..], sep)
  }

  predicate NoneContain(parts: seq<string>, sep: char) {
    forall i :: 0 <= i < |parts| ==> sep !in parts[i]
  }

  lemma {:induction false} SplitNoneContain(s: string, sep: char)
    ensures NoneContain(Split(s, sep), sep)
  {
    if s != [] {
      SplitNoneContain(s[1..], sep);
    }
  }

  /** Two lists of parts laid end to end, the last part of `x` running on into the first of `y`. */
  function Glue(x: seq<string>, y: seq<string>): seq<string>
    requires x != [] && y != []
  {
    x[..|x| - 1] + [x[|x| - 1] + y[0]] + y[1..]
  }

  function OntoFirst(c: char, x: seq<string>): seq<string>
    requires x != []
  {
    [[c] + x[0]] + x[1..]
  }

  lemma GlueOntoFirst(c: char, x: seq<string>, y: seq<string>)
    requires x != [] && y != []
    ensures Glue(OntoFirst(c, x), y) == OntoFirst(c, Glue(x, y))
  {
    if |x| == 1 {
      assert [c] + (x[0] + y[0]) == [c] + x[0] + y[0];
    }
  }

  /** Splitting distributes over concatenation: the two middle parts fuse. */
  lemma {:induction false} SplitConcat(a: string, b: string, sep: char)
    ensures Split(a + b, sep) == Glue(Split(a, sep), Split(b, sep))
  {
    if a == [] {
      assert a + b == b;
      assert [] + Split(b, sep)[0] == Split(b, sep)[0];
    } else {
      assert (a + b)[1..] == a[1..] + b;
      SplitConcat(a[1..], b, sep);
      var t, y := Split(a[1..], sep), Split(b, sep);
      if a[0] == sep {
        assert Glue([[]] + t, y) == [[]] + Glue(t, y);
      } else {
        GlueOntoFirst(a[0], t, y);
      }
    }
  }

  lemma {:induction false} SplitSingle(s: string, sep: char)
    requires sep !in s
    ensures Split(s, sep) == [s]
  {
    if s != [] {
      SplitSingle(s[1..], sep);
      assert s == [s[0]] + s[1..];
    }
  }

  /** Join then Split gives the parts back when none holds the separator. */
  lemma {:induction false} SplitOfJoin(parts: seq<string>, sep: char)
    requires parts != [] && NoneContain(parts, sep)
    ensures Split(Join(parts, sep), sep) == parts
  {
    SplitSingle(parts[0], sep);
    if |parts| > 1 {
      var tail := Join(parts[1..], sep);
      SplitOfJoin(parts[1..], sep);
      assert Split([sep] + tail, sep) == [[]] + parts[1..] by {
        assert ([sep] + tail)[1..] == tail;
      }
      SplitConcat(parts[0], [sep] + tail, sep);
      assert parts[0] + [sep] + tail == parts[0] + ([sep] + tail);
      assert parts[0] + [] == parts[0];
    }
  }

  /** strings.FieldsFunc: the maximal runs of characters that are not separators. */
  function FieldsFunc(s: string, isSep: char -> bool): seq<string> {
    if s == [] then []
    else if isSep(s[0]) then FieldsFunc(s[1..], isSep)
    else
      var rest := FieldsFunc(s[1..], isSep);
      if |s| > 1 && !isSep(s[1]) && rest != [] then [[s[0]] + rest[0]] + rest[1..] else [[s[0]]] + rest
  }

  predicate IsWord(w: string, isSep: char -> bool) { w != "" && forall i :: 0 <= i < |w| ==> !isSep(w[i]) }

  /** A word, ended by a separator or by the text itself, is the first field. */
  lemma {:induction false} FieldsOfWord(w: string, rest: string, isSep: char -> bool)
    requires IsWord(w, isSep) && (rest != "" ==> isSep(rest[0]))
    ensures FieldsFunc(w + rest, isSep) == [w] + FieldsFunc(rest, isSep)
  {
    var s := w + rest;
    assert s[1..] == w[1..] + rest;
    if |w| > 1 {
      FieldsOfWord(w[1..], rest, isSep);
      assert [s[0]] + w[1..] == w;
    } else {
      assert w[1..] + rest == rest;
      assert [s[0]] == w;
    }
  }

  /** Each line followed by a newline, the way a text file is written. */
  function Unlines(lines: seq<string>): string
  {
    if lines == [] then [] else lines[0] + ['\n'] + Unlines(lines[1..])
  }

  /** Splitting printed lines gives them back, plus the empty piece after the last newline. */
  lemma {:induction false} SplitOfUnlines(lines: seq<string>)
    requires NoneContain(lines, '\n')
    ensures Split(Unlines(lines), '\n') == lines + [[]]
  {
    if lines != [] {
      var tail := Unlines(lines[1..]);
      SplitOfUnlines(lines[1..]);
      SplitSingle(lines[0], '\n');
      assert Split(['\n'] + tail, '\n') == [[]] + Split(tail, '\n') by {
        assert (['\n'] + tail)[1..] == tail;
      }
      SplitConcat(lines[0], ['\n'] + tail, '\n');
      assert lines[0] + ['\n'] + tail == lines[0] + (['\n'] + tail);
      assert lines[0] + [] == lines[0];
    }
  }

  /** strings.TrimRight with the single-character cutset `c`. */
  function TrimRight(s: string, c: char): (r: string)
    ensures r <= s
    ensures r != [] ==> r[|r| - 1] != c
    ensures forall i :: |r| <= i < |s| ==> s[i] == c
  {
    if s == [] || s[|s| - 1] != c then s else TrimRight(s[..|s| - 1], c)
  }

  /** `lines` without its trailing empty lines. */
  function DropTrailingEmpty(lines: seq<string>): (r: seq<string>)
    ensures r <= lines
    ensures r != [] ==> r[|r| - 1] != []
    ensures forall i :: |r| <= i < |lines| ==> lines[i] == []
  {
    if lines == [] || lines[|lines| - 1] != [] then lines else DropTrailingEmpty(lines[..|lines| - 1])
  }

  lemma {:induction false} JoinSnoc(parts: seq<string>, last: string, sep: char)
    requires parts != []
    ensures Join(parts + [last], sep) == Join(parts, sep) + [sep] + last
  {
    assert (parts + [last])[1..] == parts[1..] + [last];
    if |parts| > 1 {
      JoinSnoc(parts[1..], last, sep);
    } else {
      assert Join([last], sep) == last;
    }
  }

  /** Trimming newlines off joined lines drops exactly the trailing empty lines. */
  lemma {:induction false} TrimRightOfJoin(lines: seq<string>)
    requires NoneContain(lines, '\n')
    ensures TrimRight(Join(lines, '\n'), '\n') == Join(DropTrailingEmpty(lines), '\n')
  {
    if lines != [] {
      var front, last := lines[..|lines| - 1], lines[|lines| - 1];
      assert lines == front + [last];
      var s := Join(lines, '\n');
      if front == [] {
        assert s == last;
        if last != [] {
          assert s[|s| - 1] in last;
        } else {
          assert DropTrailingEmpty(front) == [];
        }
      } else {
        JoinSnoc(front, last, '\n');
        if last != [] {
          assert s[|s| - 1] == last[|last| - 1];
          assert s[|s| - 1] in last;
        } else {
          assert s[..|s| - 1] == Join(front, '\n');
          TrimRightOfJoin(front);
        }
      }
    }
  }
}
