/** Reading the highlighted markup back: every character of the source, unescaped, under the class of the
    token it belongs to, line by line (markup/highlight_chroma.go, markup/highlight.go). */
module HighlightSpans {
  import opened Strings
  import opened Highlight

  // ---- A reader of markup ----

  /** A character as a browser shows it: itself, and the class it is under, "" for none. */
  datatype Shown = Shown(class_: string, c: char)

  const Break := Shown("", '\n')

  /** The character an entity stands for. */
  function Entity(name: string): char {
    match name
    case "amp" => '&'
    case "lt" => '<'
    case "gt" => '>'
    case "#34" => '"'
    case "#39" => '\''
    case _ => '?'
  }

  /** The class a tag puts the text under: that of a span, or none after its end. */
  function ClassOf(tag: string): string {
    if "span class=\"" <= tag && |tag| > 12 then tag[12..|tag| - 1] else ""
  }

  /** What markup shows, read from inside a span of the class. */
  function Read(html: string, class_: string): seq<Shown>
    decreases |html|
  {
    if html == "" then []
    else if html[0] == '<' then
      var end := IndexOf(html, '>');
      if end == |html| then [] else Read(html[end + 1..], ClassOf(html[1..end]))
    else if html[0] == '&' then
      var end := IndexOf(html, ';');
      if end == |html| then [] else [Shown(class_, Entity(html[1..end]))] + Read(html[end + 1..], class_)
    else [Shown(class_, html[0])] + Read(html[1..], class_)
  }

  function Styled(s: string, class_: string): seq<Shown> {
    if s == "" then [] else Styled(s[..|s| - 1], class_) + [if s[|s| - 1] == '\n' then Break else Shown(class_, s[|s| - 1])]
  }

  // ---- Escaped text and spans, read back ----

  lemma ReadEntity(name: string, class_: string, rest: string)
    requires ';' !in name
    ensures Read("&" + name + ";" + rest, class_) == [Shown(class_, Entity(name))] + Read(rest, class_)
  {
    var html := "&" + name + ";" + rest;
    assert html == ("&" + name) + [';'] + rest;
    IndexOfFirst("&" + name, ';', rest);
    assert html[1..|name| + 1] == name && html[|name| + 2..] == rest;
  }

  /** The entity a character is written as, if it is. */
  function NameOf(c: char): string {
    match c
    case '&' => "amp"
    case '<' => "lt"
    case '>' => "gt"
    case '"' => "#34"
    case '\'' => "#39"
    case _ => ""
  }

  lemma EntityNamed(c: char)
    ensures NameOf(c) != "" ==> EscapeChar(c) == "&" + NameOf(c) + ";" && Entity(NameOf(c)) == c && ';' !in NameOf(c)
    ensures NameOf(c) == "" ==> EscapeChar(c) == [c] && c != '<' && c != '&'
  {
  }

  lemma ReadChar(c: char, class_: string, rest: string)
    ensures Read(EscapeChar(c) + rest, class_) == [Shown(class_, c)] + Read(rest, class_)
  {
    EntityNamed(c);
    if NameOf(c) != "" {
      ReadEntity(NameOf(c), class_, rest);
    } else {
      assert ([c] + rest)[1..] == rest;
    }
  }

  lemma Assoc<T>(a: seq<T>, b: seq<T>, c: seq<T>)
    ensures a + (b + c) == a + b + c
  {
  }

  lemma {:induction false} ReadEscaped(s: string, class_: string, rest: string)
    requires '\n' !in s
    ensures Read(Escape(s) + rest, class_) == Styled(s, class_) + Read(rest, class_)
  {
    if s == "" {
      assert "" + rest == rest && [] + Read(rest, class_) == Read(rest, class_);
    } else {
      var front, c := s[..|s| - 1], s[|s| - 1];
      assert c in s;
      Assoc(Escape(front), EscapeChar(c), rest);
      ReadEscaped(front, class_, EscapeChar(c) + rest);
      ReadChar(c, class_, rest);
      Assoc(Styled(front, class_), [Shown(class_, c)], Read(rest, class_));
    }
  }

  lemma ReadTag(tag: string, class_: string, rest: string)
    requires '>' !in tag
    ensures Read("<" + tag + ">" + rest, class_) == Read(rest, ClassOf(tag))
  {
    var html := "<" + tag + ">" + rest;
    assert html == ("<" + tag) + ['>'] + rest;
    IndexOfFirst("<" + tag, '>', rest);
    assert html[1..|tag| + 1] == tag && html[|tag| + 2..] == rest;
  }

  lemma AttributeClass(c: string)
    ensures ClassOf(Attribute(c)) == c && ClassOf("/span") == ""
  {
    assert Attribute(c) == "span class=\"" + (c + "\"");
    assert Attribute(c)[12..|Attribute(c)| - 1] == c;
  }

  lemma ReadOpen(c: string, rest: string)
    requires c in CLASSES
    ensures Read(OpenTag(c) + rest, "") == Read(rest, c)
  {
    ClassesAreWords(c);
    OpenTagIsTag(c);
    AttributeClass(c);
    ReadTag(Attribute(c), "", rest);
  }

  lemma ReadClose(c: string, rest: string)
    ensures Read(CLOSE_TAG + rest, c) == Read(rest, "")
  {
    AttributeClass(c);
    ReadTag("/span", c, rest);
    assert CLOSE_TAG == "<" + "/span" + ">";
  }

  ghost predicate ShowsBefore(html: string, shown: seq<Shown>, rest: string) { Read(html + rest, "") == shown + Read(rest, "") }

  ghost predicate Unbroken(shown: seq<Shown>) { forall i :: 0 <= i < |shown| ==> shown[i].c != '\n' }

  /** The markup shows just this, whatever follows, and no line break. */
  ghost predicate Shows(html: string, shown: seq<Shown>) {
    && (html == "" <==> shown == [])
    && (forall rest :: ShowsBefore(html, shown, rest))
    && Unbroken(shown)
  }

  lemma {:induction false} StyledUnbroken(s: string, class_: string)
    requires '\n' !in s
    ensures Unbroken(Styled(s, class_))
  {
    if s != "" {
      StyledUnbroken(s[..|s| - 1], class_);
      assert s[|s| - 1] in s;
    }
  }

  lemma {:induction false} StyledLength(s: string, class_: string)
    ensures |Styled(s, class_)| == |s|
  {
    if s != "" {
      StyledLength(s[..|s| - 1], class_);
    }
  }

  lemma WrappedReads(open: string, text: string, close: string, rest: string)
    ensures open + (text + close) + rest == open + (text + (close + rest))
  {
  }

  lemma RenderReads(c: string, part: string, rest: string)
    requires c in CLASSES && '\n' !in part
    ensures ShowsBefore(Render(c, part), Styled(part, c), rest)
  {
    if part == "" {
      NothingReads(rest);
    } else if c == "" {
      PlainReads(part, rest);
    } else {
      SpanReads(c, part, rest);
    }
  }

  lemma NothingReads(rest: string)
    ensures ShowsBefore("", [], rest)
  {
    assert "" + rest == rest;
  }

  lemma PlainReads(part: string, rest: string)
    requires '\n' !in part
    ensures ShowsBefore(Escape(part), Styled(part, ""), rest)
  {
    ReadEscaped(part, "", rest);
  }

  lemma SpanReads(c: string, part: string, rest: string)
    requires c in CLASSES && '\n' !in part
    ensures ShowsBefore(OpenTag(c) + (Escape(part) + CLOSE_TAG), Styled(part, c), rest)
  {
    var open, text, close := OpenTag(c), Escape(part), CLOSE_TAG;
    WrappedReads(open, text, close, rest);
    ReadOpen(c, text + (close + rest));
    ReadEscaped(part, c, close + rest);
    ReadClose(c, rest);
  }

  /** A rendered part shows its text under its class. */
  lemma RenderShows(c: string, part: string)
    requires c in CLASSES && '\n' !in part
    ensures Shows(Render(c, part), Styled(part, c))
  {
    StyledUnbroken(part, c);
    StyledLength(part, c);
    RenderErases(c, part);
    forall rest ensures ShowsBefore(Render(c, part), Styled(part, c), rest) { RenderReads(c, part, rest); }
  }

  lemma FuseShows(a: string, x: seq<Shown>, b: string, y: seq<Shown>)
    requires Shows(a, x) && Shows(b, y)
    ensures Shows(a + b, x + y)
  {
    forall rest ensures ShowsBefore(a + b, x + y, rest) {
      assert ShowsBefore(a, x, b + rest) && ShowsBefore(b, y, rest);
      Assoc(a, b, rest);
      Assoc(x, y, Read(rest, ""));
    }
  }

  // ---- Lines ----

  function Joined(lines: seq<seq<Shown>>): seq<Shown> {
    if lines == [] then []
    else if |lines| == 1 then lines[0]
    else lines[0] + ([Break] + Joined(lines[1..]))
  }

  ghost predicate AllShows(html: seq<string>, lines: seq<seq<Shown>>) {
    |html| == |lines| && forall i :: 0 <= i < |html| ==> Shows(html[i], lines[i])
  }

  function Fused(x: seq<seq<Shown>>, y: seq<seq<Shown>>): seq<seq<Shown>>
    requires x != [] && y != []
  {
    x[..|x| - 1] + [x[|x| - 1] + y[0]] + y[1..]
  }

  lemma {:induction false} JoinedFused(x: seq<seq<Shown>>, y: seq<seq<Shown>>)
    requires x != [] && y != []
    ensures Joined(Fused(x, y)) == Joined(x) + Joined(y)
  {
    if |x| == 1 {
      assert Fused(x, y) == [x[0] + y[0]] + y[1..];
      assert Fused(x, y)[1..] == y[1..];
      if |y| > 1 {
        assert x[0] + y[0] + ([Break] + Joined(y[1..])) == x[0] + (y[0] + ([Break] + Joined(y[1..])));
      }
    } else {
      JoinedFused(x[1..], y);
      assert Fused(x, y)[1..] == Fused(x[1..], y) && Fused(x, y)[0] == x[0];
      assert x[0] + ([Break] + (Joined(x[1..]) + Joined(y))) == x[0] + ([Break] + Joined(x[1..])) + Joined(y);
    }
  }

  lemma GlueAllShows(x: seq<string>, sx: seq<seq<Shown>>, y: seq<string>, sy: seq<seq<Shown>>)
    requires x != [] && y != [] && AllShows(x, sx) && AllShows(y, sy)
    ensures AllShows(Glue(x, y), Fused(sx, sy))
  {
    FuseShows(x[|x| - 1], sx[|sx| - 1], y[0], sy[0]);
    forall i | 0 <= i < |Glue(x, y)| ensures Shows(Glue(x, y)[i], Fused(sx, sy)[i]) {
      if i < |x| - 1 {
        assert Glue(x, y)[i] == x[i] && Fused(sx, sy)[i] == sx[i];
      } else if i >= |x| {
        assert Glue(x, y)[i] == y[i - |x| + 1] && Fused(sx, sy)[i] == sy[i - |x| + 1];
      }
    }
  }

  function StyledParts(parts: seq<string>, class_: string): (r: seq<seq<Shown>>)
    ensures |r| == |parts| && forall i :: 0 <= i < |r| ==> r[i] == Styled(parts[i], class_)
  {
    seq(|parts|, i requires 0 <= i < |parts| => Styled(parts[i], class_))
  }

  lemma {:induction false} StyledConcat(a: string, b: string, class_: string)
    ensures Styled(a + b, class_) == Styled(a, class_) + Styled(b, class_)
  {
    if b == "" {
      assert a + b == a;
    } else {
      assert (a + b)[..|a + b| - 1] == a + b[..|b| - 1];
      StyledConcat(a, b[..|b| - 1], class_);
    }
  }

  /** The parts between line breaks, joined again, are the text. */
  lemma {:induction false} StyledSplit(s: string, class_: string)
    ensures Joined(StyledParts(Split(s, '\n'), class_)) == Styled(s, class_)
  {
    if s == "" {
      assert StyledParts([""], class_) == [[]];
    } else {
      var rest := Split(s[1..], '\n');
      StyledSplit(s[1..], class_);
      StyledConcat([s[0]], s[1..], class_);
      assert [s[0]] + s[1..] == s;
      assert Styled([s[0]], class_) == [if s[0] == '\n' then Break else Shown(class_, s[0])] by { assert [s[0]][..0] == ""; }
      if s[0] == '\n' {
        var parts := [""] + rest;
        assert StyledParts(parts, class_)[1..] == StyledParts(rest, class_);
        assert [] + ([Break] + Joined(StyledParts(rest, class_))) == [Break] + Joined(StyledParts(rest, class_));
      } else {
        StyledOntoFirst(s[0], rest, class_);
      }
    }
  }

  lemma StyledOntoFirst(c: char, parts: seq<string>, class_: string)
    requires parts != [] && c != '\n'
    ensures Joined(StyledParts(OntoFirst(c, parts), class_)) == [Shown(class_, c)] + Joined(StyledParts(parts, class_))
  {
    StyledConcat([c], parts[0], class_);
    assert Styled([c], class_) == [Shown(class_, c)] by { assert [c][..0] == ""; }
    var all := StyledParts(OntoFirst(c, parts), class_);
    assert all[1..] == StyledParts(parts, class_)[1..];
    assert all[0] == [Shown(class_, c)] + Styled(parts[0], class_);
    if |parts| > 1 {
      var more := [Break] + Joined(all[1..]);
      assert all[0] + more == [Shown(class_, c)] + (Styled(parts[0], class_) + more);
    }
  }

  // ---- The two views ----

  /** The text of the tokens, each character under its token's class. */
  function StyledText(tokens: seq<Token>): seq<Shown> {
    if tokens == [] then []
    else StyledText(tokens[..|tokens| - 1]) + Styled(tokens[|tokens| - 1].value, tokens[|tokens| - 1].class_)
  }

  lemma {:induction false} LinesShowText(tokens: seq<Token>) returns (lines: seq<seq<Shown>>)
    requires Classed(tokens)
    ensures AllShows(AllLines(tokens), lines) && Joined(lines) == StyledText(tokens)
  {
    if tokens == [] {
      lines := [[]];
      forall rest ensures ShowsBefore("", [], rest) { assert "" + rest == rest; }
    } else {
      var front, t := tokens[..|tokens| - 1], tokens[|tokens| - 1];
      var before := LinesShowText(front);
      var parts := Split(t.value, '\n');
      SplitNoneContain(t.value, '\n');
      forall i | 0 <= i < |parts| ensures Shows(Rendered(t)[i], StyledParts(parts, t.class_)[i]) { RenderShows(t.class_, parts[i]); }
      GlueAllShows(AllLines(front), before, Rendered(t), StyledParts(parts, t.class_));
      JoinedFused(before, StyledParts(parts, t.class_));
      StyledSplit(t.value, t.class_);
      lines := Fused(before, StyledParts(parts, t.class_));
    }
  }

  function ReadAll(html: seq<string>): (r: seq<seq<Shown>>)
    ensures |r| == |html| && forall i :: 0 <= i < |r| ==> r[i] == Read(html[i], "")
  {
    seq(|html|, i requires 0 <= i < |html| => Read(html[i], ""))
  }

  lemma ReadsAll(html: seq<string>, lines: seq<seq<Shown>>)
    requires AllShows(html, lines)
    ensures ReadAll(html) == lines
  {
    forall i | 0 <= i < |html| ensures Read(html[i], "") == lines[i] {
      assert Shows(html[i], lines[i]) && ShowsBefore(html[i], lines[i], "");
      assert html[i] + "" == html[i] && lines[i] + [] == lines[i];
    }
  }

  /** A text without its final line break, when there is one. */
  function WithoutFinalBreak(text: seq<Shown>): seq<Shown> {
    if text != [] && text[|text| - 1] == Break then text[..|text| - 1] else text
  }

  lemma {:induction false} JoinedSnoc(lines: seq<seq<Shown>>, last: seq<Shown>)
    requires lines != []
    ensures Joined(lines + [last]) == Joined(lines) + ([Break] + last)
  {
    var all := lines + [last];
    if |lines| == 1 {
      assert all[1..] == [last];
    } else {
      assert all[1..] == lines[1..] + [last];
      JoinedSnoc(lines[1..], last);
      Assoc(lines[0], [Break] + Joined(lines[1..]), [Break] + last);
      Assoc([Break], Joined(lines[1..]), [Break] + last);
    }
  }

  lemma FinalBreakOf(front: seq<seq<Shown>>, last: seq<Shown>)
    requires front != [] && Unbroken(last)
    ensures WithoutFinalBreak(Joined(front + [last])) == if last == [] then Joined(front) else Joined(front + [last])
  {
    JoinedSnoc(front, last);
  }

  lemma FinalBreak(lines: seq<seq<Shown>>)
    requires lines != [] && Unbroken(lines[|lines| - 1])
    ensures WithoutFinalBreak(Joined(lines)) ==
              Joined(if |lines| > 1 && lines[|lines| - 1] == [] then lines[..|lines| - 1] else lines)
  {
    var front, last := lines[..|lines| - 1], lines[|lines| - 1];
    assert lines == front + [last];
    if front != [] {
      FinalBreakOf(front, last);
    }
  }

  /** The empty line a final line break leaves is dropped, and nothing else. */
  lemma DropsFinalBreak(html: seq<string>, lines: seq<seq<Shown>>)
    requires html != [] && AllShows(html, lines)
    ensures var kept := DropFinalEmpty(html);
            kept != [] && AllShows(kept, ReadAll(kept)) && Joined(ReadAll(kept)) == WithoutFinalBreak(Joined(lines))
  {
    var n := |html| - 1;
    assert Shows(html[n], lines[n]);
    FinalBreak(lines);
    if n > 0 && html[n] == "" {
      assert AllShows(html[..n], lines[..n]);
      ReadsAll(html[..n], lines[..n]);
    } else {
      ReadsAll(html, lines);
    }
  }

  /** The highlighted view shows every character of the tokens, in order, under its token's class and no
      other, and breaks lines exactly where the text does; a final line break adds no line. */
  lemma SpansAreExact(tokens: seq<Token>)
    requires Classed(tokens)
    ensures var html := DropFinalEmpty(AllLines(tokens));
            html != [] && AllShows(html, ReadAll(html)) && Joined(ReadAll(html)) == WithoutFinalBreak(StyledText(tokens))
  {
    var lines := LinesShowText(tokens);
    DropsFinalBreak(AllLines(tokens), lines);
  }

  lemma PartsShow(parts: seq<string>)
    requires NoneContain(parts, '\n')
    ensures AllShows(Map(Escape, parts), StyledParts(parts, ""))
  {
    forall i | 0 <= i < |parts| ensures Shows(Map(Escape, parts)[i], StyledParts(parts, "")[i]) {
      RenderShows("", parts[i]);
      assert Render("", parts[i]) == Escape(parts[i]);
    }
  }

  lemma DropEscaped(parts: seq<string>)
    requires parts != []
    ensures DropFinalEmpty(Map(Escape, parts)) == Map(Escape, DropFinalEmpty(parts))
  {
    EscapeIsPlain(parts[|parts| - 1]);
  }

  /** The fallback shows every character of the code under no class, with the same lines. */
  lemma FallbackIsExact(code: string)
    ensures var html := EscapedLines(code);
            html != [] && AllShows(html, ReadAll(html)) && Joined(ReadAll(html)) == WithoutFinalBreak(Styled(code, ""))
  {
    var parts := Split(code, '\n');
    SplitNoneContain(code, '\n');
    PartsShow(parts);
    StyledSplit(code, "");
    DropsFinalBreak(Map(Escape, parts), StyledParts(parts, ""));
    DropEscaped(parts);
  }
}
