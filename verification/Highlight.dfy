/** The per-line highlighter (markup/highlight_chroma.go) against its escaped fallback
    (markup/highlight.go). */
module Highlight {
  import opened Strings

  /** html.EscapeString. */
  function EscapeChar(c: char): string {
    match c
    case '&' => "&amp;"
    case '<' => "&lt;"
    case '>' => "&gt;"
    case '"' => "&#34;"
    case '\'' => "&#39;"
    case _ => [c]
  }

  function Escape(s: string): string {
    if s == "" then "" else Escape(s[..|s| - 1]) + EscapeChar(s[|s| - 1])
  }

  function Map(f: string -> string, lines: seq<string>): (r: seq<string>)
    ensures |r| == |lines|
    ensures forall i :: 0 <= i < |lines| ==> r[i] == f(lines[i])
  {
    seq(|lines|, i requires 0 <= i < |lines| => f(lines[i]))
  }

  /** The final empty element a trailing newline leaves behind. */
  function DropFinalEmpty(lines: seq<string>): seq<string> {
    if |lines| > 1 && lines[|lines| - 1] == "" then lines[..|lines| - 1] else lines
  }

  function EscapedLines(code: string): seq<string> { Map(Escape, DropFinalEmpty(Split(code, '\n'))) }

  /** escapeLines, line by line. */
  method EscapeLines(code: string) returns (out: seq<string>)
    ensures out == EscapedLines(code)
  {
    var raw := Split(code, '\n');
    if |raw| > 1 && raw[|raw| - 1] == "" {
      raw := raw[..|raw| - 1];
    }
    out := EscapeEach(raw);
  }

  lemma TakeOneMore<T>(s: seq<T>, i: nat)
    requires i < |s|
    ensures s[..i + 1] == s[..i] + [s[i]]
  {
  }

  method EscapeEach(raw: seq<string>) returns (out: seq<string>)
    ensures out == Map(Escape, raw)
  {
    out := [];
    ghost var all := Map(Escape, raw);
    for i := 0 to |raw|
      invariant out == all[..i]
    {
      TakeOneMore(all, i);
      out := out + [Escape(raw[i])];
    }
    assert all[..|raw|] == all;
  }

  /** A lexed token with the class plClass gives its type, "" for none. */
  datatype Token = Token(class_: string, value: string)

  const CLASSES := {"", "pl-c", "pl-k", "pl-sr", "pl-s", "pl-c1", "pl-en", "pl-e", "pl-ent", "pl-v", "pl-mh", "pl-mi", "pl-mb", "pl-mi1", "pl-md", "pl-ii"}

  function OpenTag(c: string): string { "<span class=\"" + c + "\">" }

  const CLOSE_TAG := "</span>"

  /** One part of a token's text as markup. */
  function Render(class_: string, part: string): string {
    if part == "" then ""
    else if class_ == "" then Escape(part)
    else OpenTag(class_) + (Escape(part) + CLOSE_TAG)
  }

  /** A token's text part by part: the first goes on the current line, each later one on a new line. */
  function Rendered(t: Token): (r: seq<string>)
    ensures r != []
  {
    Map(p => Render(t.class_, p), Split(t.value, '\n'))
  }

  /** All lines of a token sequence, before the trailing-newline rule. */
  function AllLines(tokens: seq<Token>): (lines: seq<string>)
    ensures lines != []
  {
    if tokens == [] then [""]
    else Glue(AllLines(tokens[..|tokens| - 1]), Rendered(tokens[|tokens| - 1]))
  }

  /** What a token's next part does to the lines written so far. */
  lemma NextPart(x: seq<string>, y: seq<string>, i: nat)
    requires x != [] && i < |y|
    ensures i == 0 ==> Glue(x, y[..1]) == x[..|x| - 1] + [x[|x| - 1] + y[0]]
    ensures i > 0 ==> Glue(x, y[..i + 1]) == Glue(x, y[..i]) + [y[i]]
  {
    if i > 0 {
      assert y[..i + 1][1..] == y[..i][1..] + [y[i]];
    }
  }

  /** One token: a line is flushed at every newline inside it. */
  method WriteToken(t: Token, soFar: seq<string>, line: string) returns (lines: seq<string>, cur: string)
    ensures lines + [cur] == Glue(soFar + [line], Rendered(t))
  {
    lines, cur := soFar, line;
    var parts := Split(t.value, '\n');
    ghost var was, rendered := soFar + [line], Rendered(t);
    for i := 0 to |parts|
      invariant i == 0 ==> lines == soFar && cur == line
      invariant i > 0 ==> lines + [cur] == Glue(was, rendered[..i])
    {
      NextPart(was, rendered, i);
      if i > 0 {
        lines, cur := lines + [cur], "";
      }
      cur := WritePart(t.class_, parts[i], cur);
      assert was[..|was| - 1] == soFar;
    }
    assert rendered[..|parts|] == rendered;
  }

  /** One part onto the current line; an empty part writes nothing. */
  method WritePart(class_: string, part: string, line: string) returns (cur: string)
    ensures cur == line + Render(class_, part)
    ensures line == "" ==> cur == Render(class_, part)
  {
    cur := line;
    if part == "" {
      assert line + "" == line;
      return;
    }
    if class_ == "" {
      cur := cur + Escape(part);
    } else {
      cur := cur + (OpenTag(class_) + (Escape(part) + CLOSE_TAG));
    }
  }

  /** chromaHL.highlight over the tokens of a lexer. */
  method HighlightTokens(tokens: seq<Token>) returns (lines: seq<string>)
    ensures lines == DropFinalEmpty(AllLines(tokens))
  {
    lines := [];
    var cur := "";
    for k := 0 to |tokens|
      invariant lines + [cur] == AllLines(tokens[..k])
    {
      assert tokens[..k + 1][..k] == tokens[..k];
      lines, cur := WriteToken(tokens[k], lines, cur);
    }
    assert tokens[..|tokens|] == tokens;
    lines := lines + [cur];
    if |lines| > 1 && lines[|lines| - 1] == "" {
      lines := lines[..|lines| - 1];
    }
  }

  // ---- Erasing the spans ----

  /** Where the first character or tag ends; past the text when a tag is left open. */
  function HeadEnd(html: string): (n: nat)
    requires html != ""
    ensures n > 0
  {
    if html[0] == '<' then IndexOf(html, '>') + 1 else 1
  }

  /** What the first character or tag leaves of itself. */
  function HeadText(html: string): string
    requires html != ""
  {
    if html[0] == '<' then "" else [html[0]]
  }

  /** The text outside tags: everything from a '<' to the next '>' is dropped. */
  function Erase(html: string): string
    decreases |html|
  {
    if html == "" || HeadEnd(html) > |html| then "" else HeadText(html) + Erase(html[HeadEnd(html)..])
  }

  /** No tag is left open at the end. */
  predicate Closed(html: string)
    decreases |html|
  {
    html == "" || (HeadEnd(html) <= |html| && Closed(html[HeadEnd(html)..]))
  }

  /** A complete head is the same whatever follows. */
  lemma HeadStays(a: string, b: string)
    requires a != "" && HeadEnd(a) <= |a|
    ensures HeadEnd(a + b) == HeadEnd(a) && HeadText(a + b) == HeadText(a)
    ensures (a + b)[HeadEnd(a)..] == a[HeadEnd(a)..] + b
  {
    var n := HeadEnd(a);
    if a[0] == '<' {
      assert a + b == a[..n - 1] + ['>'] + (a[n..] + b);
      IndexOfFirst(a[..n - 1], '>', a[n..] + b);
    }
  }

  lemma Regroup(a: string, b: string, c: string)
    ensures a + (b + c) == (a + b) + c
  {
  }

  lemma {:induction false} EraseConcat(a: string, b: string)
    requires Closed(a)
    ensures Erase(a + b) == Erase(a) + Erase(b)
    ensures Closed(b) ==> Closed(a + b)
    decreases |a|
  {
    if a == "" {
      assert a + b == b && "" + Erase(b) == Erase(b);
    } else {
      var rest := a[HeadEnd(a)..];
      HeadStays(a, b);
      EraseConcat(rest, b);
      Regroup(HeadText(a), Erase(rest), Erase(b));
    }
  }

  predicate Plain(s: string) { '<' !in s && '>' !in s && '"' !in s && '\'' !in s }

  lemma CharIsPlain(c: char)
    ensures Plain(EscapeChar(c)) && EscapeChar(c) != ""
  {
  }

  lemma PlainConcat(a: string, b: string)
    requires Plain(a) && Plain(b)
    ensures Plain(a + b)
  {
  }

  /** Escaped text holds none of the characters that could open a tag or an attribute. */
  lemma {:induction false} EscapeIsPlain(s: string)
    ensures Plain(Escape(s)) && (Escape(s) == "" <==> s == "")
  {
    if s != "" {
      EscapeIsPlain(s[..|s| - 1]);
      CharIsPlain(s[|s| - 1]);
      PlainConcat(Escape(s[..|s| - 1]), EscapeChar(s[|s| - 1]));
    }
  }

  lemma {:induction false} PlainStays(s: string)
    requires Plain(s)
    ensures Erase(s) == s && Closed(s)
  {
    if s != "" {
      PlainStays(s[1..]);
    }
  }

  /** A tag on its own erases to nothing. */
  lemma TagErases(inner: string)
    requires '>' !in inner
    ensures Erase("<" + inner + ">") == "" && Closed("<" + inner + ">")
  {
    var tag := "<" + inner + ">";
    assert tag == ("<" + inner) + ['>'] + "";
    IndexOfFirst("<" + inner, '>', "");
    assert tag[|inner| + 2..] == "";
  }

  function Attribute(c: string): string { "span class=\"" + c + "\"" }

  lemma OpenTagIsTag(c: string)
    ensures OpenTag(c) == "<" + Attribute(c) + ">"
    ensures '>' !in c ==> '>' !in Attribute(c)
  {
  }

  lemma OpenTagErases(c: string)
    requires '>' !in c
    ensures Erase(OpenTag(c)) == "" && Closed(OpenTag(c))
  {
    OpenTagIsTag(c);
    TagErases(Attribute(c));
  }

  lemma CloseTagErases()
    ensures Erase(CLOSE_TAG) == "" && Closed(CLOSE_TAG)
  {
    TagErases("/span");
    assert CLOSE_TAG == "<" + "/span" + ">";
  }

  lemma ClassesAreWords(c: string)
    requires c in CLASSES
    ensures '>' !in c
  {
  }

  lemma WrappedErases(open: string, text: string, close: string)
    requires Closed(open) && Closed(text) && Closed(close) && Erase(open) == "" && Erase(text) == text && Erase(close) == ""
    ensures Erase(open + (text + close)) == text && Closed(open + (text + close))
  {
    EraseConcat(text, close);
    EraseConcat(open, text + close);
  }

  /** A rendered part erases to its escaped text. */
  lemma RenderErases(c: string, part: string)
    requires c in CLASSES
    ensures Erase(Render(c, part)) == Escape(part) && Closed(Render(c, part)) && (Render(c, part) == "" <==> part == "")
  {
    EscapeIsPlain(part);
    PlainStays(Escape(part));
    if part != "" && c != "" {
      ClassesAreWords(c);
      OpenTagErases(c);
      CloseTagErases();
      WrappedErases(OpenTag(c), Escape(part), CLOSE_TAG);
    }
  }

  // ---- The two views agree ----

  function Text(tokens: seq<Token>): string {
    if tokens == [] then "" else Text(tokens[..|tokens| - 1]) + tokens[|tokens| - 1].value
  }

  ghost predicate Classed(tokens: seq<Token>) { forall i :: 0 <= i < |tokens| ==> tokens[i].class_ in CLASSES }

  /** A highlighted line shows an escaped source line: same text once erased, empty together. */
  ghost predicate Shows(html: string, raw: string) {
    Closed(html) && Erase(html) == Escape(raw) && (html == "" <==> raw == "")
  }

  ghost predicate Pairwise(p: (string, string) -> bool, x: seq<string>, y: seq<string>) {
    |x| == |y| && forall i :: 0 <= i < |x| ==> p(x[i], y[i])
  }

  ghost predicate AllShow(html: seq<string>, raw: seq<string>) { Pairwise(Shows, html, raw) }

  lemma {:induction false} EscapeConcat(a: string, b: string)
    ensures Escape(a + b) == Escape(a) + Escape(b)
  {
    if b == "" {
      assert a + b == a;
    } else {
      assert (a + b)[..|a + b| - 1] == a + b[..|b| - 1];
      EscapeConcat(a, b[..|b| - 1]);
    }
  }

  /** Two shown pieces of one line show the line. */
  lemma FusedShows(x: string, rawX: string, y: string, rawY: string)
    requires Shows(x, rawX) && Shows(y, rawY)
    ensures Shows(x + y, rawX + rawY)
  {
    EraseConcat(x, y);
    EscapeConcat(rawX, rawY);
  }

  /** Two glued lists correspond line by line when their parts do and their shared line does. */
  lemma GluePairwise(p: (string, string) -> bool, x: seq<string>, x': seq<string>, y: seq<string>, y': seq<string>)
    requires x != [] && y != [] && Pairwise(p, x, x') && Pairwise(p, y, y')
    requires p(x[|x| - 1] + y[0], x'[|x'| - 1] + y'[0])
    ensures Pairwise(p, Glue(x, y), Glue(x', y'))
  {
    forall i | 0 <= i < |Glue(x, y)| ensures p(Glue(x, y)[i], Glue(x', y')[i]) {
      if i < |x| - 1 {
        assert Glue(x, y)[i] == x[i] && Glue(x', y')[i] == x'[i];
      } else if i >= |x| {
        assert Glue(x, y)[i] == y[i - |x| + 1] && Glue(x', y')[i] == y'[i - |x| + 1];
      }
    }
  }

  lemma GlueShows(x: seq<string>, rawX: seq<string>, y: seq<string>, rawY: seq<string>)
    requires x != [] && y != [] && AllShow(x, rawX) && AllShow(y, rawY)
    ensures AllShow(Glue(x, y), Glue(rawX, rawY))
  {
    FusedShows(x[|x| - 1], rawX[|rawX| - 1], y[0], rawY[0]);
    GluePairwise(Shows, x, rawX, y, rawY);
  }

  lemma RenderedShows(t: Token)
    requires t.class_ in CLASSES
    ensures AllShow(Rendered(t), Split(t.value, '\n'))
  {
    var parts := Split(t.value, '\n');
    forall i | 0 <= i < |parts| ensures Shows(Rendered(t)[i], parts[i]) {
      RenderErases(t.class_, parts[i]);
    }
  }

  lemma {:induction false} LinesShow(tokens: seq<Token>)
    requires Classed(tokens)
    ensures AllShow(AllLines(tokens), Split(Text(tokens), '\n'))
  {
    if tokens != [] {
      var front, t := tokens[..|tokens| - 1], tokens[|tokens| - 1];
      LinesShow(front);
      RenderedShows(t);
      SplitConcat(Text(front), t.value, '\n');
      GlueShows(AllLines(front), Split(Text(front), '\n'), Rendered(t), Split(t.value, '\n'));
    }
  }

  /** Erasing the spans of the highlighted view gives the fallback view of the tokens' text, line for
      line, however the lexer cut the text and whatever classes it chose. */
  lemma ViewsAgree(tokens: seq<Token>)
    requires Classed(tokens)
    ensures Map(Erase, DropFinalEmpty(AllLines(tokens))) == EscapedLines(Text(tokens))
  {
    LinesShow(tokens);
    var html, raw := AllLines(tokens), Split(Text(tokens), '\n');
    assert Shows(html[|html| - 1], raw[|raw| - 1]);
    var h, r := DropFinalEmpty(html), DropFinalEmpty(raw);
    forall i | 0 <= i < |h| ensures Erase(h[i]) == Escape(r[i]) {
      assert Shows(html[i], raw[i]);
    }
  }

  /** Two ways of cutting one text into tokens show the same lines. */
  lemma CutDoesNotMatter(a: seq<Token>, b: seq<Token>)
    requires Classed(a) && Classed(b) && Text(a) == Text(b)
    ensures Map(Erase, DropFinalEmpty(AllLines(a))) == Map(Erase, DropFinalEmpty(AllLines(b)))
  {
    ViewsAgree(a);
    ViewsAgree(b);
  }

  /** The lines the blob view counts: a trailing newline adds none. */
  lemma TrailingNewline(text: string)
    requires text != "" && text[|text| - 1] != '\n'
    ensures EscapedLines(text + "\n") == EscapedLines(text)
  {
    SplitConcat(text, "\n", '\n');
    var parts := Split(text, '\n');
    var back, last := text[..|text| - 1], [text[|text| - 1]];
    assert text == back + last;
    SplitConcat(back, last, '\n');
    SplitSingle(last, '\n');
    assert "\n"[1..] == "";
    assert Split("\n", '\n') == ["", ""];
    assert parts[|parts| - 1] != "";
    assert parts[|parts| - 1] + "" == parts[|parts| - 1];
    assert Split(text + "\n", '\n') == parts + [""];
    assert DropFinalEmpty(parts + [""]) == parts;
  }

  /** runHighlight: what the lexer gives when it knows the language, else the fallback. */
  method RunHighlight(code: string, lexed: Option<seq<Token>>) returns (lines: seq<string>, ok: bool)
    requires lexed.Some? ==> Classed(lexed.value)
    ensures ok == lexed.Some?
    ensures Map(Erase, lines) == EscapedLines(if ok then Text(lexed.value) else code)
  {
    match lexed
    case Some(tokens) =>
      ViewsAgree(tokens);
      lines := HighlightTokens(tokens);
      ok := true;
    case None =>
      lines := EscapeLines(code);
      ok := false;
      forall i | 0 <= i < |lines| ensures Erase(lines[i]) == lines[i] {
        EscapeIsPlain(DropFinalEmpty(Split(code, '\n'))[i]);
        PlainStays(lines[i]);
      }
  }
}
