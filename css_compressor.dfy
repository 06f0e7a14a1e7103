/** compressCss (Classes/Minifier.php:181-214): carriage returns are
    deleted, the text is scanned once, and three whitespace passes
    follow. */
module CssCompressor {
  import opened Text
  import opened CssScan
  import opened CssWhitespace

  /** `str_replace(CR, '', $contents)`: every carriage return is deleted
      and nothing else changes. */
  function StripCr(s: string): (r: string)
    decreases |s|
    ensures NoCr(r) && |r| <= |s|
  {
    if s == [] then [] else (if s[0] == '\r' then [] else [s[0]]) + StripCr(s[1..])
  }

  /** Every character other than a carriage return is kept, as often as
      it occurs. */
  lemma {:induction false} StripCrKeepsOthers(s: string)
    ensures multiset(StripCr(s)) == multiset(s)['\r' := 0]
    decreases |s|
  {
    if s != [] {
      StripCrKeepsOthers(s[1..]);
      assert s == [s[0]] + s[1..];
    }
  }

  /** The pass works character by character: it commutes with
      concatenation, so the kept characters stay in their order. */
  lemma {:induction false} StripCrAppend(a: string, b: string)
    ensures StripCr(a + b) == StripCr(a) + StripCr(b)
    decreases |a|
  {
    if a == [] {
      assert a + b == b;
    } else {
      assert (a + b)[1..] == a[1..] + b;
      StripCrAppend(a[1..], b);
    }
  }

  /** A carriage return alone is deleted. */
  lemma StripCrOfCr()
    ensures StripCr("\r") == []
  {
  }

  lemma {:induction false} StripCrWithoutCr(s: string)
    requires NoCr(s)
    ensures StripCr(s) == s
    decreases |s|
  {
    if s != [] {
      StripCrWithoutCr(s[1..]);
    }
  }

  function CompressCss(contents: string): string {
    Tidy(Scan(StripCr(contents)))
  }

  /** The output holds no carriage return, has no leading whitespace, no
      blank before a line feed and no whitespace after one, and ends in
      exactly one line feed after a visible character, unless it is just
      that line feed. */
  lemma CompressCssShape(contents: string)
    ensures '\r' !in CompressCss(contents)
    ensures IsTidy(CompressCss(contents))
    ensures CompressCss(contents)[0] == '\n' ==> CompressCss(contents) == "\n"
  {
    var a := StripCr(contents);
    var b := Scan(a);
    ScanChars(a);
    assert '\r' !in a;
    assert '\r' !in MarkerChars;
    assert '\r' !in b;
    TidyShape(b);
  }

  /** A complete string literal on one line comes out unchanged. */
  lemma CompressKeepsString(q: char, t: string)
    requires IsQuote(q) && IsQuoted(t, q) && NoCr(t) && OneLine(t)
    ensures CompressCss(t) == t + "\n"
  {
    ScanQuotedAlone(t, q);
    TidyOneLine(t);
    StripCrWithoutCr(t);
  }

  /** One line of code outside strings and comments comes out unchanged,
      inner whitespace included: the scan does not touch it. */
  lemma CompressKeepsCode(t: string)
    requires t != [] && !IsWs(t[0]) && !IsWs(t[|t| - 1]) && IsPlainCode(t)
    ensures CompressCss(t) == t + "\n"
  {
    ScanCodeAlone(t);
    TidyOneLine(t);
    StripCrWithoutCr(t);
  }

  lemma ScanQuotedAlone(t: string, q: char)
    requires IsQuote(q) && IsQuoted(t, q)
    ensures Scan(t) == t
  {
    ScanQuoted(t, q, []);
    ScanEmpty();
    assert t + [] == t;
  }

  lemma ScanCodeAlone(t: string)
    requires IsPlainCode(t)
    ensures Scan(t) == t
  {
    ScanCode(t, []);
    ScanEmpty();
    assert t + [] == t;
  }

  /** A `calc()` expression is kept byte for byte, as all code is. */
  lemma CompressKeepsCalc(t: string)
    requires t == "width: calc(100% - 10px);"
    ensures CompressCss(t) == t + "\n"
  {
    CalcParts(t);
    CompressKeepsCode(t);
  }

  lemma CalcParts(t: string)
    requires t == "width: calc(100% - 10px);"
    ensures t != [] && !IsWs(t[0]) && !IsWs(t[|t| - 1]) && IsPlainCode(t)
  {
  }

  /** Code that the scan copies one character at a time and that lies on
      one line: no quote, no slash, no carriage return, no line feed. */
  predicate IsPlainCode(t: string) {
    forall k :: 0 <= k < |t| ==> IsCodeChar(t[k])
  }

  predicate IsCodeChar(c: char) {
    !IsQuote(c) && c != '/' && c != '\r' && c != '\n'
  }

  /** Around one line feed, the blanks `w` before it and the whitespace `v`
      after it disappear. */
  lemma CollapseAroundBreak(p: string, w: string, v: string, q: string)
    requires OneLine(p) && (p == [] || !IsBlank(p[|p| - 1]))
    requires AllBlank(w) && AllWs(v)
    requires OneLine(q) && (q == [] || !IsWs(q[0]))
    ensures CollapseLineBreaks(p + w + "\n" + v + q) == p + "\n" + q
  {
    var r := w + "\n" + v + q;
    Assoc(p, w + "\n" + v, q);
    Assoc(p, w + "\n", v);
    Assoc(p, w, "\n");
    CollapsePrefix(p, r);
    CollapseBreakThen(w, v, q);
    CollapseSingleLine(q);
    Assoc(p, "\n", q);
  }

  /** What the passes make of two lines of code joined by one line feed:
      the blanks `w` and the whitespace `v` around it go. */
  lemma TidyTwoLines(p: string, w: string, v: string, q: string)
    requires p != [] && !IsWs(p[0]) && OneLine(p) && !IsBlank(p[|p| - 1])
    requires AllBlank(w) && AllWs(v)
    requires q != [] && !IsWs(q[0]) && !IsWs(q[|q| - 1]) && OneLine(q)
    ensures Tidy(p + w + "\n" + v + q) == p + "\n" + q + "\n"
  {
    var s := p + w + "\n" + v + q;
    var m := p + "\n" + q;
    CollapseAroundBreak(p, w, v, q);
    assert s[0] == p[0];
    assert m[|m| - 1] == q[|q| - 1];
    TidyVisibleEdges(s, m);
  }

  /** A comment between two pieces of code is replaced by a line feed, and
      the blanks `w` before it and the whitespace `v` after it go with it;
      the code itself keeps its inner whitespace. */
  lemma CompressCommentBetweenCode(p: string, w: string, b: string, v: string, q: string)
    requires p != [] && !IsWs(p[0]) && !IsBlank(p[|p| - 1]) && IsPlainCode(p)
    requires AllBlank(w) && AllWs(v) && IsPlainCode(v)
    requires q != [] && !IsWs(q[0]) && !IsWs(q[|q| - 1]) && IsPlainCode(q)
    requires NoClose(b + "*") && '\\' !in b && NoCr(b)
    ensures CompressCss(p + w + "/*" + b + "*/" + v + q) == p + "\n" + q + "\n"
  {
    var a, c := p + w, v + q;
    var s := p + w + "/*" + b + "*/" + v + q;
    assert s == a + "/*" + b + "*/" + c;
    assert IsPlainCode(a) && IsPlainCode(c);
    assert NoCr(s);
    StripCrWithoutCr(s);
    ScanCommentBetweenCode(a, b, c);
    assert a + "\n" + c == p + w + "\n" + v + q;
    TidyTwoLines(p, w, v, q);
  }

  lemma ScanCommentBetweenCode(a: string, b: string, c: string)
    requires IsPlainCode(a) && IsPlainCode(c)
    requires NoClose(b + "*") && '\\' !in b
    ensures Scan(a + "/*" + b + "*/" + c) == a + "\n" + c
  {
    var s := a + "/*" + b + "*/" + c;
    assert s == a + ("/*" + b + "*/" + c);
    ScanCode(a, "/*" + b + "*/" + c);
    ScanPlainComment(b, c);
    ScanCode(c, []);
    assert c + [] == c;
    ScanEmpty();
  }

  /** The comment-removal example: the comment goes, but the code around
      it is not re-spaced. */
  lemma CompressCommentExample(s: string)
    requires s == "a { color: red; /* comment */ }"
    ensures CompressCss(s) == "a { color: red;\n}\n"
  {
    var p, w, b, v, q := "a { color: red;", " ", " comment ", " ", "}";
    assert s == p + w + "/*" + b + "*/" + v + q;
    ExampleParts(p, w, b, v, q);
    CompressCommentBetweenCode(p, w, b, v, q);
  }

  lemma ExampleParts(p: string, w: string, b: string, v: string, q: string)
    requires p == "a { color: red;" && w == " " && b == " comment " && v == " " && q == "}"
    ensures p != [] && !IsWs(p[0]) && !IsBlank(p[|p| - 1]) && IsPlainCode(p)
    ensures AllBlank(w) && AllWs(v) && IsPlainCode(v)
    ensures q != [] && !IsWs(q[0]) && !IsWs(q[|q| - 1]) && IsPlainCode(q)
    ensures NoClose(b + "*") && '\\' !in b && NoCr(b)
    ensures p + "\n" + q + "\n" == "a { color: red;\n}\n"
  {
  }
}
