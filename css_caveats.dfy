/** Where `compressCss` (Classes/Minifier.php:181-273) alters code and
    strings that it otherwise leaves alone: the run after a MacIE5 type-2
    comment is cleaned even inside a `calc()` expression or a string
    literal, and the line-break pass edits a string continued over an
    escaped line feed. */
module CssCaveats {
  import opened Text
  import opened CssClean
  import opened CssScan
  import opened CssWhitespace
  import opened CssCompressor

  /** The clean-ups drop the spaces on both sides of a character such as
      `+` or `;`, whatever surrounds it: the spaces `calc()` needs around
      `+`, or the spaces inside a string literal. */
  lemma OperatorRespaced(p: string, c: char, q: string)
    requires p != [] && !IsWs(p[|p| - 1]) && !IsPostTight(p[|p| - 1])
    requires TightBefore(p) && TightAfter(p) && Lacks(p, '}')
    requires IsPreTight(c) && IsPostTight(c) && c != '}'
    requires q != [] && !IsWs(q[0]) && !IsPreTight(q[0])
    requires TightBefore(q) && TightAfter(q) && Lacks(q, '}')
    ensures CleanRun(p + " " + [c] + " " + q) == p + [c] + q
  {
    Spaced(p, c, q);
    OperatorDropBefore(p, c, q);
    OperatorDropAfter(p, c, q);
    Assoc(p, [c], q);
    LacksAround(p, c, q);
    BracesKeep(p + ([c] + q));
  }

  /** The spaced text regrouped to the right. */
  lemma Spaced(p: string, c: char, q: string)
    ensures p + " " + [c] + " " + q == p + (" " + ([c] + (" " + q)))
  {
    var r := " " + q;
    Assoc(p + " " + [c], " ", q);
    Assoc(p + " ", [c], r);
    Assoc(p, " ", [c] + r);
    Assoc(" ", [c], r);
  }

  lemma LacksAround(p: string, c: char, q: string)
    requires Lacks(p, '}') && c != '}' && Lacks(q, '}')
    ensures Lacks(p + ([c] + q), '}')
  {
    var b := p + ([c] + q);
    forall i | 0 <= i < |b| ensures b[i] != '}' {
      if i < |p| { assert b[i] == p[i]; }
      else if i > |p| { assert b[i] == q[i - |p| - 1]; }
    }
  }

  lemma OperatorDropBefore(p: string, c: char, q: string)
    requires p != [] && !IsWs(p[|p| - 1]) && TightBefore(p)
    requires IsPreTight(c)
    requires q != [] && !IsWs(q[0]) && !IsPreTight(q[0]) && TightBefore(q)
    ensures DropSpaceBeforeTight(p + (" " + ([c] + (" " + q)))) == p + ([c] + (" " + q))
  {
    var r := " " + q;
    DropBeforeAppend(p, " " + ([c] + r));
    DropBeforeKeepsTight(p);
    SpaceBeforeOperator(c, r);
    SpaceTightBefore(q);
    DropBeforeKeepsTight(r);
  }

  lemma SpaceBeforeOperator(c: char, r: string)
    requires IsPreTight(c)
    ensures DropSpaceBeforeTight(" " + ([c] + r)) == [c] + DropSpaceBeforeTight(r)
  {
    DropRunBeforeTight(" ", c, r);
    Assoc(" ", [c], r);
  }

  lemma SpaceTightBefore(q: string)
    requires q != [] && !IsPreTight(q[0]) && TightBefore(q)
    ensures TightBefore(" " + q)
  {
    assert (" " + q)[1..] == q;
  }

  lemma OperatorDropAfter(p: string, c: char, q: string)
    requires p != [] && !IsWs(p[|p| - 1]) && !IsPostTight(p[|p| - 1]) && TightAfter(p)
    requires IsPostTight(c)
    requires q != [] && !IsWs(q[0]) && TightAfter(q)
    ensures DropSpaceAfterTight(p + ([c] + (" " + q))) == p + ([c] + q)
  {
    DropAfterAppend(p, [c] + (" " + q));
    DropAfterKeepsTight(p);
    SpaceAfterOperator(c, q);
    DropAfterKeepsTight(q);
  }

  lemma SpaceAfterOperator(c: char, q: string)
    requires IsPostTight(c) && q != [] && !IsWs(q[0])
    ensures DropSpaceAfterTight([c] + (" " + q)) == [c] + DropSpaceAfterTight(q)
  {
    DropRunAfterTight(c, " ", q);
    Assoc([c], " ", q);
  }

  /** The scan of the type-2 comment `/*\*/` followed by a run and nothing
      else. */
  lemma Type2RunAlone(run: string)
    requires NoSlash(run)
    ensures Scan("/*\\*/" + run) == "\n/*T2\\*/" + CleanRun(run) + "\n/*T2E*/\n"
  {
    assert NoClose("\\" + "*");
    ScanMacIe5Type2("\\", run, []);
    ScanEmpty();
    assert "/*" + "\\" + "*/" == "/*\\*/";
    assert "/*" + "\\" + "*/" + run + [] == "/*\\*/" + run;
  }

  /** `p c q` with single spaces around `c` that the run clean-ups tighten:
      `calc(1px + 2px)` (p = `calc(1px`, c = `+`, q = `2px)`), or the
      string literal `" ; "` (p = q = `"`, c = `;`). */
  predicate Respaceable(p: string, c: char, q: string) {
    && p != [] && !IsWs(p[|p| - 1]) && !IsPostTight(p[|p| - 1])
    && TightBefore(p) && TightAfter(p) && Lacks(p, '}') && NoSlash(p)
    && IsPreTight(c) && IsPostTight(c) && c != '}'
    && q != [] && !IsWs(q[0]) && !IsPreTight(q[0])
    && TightBefore(q) && TightAfter(q) && Lacks(q, '}') && NoSlash(q)
  }

  /** After the type-2 comment `/*\*/`, the spaces around `c` go, although
      they belong to a `calc()` expression or to a string literal. */
  lemma Type2RunRespaces(p: string, c: char, q: string)
    requires Respaceable(p, c, q)
    ensures Scan("/*\\*/" + (p + " " + [c] + " " + q)) == "\n/*T2\\*/" + (p + [c] + q) + "\n/*T2E*/\n"
  {
    var run := p + " " + [c] + " " + q;
    assert NoSlash(run) by {
      forall k | 0 <= k < |run| ensures run[k] != '/' {
        if k < |p| { assert run[k] == p[k]; }
        else if k > |p| + 2 { assert run[k] == q[k - |p| - 3]; }
      }
    }
    OperatorRespaced(p, c, q);
    Type2RunAlone(run);
  }

  /** `calc(1px + 2px)` after `/*\*/` comes out as `calc(1px+2px)`. */
  lemma CalcRespaceable()
    ensures Respaceable("calc(1px", '+', "2px)")
  {
    CalcLeftOperand();
  }

  lemma CalcLeftOperand()
    ensures TightBefore("calc(1px") && TightAfter("calc(1px")
  {
  }

  /** The string `" ; "` after `/*\*/` comes out as `";"`. */
  lemma StringRespaceable()
    ensures Respaceable("\"", ';', "\"")
  {
  }

  /** A string body made only of blanks and then a body stays a body. */
  lemma {:induction false} EscapedAfterBlanks(v: string, y: string, q: char)
    requires IsQuote(q) && AllBlank(v) && EscapedBody(y, q)
    ensures EscapedBody(v + y, q)
    decreases |v|
  {
    if v == [] {
      assert v + y == y;
    } else {
      assert IsBlank(v[0]) && (v + y)[0] == v[0];
      assert (v + y)[1..] == v[1..] + y;
      assert AllBlank(v[1..]) by {
        forall k | 0 <= k < |v| - 1 ensures IsBlank(v[1..][k]) {
          assert v[1..][k] == v[k + 1];
        }
      }
      EscapedAfterBlanks(v[1..], y, q);
    }
  }

  /** Two string bodies in a row are one. */
  lemma {:induction false} EscapedAppend(x: string, y: string, q: char)
    requires EscapedBody(x, q) && EscapedBody(y, q)
    ensures EscapedBody(x + y, q)
    decreases |x|
  {
    if x == [] {
      assert x + y == y;
    } else if x[0] == '\\' {
      assert (x + y)[2..] == x[2..] + y;
      EscapedAppend(x[2..], y, q);
    } else {
      assert (x + y)[1..] == x[1..] + y;
      EscapedAppend(x[1..], y, q);
    }
  }

  /** A double-quoted string `"a\` line feed `v b"` that continues over an
      escaped line feed, its second line starting with blanks `v`. */
  predicate ContinuedString(a: string, v: string, b: string) {
    && EscapedBody(a, '"') && OneLine(a) && NoCr(a)
    && AllBlank(v)
    && (b == [] || !IsWs(b[0])) && EscapedBody(b, '"') && OneLine(b) && NoCr(b)
  }

  /** The line-break pass drops the blanks after the escaped line feed
      inside the string. */
  lemma StringAcrossEscapedBreak(a: string, v: string, b: string)
    requires ContinuedString(a, v, b)
    ensures CompressCss("\"" + a + "\\\n" + v + b + "\"") == "\"" + a + "\\\n" + b + "\"\n"
  {
    ContinuedStringScanned(a, v, b);
    ContinuedStringTidied(a, v, b);
  }

  lemma ContinuedStringTidied(a: string, v: string, b: string)
    requires ContinuedString(a, v, b)
    ensures Tidy("\"" + a + "\\\n" + v + b + "\"") == "\"" + a + "\\\n" + b + "\"\n"
  {
    var p, q := "\"" + a + "\\", b + "\"";
    ContinuedStringLines(a, b);
    ContinuedStringRegroup(a, v, b);
    TidyTwoLines(p, "", v, q);
  }

  lemma ContinuedStringLines(a: string, b: string)
    requires OneLine(a) && OneLine(b)
    ensures OneLine("\"" + a + "\\") && OneLine(b + "\"")
  {
    var p, q := "\"" + a + "\\", b + "\"";
    forall k | 0 <= k < |p| ensures p[k] != '\n' {
      if 0 < k < |p| - 1 { assert p[k] == a[k - 1]; }
    }
    forall k | 0 <= k < |q| ensures q[k] != '\n' {
      if k < |b| { assert q[k] == b[k]; }
    }
  }

  lemma ContinuedStringRegroup(a: string, v: string, b: string)
    ensures "\"" + a + "\\\n" + v + b + "\"" == ("\"" + a + "\\") + "" + "\n" + v + (b + "\"")
    ensures ("\"" + a + "\\") + "\n" + (b + "\"") + "\n" == "\"" + a + "\\\n" + b + "\"\n"
  {
  }

  lemma ContinuedStringScanned(a: string, v: string, b: string)
    requires ContinuedString(a, v, b)
    ensures Scan(StripCr("\"" + a + "\\\n" + v + b + "\"")) == "\"" + a + "\\\n" + v + b + "\""
  {
    var t := "\"" + a + "\\\n" + v + b + "\"";
    ContinuedStringNoCr(a, v, b);
    StripCrWithoutCr(t);
    ContinuedStringQuoted(a, v, b);
    ScanQuotedAlone(t, '"');
  }

  lemma ContinuedStringNoCr(a: string, v: string, b: string)
    requires ContinuedString(a, v, b)
    ensures NoCr("\"" + a + "\\\n" + v + b + "\"")
  {
    var t := "\"" + a + "\\\n" + v + b + "\"";
    forall k | 0 <= k < |t| ensures t[k] != '\r' {
      if 0 < k <= |a| { assert t[k] == a[k - 1]; }
      else if |a| + 3 <= k < |a| + 3 + |v| { assert t[k] == v[k - |a| - 3]; }
      else if |a| + 3 + |v| <= k < |t| - 1 { assert t[k] == b[k - |a| - 3 - |v|]; }
    }
  }

  lemma ContinuedStringQuoted(a: string, v: string, b: string)
    requires ContinuedString(a, v, b)
    ensures IsQuoted("\"" + a + "\\\n" + v + b + "\"", '"')
  {
    var t := "\"" + a + "\\\n" + v + b + "\"";
    var body := a + ("\\\n" + (v + b));
    assert EscapedBody(body, '"') by {
      EscapedAfterBlanks(v, b, '"');
      assert ("\\\n" + (v + b))[2..] == v + b;
      EscapedAppend(a, "\\\n" + (v + b), '"');
    }
    assert t[1..|t| - 1] == body;
  }

  /** `"a\` line feed ` b"` comes out as `"a\` line feed `b"`. */
  lemma ContinuedStringExample()
    ensures ContinuedString("a", " ", "b")
  {
  }
}
