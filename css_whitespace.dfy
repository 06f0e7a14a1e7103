/** The three whitespace passes that follow the scan in compressCss
    (Classes/Minifier.php:208-212). */
module CssWhitespace {
  import opened Text

  /** `^\s++` replaced by nothing: the leading whitespace goes. */
  function TrimLeading(s: string): (r: string)
    ensures |r| <= |s|
    ensures s == s[..|s| - |r|] + r
    ensures AllWs(s[..|s| - |r|])
    ensures r == [] || !IsWs(r[0])
  {
    s[WsRun(s)..]
  }

  /** Length of the run of blanks (`[ \t]*+`) that starts `s`. */
  function BlankRun(s: string): (n: nat)
    decreases |s|
    ensures n <= |s|
    ensures forall k :: 0 <= k < n ==> IsBlank(s[k])
    ensures n < |s| ==> !IsBlank(s[n])
  {
    if s == [] || !IsBlank(s[0]) then 0 else 1 + BlankRun(s[1..])
  }

  /** Whether `[ \t]*+\n\s*+` matches at the start of `s`. */
  predicate BreakAt(s: string) {
    BlankRun(s) < |s| && s[BlankRun(s)] == '\n'
  }

  /** Where the scan resumes after a match of `[ \t]*+\n\s*+` at the start of `s`. */
  function BreakEnd(s: string): (n: nat)
    requires BreakAt(s)
    ensures BlankRun(s) < n <= |s|
    ensures n < |s| ==> !IsWs(s[n])
    ensures AllWs(s[..n])
  {
    var b := BlankRun(s);
    var t := s[b + 1..];
    assert forall k :: b < k < b + 1 + WsRun(t) ==> s[k] == t[k - b - 1];
    b + 1 + WsRun(t)
  }

  /** No blank right before a line feed, no whitespace right after one. */
  predicate LinesTight(s: string)
    decreases |s|
  {
    |s| < 2 || (!(IsBlank(s[0]) && s[1] == '\n') && !(s[0] == '\n' && IsWs(s[1])) && LinesTight(s[1..]))
  }

  /** `[ \t]*+\n\s*+` replaced by one line feed. */
  function CollapseLineBreaks(s: string): string
    decreases |s|
  {
    if s == [] then []
    else if BreakAt(s) then "\n" + CollapseLineBreaks(s[BreakEnd(s)..])
    else [s[0]] + CollapseLineBreaks(s[1..])
  }

  /** The middle pass removes or rewrites only whitespace, leaves no blank
      before a line feed and no whitespace after one, and starts with a
      line feed exactly where a match starts the text. */
  lemma CollapseShape(s: string)
    ensures var r := CollapseLineBreaks(s);
      && Solid(r) == Solid(s)
      && CharsFrom(r, s)
      && LinesTight(r)
      && (|s| > 0 ==> |r| > 0 && r[0] == (if BreakAt(s) then '\n' else s[0]))
  {
    CollapseSolid(s);
    CollapseTight(s);
  }

  lemma {:induction false} CollapseSolid(s: string)
    ensures Solid(CollapseLineBreaks(s)) == Solid(s)
    ensures CharsFrom(CollapseLineBreaks(s), s)
    decreases |s|
  {
    if s == [] {
    } else if BreakAt(s) {
      CollapseSolid(s[BreakEnd(s)..]);
      BreakSolid(s, CollapseLineBreaks(s[BreakEnd(s)..]));
    } else {
      CollapseSolid(s[1..]);
      SolidCons(s);
      CharsFromCons(s[0], CollapseLineBreaks(s[1..]), s);
    }
  }

  /** A match replaced by a line feed leaves the solid characters alone. */
  lemma BreakSolid(s: string, r: string)
    requires BreakAt(s)
    requires Solid(r) == Solid(s[BreakEnd(s)..]) && CharsFrom(r, s[BreakEnd(s)..])
    ensures Solid("\n" + r) == Solid(s) && CharsFrom("\n" + r, s)
  {
    var n := BreakEnd(s);
    SolidSkipWs(s, n);
    SolidCons("\n" + r);
    assert ("\n" + r)[1..] == r;
    CharsFromSuffix(r, s, n);
  }

  lemma {:induction false} CollapseTight(s: string)
    ensures var r := CollapseLineBreaks(s);
      && LinesTight(r)
      && (|s| > 0 ==> |r| > 0 && r[0] == (if BreakAt(s) then '\n' else s[0]))
    decreases |s|
  {
    if s == [] {
    } else if BreakAt(s) {
      var n := BreakEnd(s);
      CollapseTight(s[n..]);
      if n < |s| {
        assert BlankRun(s[n..]) == 0;
      }
    } else {
      CollapseTight(s[1..]);
      assert |s| > 1 && IsBlank(s[0]) ==> BlankRun(s[1..]) == BlankRun(s) - 1;
    }
  }

  /** A line that does not end in a blank is left alone, whatever follows. */
  lemma {:induction false} CollapsePrefix(p: string, r: string)
    requires OneLine(p) && (p == [] || !IsBlank(p[|p| - 1]))
    ensures CollapseLineBreaks(p + r) == p + CollapseLineBreaks(r)
    decreases |p|
  {
    if p == [] {
      assert p + r == r;
    } else {
      var u := p[1..];
      CollapseKeepsFirst(p, r);
      CollapsePrefix(u, r);
      assert p == [p[0]] + u;
      Assoc([p[0]], u, CollapseLineBreaks(r));
    }
  }

  /** A match of `[ \t]*+\n\s*+` at the start becomes one line feed, and
      the pass goes on with the rest. */
  lemma CollapseBreakThen(w: string, v: string, r: string)
    requires AllBlank(w) && AllWs(v)
    requires r == [] || !IsWs(r[0])
    ensures CollapseLineBreaks(w + "\n" + v + r) == "\n" + CollapseLineBreaks(r)
  {
    var s := w + "\n" + v + r;
    BlankRunOf(s, |w|);
    assert BreakAt(s);
    var t := s[|w| + 1..];
    assert t == v + r;
    WsRunOf(t, |v|);
    assert s[BreakEnd(s)..] == r;
  }

  lemma CollapseKeepsFirst(p: string, r: string)
    requires p != [] && OneLine(p) && !IsBlank(p[|p| - 1])
    ensures CollapseLineBreaks(p + r) == [p[0]] + CollapseLineBreaks(p[1..] + r)
  {
    var s := p + r;
    assert s[1..] == p[1..] + r;
    BlankRunBelow(s, |p| - 1);
  }

  lemma BlankRunOf(s: string, n: nat)
    requires n <= |s| && (forall k :: 0 <= k < n ==> IsBlank(s[k])) && (n < |s| ==> !IsBlank(s[n]))
    ensures BlankRun(s) == n
    decreases n
  {
    if n > 0 {
      BlankRunOf(s[1..], n - 1);
    }
  }

  lemma BlankRunBelow(s: string, m: nat)
    requires m < |s| && !IsBlank(s[m]) && s[m] != '\n'
    requires forall k :: 0 <= k < m ==> s[k] != '\n'
    ensures !BreakAt(s)
  {
    assert BlankRun(s) <= m;
  }

  /** Length of the run of whitespace that ends `s`. */
  function TrailingWs(s: string): (n: nat)
    decreases |s|
    ensures n <= |s|
    ensures AllWs(s[|s| - n..])
    ensures n < |s| ==> !IsWs(s[|s| - n - 1])
  {
    if s == [] || !IsWs(s[|s| - 1]) then 0
    else
      var n := TrailingWs(s[..|s| - 1]);
      TrailingWsStep(s, n);
      n + 1
  }

  lemma TrailingWsStep(s: string, n: nat)
    requires s != [] && IsWs(s[|s| - 1]) && n <= |s| - 1
    requires AllWs(s[..|s| - 1][|s| - 1 - n..])
    ensures AllWs(s[|s| - n - 1..])
  {
    var w := s[..|s| - 1][|s| - 1 - n..];
    var t := s[|s| - n - 1..];
    forall k | 0 <= k < |t| ensures IsWs(t[k]) {
      if k < n {
        assert t[k] == w[k];
      }
    }
  }

  /** `(?<!\s)\s*+$` replaced by a line feed: the trailing whitespace
      becomes exactly one line feed, and an empty text becomes one. */
  function EndWithLineFeed(s: string): (r: string)
    ensures 0 < |r| <= |s| + 1 && r[|r| - 1] == '\n'
    ensures s == r[..|r| - 1] + s[|r| - 1..]
    ensures AllWs(s[|r| - 1..])
    ensures |r| == 1 || !IsWs(r[|r| - 2])
  {
    s[..|s| - TrailingWs(s)] + "\n"
  }

  /** The three passes in order. */
  function Tidy(s: string): string {
    EndWithLineFeed(CollapseLineBreaks(TrimLeading(s)))
  }

  /** The shape every result of `Tidy` has. */
  predicate IsTidy(r: string) {
    && |r| > 0 && r[|r| - 1] == '\n'
    && (|r| == 1 || (!IsWs(r[0]) && !IsWs(r[|r| - 2])))
    && LinesTight(r)
  }

  lemma {:induction false} LinesTightPrefix(s: string, n: nat)
    requires LinesTight(s) && 0 < n <= |s| && !IsWs(s[n - 1])
    ensures LinesTight(s[..n] + "\n")
    decreases n
  {
    var t := s[..n] + "\n";
    if n > 1 {
      assert t[1..] == s[1..][..n - 1] + "\n";
      LinesTightPrefix(s[1..], n - 1);
    }
  }

  /** The passes leave no leading whitespace, no blank before a line feed,
      no whitespace after one, and exactly one line feed at the end; and
      they only remove or rewrite whitespace. */
  lemma TidyShape(s: string)
    ensures IsTidy(Tidy(s))
    ensures Solid(Tidy(s)) == Solid(s)
    ensures CharsFrom(Tidy(s), s)
  {
    var a := TrimLeading(s);
    var b := CollapseLineBreaks(a);
    CollapseShape(a);
    EndShape(a, b);
    TidySolid(s, a, b);
    TidyChars(s, a, b);
  }

  lemma EndShape(a: string, b: string)
    requires a == [] || !IsWs(a[0])
    requires b == CollapseLineBreaks(a) && LinesTight(b)
    requires |a| > 0 ==> |b| > 0 && b[0] == (if BreakAt(a) then '\n' else a[0])
    ensures IsTidy(EndWithLineFeed(b))
  {
    var r := EndWithLineFeed(b);
    var m := |r| - 1;
    if m > 0 {
      assert b == b[..m] + b[m..];
      LinesTightPrefix(b, m);
      assert r == b[..m] + "\n";
      assert !BreakAt(a);
    }
  }

  lemma TidySolid(s: string, a: string, b: string)
    requires a == TrimLeading(s) && b == CollapseLineBreaks(a) && Solid(b) == Solid(a)
    ensures Solid(EndWithLineFeed(b)) == Solid(s)
  {
    WsRunSplit(s);
    EndSolid(b);
  }

  lemma EndSolid(b: string)
    ensures Solid(EndWithLineFeed(b)) == Solid(b)
  {
    var n := TrailingWs(b);
    var p, w := b[..|b| - n], b[|b| - n..];
    assert b == p + w;
    SolidAppend(p, w);
    SolidOfWs(w);
    SolidAppend(p, "\n");
    SolidOfWs("\n");
  }

  lemma TidyChars(s: string, a: string, b: string)
    requires a == TrimLeading(s) && b == CollapseLineBreaks(a) && CharsFrom(b, a)
    ensures CharsFrom(EndWithLineFeed(b), s)
  {
    var r := EndWithLineFeed(b);
    var m := |r| - 1;
    assert b == b[..m] + b[m..];
    forall ch | ch in r && ch != '\n' ensures ch in s {
      assert ch in b[..m];
      assert ch in b;
      assert ch in a;
    }
  }

  /** Line feeds already alone are left as they are. */
  lemma {:induction false} CollapseKeepsTight(s: string)
    requires LinesTight(s)
    ensures CollapseLineBreaks(s) == s
    decreases |s|
  {
    if s != [] {
      var t := s[1..];
      assert LinesTight(t);
      if BreakAt(s) {
        if IsBlank(s[0]) {
          NoBreakAfterBlank(s);
        }
        assert BreakEnd(s) == 1;
        if t != [] {
          assert !IsWs(t[0]);
        }
        CollapseKeepsTight(t);
      } else {
        CollapseKeepsTight(t);
      }
    }
  }

  lemma NoBreakAfterBlank(s: string)
    requires LinesTight(s) && s != [] && IsBlank(s[0])
    ensures !BreakAt(s)
  {
    var b := BlankRun(s);
    assert b >= 1 && IsBlank(s[b - 1]);
  }

  /** Applying the passes to their own result changes nothing. */
  lemma TidyIdempotent(s: string)
    ensures Tidy(Tidy(s)) == Tidy(s)
  {
    TidyShape(s);
    TidyKeepsTidy(Tidy(s));
  }

  lemma TidyKeepsTidy(t: string)
    requires IsTidy(t)
    ensures Tidy(t) == t
  {
    if |t| == 1 {
      assert WsRun(t) == 1;
      assert TrimLeading(t) == [];
      assert EndWithLineFeed([]) == "\n";
    } else {
      assert WsRun(t) == 0;
      assert TrimLeading(t) == t;
      CollapseKeepsTight(t);
      EndWithLineFeedKeeps(t);
    }
  }

  lemma EndWithLineFeedKeeps(t: string)
    requires |t| >= 2 && t[|t| - 1] == '\n' && !IsWs(t[|t| - 2])
    ensures EndWithLineFeed(t) == t
  {
    var p := t[..|t| - 1];
    assert p[|p| - 1] == t[|t| - 2];
    assert TrailingWs(p) == 0;
    assert TrailingWs(t) == 1;
    assert p + "\n" == t;
  }

  /** A text without line feeds is left alone by the middle pass. */
  lemma {:induction false} CollapseSingleLine(s: string)
    requires OneLine(s)
    ensures CollapseLineBreaks(s) == s
    decreases |s|
  {
    if s != [] {
      assert !BreakAt(s);
      CollapseSingleLine(s[1..]);
    }
  }

  /** One line of text that starts and ends with visible characters only
      gains the final line feed. */
  lemma TidyOneLine(s: string)
    requires s != [] && OneLine(s) && !IsWs(s[0]) && !IsWs(s[|s| - 1])
    ensures Tidy(s) == s + "\n"
  {
    TrimLeadingVisible(s);
    CollapseSingleLine(s);
    EndWithLineFeedVisible(s);
  }

  /** When the text starts and the collapsed text ends with visible
      characters, only the middle pass and the final line feed act. */
  lemma TidyVisibleEdges(s: string, m: string)
    requires s != [] && !IsWs(s[0]) && CollapseLineBreaks(s) == m
    requires m != [] && !IsWs(m[|m| - 1])
    ensures Tidy(s) == m + "\n"
  {
    TrimLeadingVisible(s);
    EndWithLineFeedVisible(m);
  }

  lemma TrimLeadingVisible(s: string)
    requires s != [] && !IsWs(s[0])
    ensures TrimLeading(s) == s
  {
    assert WsRun(s) == 0;
  }

  lemma EndWithLineFeedVisible(s: string)
    requires s != [] && !IsWs(s[|s| - 1])
    ensures EndWithLineFeed(s) == s + "\n"
  {
    assert TrailingWs(s) == 0;
  }
}
