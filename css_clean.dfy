/** The three clean-ups applied to the code that follows a MacIE5
    type-2 comment (Classes/Minifier.php:244-248). Each pass is one
    global regular-expression replacement; here each is a scan that
    tries a match at every position, left to right, and copies one
    character when none starts there. */
module CssClean {
  import opened Text

  /** Characters whose preceding whitespace is removed: `[+>{};,)]`. */
  predicate IsPreTight(c: char) {
    c == '+' || c == '>' || c == '{' || c == '}' || c == ';' || c == ',' || c == ')'
  }

  /** Characters whose following whitespace is removed: `[+>{}:;,(]`. */
  predicate IsPostTight(c: char) {
    c == '+' || c == '>' || c == '{' || c == '}' || c == ':' || c == ';' || c == ',' || c == '('
  }

  /** Whether the whitespace run starting `s` is followed by a pre-tight
      character, i.e. whether `\s++([+>{};,)])` matches at the start. */
  predicate RunBeforeTight(s: string) {
    0 < WsRun(s) < |s| && IsPreTight(s[WsRun(s)])
  }

  /** `\s++([+>{};,)])` replaced by `$1`. */
  function DropSpaceBeforeTight(s: string): string
    decreases |s|
  {
    if s == [] then []
    else if RunBeforeTight(s) then DropSpaceBeforeTight(s[WsRun(s)..])
    else [s[0]] + DropSpaceBeforeTight(s[1..])
  }

  /** No whitespace right before a pre-tight character. */
  predicate TightBefore(r: string)
    decreases |r|
  {
    |r| < 2 || (!(IsWs(r[0]) && IsPreTight(r[1])) && TightBefore(r[1..]))
  }

  /** The first pass removes only whitespace, and leaves none before a
      pre-tight character; the text starts where a match would resume. */
  lemma {:induction false} DropBeforeShape(s: string)
    ensures var r := DropSpaceBeforeTight(s);
      && Solid(r) == Solid(s)
      && CharsFrom(r, s)
      && TightBefore(r)
      && (|s| > 0 ==> |r| > 0 && r[0] == (if RunBeforeTight(s) then s[WsRun(s)] else s[0]))
    decreases |s|
  {
    if s == [] {
    } else if RunBeforeTight(s) {
      DropBeforeShape(s[WsRun(s)..]);
      WsRunSplit(s);
      CharsFromSuffix(DropSpaceBeforeTight(s[WsRun(s)..]), s, WsRun(s));
    } else {
      var rest := DropSpaceBeforeTight(s[1..]);
      DropBeforeShape(s[1..]);
      assert Solid(s) == (if IsWs(s[0]) then [] else [s[0]]) + Solid(s[1..]);
      CharsFromCons(s[0], rest, s);
      if IsWs(s[0]) && |s| > 1 {
        assert WsRun(s) == 1 + WsRun(s[1..]);
      }
    }
  }

  /** The first pass rewrites a text that ends in a visible character
      without looking past it. */
  lemma {:induction false} DropBeforeAppend(p: string, q: string)
    requires p == [] || !IsWs(p[|p| - 1])
    ensures DropSpaceBeforeTight(p + q) == DropSpaceBeforeTight(p) + DropSpaceBeforeTight(q)
    decreases |p|
  {
    if p == [] {
      assert p + q == q;
    } else {
      WsRunAppend(p, q);
      var n := if RunBeforeTight(p) then WsRun(p) else 1;
      assert (p + q)[n..] == p[n..] + q;
      DropBeforeAppend(p[n..], q);
      if n == 1 {
        Assoc([p[0]], DropSpaceBeforeTight(p[1..]), DropSpaceBeforeTight(q));
      }
    }
  }

  /** A run of whitespace right before a pre-tight character goes. */
  lemma DropRunBeforeTight(w: string, c: char, q: string)
    requires w != [] && AllWs(w) && IsPreTight(c)
    ensures DropSpaceBeforeTight(w + [c] + q) == [c] + DropSpaceBeforeTight(q)
  {
    var s := w + [c] + q;
    WsRunOf(s, |w|);
    assert s[|w|..] == [c] + q;
    assert ([c] + q)[1..] == q;
  }

  /** A text with no whitespace right before a pre-tight character is left
      alone: whitespace anywhere else stays. */
  lemma {:induction false} DropBeforeKeepsTight(s: string)
    requires TightBefore(s)
    ensures DropSpaceBeforeTight(s) == s
    decreases |s|
  {
    if s != [] {
      NoRunBeforeTight(s);
      DropBeforeKeepsTight(s[1..]);
    }
  }

  lemma NoRunBeforeTight(s: string)
    requires TightBefore(s) && s != []
    ensures !RunBeforeTight(s)
  {
    var n := WsRun(s);
    if 0 < n < |s| {
      TightBeforeAt(s, n - 1);
    }
  }

  lemma {:induction false} TightBeforeAt(s: string, i: nat)
    requires TightBefore(s) && i + 1 < |s|
    ensures !(IsWs(s[i]) && IsPreTight(s[i + 1]))
    decreases i
  {
    if i > 0 {
      TightBeforeAt(s[1..], i - 1);
    }
  }

  /** `([+>{}:;,(])\s++` replaced by `$1`. */
  function DropSpaceAfterTight(s: string): string
    decreases |s|
  {
    if s == [] then []
    else if IsPostTight(s[0]) then [s[0]] + DropSpaceAfterTight(s[1..][WsRun(s[1..])..])
    else [s[0]] + DropSpaceAfterTight(s[1..])
  }

  /** No whitespace right after a post-tight character. */
  predicate TightAfter(r: string)
    decreases |r|
  {
    |r| < 2 || (!(IsPostTight(r[0]) && IsWs(r[1])) && TightAfter(r[1..]))
  }

  /** The second pass removes only whitespace, leaves none after a
      post-tight character, and keeps the first character. */
  lemma {:induction false} DropAfterShape(s: string)
    ensures var r := DropSpaceAfterTight(s);
      && Solid(r) == Solid(s)
      && CharsFrom(r, s)
      && TightAfter(r)
      && (|s| > 0 ==> |r| > 0 && r[0] == s[0])
    decreases |s|
  {
    if s != [] {
      var t := s[1..];
      assert Solid(s) == (if IsWs(s[0]) then [] else [s[0]]) + Solid(t);
      if IsPostTight(s[0]) {
        var rest := DropSpaceAfterTight(t[WsRun(t)..]);
        DropAfterShape(t[WsRun(t)..]);
        WsRunSplit(t);
        CharsFromSuffix(rest, t, WsRun(t));
        CharsFromCons(s[0], rest, s);
      } else {
        DropAfterShape(t);
        CharsFromCons(s[0], DropSpaceAfterTight(t), s);
      }
    }
  }

  /** The second pass rewrites a text that ends in a visible character
      other than a post-tight one without looking past it. */
  lemma {:induction false} DropAfterAppend(p: string, q: string)
    requires p == [] || (!IsWs(p[|p| - 1]) && !IsPostTight(p[|p| - 1]))
    ensures DropSpaceAfterTight(p + q) == DropSpaceAfterTight(p) + DropSpaceAfterTight(q)
    decreases |p|
  {
    if p == [] {
      assert p + q == q;
    } else {
      var t := p[1..];
      assert (p + q)[1..] == t + q;
      if IsPostTight(p[0]) {
        WsRunAppend(t, q);
        var n := WsRun(t);
        assert (t + q)[n..] == t[n..] + q;
        DropAfterAppend(t[n..], q);
        Assoc([p[0]], DropSpaceAfterTight(t[n..]), DropSpaceAfterTight(q));
      } else {
        DropAfterAppend(t, q);
        Assoc([p[0]], DropSpaceAfterTight(t), DropSpaceAfterTight(q));
      }
    }
  }

  /** The whole run of whitespace right after a post-tight character
      goes. */
  lemma DropRunAfterTight(c: char, w: string, q: string)
    requires IsPostTight(c) && AllWs(w) && (q == [] || !IsWs(q[0]))
    ensures DropSpaceAfterTight([c] + w + q) == [c] + DropSpaceAfterTight(q)
  {
    var s := [c] + w + q;
    assert s[1..] == w + q;
    WsRunOf(w + q, |w|);
    assert (w + q)[|w|..] == q;
  }

  /** Any character that is not post-tight, whitespace included, is kept
      and the rest is rewritten on its own. */
  lemma DropAfterCons(c: char, q: string)
    requires !IsPostTight(c)
    ensures DropSpaceAfterTight([c] + q) == [c] + DropSpaceAfterTight(q)
  {
    assert ([c] + q)[1..] == q;
  }

  /** A text with no whitespace right after a post-tight character is left
      alone: whitespace anywhere else stays. */
  lemma {:induction false} DropAfterKeepsTight(s: string)
    requires TightAfter(s)
    ensures DropSpaceAfterTight(s) == s
    decreases |s|
  {
    if s != [] {
      var t := s[1..];
      if IsPostTight(s[0]) {
        WsRunOf(t, 0);
        assert t[0..] == t;
      }
      DropAfterKeepsTight(t);
    }
  }

  /** `s` without its semicolons and line feeds: what `;?\}` replaced by
      `}\n` leaves unchanged. */
  function Skeleton(s: string): string
    decreases |s|
  {
    if s == [] then [] else (if s[0] == ';' || s[0] == '\n' then [] else [s[0]]) + Skeleton(s[1..])
  }

  /** Every `}` is followed by a line feed. */
  predicate BracesBroken(r: string)
    decreases |r|
  {
    r == [] || ((r[0] != '}' || (|r| > 1 && r[1] == '\n')) && BracesBroken(r[1..]))
  }

  /** `;?\}` replaced by `}` followed by a line feed. */
  function BreakAfterBraces(s: string): string
    decreases |s|
  {
    if s == [] then []
    else if s[0] == ';' && |s| > 1 && s[1] == '}' then "}\n" + BreakAfterBraces(s[2..])
    else if s[0] == '}' then "}\n" + BreakAfterBraces(s[1..])
    else [s[0]] + BreakAfterBraces(s[1..])
  }

  /** The third pass changes only semicolons before a brace and line feeds,
      and leaves every brace followed by a line feed. */
  lemma {:induction false} BracesShape(s: string)
    ensures var r := BreakAfterBraces(s);
      && Skeleton(r) == Skeleton(s)
      && CharsFrom(r, s)
      && BracesBroken(r)
    decreases |s|
  {
    if s != [] {
      var n := if s[0] == ';' && |s| > 1 && s[1] == '}' then 2 else 1;
      var rest := BreakAfterBraces(s[n..]);
      BracesShape(s[n..]);
      CharsFromSuffix(rest, s, n);
      if s[0] == '}' || n == 2 {
        BracesStep(s, n, rest);
        var r := "}\n" + rest;
        assert r[1..] == "\n" + rest && r[1..][1..] == rest;
      } else {
        CharsFromCons(s[0], rest, s);
        SkeletonAppend([s[0]], rest);
      }
    }
  }

  /** The third pass leaves a text without `}` alone. */
  lemma {:induction false} BracesKeep(s: string)
    requires Lacks(s, '}')
    ensures BreakAfterBraces(s) == s
    decreases |s|
  {
    if s != [] {
      BracesKeep(s[1..]);
    }
  }

  /** A brace, with the one semicolon right before it, becomes the brace and
      a line feed. */
  lemma BracesAt(q: string)
    ensures BreakAfterBraces("}" + q) == "}\n" + BreakAfterBraces(q)
    ensures BreakAfterBraces(";}" + q) == "}\n" + BreakAfterBraces(q)
  {
    assert ("}" + q)[1..] == q;
    assert (";}" + q)[2..] == q;
  }

  /** The third pass works piece by piece, except across a semicolon that
      ends one piece before a brace that starts the next. */
  lemma {:induction false} BracesAppend(p: string, q: string)
    requires p == [] || q == [] || p[|p| - 1] != ';' || q[0] != '}'
    ensures BreakAfterBraces(p + q) == BreakAfterBraces(p) + BreakAfterBraces(q)
    decreases |p|
  {
    if p == [] {
      assert p + q == q;
    } else {
      var n := if p[0] == ';' && |p| > 1 && p[1] == '}' then 2 else 1;
      assert (p + q)[n..] == p[n..] + q;
      BracesAppend(p[n..], q);
      if n == 1 && p[0] != '}' {
        Assoc([p[0]], BreakAfterBraces(p[1..]), BreakAfterBraces(q));
      } else {
        Assoc("}\n", BreakAfterBraces(p[n..]), BreakAfterBraces(q));
      }
    }
  }

  lemma BracesStep(s: string, n: nat, rest: string)
    requires (n == 1 || n == 2) && n <= |s| && s[n - 1] == '}' && (n == 2 ==> s[0] == ';')
    requires Skeleton(rest) == Skeleton(s[n..])
    ensures Skeleton("}\n" + rest) == Skeleton(s)
    ensures '}' in s
  {
    SkeletonAppend("}\n", rest);
    assert Skeleton("}\n") == "}";
    var t := s[n - 1..];
    assert Skeleton(t) == "}" + Skeleton(t[1..]);
    assert t[1..] == s[n..];
    if n == 2 {
      assert s[1..] == t;
      assert Skeleton(s) == Skeleton(s[1..]);
    } else {
      assert s == t;
    }
  }

  lemma {:induction false} SkeletonSolid(s: string)
    ensures Skeleton(Solid(s)) == Solid(Skeleton(s))
    decreases |s|
  {
    if s != [] {
      SkeletonSolid(s[1..]);
      var h := if IsWs(s[0]) then [] else [s[0]];
      var rest := Solid(s[1..]);
      assert Solid(s) == h + rest;
      SkeletonAppend(h, rest);
      var g := if s[0] == ';' || s[0] == '\n' then [] else [s[0]];
      assert Skeleton(s) == g + Skeleton(s[1..]);
      SolidAppend(g, Skeleton(s[1..]));
    }
  }

  lemma {:induction false} SkeletonAppend(a: string, b: string)
    ensures Skeleton(a + b) == Skeleton(a) + Skeleton(b)
    decreases |a|
  {
    if a == [] {
      assert a + b == b;
    } else {
      assert (a + b)[1..] == a[1..] + b;
      SkeletonAppend(a[1..], b);
    }
  }

  /** The code after a type-2 comment as the callback rewrites it. */
  function CleanRun(run: string): (r: string)
    ensures Solid(Skeleton(r)) == Solid(Skeleton(run))
    ensures CharsFrom(r, run)
    ensures BracesBroken(r)
  {
    var a := DropSpaceBeforeTight(run);
    var b := DropSpaceAfterTight(a);
    var c := BreakAfterBraces(b);
    DropBeforeShape(run);
    DropAfterShape(a);
    BracesShape(b);
    SkeletonSolid(run);
    SkeletonSolid(b);
    SkeletonSolid(c);
    assert CharsFrom(c, run) by {
      forall ch | ch in c && ch != '\n' ensures ch in run {
        assert ch in b;
        assert ch in a;
      }
    }
    c
  }
}
