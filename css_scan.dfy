/** The single left-to-right scan of compressCss
    (Classes/Minifier.php:187-205) and its callback
    compressCssPregCallback (224-273).

    The pattern has six capture groups. At each position the first
    alternative that matches wins: a double-quoted string (group 1), a
    single-quoted string (2), a comment without backslash (3), a MacIE5
    type-1 comment (4), or a MacIE5 type-2 comment (5) together with the
    code after it up to the next slash (6). Where none matches, one
    character is copied and the scan moves on. The callback's branches
    for groups 8 and 9 and its error fallback can never be taken, so they
    have no chunk kind here. */
module CssScan {
  import opened Text
  import opened Options
  import opened CssClean

  predicate IsQuote(q: char) {
    q == '"' || q == '\''
  }

  /** A string body: no unescaped `q`, and a backslash escapes the one
      character after it (`[^"\\]*+(?:\\.[^"\\]*+)*+`). */
  predicate EscapedBody(b: string, q: char)
    decreases |b|
  {
    || b == []
    || (b[0] != q && b[0] != '\\' && EscapedBody(b[1..], q))
    || (b[0] == '\\' && |b| >= 2 && EscapedBody(b[2..], q))
  }

  /** A complete quoted string literal. */
  predicate IsQuoted(t: string, q: char) {
    |t| >= 2 && t[0] == q && t[|t| - 1] == q && EscapedBody(t[1..|t| - 1], q)
  }

  /** Given the text after an opening quote `q`, the length up to and
      including the closing quote, or None when the string is never closed. */
  function QuotedTail(s: string, q: char): (r: Option<nat>)
    requires IsQuote(q)
    decreases |s|
    ensures r.Some? ==> 0 < r.value <= |s| && s[r.value - 1] == q && EscapedBody(s[..r.value - 1], q)
  {
    if s == [] then None
    else if s[0] == q then Some(1)
    else if s[0] == '\\' then
      if |s| < 2 then None
      else
        match QuotedTail(s[2..], q)
        case None => None
        case Some(n) =>
          assert s[..n + 1][2..] == s[2..][..n - 1];
          Some(n + 2)
    else
      match QuotedTail(s[1..], q)
      case None => None
      case Some(n) =>
        assert s[..n][1..] == s[1..][..n - 1];
        Some(n + 1)
  }

  /** `s` holds no `*` immediately followed by `/`. */
  ghost predicate NoClose(s: string) {
    forall j, k :: 0 <= j < k < |s| && k == j + 1 ==> !(s[j] == '*' && s[k] == '/')
  }

  // Index of the first `*/` in `s`.
  function CloseIndex(s: string): (r: Option<nat>)
    decreases |s|
    ensures r.Some? ==> r.value + 1 < |s| && s[r.value] == '*' && s[r.value + 1] == '/'
    ensures r.Some? ==> NoClose(s[..r.value + 1])
    ensures r.None? ==> NoClose(s)
  {
    if |s| < 2 then None
    else if s[0] == '*' && s[1] == '/' then Some(0)
    else
      match CloseIndex(s[1..])
      case None => None
      case Some(j) =>
        assert s[..j + 2][1..] == s[1..][..j + 1];
        Some(j + 1)
  }

  /** Length of the longest prefix of `s` without a slash (`[^/]*+`). */
  function RunLen(s: string): (n: nat)
    decreases |s|
    ensures n <= |s| && NoSlash(s[..n])
    ensures n < |s| ==> s[n] == '/'
  {
    if s == [] || s[0] == '/' then 0 else 1 + RunLen(s[1..])
  }

  /** No slash in `s`. */
  predicate NoSlash(s: string) {
    forall k :: 0 <= k < |s| ==> s[k] != '/'
  }

  // A closed comment `/*...*/` whose closing `*/` is the first one after
  // the opening `/*`.
  ghost predicate IsComment(t: string) {
    |t| >= 4 && t[..2] == "/*" && t[|t| - 2..] == "*/" && NoClose(t[2..|t| - 1])
  }

  function Body(t: string): string
    requires |t| >= 4
  {
    t[2..|t| - 2]
  }

  /** One chunk of the scan, tagged with the alternative that matched. */
  datatype Chunk =
    | DoubleQuoted(text: string)
    | SingleQuoted(text: string)
    | PlainComment(text: string)
    | MacIe5Type1(text: string)
    | MacIe5Type2(text: string, run: string)
    | Code(c: char)

  /** The input text a chunk covers. */
  function Source(c: Chunk): string {
    match c
    case DoubleQuoted(t) => t
    case SingleQuoted(t) => t
    case PlainComment(t) => t
    case MacIe5Type1(t) => t
    case MacIe5Type2(t, run) => t + run
    case Code(ch) => [ch]
  }

  /** What the callback returns for a chunk (lines 226-250); a character
      no alternative matched is copied. */
  function Emit(c: Chunk): string {
    match c
    case DoubleQuoted(t) => t
    case SingleQuoted(t) => t
    case PlainComment(_) => "\n"
    case MacIe5Type1(_) => "\n/*\\T1*/\n"
    case MacIe5Type2(_, run) => "\n/*T2\\*/" + CleanRun(run) + "\n/*T2E*/\n"
    case Code(ch) => [ch]
  }

  /** The chunk matches the shape its tag names. */
  ghost predicate WellFormed(c: Chunk) {
    match c
    case DoubleQuoted(t) => IsQuoted(t, '"')
    case SingleQuoted(t) => IsQuoted(t, '\'')
    case PlainComment(t) => IsComment(t) && '\\' !in Body(t)
    case MacIe5Type1(t) =>
      IsComment(t) && '\\' in Body(t) && Body(t)[|Body(t)| - 1] != '\\'
    case MacIe5Type2(t, run) =>
      IsComment(t) && |Body(t)| > 0 && Body(t)[|Body(t)| - 1] == '\\' && NoSlash(run)
    case Code(_) => true
  }

  /** The chunk that starts `s`: the first alternative that matches there. */
  function NextChunk(s: string): (c: Chunk)
    requires s != []
    ensures 0 < |Source(c)| <= |s| && Source(c) == s[..|Source(c)|]
    ensures WellFormed(c)
    ensures c.MacIe5Type2? ==> |Source(c)| == |s| || s[|Source(c)|] == '/'
  {
    if s[0] == '"' && QuotedTail(s[1..], '"').Some? then QuotedAt(s, '"')
    else if s[0] == '\'' && QuotedTail(s[1..], '\'').Some? then QuotedAt(s, '\'')
    else if |s| >= 2 && s[0] == '/' && s[1] == '*' && CloseIndex(s[2..]).Some? then CommentAt(s)
    else Code(s[0])
  }

  /** The string literal that starts `s` and is closed. */
  function QuotedAt(s: string, q: char): (c: Chunk)
    requires s != [] && IsQuote(q) && s[0] == q && QuotedTail(s[1..], q).Some?
    ensures 0 < |Source(c)| <= |s| && Source(c) == s[..|Source(c)|]
    ensures WellFormed(c) && (c.DoubleQuoted? || c.SingleQuoted?)
  {
    var tail := s[1..];
    var n := QuotedTail(tail, q).value;
    assert s[..1 + n][1..n] == tail[..n - 1];
    if q == '"' then DoubleQuoted(s[..1 + n]) else SingleQuoted(s[..1 + n])
  }

  /** The closed comment that starts `s`, tagged by its body, with the run
      of code a type-2 comment takes along. */
  function CommentAt(s: string): (c: Chunk)
    requires |s| >= 2 && s[0] == '/' && s[1] == '*' && CloseIndex(s[2..]).Some?
    ensures 0 < |Source(c)| <= |s| && Source(c) == s[..|Source(c)|]
    ensures WellFormed(c)
    ensures c.MacIe5Type2? ==> |Source(c)| == |s| || s[|Source(c)|] == '/'
  {
    var j := CloseIndex(s[2..]).value;
    ClosedCommentPrefix(s, j);
    var c := TagComment(s[..j + 4], s[j + 4..]);
    TaggedPrefix(s, j + 4, c);
    c
  }

  /** A chunk read from the text after the first `m` characters of `s`,
      stated relative to `s` itself. */
  lemma TaggedPrefix(s: string, m: nat, c: Chunk)
    requires 0 < m <= |Source(c)| <= |s|
    requires Source(c) == s[..m] + s[m..][..|Source(c)| - m]
    requires c.MacIe5Type2? ==> |Source(c)| == |s| || s[m..][|Source(c)| - m] == '/'
    ensures Source(c) == s[..|Source(c)|]
    ensures c.MacIe5Type2? ==> |Source(c)| == |s| || s[|Source(c)|] == '/'
  {
    JoinPrefix(s, m, |Source(c)| - m);
  }

  /** A closed comment tagged by its body; a type-2 comment takes along the
      code in `after` up to the next slash. */
  function TagComment(comment: string, after: string): (c: Chunk)
    requires IsComment(comment)
    ensures |comment| <= |Source(c)| <= |comment| + |after|
    ensures Source(c) == comment + after[..|Source(c)| - |comment|]
    ensures WellFormed(c)
    ensures c.MacIe5Type2? ==> |Source(c)| == |comment| + |after| || after[|Source(c)| - |comment|] == '/'
  {
    var body := Body(comment);
    assert comment + after[..0] == comment;
    if '\\' !in body then PlainComment(comment)
    else if body[|body| - 1] != '\\' then MacIe5Type1(comment)
    else MacIe5Type2(comment, after[..RunLen(after)])
  }

  lemma ClosedCommentPrefix(s: string, j: nat)
    requires |s| >= 2 && s[0] == '/' && s[1] == '*' && CloseIndex(s[2..]) == Some(j)
    ensures j + 4 <= |s| && IsComment(s[..j + 4]) && Body(s[..j + 4]) == s[2..2 + j]
  {
    var comment := s[..j + 4];
    assert comment[..2] == "/*";
    assert comment[|comment| - 2..] == "*/";
    assert comment[2..|comment| - 1] == s[2..][..j + 1];
  }

  lemma JoinPrefix(s: string, m: nat, n: nat)
    requires m + n <= |s|
    ensures s[..m] + s[m..][..n] == s[..m + n]
  {
  }

  function Sources(cs: seq<Chunk>): string {
    if cs == [] then [] else Source(cs[0]) + Sources(cs[1..])
  }

  function Emits(cs: seq<Chunk>): string {
    if cs == [] then [] else Emit(cs[0]) + Emits(cs[1..])
  }

  /** The chunks the scan visits, in order: they tile the input exactly,
      and each has the shape of its kind. */
  function Tokenize(s: string): (cs: seq<Chunk>)
    decreases |s|
    ensures Sources(cs) == s
    ensures forall i :: 0 <= i < |cs| ==> WellFormed(cs[i])
  {
    if s == [] then []
    else
      var c := NextChunk(s);
      var rest := Tokenize(s[|Source(c)|..]);
      assert ([c] + rest)[1..] == rest;
      assert s == Source(c) + s[|Source(c)|..];
      [c] + rest
  }

  /** `preg_replace_callback` with the pattern and callback. */
  function Scan(s: string): string {
    Emits(Tokenize(s))
  }

  lemma ScanEmpty()
    ensures Scan([]) == []
  {
    assert Tokenize([]) == [];
  }

  lemma ScanStep(s: string)
    requires s != []
    ensures Scan(s) == Emit(NextChunk(s)) + Scan(s[|Source(NextChunk(s))|..])
  {
    var c := NextChunk(s);
    var rest := Tokenize(s[|Source(c)|..]);
    assert Tokenize(s) == [c] + rest;
    assert ([c] + rest)[1..] == rest;
  }

  lemma NextChunkCode(s: string)
    requires s != [] && !IsQuote(s[0]) && s[0] != '/'
    ensures NextChunk(s) == Code(s[0])
  {
  }

  lemma NextChunkSlash(s: string)
    requires |s| >= 1 && s[0] == '/'
    requires |s| == 1 || s[1] != '*' || CloseIndex(s[2..]).None?
    ensures NextChunk(s) == Code('/')
  {
  }

  /** Code with no quote and no slash is copied unchanged. */
  lemma {:induction false} ScanCode(t: string, r: string)
    requires forall k :: 0 <= k < |t| ==> !IsQuote(t[k]) && t[k] != '/'
    ensures Scan(t + r) == t + Scan(r)
    decreases |t|
  {
    if t == [] {
      assert t + r == r;
    } else {
      var u := t[1..];
      assert t == [t[0]] + u;
      Assoc([t[0]], u, r);
      ScanCharThen(t[0], u + r);
      ScanCode(u, r);
      Assoc([t[0]], u, Scan(r));
    }
  }

  lemma ScanCodeStep(s: string)
    requires s != [] && !IsQuote(s[0]) && s[0] != '/'
    ensures Scan(s) == [s[0]] + Scan(s[1..])
  {
    NextChunkCode(s);
    ScanStep(s);
  }

  /** A slash that does not open a comment is copied. */
  lemma ScanLoneSlash(r: string)
    requires r == [] || r[0] != '*'
    ensures Scan("/" + r) == "/" + Scan(r)
  {
    var s := "/" + r;
    NextChunkSlash(s);
    ScanStep(s);
    assert s[1..] == r;
  }

  lemma {:induction false} QuotedTailOf(b: string, q: char, r: string)
    requires IsQuote(q) && EscapedBody(b, q)
    ensures QuotedTail(b + [q] + r, q) == Some(|b| + 1)
    decreases |b|
  {
    var s := b + [q] + r;
    if b == [] {
      assert s[0] == q;
    } else if b[0] != q && b[0] != '\\' && EscapedBody(b[1..], q) {
      assert s[1..] == b[1..] + [q] + r;
      QuotedTailOf(b[1..], q, r);
    } else {
      assert s[2..] == b[2..] + [q] + r;
      QuotedTailOf(b[2..], q, r);
    }
  }

  /** A complete string is copied unchanged. */
  lemma ScanQuoted(t: string, q: char, r: string)
    requires IsQuote(q) && IsQuoted(t, q)
    ensures Scan(t + r) == t + Scan(r)
  {
    var s := t + r;
    var b := t[1..|t| - 1];
    assert s[1..] == b + [q] + r;
    QuotedTailOf(b, q, r);
    assert s[..|t|] == t;
    assert NextChunk(s) == (if q == '"' then DoubleQuoted(t) else SingleQuoted(t));
    ScanStep(s);
    assert s[|t|..] == r;
  }

  /** An opening quote that is never closed is copied, and the scan goes
      on right after it. */
  lemma ScanUnclosedString(q: char, b: string)
    requires IsQuote(q) && QuotedTail(b, q).None?
    ensures Scan([q] + b) == [q] + Scan(b)
  {
    var s := [q] + b;
    assert s[1..] == b;
    assert NextChunk(s) == Code(q);
    ScanStep(s);
  }

  lemma {:induction false} CloseIndexOf(b: string, r: string)
    requires NoClose(b + "*")
    ensures CloseIndex(b + "*/" + r) == Some(|b|)
    decreases |b|
  {
    var s := b + "*/" + r;
    if b != [] {
      assert s[1..] == b[1..] + "*/" + r;
      assert (b + "*")[1..] == b[1..] + "*";
      assert (b + "*")[0] == s[0] && (b + "*")[1] == s[1];
      CloseIndexOf(b[1..], r);
    }
  }

  // The chunk a comment `/*b*/` starts, when `*/` does not occur in `b*`.
  lemma CommentChunk(b: string, r: string)
    requires NoClose(b + "*")
    ensures var s := "/*" + b + "*/" + r;
      && CloseIndex(s[2..]) == Some(|b|)
      && s[2..2 + |b|] == b
      && s[..|b| + 4] == "/*" + b + "*/"
  {
    var s := "/*" + b + "*/" + r;
    assert s[2..] == b + "*/" + r;
    CloseIndexOf(b, r);
  }

  /** A comment without backslash becomes one line feed. */
  lemma ScanPlainComment(b: string, r: string)
    requires NoClose(b + "*") && '\\' !in b
    ensures Scan("/*" + b + "*/" + r) == "\n" + Scan(r)
  {
    var s := "/*" + b + "*/" + r;
    CommentChunk(b, r);
    assert NextChunk(s) == PlainComment("/*" + b + "*/");
    ScanStep(s);
    assert s[|b| + 4..] == r;
  }

  // A MacIE5 type-1 comment (a backslash inside, none right before the
  // closing `*/`) becomes the canonical type-1 marker.
  lemma ScanMacIe5Type1(b: string, r: string)
    requires NoClose(b + "*") && '\\' in b && b[|b| - 1] != '\\'
    ensures Scan("/*" + b + "*/" + r) == "\n/*\\T1*/\n" + Scan(r)
  {
    var s := "/*" + b + "*/" + r;
    CommentChunk(b, r);
    assert NextChunk(s) == MacIe5Type1("/*" + b + "*/");
    ScanStep(s);
    assert s[|b| + 4..] == r;
  }

  lemma {:induction false} RunLenOf(run: string, r: string)
    requires NoSlash(run) && (r == [] || r[0] == '/')
    ensures RunLen(run + r) == |run|
    decreases |run|
  {
    if run != [] {
      assert (run + r)[1..] == run[1..] + r;
      RunLenOf(run[1..], r);
    }
  }

  // A MacIE5 type-2 comment (ending in a backslash before `*/`) takes the
  // code after it up to the next slash along, and that code comes out
  // cleaned between the type-2 markers.
  lemma ScanMacIe5Type2(b: string, run: string, r: string)
    requires NoClose(b + "*") && b != [] && b[|b| - 1] == '\\'
    requires NoSlash(run) && (r == [] || r[0] == '/')
    ensures Scan("/*" + b + "*/" + run + r) == "\n/*T2\\*/" + CleanRun(run) + "\n/*T2E*/\n" + Scan(r)
  {
    var s := "/*" + b + "*/" + run + r;
    assert s == "/*" + b + "*/" + (run + r);
    CommentChunk(b, run + r);
    assert s[|b| + 4..] == run + r;
    RunLenOf(run, r);
    NextChunkType2(s, b, run);
    ScanStep(s);
    assert s[|b| + 4 + |run|..] == r;
  }

  lemma NextChunkType2(s: string, b: string, run: string)
    requires |s| >= |b| + 4 && s[..|b| + 4] == "/*" + b + "*/"
    requires CloseIndex(s[2..]) == Some(|b|) && s[2..2 + |b|] == b
    requires b != [] && b[|b| - 1] == '\\'
    requires RunLen(s[|b| + 4..]) == |run| && s[|b| + 4..][..|run|] == run
    ensures NextChunk(s) == MacIe5Type2("/*" + b + "*/", run)
  {
    assert s[0] == '/' && s[1] == '*';
    assert '\\' in b;
  }

  // An opening `/*` that is never closed is copied, and the scan goes on
  // inside it.
  lemma ScanUnclosedComment(b: string)
    requires NoClose(b)
    ensures Scan("/*" + b) == "/*" + Scan(b)
  {
    assert "/*" == ['/'] + ['*'];
    CloseIndexNone(b);
    ScanCharThen('*', b);
    ScanSlashThen(['*'] + b);
    Assoc(['/'], ['*'], b);
    Assoc(['/'], ['*'], Scan(b));
  }

  lemma CloseIndexNone(b: string)
    requires NoClose(b)
    ensures CloseIndex(b).None?
  {
  }

  /** A slash that opens no closed comment is copied. */
  lemma ScanSlashThen(u: string)
    requires u == [] || u[0] != '*' || CloseIndex(u[1..]).None?
    ensures Scan(['/'] + u) == ['/'] + Scan(u)
  {
    var s := ['/'] + u;
    assert s[1..] == u;
    NextChunkSlash(s);
    ScanStep(s);
  }

  /** A character that starts no string and no comment is copied. */
  lemma ScanCharThen(c: char, u: string)
    requires !IsQuote(c) && c != '/'
    ensures Scan([c] + u) == [c] + Scan(u)
  {
    var s := [c] + u;
    assert s[1..] == u;
    ScanCodeStep(s);
  }

  /** The characters of the markers the callback inserts. */
  const MarkerChars: string := "\n/*\\T12E"

  lemma EmitChars(c: Chunk)
    ensures forall ch :: ch in Emit(c) ==> ch in Source(c) || ch in MarkerChars
  {
    match c
    case MacIe5Type2(t, run) =>
      forall ch | ch in Emit(c) && ch !in MarkerChars ensures ch in Source(c) {
        assert ch in CleanRun(run);
        assert ch in run;
        assert forall k :: 0 <= k < |run| ==> (t + run)[|t| + k] == run[k];
      }
    case _ =>
  }

  lemma {:induction false} EmitsChars(cs: seq<Chunk>)
    ensures forall ch :: ch in Emits(cs) ==> ch in Sources(cs) || ch in MarkerChars
  {
    if cs != [] {
      EmitChars(cs[0]);
      EmitsChars(cs[1..]);
      forall ch | ch in Emits(cs) && ch !in MarkerChars ensures ch in Sources(cs) {
        var h := Source(cs[0]);
        var t := Sources(cs[1..]);
        assert forall k :: 0 <= k < |t| ==> (h + t)[|h| + k] == t[k];
        assert forall k :: 0 <= k < |h| ==> (h + t)[k] == h[k];
      }
    }
  }

  /** The scan keeps the characters of its input and adds only those of
      its markers; in particular it adds no carriage return. */
  lemma ScanChars(s: string)
    ensures forall ch :: ch in Scan(s) ==> ch in s || ch in MarkerChars
  {
    EmitsChars(Tokenize(s));
  }
}
