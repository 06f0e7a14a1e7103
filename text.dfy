/** Character classes and small sequence facts shared by the CSS passes. */
module Text {

  /** PCRE's `\s` without Unicode properties: space, tab, line feed,
      vertical tab, form feed and carriage return. */
  predicate IsWs(c: char) {
    c == ' ' || c == '\t' || c == '\n' || c == '\U{0B}' || c == '\U{0C}' || c == '\r'
  }

  /** The class `[ \t]`. */
  predicate IsBlank(c: char) {
    c == ' ' || c == '\t'
  }

  predicate AllWs(s: string) {
    forall k :: 0 <= k < |s| ==> IsWs(s[k])
  }

  /** No line feed in `s`. */
  predicate OneLine(s: string) {
    forall k :: 0 <= k < |s| ==> s[k] != '\n'
  }

  /** No carriage return in `s`. */
  predicate NoCr(s: string) {
    forall k :: 0 <= k < |s| ==> s[k] != '\r'
  }

  /** The character `c` does not occur in `s`. */
  predicate Lacks(s: string, c: char) {
    forall k :: 0 <= k < |s| ==> s[k] != c
  }

  predicate AllBlank(s: string) {
    forall k :: 0 <= k < |s| ==> IsBlank(s[k])
  }

  /** Every character of `r` occurs in `s` or is a line feed. */
  predicate CharsFrom(r: string, s: string) {
    forall c :: c in r ==> c in s || c == '\n'
  }

  /** The non-whitespace characters of `s`, in order. */
  function Solid(s: string): string
    decreases |s|
  {
    if s == [] then [] else (if IsWs(s[0]) then [] else [s[0]]) + Solid(s[1..])
  }

  /** Length of the run of whitespace that starts `s` (what `\s++` takes). */
  function WsRun(s: string): (n: nat)
    decreases |s|
    ensures n <= |s|
    ensures forall k :: 0 <= k < n ==> IsWs(s[k])
    ensures n < |s| ==> !IsWs(s[n])
  {
    if s == [] || !IsWs(s[0]) then 0 else 1 + WsRun(s[1..])
  }

  lemma Assoc(a: string, b: string, c: string)
    ensures a + (b + c) == a + b + c
  {
  }

  lemma {:induction false} SolidAppend(a: string, b: string)
    ensures Solid(a + b) == Solid(a) + Solid(b)
    decreases |a|
  {
    if a == [] {
      assert a + b == b;
    } else {
      assert (a + b)[1..] == a[1..] + b;
      SolidAppend(a[1..], b);
    }
  }

  lemma {:induction false} SolidOfWs(s: string)
    requires AllWs(s)
    ensures Solid(s) == []
    decreases |s|
  {
    if s != [] {
      SolidOfWs(s[1..]);
    }
  }

  lemma {:induction false} WsRunOf(s: string, n: nat)
    requires n <= |s| && (forall k :: 0 <= k < n ==> IsWs(s[k])) && (n < |s| ==> !IsWs(s[n]))
    ensures WsRun(s) == n
    decreases n
  {
    if n > 0 {
      WsRunOf(s[1..], n - 1);
    }
  }

  lemma WsRunSplit(s: string)
    ensures s == s[..WsRun(s)] + s[WsRun(s)..]
    ensures Solid(s) == Solid(s[WsRun(s)..])
  {
    SolidAppend(s[..WsRun(s)], s[WsRun(s)..]);
    SolidOfWs(s[..WsRun(s)]);
  }

  lemma CharsFromSuffix(r: string, s: string, n: nat)
    requires n <= |s| && CharsFrom(r, s[n..])
    ensures CharsFrom(r, s)
  {
    forall c | c in r && c != '\n' ensures c in s {
      var k :| 0 <= k < |s[n..]| && s[n..][k] == c;
      assert s[n + k] == c;
    }
  }

  lemma CharsFromCons(x: char, r: string, s: string)
    requires s != [] && x == s[0] && CharsFrom(r, s[1..])
    ensures CharsFrom([x] + r, s)
  {
    CharsFromSuffix(r, s, 1);
  }

  /** `Solid` one character at a time. */
  lemma SolidCons(s: string)
    requires s != []
    ensures Solid(s) == (if IsWs(s[0]) then [] else [s[0]]) + Solid(s[1..])
  {
  }

  /** Leading whitespace adds nothing solid. */
  lemma SolidSkipWs(s: string, n: nat)
    requires n <= |s| && AllWs(s[..n])
    ensures Solid(s) == Solid(s[n..])
  {
    assert s == s[..n] + s[n..];
    SolidAppend(s[..n], s[n..]);
    SolidOfWs(s[..n]);
  }

  /** The whitespace run that starts a text ending in a visible character
      ends inside it. */
  lemma WsRunAppend(p: string, q: string)
    requires p != [] && !IsWs(p[|p| - 1])
    ensures WsRun(p) < |p| && WsRun(p + q) == WsRun(p)
  {
    WsRunOf(p + q, WsRun(p));
  }
}
