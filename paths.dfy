/** Where a minified file goes (Classes/Minifier.php:146-149, 159-172):
    the compressor directory, the source's name without its extension,
    `-min.`, the extension, and `.gzip` when gzip output is on. The name
    and extension are split as PHP's `pathinfo` does for paths with `/`
    separators. */
module Paths {
  import opened Options
  import opened Text

  /** The site and the global settings the dispatcher reads. */
  datatype Environment = Environment(
    sitePath: string,        // public path of the site, with its trailing separator
    compressorPath: string,  // output directory below the site, with its trailing separator
    zlibLoaded: bool,        // whether PHP's zlib extension is loaded
    compressionLevel: int)   // the frontend compression level setting

  /** `isGzipUsageEnabled`: zlib is loaded and the level is non-zero. */
  predicate IsGzipUsageEnabled(env: Environment) {
    env.zlibLoaded && env.compressionLevel != 0
  }

  /** Number of slashes that end `p`. */
  function TrailingSlashes(p: string): (n: nat)
    decreases |p|
    ensures n <= |p|
    ensures n < |p| ==> p[|p| - n - 1] != '/'
  {
    if p == [] || p[|p| - 1] != '/' then 0 else 1 + TrailingSlashes(p[..|p| - 1])
  }

  /** Position of the last `c` in `s`. */
  function LastIndexOf(s: string, c: char): (r: Option<nat>)
    decreases |s|
    ensures r.Some? ==> r.value < |s| && s[r.value] == c
    ensures r.Some? ==> forall k :: r.value < k < |s| ==> s[k] != c
    ensures r.None? ==> Lacks(s, c)
  {
    if s == [] then None
    else if s[|s| - 1] == c then Some(|s| - 1)
    else LastIndexOf(s[..|s| - 1], c)
  }

  /** `basename`: the part after the last slash, trailing slashes
      ignored. */
  function Basename(p: string): string {
    var q := p[..|p| - TrailingSlashes(p)];
    match LastIndexOf(q, '/')
    case None => q
    case Some(i) => q[i + 1..]
  }

  /** The `filename` and `extension` entries of `pathinfo`; the extension
      is absent when the base name has no dot. */
  datatype PathInfo = PathInfo(filename: string, extension: Option<string>)

  function PathInfoOf(p: string): PathInfo {
    var b := Basename(p);
    match LastIndexOf(b, '.')
    case None => PathInfo(b, None)
    case Some(i) => PathInfo(b[..i], Some(b[i + 1..]))
  }

  /** `generateTargetFilename`; a missing extension reads as empty. */
  function TargetFilename(env: Environment, filepath: string): string {
    var info := PathInfoOf(filepath);
    var ext := if info.extension.Some? then info.extension.value else "";
    env.compressorPath + info.filename + "-min." + ext + (if IsGzipUsageEnabled(env) then ".gzip" else "")
  }

  /** The base name holds no slash, and `filename` and `extension` are the
      base name split at its last dot. */
  lemma PathInfoSplits(p: string)
    ensures Lacks(Basename(p), '/')
    ensures var info := PathInfoOf(p);
      && (info.extension.None? ==> info.filename == Basename(p) && Lacks(Basename(p), '.'))
      && (info.extension.Some? ==>
            info.filename + "." + info.extension.value == Basename(p) && Lacks(info.extension.value, '.'))
  {
    BasenameLacksSlash(p);
    var b := Basename(p);
    match LastIndexOf(b, '.')
    case None =>
    case Some(i) =>
      assert b == b[..i] + "." + b[i + 1..];
  }

  lemma BasenameLacksSlash(p: string)
    ensures Lacks(Basename(p), '/')
  {
    var q := p[..|p| - TrailingSlashes(p)];
    match LastIndexOf(q, '/')
    case None =>
    case Some(i) =>
      var b := q[i + 1..];
      forall k | 0 <= k < |b| ensures b[k] != '/' {
        assert b[k] == q[i + 1 + k];
      }
  }

  lemma LastIndexOfIs(s: string, c: char, i: nat)
    requires i < |s| && s[i] == c && forall k :: i < k < |s| ==> s[k] != c
    ensures LastIndexOf(s, c) == Some(i)
  {
    var r := LastIndexOf(s, c);
    assert r.Some?;
  }

  /** A name after a directory prefix ending in a slash is the base
      name. */
  lemma BasenameAfterDir(dir: string, b: string)
    requires dir == [] || dir[|dir| - 1] == '/'
    requires b != [] && Lacks(b, '/')
    ensures Basename(dir + b) == b
  {
    NoTrailingSlash(dir, b);
    if dir == [] {
      assert dir + b == b;
      assert LastIndexOf(b, '/').None?;
    } else {
      BasenameBelowDir(dir, b);
    }
  }

  lemma BasenameBelowDir(dir: string, b: string)
    requires dir != [] && dir[|dir| - 1] == '/'
    requires b != [] && Lacks(b, '/')
    requires (dir + b)[..|dir + b| - TrailingSlashes(dir + b)] == dir + b
    ensures Basename(dir + b) == b
  {
    LastSlashOf(dir, b);
    assert (dir + b)[|dir|..] == b;
  }

  lemma NoTrailingSlash(dir: string, b: string)
    requires b != [] && Lacks(b, '/')
    ensures (dir + b)[..|dir + b| - TrailingSlashes(dir + b)] == dir + b
  {
    var p := dir + b;
    assert p[|p| - 1] == b[|b| - 1];
    assert TrailingSlashes(p) == 0;
  }

  lemma LastSlashOf(dir: string, b: string)
    requires dir != [] && dir[|dir| - 1] == '/'
    requires Lacks(b, '/')
    ensures LastIndexOf(dir + b, '/') == Some(|dir| - 1)
  {
    var p := dir + b;
    forall k | |dir| - 1 < k < |p| ensures p[k] != '/' {
      assert p[k] == b[k - |dir|];
    }
    LastIndexOfIs(p, '/', |dir| - 1);
  }

  /** `dir/name.ext` goes to the compressor directory as
      `name-min.ext`, with `.gzip` appended exactly when gzip output is
      on; a dot inside `name` stays there. */
  lemma TargetOfName(env: Environment, dir: string, name: string, ext: string)
    requires dir == [] || dir[|dir| - 1] == '/'
    requires Lacks(name, '/') && Lacks(ext, '/') && Lacks(ext, '.')
    ensures TargetFilename(env, dir + name + "." + ext)
      == env.compressorPath + name + "-min." + ext + (if IsGzipUsageEnabled(env) then ".gzip" else "")
  {
    var b := name + "." + ext;
    assert dir + name + "." + ext == dir + b;
    BasenameAfterDir(dir, b);
    DotSplit(name, ext);
  }

  /** `name.ext` splits at the dot before `ext`. */
  lemma DotSplit(name: string, ext: string)
    requires Lacks(ext, '.')
    ensures var b := name + "." + ext;
      LastIndexOf(b, '.') == Some(|name|) && b[..|name|] == name && b[|name| + 1..] == ext
  {
    var b := name + "." + ext;
    forall k | |name| < k < |b| ensures b[k] != '.' {
      assert b[k] == ext[k - |name| - 1];
    }
    LastIndexOfIs(b, '.', |name|);
    assert b[..|name|] == name && b[|name| + 1..] == ext;
  }

  /** A name without a dot has no extension: the target ends in `-min.`
      (and `.gzip` when gzip output is on). */
  lemma TargetWithoutExtension(env: Environment, dir: string, name: string)
    requires dir == [] || dir[|dir| - 1] == '/'
    requires name != [] && Lacks(name, '/') && Lacks(name, '.')
    ensures TargetFilename(env, dir + name)
      == env.compressorPath + name + "-min." + (if IsGzipUsageEnabled(env) then ".gzip" else "")
  {
    BasenameAfterDir(dir, name);
    assert name + "-min." + "" == name + "-min.";
  }

  /** Sources with the same name in different directories share a target,
      so the later one overwrites the earlier one's minified file. */
  lemma SameNameSameTarget(env: Environment, dir1: string, dir2: string, b: string)
    requires dir1 == [] || dir1[|dir1| - 1] == '/'
    requires dir2 == [] || dir2[|dir2| - 1] == '/'
    requires b != [] && Lacks(b, '/')
    ensures TargetFilename(env, dir1 + b) == TargetFilename(env, dir2 + b)
  {
    BasenameAfterDir(dir1, b);
    BasenameAfterDir(dir2, b);
  }
}
