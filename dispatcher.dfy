/** `minifyFiles` (Classes/Minifier.php:74-144): every asset entry is left
    alone, minified as inline code, or minified into a file below the
    compressor directory, and the result is assigned into a new ordered
    array, under the original key or under the target filename. */
module Dispatcher {
  import opened Options
  import opened OrderedArray
  import opened Paths
  import CssCompressor

  /** `TYPE_STYLESHEET` ('CSS') and `TYPE_JAVASCRIPT` ('JS'). */
  datatype AssetType = Stylesheet | JavaScript

  /** The flags `minifyFiles` is called with. */
  datatype Mode = Mode(assetType: AssetType, isInline: bool, isAssetCollector: bool)

  /** One asset descriptor: the `compress` flag (false when absent), the
      `file` and `code` entries (None when the key is absent), and all
      other keys, which pass through. */
  datatype Config = Config(compress: bool, file: Option<string>, code: Option<string>, other: map<string, string>)

  /** What the minifier is given: code, or the path of a file it loads. */
  datatype MinifierInput = Code(text: string) | File(path: string)

  /** The parts of the system the dispatcher calls but does not define. */
  datatype Collaborators = Collaborators(
    minify: (AssetType, MinifierInput) -> string,  // the CSS or JS minifier, imports not followed
    absFileName: string -> string,                 // resolving a configured path to an absolute one
    readFile: string -> string,                    // reading a file
    fixRelativeUrls: (string, string) -> string)   // rebasing `url()` references for a relative source path

  /** A minified file written to `path`; gzip-compressed at the level when
      one is given. */
  datatype Write = Write(path: string, content: string, gzipLevel: Option<int>)

  /** What one entry turns into: the key it is assigned under, its new
      descriptor, and the files written for it. */
  datatype Step = Step(key: string, config: Config, writes: seq<Write>)

  /** An entry that asks for compression but has neither `code` nor
      `file`: passing the missing file name on makes PHP throw. */
  predicate Stuck(c: Config) {
    c.compress && c.code.None? && c.file.None?
  }

  /** PHP's `substr($s, $n)` for `$n >= 0`: empty when `$n` is past the
      end. */
  function Substr(s: string, n: nat): (r: string)
    ensures n <= |s| ==> s == s[..n] + r
    ensures n > |s| ==> r == []
  {
    if n <= |s| then s[n..] else ""
  }

  /** The gzip level the file is written with, when gzip output is on. */
  function GzipLevel(env: Environment): (r: Option<int>)
    ensures r.Some? <==> IsGzipUsageEnabled(env)
    ensures r.Some? ==> r.value == env.compressionLevel
  {
    if IsGzipUsageEnabled(env) then Some(env.compressionLevel) else None
  }

  /** The code a stylesheet file is minified from: the file compressed by
      `compressCss`, its relative URLs rebased unless it is inlined. */
  function StylesheetCode(mode: Mode, env: Environment, io: Collaborators, abs: string): string {
    var css := CssCompressor.CompressCss(io.readFile(abs));
    if mode.isInline then css else io.fixRelativeUrls(css, Substr(abs, |env.sitePath|))
  }

  /** The loop body of `minifyFiles` for one entry; None when PHP throws. */
  function MinifyEntry(mode: Mode, env: Environment, io: Collaborators, key: string, config: Config): Option<Step>
  {
    if !config.compress then Some(Step(key, config, []))
    else if config.code.Some? then
      var code := config.code.value;
      var input := if mode.assetType == Stylesheet then CssCompressor.CompressCss(code) else code;
      var minified := io.minify(mode.assetType, Code(input)) + (if mode.isInline then ";" else "");
      Some(Step(key, config.(code := Some(minified), compress := false), []))
    else if config.file.None? then None
    else
      var target := TargetFilename(env, config.file.value);
      var abs := io.absFileName(config.file.value);
      var input := if mode.assetType == Stylesheet then Code(StylesheetCode(mode, env, io, abs)) else File(abs);
      var content := io.minify(mode.assetType, input);
      Some(Step(if mode.isAssetCollector then key else target,
                config.(compress := false, file := Some(target)),
                [Write(env.sitePath + target, content, GzipLevel(env))]))
  }

  /** What happens to one entry: it fails exactly when it asks for
      compression without code or file; otherwise its descriptor comes out
      with compression off and its other keys as they were. An entry not to
      be compressed is copied under its key; inline code keeps its key and
      becomes the minifier's output, of `compressCss`'s output for a
      stylesheet, with `;` appended exactly for inline use; a file entry
      points at its target, which is where the one file written goes, and
      is assigned under the target unless the asset-collector flag asks
      for the original key. That file is the minifier's output on the
      script's path, or on `compressCss` of the stylesheet read, with its
      URLs rebased exactly when it is not inlined; it is gzip-written
      exactly when its name carries the `.gzip` suffix. */
  lemma EntryShape(mode: Mode, env: Environment, io: Collaborators, key: string, config: Config)
    ensures var r := MinifyEntry(mode, env, io, key, config);
      && (r.None? <==> Stuck(config))
      && (r.Some? ==> !r.value.config.compress && r.value.config.other == config.other)
      && (!config.compress ==> r == Some(Step(key, config, [])))
      && (config.compress && config.code.Some? ==>
            && r.Some? && r.value.key == key && r.value.writes == [] && r.value.config.file == config.file
            && r.value.config.code == Some(io.minify(mode.assetType, Code(
                 if mode.assetType == Stylesheet then CssCompressor.CompressCss(config.code.value) else config.code.value))
                 + (if mode.isInline then ";" else "")))
      && (config.compress && config.code.None? && config.file.Some? ==>
            var target := TargetFilename(env, config.file.value);
            var abs := io.absFileName(config.file.value);
            var css := CssCompressor.CompressCss(io.readFile(abs));
            && r.Some? && r.value.config.code.None? && r.value.config.file == Some(target)
            && r.value.key == (if mode.isAssetCollector then key else target)
            && |r.value.writes| == 1 && r.value.writes[0].path == env.sitePath + target
            && r.value.writes[0].content == io.minify(mode.assetType,
                 if mode.assetType == JavaScript then File(abs)
                 else if mode.isInline then Code(css)
                 else Code(io.fixRelativeUrls(css, Substr(abs, |env.sitePath|))))
            && r.value.writes[0].gzipLevel == GzipLevel(env)
            && target == TargetFilename(env.(zlibLoaded := false), config.file.value)
                         + (if r.value.writes[0].gzipLevel.Some? then ".gzip" else ""))
  {
    if config.file.Some? {
      GzipSuffix(env, config.file.value);
    }
  }

  /** The file is gzip-written exactly when its name got the `.gzip`
      suffix: the target is the plain target, followed by `.gzip` exactly
      when a gzip level is set. */
  lemma GzipSuffix(env: Environment, filepath: string)
    ensures TargetFilename(env, filepath)
      == TargetFilename(env.(zlibLoaded := false), filepath) + (if GzipLevel(env).Some? then ".gzip" else "")
  {
    var plain := TargetFilename(env.(zlibLoaded := false), filepath);
    assert plain + "" == plain;
  }

  /** The path handed to the URL rewriter is the source path relative to
      the site: a file below the site path loses exactly that prefix. */
  lemma RelativeSourcePath(sitePath: string, rel: string)
    ensures Substr(sitePath + rel, |sitePath|) == rel
  {
    assert (sitePath + rel)[|sitePath|..] == rel;
  }

  /** A stylesheet file below the site, not inlined, is written as the
      minifier's output on `compressCss` of the file with its URLs rebased
      for the source path relative to the site. */
  lemma StylesheetFileRebased(env: Environment, io: Collaborators, key: string, config: Config, rel: string,
                              assetCollector: bool)
    requires config.compress && config.code.None? && config.file.Some?
    requires io.absFileName(config.file.value) == env.sitePath + rel
    ensures var r := MinifyEntry(Mode(Stylesheet, false, assetCollector), env, io, key, config);
      && r.Some? && |r.value.writes| == 1
      && r.value.writes[0].content == io.minify(Stylesheet, Code(
           io.fixRelativeUrls(CssCompressor.CompressCss(io.readFile(env.sitePath + rel)), rel)))
  {
    EntryShape(Mode(Stylesheet, false, assetCollector), env, io, key, config);
    RelativeSourcePath(env.sitePath, rel);
  }

  /** The result of `minifyFiles`: the new array and the files written, or
      the files written before an entry made PHP throw. */
  datatype Run = Done(files: seq<Pair<Config>>, writes: seq<Write>) | Aborted(writes: seq<Write>)

  /** `minifyFiles` over a list of entries, as a fold over its prefixes. */
  function MinifyAll(mode: Mode, env: Environment, io: Collaborators, files: seq<Pair<Config>>): Run
    decreases |files|
  {
    if files == [] then Done([], [])
    else
      var last := files[|files| - 1];
      match MinifyAll(mode, env, io, files[..|files| - 1])
      case Aborted(w) => Aborted(w)
      case Done(out, w) =>
        match MinifyEntry(mode, env, io, last.key, last.value)
        case None => Aborted(w)
        case Some(st) => Done(Put(out, st.key, st.config), w + st.writes)
  }

  /** `minifyFiles`: the `foreach` loop, assigning each entry's new
      descriptor into the result array. */
  method MinifyFiles(mode: Mode, env: Environment, io: Collaborators, files: seq<Pair<Config>>) returns (r: Run)
    ensures r == MinifyAll(mode, env, io, files)
  {
    var result: seq<Pair<Config>> := [];
    var writes: seq<Write> := [];
    var i := 0;
    while i < |files|
      invariant 0 <= i <= |files|
      invariant MinifyAll(mode, env, io, files[..i]) == Done(result, writes)
    {
      var step := ProcessEntry(mode, env, io, files[i].key, files[i].value);
      if step.None? {
        AbortAt(mode, env, io, files, i, writes);
        return Aborted(writes);
      }
      var Step(key, config, written) := step.value;
      StepAt(mode, env, io, files, i, step.value, result, writes);
      result := Put(result, key, config);
      writes := writes + written;
      i := i + 1;
    }
    assert files[..|files|] == files;
    r := Done(result, writes);
  }

  /** The body of the loop: the descriptor is rewritten field by field. */
  method ProcessEntry(mode: Mode, env: Environment, io: Collaborators, key: string, config: Config)
    returns (r: Option<Step>)
    ensures r == MinifyEntry(mode, env, io, key, config)
  {
    if !config.compress {
      return Some(Step(key, config, []));
    }
    var c := config;
    if c.code.Some? {
      var code := c.code.value;
      if mode.assetType == Stylesheet {
        code := CssCompressor.CompressCss(code);
      }
      var minified := io.minify(mode.assetType, Code(code));
      c := c.(code := Some(minified + (if mode.isInline then ";" else "")));
      c := c.(compress := false);
      return Some(Step(key, c, []));
    }
    if c.file.None? {
      return None;
    }
    var target := TargetFilename(env, c.file.value);
    var abs := io.absFileName(c.file.value);
    var input := File(abs);
    if mode.assetType == Stylesheet {
      var css := CssCompressor.CompressCss(io.readFile(abs));
      if !mode.isInline {
        css := io.fixRelativeUrls(css, Substr(abs, |env.sitePath|));
      }
      input := Code(css);
    }
    var content := io.minify(mode.assetType, input);
    var written := [Write(env.sitePath + target, content, GzipLevel(env))];
    c := c.(compress := false);
    c := c.(file := Some(target));
    r := Some(Step(if mode.isAssetCollector then key else target, c, written));
  }

  /** One more entry extends the fold by its step. */
  lemma StepAt(mode: Mode, env: Environment, io: Collaborators, files: seq<Pair<Config>>, i: nat, st: Step,
               out: seq<Pair<Config>>, w: seq<Write>)
    requires i < |files| && MinifyAll(mode, env, io, files[..i]) == Done(out, w)
    requires MinifyEntry(mode, env, io, files[i].key, files[i].value) == Some(st)
    ensures MinifyAll(mode, env, io, files[..i + 1]) == Done(Put(out, st.key, st.config), w + st.writes)
  {
    assert files[..i + 1][..i] == files[..i];
  }

  /** A stuck entry ends the fold with the files written before it. */
  lemma AbortAt(mode: Mode, env: Environment, io: Collaborators, files: seq<Pair<Config>>, i: nat, w: seq<Write>)
    requires i < |files| && MinifyAll(mode, env, io, files[..i]).Done? && MinifyAll(mode, env, io, files[..i]).writes == w
    requires MinifyEntry(mode, env, io, files[i].key, files[i].value).None?
    ensures MinifyAll(mode, env, io, files) == Aborted(w)
  {
    assert files[..i + 1][..i] == files[..i];
    AbortedPrefix(mode, env, io, files, i + 1, w);
  }

  /** Once the fold has aborted, later entries change nothing. */
  lemma {:induction false} AbortedPrefix(mode: Mode, env: Environment, io: Collaborators, files: seq<Pair<Config>>,
                                         n: nat, w: seq<Write>)
    requires n <= |files| && MinifyAll(mode, env, io, files[..n]) == Aborted(w)
    ensures MinifyAll(mode, env, io, files) == Aborted(w)
    decreases |files| - n
  {
    if n < |files| {
      assert files[..n + 1][..n] == files[..n];
      AbortedPrefix(mode, env, io, files, n + 1, w);
    } else {
      assert files[..n] == files;
    }
  }
}
