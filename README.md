# Minifier core of the TYPO3 extension "min", in Dafny

This project models `Classes/Minifier.php` from the TYPO3 extension
"min". The file has two parts.

- **The CSS compressor.** `compressCss` and its callback
  `compressCssPregCallback` form a pure string-to-string function:
  1. delete every carriage return;
  2. run one left-to-right regular-expression scan that keeps string
     literals, replaces comments, and tags the MacIE5 hack comments;
  3. apply three whitespace passes.

  The scan is modelled as an explicit scanner over the rest of the input
  (module `CssScan`). Each step takes the first alternative that matches
  and yields one chunk of a tagged datatype: a quoted string, a plain
  comment, a MacIE5 type-1 comment, a MacIE5 type-2 comment together
  with the code run after it, or one copied character.
  - `CssClean` holds the three rewrites applied to the run after a
    type-2 comment.
  - `CssWhitespace` holds the three whitespace passes.
  - `CssCompressor` composes all of them.
  - `CssCaveats` shows where the compressor alters strings and `calc()`.
- **The asset dispatcher.** `minifyFiles` walks an ordered array of asset
  descriptors, and `generateTargetFilename` and `isGzipUsageEnabled`
  serve it.
  - `Dispatcher.MinifyFiles` is the `foreach` loop, proved equal to the
    fold `Dispatcher.MinifyAll`.
  - PHP's ordered array with keyed assignment is `OrderedArray`: a
    present key is replaced in place, a new key is appended.
  - Target names are in `Paths`.
  - The properties of the returned array are in `DispatchProperties`.
  - The two compress handlers, which overwrite fixed lists of the page
    renderer's parameter array by reference, are methods on the
    `EntryPoints.Parameters` class.

The following become parameters, collected in
`Dispatcher.Collaborators` and `Paths.Environment`:
- the external JavaScript/CSS minifier;
- path resolution, file reading and the relative-URL rewriter;
- the site path, the compressor directory, whether zlib is loaded, and
  the compression level.

Files written are returned as a list of `Write` records.

### Where the code and its description differ (the model follows the code)

- **Dead callback branches.** The pattern defines six capture groups. So
  the callback's `calc` branch (group 8), its branch that re-spaces
  "other code" (group 9), and its error fallback are never taken. Code
  outside strings, comments and type-2 runs is copied unchanged: a
  `calc()` expression there keeps its spaces
  (`CssCompressor.CompressKeepsCalc`), and the comment example
  `a { color: red; /* comment */ }` comes out as `a { color: red;\n}\n`,
  not re-spaced (`CssCompressor.CompressCommentExample`). The code after a
  type-2 comment, up to the next `/`, is rewritten by the three run
  clean-ups, `calc()` included: after `/*\*/`, `calc(1px + 2px)` becomes
  `calc(1px+2px)` (`CssCaveats.Type2RunRespaces`, instance
  `CssCaveats.CalcRespaceable`).
- **Strings inside a type-2 run.** The run after a type-2 comment is
  `[^/]*+`: it swallows quotes, so a string literal in it is cleaned like
  code. After `/*\*/`, the string `" ; "` becomes `";"`
  (`CssCaveats.Type2RunRespaces`, instance `CssCaveats.StringRespaceable`).
- **Strings continued over an escaped line feed.** The scan keeps such a
  string whole, but the later line-break pass does not know about
  strings: the blanks that start the string's second line are removed.
  `"a\` line feed ` b"` comes out as `"a\` line feed `b"` plus the final
  line feed (`CssCaveats.StringAcrossEscapedBreak`, instance
  `CssCaveats.ContinuedStringExample`).
- **Empty input.** Empty CSS gives `"\n"`: the last pass adds a line feed
  even to an empty text.
- **Comment kinds.**
  - A type-1 comment contains a backslash but does *not* end in `\*/`.
  - A type-2 comment ends in `\*/`, and it takes along all code up to the
    next `/`.
  - Every comment kind ends at the first `*/`.
- **Pre-punctuation set.** The pre-punctuation cleanup of the type-2 run
  removes whitespace before `+ > { } ; , )`. That set has no `:`.
- **Gzip flag.** Gzip output is on when zlib is loaded and the compression
  level is non-zero (PHP truthiness), not only when it is positive.
- **No `;` for inline CSS.** `minifyStylesheet` calls `minifyFiles` for
  `cssInline` with the inline flag off. Inline CSS therefore gets no `;`,
  and a file entry in that list has its relative URLs rebased.
- **A failing entry aborts the batch.** Suppose an entry asks for
  compression but has neither `code` nor `file`. Then passing the missing
  file name to `generateTargetFilename` throws, which ends the whole
  `minifyFiles` call and the compress handler that called it. Entries
  after it are not processed, and files already written stay written.
  The same holds for a list missing from the parameter array.

## Model

| member | source | states |
|---|---|---|
| CssCompressor.StripCr | Classes/Minifier.php:183 | the result holds no carriage return and is no longer than the input; `CssCompressor.StripCrAppend`, `CssCompressor.StripCrOfCr` and `CssCompressor.StripCrWithoutCr` state that every other character is kept in order |
| CssCompressor.StripCrKeepsOthers | Classes/Minifier.php:183 | every character other than a carriage return is kept exactly as often as it occurs (multiset equality with the carriage returns removed) |
| CssCompressor.StripCrWithoutCr | Classes/Minifier.php:183 | a text without carriage returns is left unchanged |
| CssCompressor.StripCrAppend | Classes/Minifier.php:183 | deleting carriage returns commutes with concatenation, so the kept characters keep their order; with `CssCompressor.StripCrOfCr` and `CssCompressor.StripCrWithoutCr` on single characters this fixes the output on every text |
| CssCompressor.StripCrOfCr | Classes/Minifier.php:183 | a carriage return alone becomes the empty text |
| CssCompressor.CompressCss | Classes/Minifier.php:181-213 | `compressCss`: carriage returns removed, then the scan, then the three whitespace passes; its output shape is stated by `CssCompressor.CompressCssShape` |
| CssCompressor.CompressCssShape | Classes/Minifier.php:181-214 | the output of `compressCss` holds no carriage return, has no leading whitespace, no space or tab before a line feed, no whitespace right after one, and ends in exactly one line feed after a visible character unless it is just `"\n"` |
| CssCompressor.CompressKeepsString | Classes/Minifier.php:187-193 | a complete one-line string literal with backslash escapes comes out byte for byte, plus the final line feed |
| CssCompressor.CompressKeepsCode | Classes/Minifier.php:187-212 | one line of code without quotes, slashes or line feeds comes out unchanged, inner whitespace included |
| CssCompressor.CompressKeepsCalc | Classes/Minifier.php:252-255 | `width: calc(100% - 10px);` comes out byte for byte with a final line feed, although the `calc` branch is dead |
| CssCompressor.CollapseAroundBreak | Classes/Minifier.php:210 | the blanks before a line feed and the whitespace after it vanish, leaving one line feed between the two lines |
| CssWhitespace.CollapsePrefix | Classes/Minifier.php:210 | a line that ends in no blank is untouched by the line-break pass whatever follows |
| CssCompressor.TidyTwoLines | Classes/Minifier.php:208-212 | two lines of code joined by blanks, a line feed and any whitespace (for instance five blank lines) come out joined by exactly one line feed |
| CssCompressor.CompressCommentBetweenCode | Classes/Minifier.php:234-237  | a backslash-free comment between two pieces of code, with the blanks before and the whitespace after it, becomes exactly one line feed |
| CssCompressor.CompressCommentExample | Classes/Minifier.php:181-213 | `a { color: red; /* comment */ }` becomes `a { color: red;\n}\n` |
| CssCaveats.OperatorRespaced | Classes/Minifier.php:244-248 | the run clean-ups drop the single spaces on both sides of a character such as `+` or `;`, whatever the surrounding text is |
| CssCaveats.Type2RunRespaces | Classes/Minifier.php:187-248 | after the comment `/*\*/`, `p + q` and `p ; q` shapes lose their spaces, inside `calc()` or a string literal alike |
| CssCaveats.CalcRespaceable | Classes/Minifier.php:252-255 | `calc(1px + 2px)` is such a shape, so after `/*\*/` it comes out as `calc(1px+2px)` |
| CssCaveats.StringRespaceable | Classes/Minifier.php:189-193 | the string literal `" ; "` is such a shape, so after `/*\*/` it comes out as `";"` |
| CssCaveats.StringAcrossEscapedBreak | Classes/Minifier.php:181-212 | a double-quoted string continued over an escaped line feed loses the blanks that start its second line |
| CssCaveats.ContinuedStringExample | Classes/Minifier.php:189-191 | `"a\` line feed ` b"` is such a string |
| CssScan.QuotedTail | Classes/Minifier.php:191-193 | a found closing quote ends the string and the text before it is a well-formed escaped body |
| CssScan.CloseIndex | Classes/Minifier.php:195-199 | a found index is the first `*/`, with no `*/` before it; none found means none occurs |
| CssScan.RunLen | Classes/Minifier.php:201 | the run holds no slash and stops at a slash or at the end: it is the maximal `[^/]*+` run |
| CssScan.NextChunk | Classes/Minifier.php:188-201 | the chunk at the cursor is a non-empty prefix of the input, has the shape of its kind, and a type-2 chunk's run is maximal |
| CssScan.CommentAt | Classes/Minifier.php:195-201 | a closed comment is a prefix of the input tagged by its body, with a maximal run after a type-2 comment |
| CssScan.Tokenize | Classes/Minifier.php:187-205 | the chunks the scan visits tile the input exactly and each is well formed |
| CssScan.Scan | Classes/Minifier.php:187-205 | the `preg_replace_callback` call: the emitted chunks of the tiling `CssScan.Tokenize` states, one per match |
| CssScan.Emit | Classes/Minifier.php:224-273 | the callback: one case per live group, stated case by case by the `CssScan.Scan…` lemmas |
| CssScan.ScanCode | Classes/Minifier.php:187-205  | code without quotes and slashes is copied unchanged by the scan |
| CssScan.ScanLoneSlash | Classes/Minifier.php:195-199 | a slash not followed by `*` is copied and the scan goes on after it |
| CssScan.ScanQuoted | Classes/Minifier.php:226-233  | a complete double- or single-quoted string is emitted verbatim |
| CssScan.ScanUnclosedString | Classes/Minifier.php:191-193 | an opening quote that is never closed is copied alone and the scan resumes after it |
| CssScan.ScanPlainComment | Classes/Minifier.php:234-237  | a comment with no backslash becomes `"\n"` |
| CssScan.ScanMacIe5Type1 | Classes/Minifier.php:238-241  | a comment with a backslash not ending in `\*/` becomes `"\n/*\T1*/\n"` |
| CssScan.ScanMacIe5Type2 | Classes/Minifier.php:242-251  | a comment ending in `\*/` together with the slash-free run after it becomes the T2 marker, the cleaned run, and the T2E marker |
| CssScan.ScanUnclosedComment | Classes/Minifier.php:195-199 | an opening `/*` never closed is copied and the scan continues inside it |
| CssScan.ScanChars | Classes/Minifier.php:224-251  | the scan emits only characters of its input and of its markers |
| CssClean.DropBeforeShape | Classes/Minifier.php:244 | the first cleanup removes only whitespace, keeping every visible character in order, and leaves none before `+ > { } ; , )`; which whitespace it keeps is stated by the lemmas below |
| CssClean.DropSpaceBeforeTight | Classes/Minifier.php:244 | `\s++([+>{};,)])` replaced by `$1`; stated by the `CssClean.DropBefore…` and `CssClean.DropRunBeforeTight` lemmas |
| CssClean.DropBeforeAppend | Classes/Minifier.php:244 | a text ending in a visible character is rewritten without looking past its end: the rewrite of a concatenation is the concatenation of the rewrites |
| CssClean.DropRunBeforeTight | Classes/Minifier.php:244 | a whitespace run right before `+ > { } ; , )` is removed and the rest rewritten on its own |
| CssClean.DropBeforeKeepsTight | Classes/Minifier.php:244 | a text with no whitespace right before those characters is left unchanged, other whitespace included |
| CssClean.DropAfterShape | Classes/Minifier.php:246 | the second cleanup removes only whitespace, keeping every visible character in order, leaves none after `+ > { } : ; , (` and keeps the first character; which whitespace it keeps is stated by the lemmas below |
| CssClean.DropSpaceAfterTight | Classes/Minifier.php:246 | `([+>{}:;,(])\s++` replaced by `$1`; determined on every text by `CssClean.DropRunAfterTight` (a post-tight first character) and `CssClean.DropAfterCons` (any other first character) |
| CssClean.DropAfterAppend | Classes/Minifier.php:246 | a text ending in a visible character other than `+ > { } : ; , (` is rewritten without looking past its end |
| CssClean.DropRunAfterTight | Classes/Minifier.php:246 | a whitespace run right after `+ > { } : ; , (` is removed and the rest rewritten on its own |
| CssClean.DropAfterKeepsTight | Classes/Minifier.php:246 | a text with no whitespace right after those characters is left unchanged, other whitespace included |
| CssClean.DropAfterCons | Classes/Minifier.php:246 | a first character outside `+ > { } : ; , (`, whitespace included, is kept and the rest is rewritten on its own; with `CssClean.DropRunAfterTight` this determines the cleanup on every text |
| CssClean.BracesShape | Classes/Minifier.php:248 | the third cleanup changes only `;` before `}` and line feeds, and leaves every `}` followed by a line feed; what it does at and between braces is stated by the lemmas below |
| CssClean.BreakAfterBraces | Classes/Minifier.php:248 | `;?\}` replaced by `}` and a line feed; stated by the `CssClean.Braces…` lemmas |
| CssClean.BracesKeep | Classes/Minifier.php:248 | a text without `}` is left unchanged |
| CssClean.BracesAt | Classes/Minifier.php:248 | `}` and `;}` at the start each become `}` and a line feed, and the rest is rewritten on its own |
| CssClean.BracesAppend | Classes/Minifier.php:248 | unless the split falls between `;` and `}`, the rewrite of a concatenation is the concatenation of the rewrites |
| CssClean.CleanRun | Classes/Minifier.php:244-248 | the cleaned type-2 run keeps the run's visible characters in order, semicolons and line feeds aside; it adds no character except line feeds, and a line feed follows every `}` |
| CssWhitespace.TrimLeading | Classes/Minifier.php:208 | the result is a suffix of the input, what is removed is whitespace, and it does not start with whitespace |
| CssWhitespace.CollapseShape | Classes/Minifier.php:210 | the line-break pass changes only whitespace, leaves no blank before and no whitespace after a line feed, and starts with a line feed exactly where a match starts the text; what it keeps is stated by the lemmas below |
| CssWhitespace.CollapseLineBreaks | Classes/Minifier.php:210 | `[ \t]*+\n\s*+` replaced by one line feed; stated by `CssWhitespace.CollapseShape` and the lemmas after it |
| CssWhitespace.CollapseBreakThen | Classes/Minifier.php:210 | blanks, a line feed and whitespace before a visible character become one line feed, and the rest is rewritten on its own |
| CssWhitespace.EndWithLineFeed | Classes/Minifier.php:212 | the trailing whitespace is replaced by exactly one line feed, preceded by a visible character unless the result is just the line feed |
| CssWhitespace.TidyShape | Classes/Minifier.php:208-212 | the three passes leave the tidy shape and change only whitespace |
| CssWhitespace.Tidy | Classes/Minifier.php:208-212 | the three whitespace passes in order; stated by `CssWhitespace.TidyShape` and the `CssWhitespace.Tidy…` lemmas |
| CssWhitespace.TidyIdempotent | Classes/Minifier.php:208-212 | applying the three passes to their own output changes nothing |
| CssWhitespace.TidyKeepsTidy | Classes/Minifier.php:208-212 | a text already in tidy shape is left unchanged |
| CssWhitespace.CollapseKeepsTight | Classes/Minifier.php:210 | a text whose line feeds already stand alone is left unchanged by the line-break pass |
| CssWhitespace.CollapseSingleLine | Classes/Minifier.php:210 | a text without line feeds is left unchanged by the line-break pass |
| CssWhitespace.TidyOneLine | Classes/Minifier.php:208-212 | one line starting and ending with visible characters only gains the final line feed |
| CssWhitespace.TidyVisibleEdges | Classes/Minifier.php:208-212 | when the text starts and the collapsed text ends visibly, only the line-break pass and the final line feed act |
| OrderedArray.IndexOf | Classes/Minifier.php:141  | the position found holds the key and is the first such; none found means the key is absent |
| OrderedArray.Lookup | Classes/Minifier.php:141 | reading `$a[$k]`; stated with assignment by `OrderedArray.PutLookup` |
| OrderedArray.Put | Classes/Minifier.php:141 | `$a[$k] = $v`: replaced in place or appended; stated by `OrderedArray.PutKeys` and `OrderedArray.PutLookup` |
| OrderedArray.PutKeys | Classes/Minifier.php:141  | keyed assignment keeps keys distinct, keeps the key order, and appends a new key at the end |
| OrderedArray.PutLookup | Classes/Minifier.php:141  | after `$a[$k] = $v` the key reads `$v` and every other key reads as before |
| OrderedArray.IndexOfKeys | Classes/Minifier.php:141 | a key is found exactly when it is among the array's keys |
| Paths.LastIndexOf | Classes/Minifier.php:165 | the position found holds the character and none follows it; none found means the character is absent |
| Paths.IsGzipUsageEnabled | Classes/Minifier.php:146-149 | zlib loaded and a non-zero level; its effect on names is stated by `Paths.TargetOfName` |
| Paths.Basename | Classes/Minifier.php:165 | `basename`: the part after the last slash, trailing slashes ignored; stated by `Paths.PathInfoSplits` and `Paths.BasenameAfterDir` |
| Paths.PathInfoOf | Classes/Minifier.php:165 | `pathinfo`'s `filename` and `extension`; stated by `Paths.PathInfoSplits` |
| Paths.TargetFilename | Classes/Minifier.php:159-172 | `generateTargetFilename` without the directory creation; stated by `Paths.TargetOfName`, `Paths.TargetWithoutExtension` and `Paths.SameNameSameTarget` |
| Paths.PathInfoSplits | Classes/Minifier.php:165 | the base name holds no slash; `filename` and `extension` are the base name split at its last dot, and no extension means no dot |
| Paths.BasenameAfterDir | Classes/Minifier.php:165 | a name after a directory prefix ending in `/` is the base name |
| Paths.TargetOfName | Classes/Minifier.php:146-172  | `dir/name.ext` goes to the compressor directory as `name-min.ext`, with `.gzip` appended exactly when zlib is loaded and the level is non-zero |
| Paths.TargetWithoutExtension | Classes/Minifier.php:159-172 | a name without a dot gets the target `name-min.` (plus `.gzip` when gzip is on) |
| Paths.SameNameSameTarget | Classes/Minifier.php:159-172 | sources with the same base name in different directories share a target |
| Dispatcher.Substr | Classes/Minifier.php:121 | `substr` from `n` is the rest after the first `n` characters, or empty past the end; what it computes for the source path is stated by `Dispatcher.RelativeSourcePath` |
| Dispatcher.RelativeSourcePath | Classes/Minifier.php:121 | cutting the site path off a path under the site gives back the path relative to the site |
| Dispatcher.GzipLevel | Classes/Minifier.php:129-136  | the file is gzip-written exactly when gzip usage is enabled, at the configured level; `Dispatcher.GzipSuffix` ties this to the target name |
| Dispatcher.GzipSuffix | Classes/Minifier.php:166-171 | the target of a gzip-written file is the plain target plus `.gzip`, and a file written plain has the plain target |
| Dispatcher.EntryShape | Classes/Minifier.php:83-141 | one entry: it throws exactly when it asks for compression without code or file; a skipped entry is copied under its key; inline code keeps its key and becomes the minifier's output (of `compressCss`'s output for CSS) with `;` exactly when inline; a file entry points at its target, writes one file at site path plus target with the gzip level, whose content is the minifier's output of the script file, or of `compressCss` of the stylesheet's contents with relative URLs rebased exactly when not inline; the target carries `.gzip` exactly when the write is gzipped; the entry is stored under the target unless the asset-collector flag keeps the key; compression ends off and other fields pass through |
| Dispatcher.MinifyEntry | Classes/Minifier.php:83-141 | one pass of the loop body; stated by `Dispatcher.EntryShape` |
| Dispatcher.StylesheetFileRebased | Classes/Minifier.php:117-124 | a stylesheet file under the site path is minified from `compressCss` of its contents with its URLs rebased against its path relative to the site |
| Dispatcher.MinifyAll | Classes/Minifier.php:74-144 | the fold of the loop body over the entries; stated by `Dispatcher.MinifyFiles` and the `DispatchProperties` lemmas |
| Dispatcher.MinifyFiles | Classes/Minifier.php:74-144 | the `foreach` loop returns exactly the fold of the per-entry step over the entries |
| Dispatcher.ProcessEntry | Classes/Minifier.php:84-141 | the loop body, rewriting the descriptor field by field, yields exactly the per-entry step |
| Dispatcher.AbortedPrefix | Classes/Minifier.php:83-142 | once an entry has thrown, later entries change nothing |
| DispatchProperties.AbortsIffStuck | Classes/Minifier.php:85-116 | `minifyFiles` throws exactly when some entry asks for compression but has neither code nor file |
| DispatchProperties.OutputSettled | Classes/Minifier.php:80-141 | the returned array has distinct keys and compression off in every descriptor |
| DispatchProperties.SettledUnchanged | Classes/Minifier.php:85-88 | an array with compression off everywhere comes back unchanged and nothing is written |
| DispatchProperties.Idempotent | Classes/Minifier.php:74-144  | running `minifyFiles` on its own output returns that output and writes nothing |
| DispatchProperties.LookupIsLatest | Classes/Minifier.php:141  | each key holds the descriptor of the last entry assigned under it, so a later file with the same target replaces the earlier one; no other key appears |
| DispatchProperties.KeyOrder | Classes/Minifier.php:80-141 | the keys of the result are the assigned keys in the order of their first assignment |
| DispatchProperties.KeysKept | Classes/Minifier.php:83-141  | with the asset-collector flag, or without file entries, distinct keys come back in their order |
| EntryPoints.RunJobs | Classes/Minifier.php:43-63 | the statements overwrite each named list with what `minifyFiles` returns for it, in order, stopping at the first that throws |
| EntryPoints.Handle | Classes/Minifier.php:43-63 | the statements of a compress handler, one `minifyFiles` call per named list; stated by `EntryPoints.RunJobs` and `EntryPoints.HandleComplete` |
| EntryPoints.MinifyJavaScript | Classes/Minifier.php:43-50 | the five script lists are rewritten, the two inline ones with the inline flag |
| EntryPoints.MinifyStylesheet | Classes/Minifier.php:58-63 | the three stylesheet lists are rewritten as stylesheets, all without the inline flag |
| EntryPoints.OthersUnchanged | Classes/Minifier.php:43-63 | lists that no statement names are left alone, whether or not the run completes |
| EntryPoints.HandleComplete | Classes/Minifier.php:43-63 | a run completes exactly when every named list is present and `minifyFiles` returns for each, and then each list is replaced by its result |
| EntryPoints.ScriptsKeepStylesheets | Classes/Minifier.php:43-50 | `minifyJavaScript` leaves the stylesheet lists alone |
| EntryPoints.StylesheetsKeepScripts | Classes/Minifier.php:58-63 | `minifyStylesheet` leaves the script lists alone |

## Left out

- The MatthiasMullie minifier library and its `setImportExtensions`, `minify` and `gzip` calls are a black box. The model uses one function of the asset type and the input (code or file path). The file writing is recorded as a `Write` with the gzip level, and the content is not gzip-encoded.
- `fixRelativeUrlPathsInCssCode` and the compressor path's string form are inputs: a function parameter and a field of `Environment`. Their source is not part of this model.
- File I/O and environment access are inputs: `file_get_contents`, `getFileAbsFileName`, `getSitePath`, `extension_loaded('zlib')`, and the compression level. A read or write failure is not modelled.
- The `is_dir`/`mkdir` side effect of `generateTargetFilename` is left out, because it only ensures the output directory exists.
- The autoloader in the constructor, `ext_localconf.php` and `ext_emconf.php` are framework wiring with no logic.
- General PCRE semantics are not modelled. Each pattern's effect is written out as character-level predicates for the patterns used here. Whitespace (`\s`) is space, tab, line feed, vertical tab, form feed and carriage return, as in PCRE without Unicode properties.
- PHP truthiness is reduced to the types used here:
  - `compress` is a boolean, and a missing key reads as false;
  - `code` and `file` are present or absent, and a present `code` holding null is not distinguished from a string;
  - the compression level is an integer.
- Exceptions are modelled as an aborted result: `Run.Aborted` for `minifyFiles`, `ok == false` for the handlers. The writes made before the exception are kept.
- A descriptor's keys other than `compress`, `code` and `file` are `Config.other`, an unordered map of strings. The PHP array keeps their order and their value types; `minifyFiles` only copies them, so nothing in the model depends on either.
- `pathinfo` and `basename` are modelled for paths with `/` separators only, without locale effects.
- CssCompressor.CompressCssShape: idempotence of `compressCss` as a whole is not stated. Only the whitespace passes are proved idempotent (`CssWhitespace.TidyIdempotent`), because a second scan re-reads the markers the first one emitted.
- `preg_replace_callback` failing on a PCRE backtracking or recursion limit is not modelled. It returns null, and the later passes then turn the whole output into a single line feed; the model always completes the scan.
- CssClean.CleanRun: states what the three cleanups keep and the brace breaks they leave. It does not state the exact output string, which is given by its definition; the frame lemmas of each cleanup (`CssClean.DropBeforeAppend` and the rows after it) and `CssCaveats.OperatorRespaced` state it piece by piece.
