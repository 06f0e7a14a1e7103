/** What `minifyFiles` promises about the array it returns
    (Classes/Minifier.php:74-144): it fails exactly on a stuck entry, every
    descriptor in it has compression off, a key holds the descriptor of the
    last entry assigned under it, keys keep the order of their first
    assignment, and running it again changes nothing. */
module DispatchProperties {
  import opened Options
  import opened OrderedArray
  import opened Paths
  import opened Dispatcher

  /** No descriptor asks for compression. */
  predicate AllOff(a: seq<Pair<Config>>) {
    forall i :: 0 <= i < |a| ==> !a[i].value.compress
  }

  /** The key an entry is assigned under. */
  function KeyOf(mode: Mode, env: Environment, io: Collaborators, e: Pair<Config>): string {
    match MinifyEntry(mode, env, io, e.key, e.value)
    case Some(st) => st.key
    case None => e.key
  }

  /** The descriptor an entry is turned into. */
  function ConfigOf(mode: Mode, env: Environment, io: Collaborators, e: Pair<Config>): Config {
    match MinifyEntry(mode, env, io, e.key, e.value)
    case Some(st) => st.config
    case None => e.value
  }

  /** The descriptor of the last entry assigned under `k`. */
  function Latest(mode: Mode, env: Environment, io: Collaborators, files: seq<Pair<Config>>, k: string): Option<Config>
    decreases |files|
  {
    if files == [] then None
    else if KeyOf(mode, env, io, files[|files| - 1]) == k then Some(ConfigOf(mode, env, io, files[|files| - 1]))
    else Latest(mode, env, io, files[..|files| - 1], k)
  }

  /** The keys the entries are assigned under, in entry order. */
  function OutKeys(mode: Mode, env: Environment, io: Collaborators, files: seq<Pair<Config>>): seq<string> {
    seq(|files|, i requires 0 <= i < |files| => KeyOf(mode, env, io, files[i]))
  }

  /** Each key once, at its first position. */
  function FirstOccurrences(ks: seq<string>): seq<string>
    decreases |ks|
  {
    if ks == [] then []
    else
      var p := FirstOccurrences(ks[..|ks| - 1]);
      if ks[|ks| - 1] in p then p else p + [ks[|ks| - 1]]
  }

  /** The fold on a non-empty list, one entry at a time. */
  lemma Unfold(mode: Mode, env: Environment, io: Collaborators, files: seq<Pair<Config>>)
    requires files != []
    ensures var last := files[|files| - 1];
      var prev := MinifyAll(mode, env, io, files[..|files| - 1]);
      var st := MinifyEntry(mode, env, io, last.key, last.value);
      MinifyAll(mode, env, io, files) ==
        if prev.Aborted? then prev
        else if st.None? then Aborted(prev.writes)
        else Done(Put(prev.files, st.value.key, st.value.config), prev.writes + st.value.writes)
  {
  }

  /** `minifyFiles` throws exactly when some entry asks for compression but
      has neither code nor a file. */
  lemma {:induction false} AbortsIffStuck(mode: Mode, env: Environment, io: Collaborators, files: seq<Pair<Config>>)
    ensures MinifyAll(mode, env, io, files).Aborted? <==> exists i :: 0 <= i < |files| && Stuck(files[i].value)
    decreases |files|
  {
    if files != [] {
      var n := |files| - 1;
      var p := files[..n];
      AbortsIffStuck(mode, env, io, p);
      Unfold(mode, env, io, files);
      EntryShape(mode, env, io, files[n].key, files[n].value);
      assert forall i :: 0 <= i < n ==> p[i] == files[i];
      if exists i :: 0 <= i < |files| && Stuck(files[i].value) {
        var i :| 0 <= i < |files| && Stuck(files[i].value);
        if i < n {
          assert Stuck(p[i].value);
        }
      }
    }
  }

  /** The array returned has distinct keys and no descriptor asking for
      compression. */
  lemma {:induction false} OutputSettled(mode: Mode, env: Environment, io: Collaborators, files: seq<Pair<Config>>)
    requires MinifyAll(mode, env, io, files).Done?
    ensures KeysDistinct(MinifyAll(mode, env, io, files).files)
    ensures AllOff(MinifyAll(mode, env, io, files).files)
    decreases |files|
  {
    if files != [] {
      var n := |files| - 1;
      var last := files[n];
      Unfold(mode, env, io, files);
      OutputSettled(mode, env, io, files[..n]);
      var out := MinifyAll(mode, env, io, files[..n]).files;
      var st := MinifyEntry(mode, env, io, last.key, last.value).value;
      EntryShape(mode, env, io, last.key, last.value);
      PutKeys(out, st.key, st.config);
      PutValues(out, st.key, st.config);
    }
  }

  /** A list with distinct keys and compression off everywhere comes back
      as it is, and nothing is written. */
  lemma {:induction false} SettledUnchanged(mode: Mode, env: Environment, io: Collaborators, files: seq<Pair<Config>>)
    requires KeysDistinct(files) && AllOff(files)
    ensures MinifyAll(mode, env, io, files) == Done(files, [])
    decreases |files|
  {
    if files != [] {
      var n := |files| - 1;
      var p := files[..n];
      var last := files[n];
      assert forall i :: 0 <= i < n ==> p[i] == files[i];
      SettledUnchanged(mode, env, io, p);
      Unfold(mode, env, io, files);
      EntryShape(mode, env, io, last.key, last.value);
      assert IndexOf(p, last.key).None?;
      assert p + [Pair(last.key, last.value)] == files;
    }
  }

  /** Running `minifyFiles` on its own result returns that result and
      writes nothing. */
  lemma Idempotent(mode: Mode, env: Environment, io: Collaborators, files: seq<Pair<Config>>)
    requires MinifyAll(mode, env, io, files).Done?
    ensures var out := MinifyAll(mode, env, io, files).files;
      MinifyAll(mode, env, io, out) == Done(out, [])
  {
    OutputSettled(mode, env, io, files);
    SettledUnchanged(mode, env, io, MinifyAll(mode, env, io, files).files);
  }

  /** Under every key the array holds the descriptor of the last entry
      assigned there: a later file with the same target replaces an
      earlier one, and no key appears that no entry was assigned under. */
  lemma {:induction false} LookupIsLatest(mode: Mode, env: Environment, io: Collaborators, files: seq<Pair<Config>>,
                                         k: string)
    requires MinifyAll(mode, env, io, files).Done?
    ensures Lookup(MinifyAll(mode, env, io, files).files, k) == Latest(mode, env, io, files, k)
    decreases |files|
  {
    if files != [] {
      var n := |files| - 1;
      var last := files[n];
      Unfold(mode, env, io, files);
      LookupIsLatest(mode, env, io, files[..n], k);
      OutputSettled(mode, env, io, files[..n]);
      var out := MinifyAll(mode, env, io, files[..n]).files;
      var st := MinifyEntry(mode, env, io, last.key, last.value).value;
      PutLookup(out, st.key, st.config, k);
    }
  }

  /** The keys of the array are the assigned keys in the order each was
      first assigned. */
  lemma {:induction false} KeyOrder(mode: Mode, env: Environment, io: Collaborators, files: seq<Pair<Config>>)
    requires MinifyAll(mode, env, io, files).Done?
    ensures Keys(MinifyAll(mode, env, io, files).files) == FirstOccurrences(OutKeys(mode, env, io, files))
    decreases |files|
  {
    if files != [] {
      var n := |files| - 1;
      var last := files[n];
      Unfold(mode, env, io, files);
      KeyOrder(mode, env, io, files[..n]);
      OutputSettled(mode, env, io, files[..n]);
      var out := MinifyAll(mode, env, io, files[..n]).files;
      var st := MinifyEntry(mode, env, io, last.key, last.value).value;
      PutKeys(out, st.key, st.config);
      IndexOfKeys(out, st.key);
      OutKeysSnoc(mode, env, io, files);
      FirstOccurrencesSnoc(OutKeys(mode, env, io, files[..n]), st.key);
    }
  }

  lemma OutKeysSnoc(mode: Mode, env: Environment, io: Collaborators, files: seq<Pair<Config>>)
    requires files != []
    ensures OutKeys(mode, env, io, files)
      == OutKeys(mode, env, io, files[..|files| - 1]) + [KeyOf(mode, env, io, files[|files| - 1])]
  {
  }

  lemma FirstOccurrencesSnoc(ks: seq<string>, k: string)
    ensures FirstOccurrences(ks + [k])
      == if k in FirstOccurrences(ks) then FirstOccurrences(ks) else FirstOccurrences(ks) + [k]
  {
    assert (ks + [k])[..|ks|] == ks;
  }

  /** For asset-collector calls, and for lists without file entries, every
      entry keeps its key, so distinct keys come back in their order. */
  lemma KeysKept(mode: Mode, env: Environment, io: Collaborators, files: seq<Pair<Config>>)
    requires MinifyAll(mode, env, io, files).Done? && KeysDistinct(files)
    requires mode.isAssetCollector || forall i :: 0 <= i < |files| ==> files[i].value.code.Some? || files[i].value.file.None?
    ensures Keys(MinifyAll(mode, env, io, files).files) == Keys(files)
  {
    KeyOrder(mode, env, io, files);
    var ks := OutKeys(mode, env, io, files);
    forall i | 0 <= i < |files| ensures ks[i] == files[i].key {
      EntryShape(mode, env, io, files[i].key, files[i].value);
    }
    assert ks == Keys(files);
    FirstOccurrencesDistinct(ks);
  }

  lemma {:induction false} FirstOccurrencesDistinct(ks: seq<string>)
    requires forall i, j :: 0 <= i < j < |ks| ==> ks[i] != ks[j]
    ensures FirstOccurrences(ks) == ks
    decreases |ks|
  {
    if ks != [] {
      var n := |ks| - 1;
      FirstOccurrencesDistinct(ks[..n]);
      assert ks[n] !in ks[..n];
      assert ks[..n] + [ks[n]] == ks;
    }
  }
}
