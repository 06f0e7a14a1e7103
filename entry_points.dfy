/** The compress handlers the page renderer calls with its parameter
    array by reference (Classes/Minifier.php:43-63): each named asset list
    is replaced by what `minifyFiles` makes of it, one after the other. */
module EntryPoints {
  import opened OrderedArray
  import opened Paths
  import opened Dispatcher

  /** The page renderer's `$parameters`: asset lists by name. */
  class Parameters {
    var assets: map<string, seq<Pair<Config>>>

    constructor (assets: map<string, seq<Pair<Config>>>)
      ensures this.assets == assets
    {
      this.assets := assets;
    }
  }

  /** One `$parameters[name] = $this->minifyFiles($parameters[name], ...)`
      statement. */
  datatype Job = Job(name: string, mode: Mode)

  const ScriptFiles: Mode := Mode(JavaScript, false, false)
  const ScriptInline: Mode := Mode(JavaScript, true, false)
  const Stylesheets: Mode := Mode(Stylesheet, false, false)

  /** `minifyJavaScript`: library, file and footer lists as files, the two
      inline lists as inline code. */
  const JavaScriptJobs: seq<Job> := [
    Job("jsLibs", ScriptFiles), Job("jsFiles", ScriptFiles), Job("jsFooterFiles", ScriptFiles),
    Job("jsInline", ScriptInline), Job("jsFooterInline", ScriptInline)]

  /** `minifyStylesheet`: all three lists as stylesheets, the inline one
      included, so inline CSS gets no `;`. */
  const StylesheetJobs: seq<Job> := [
    Job("cssLibs", Stylesheets), Job("cssFiles", Stylesheets), Job("cssInline", Stylesheets)]

  /** The parameter array after a run of statements, the files written,
      and whether every statement completed. */
  datatype Batch = Batch(assets: map<string, seq<Pair<Config>>>, writes: seq<Write>, ok: bool)

  /** The statements in order; the first that throws (a missing list, or a
      stuck entry) leaves the lists after it as they were. */
  function Handle(assets: map<string, seq<Pair<Config>>>, jobs: seq<Job>, env: Environment, io: Collaborators): Batch
    decreases |jobs|
  {
    if jobs == [] then Batch(assets, [], true)
    else if jobs[0].name !in assets then Batch(assets, [], false)
    else
      match MinifyAll(jobs[0].mode, env, io, assets[jobs[0].name])
      case Aborted(w) => Batch(assets, w, false)
      case Done(f, w) =>
        var rest := Handle(assets[jobs[0].name := f], jobs[1..], env, io);
        Batch(rest.assets, w + rest.writes, rest.ok)
  }

  method RunJobs(p: Parameters, jobs: seq<Job>, env: Environment, io: Collaborators) returns (writes: seq<Write>, ok: bool)
    modifies p
    decreases |jobs|
    ensures var b := Handle(old(p.assets), jobs, env, io);
      p.assets == b.assets && writes == b.writes && ok == b.ok
  {
    if jobs == [] {
      return [], true;
    }
    var job := jobs[0];
    if job.name !in p.assets {
      return [], false;
    }
    var r := MinifyFiles(job.mode, env, io, p.assets[job.name]);
    if r.Aborted? {
      return r.writes, false;
    }
    p.assets := p.assets[job.name := r.files];
    writes, ok := RunJobs(p, jobs[1..], env, io);
    writes := r.writes + writes;
  }

  /** `minifyJavaScript`. */
  method MinifyJavaScript(p: Parameters, env: Environment, io: Collaborators) returns (writes: seq<Write>, ok: bool)
    modifies p
    ensures var b := Handle(old(p.assets), JavaScriptJobs, env, io);
      p.assets == b.assets && writes == b.writes && ok == b.ok
  {
    writes, ok := RunJobs(p, JavaScriptJobs, env, io);
  }

  /** `minifyStylesheet`. */
  method MinifyStylesheet(p: Parameters, env: Environment, io: Collaborators) returns (writes: seq<Write>, ok: bool)
    modifies p
    ensures var b := Handle(old(p.assets), StylesheetJobs, env, io);
      p.assets == b.assets && writes == b.writes && ok == b.ok
  {
    writes, ok := RunJobs(p, StylesheetJobs, env, io);
  }

  /** No two statements name the same list. */
  predicate DistinctNames(jobs: seq<Job>) {
    forall i, j :: 0 <= i < j < |jobs| ==> jobs[i].name != jobs[j].name
  }

  /** Lists no statement names are left alone, whether or not the run
      completes. */
  lemma {:induction false} OthersUnchanged(assets: map<string, seq<Pair<Config>>>, jobs: seq<Job>,
                                          env: Environment, io: Collaborators, k: string)
    requires forall i :: 0 <= i < |jobs| ==> jobs[i].name != k
    ensures var b := Handle(assets, jobs, env, io);
      (k in b.assets <==> k in assets) && (k in assets ==> b.assets[k] == assets[k])
    decreases |jobs|
  {
    if jobs != [] && jobs[0].name in assets {
      var r := MinifyAll(jobs[0].mode, env, io, assets[jobs[0].name]);
      if r.Done? {
        OthersUnchanged(assets[jobs[0].name := r.files], jobs[1..], env, io, k);
      }
    }
  }

  /** A run completes exactly when every named list is present and
      `minifyFiles` returns for each; then each list is replaced by its
      result. */
  lemma {:induction false} HandleComplete(assets: map<string, seq<Pair<Config>>>, jobs: seq<Job>,
                                         env: Environment, io: Collaborators)
    requires DistinctNames(jobs)
    ensures var b := Handle(assets, jobs, env, io);
      b.ok <==> forall i :: 0 <= i < |jobs| ==>
        jobs[i].name in assets && MinifyAll(jobs[i].mode, env, io, assets[jobs[i].name]).Done?
    ensures var b := Handle(assets, jobs, env, io);
      b.ok ==> forall i :: 0 <= i < |jobs| ==>
        jobs[i].name in b.assets && b.assets[jobs[i].name] == MinifyAll(jobs[i].mode, env, io, assets[jobs[i].name]).files
    decreases |jobs|
  {
    if jobs != [] && jobs[0].name in assets {
      var name := jobs[0].name;
      var r := MinifyAll(jobs[0].mode, env, io, assets[name]);
      if r.Done? {
        var next := assets[name := r.files];
        var rest := jobs[1..];
        HandleComplete(next, rest, env, io);
        assert forall i :: 0 <= i < |rest| ==> rest[i] == jobs[i + 1];
        forall i | 1 <= i < |jobs| ensures jobs[i].name != name && (jobs[i].name in next <==> jobs[i].name in assets)
          && (jobs[i].name in assets ==> next[jobs[i].name] == assets[jobs[i].name]) {
          assert rest[i - 1] == jobs[i];
        }
        OthersUnchanged(next, rest, env, io, name);
      }
    }
  }

  /** `minifyJavaScript` leaves the stylesheet lists alone, whether or
      not it completes. */
  lemma ScriptsKeepStylesheets(assets: map<string, seq<Pair<Config>>>, env: Environment, io: Collaborators, k: string)
    requires k == "cssLibs" || k == "cssFiles" || k == "cssInline"
    ensures var b := Handle(assets, JavaScriptJobs, env, io);
      (k in b.assets <==> k in assets) && (k in assets ==> b.assets[k] == assets[k])
  {
    OthersUnchanged(assets, JavaScriptJobs, env, io, k);
  }

  /** `minifyStylesheet` leaves the script lists alone, whether or not it
      completes. */
  lemma StylesheetsKeepScripts(assets: map<string, seq<Pair<Config>>>, env: Environment, io: Collaborators, k: string)
    requires k == "jsLibs" || k == "jsFiles" || k == "jsFooterFiles" || k == "jsInline" || k == "jsFooterInline"
    ensures var b := Handle(assets, StylesheetJobs, env, io);
      (k in b.assets <==> k in assets) && (k in assets ==> b.assets[k] == assets[k])
  {
    OthersUnchanged(assets, StylesheetJobs, env, io, k);
  }
}
