/** `generate_document`: every selected video is split when it is an hour
    or longer, every resulting file is uploaded, a document is generated
    for each uploaded file, and several documents are integrated into one.
    Progress events count the steps out of a total fixed at the start.
    Splitting, uploading, generating and integrating are inputs: each is
    the result the corresponding backend operation gives for its argument. */
module DocumentPipeline {
  import opened Wrappers
  import opened GeminiTypes

  /** A video the user selected. */
  datatype VideoFile = VideoFile(path: string, name: string, size: nat)

  /** The total announced at the start: splitting, uploading and generating
      for each selected file, and one integration step when there are
      several files. */
  function TotalSteps(fileCount: nat): nat
  {
    fileCount * 3 + if fileCount > 1 then 1 else 0
  }

  /** The events `0, 1, …, m`, each out of `total`. */
  function Progress(m: nat, total: nat): (events: seq<ProgressUpdate>)
    ensures |events| == m + 1
    ensures forall i :: 0 <= i <= m ==> events[i] == ProgressUpdate(i, total)
  {
    seq(m + 1, i requires 0 <= i <= m => ProgressUpdate(i, total))
  }

  /** One more step appends its event to the events after `b`. */
  lemma ProgressNext(events: seq<ProgressUpdate>, b: nat, m: nat, total: nat)
    requires b <= m && events == Progress(m, total)[b + 1..]
    ensures events + [ProgressUpdate(m + 1, total)] == Progress(m + 1, total)[b + 1..]
  {
    assert Progress(m + 1, total) == Progress(m, total) + [ProgressUpdate(m + 1, total)];
  }

  /** What one selected file contributes to the upload list: its segments
      when it was split into several, otherwise its own path. */
  function Contributed(file: VideoFile, segments: seq<string>): seq<string>
  {
    if |segments| > 1 then segments else [file.path]
  }

  function ProcessError(file: VideoFile, e: string): string
  {
    "Failed to process file " + file.name + ": " + e
  }

  /** The first `k` selected files processed in order: the files to upload,
      or the error of the first file that could not be split, and the
      number of progress steps taken. */
  function ProcessFiles(files: seq<VideoFile>, split: string -> Result<seq<string>>, k: nat): (r: (Result<seq<string>>, nat))
    requires k <= |files|
    ensures r.1 <= k
    ensures r.0.Ok? ==> r.1 == k && |r.0.value| >= k
  {
    if k == 0 then (Ok([]), 0)
    else
      var prev := ProcessFiles(files, split, k - 1);
      if prev.0.Err? then prev
      else match split(files[k - 1].path)
        case Err(e) => (Err(ProcessError(files[k - 1], e)), k)
        case Ok(segments) => (Ok(prev.0.value + Contributed(files[k - 1], segments)), k)
  }

  /** Once a file cannot be split, processing more files changes nothing. */
  lemma {:induction false} ProcessFilesStops(files: seq<VideoFile>, split: string -> Result<seq<string>>, k: nat, m: nat)
    requires k <= m <= |files| && ProcessFiles(files, split, k).0.Err?
    ensures ProcessFiles(files, split, m).0 == ProcessFiles(files, split, k).0
    ensures ProcessFiles(files, split, m).1 == ProcessFiles(files, split, k).1
    decreases m
  {
    if m > k {
      ProcessFilesStops(files, split, k, m - 1);
    }
  }

  /** Processing one more file after `k` successful ones: its
      contribution is appended, or its error ends the whole processing. */
  lemma ProcessFilesNext(files: seq<VideoFile>, split: string -> Result<seq<string>>, k: nat, processed: seq<string>)
    requires k < |files| && ProcessFiles(files, split, k).0 == Ok(processed) && ProcessFiles(files, split, k).1 == k
    ensures split(files[k].path).Ok? ==>
      ProcessFiles(files, split, k + 1).0 == Ok(processed + Contributed(files[k], split(files[k].path).value)) &&
      ProcessFiles(files, split, k + 1).1 == k + 1
    ensures split(files[k].path).Err? ==>
      ProcessFiles(files, split, |files|).0 == Err(ProcessError(files[k], split(files[k].path).error)) &&
      ProcessFiles(files, split, |files|).1 == k + 1
  {
    if split(files[k].path).Err? {
      ProcessFilesStops(files, split, k + 1, |files|);
    }
  }

  /** Processing succeeds exactly when every file can be split; otherwise
      it stops at the first file that cannot, with that file's error, after
      one step per file up to and including it. */
  lemma {:induction false} ProcessFilesOutcome(files: seq<VideoFile>, split: string -> Result<seq<string>>, k: nat)
    requires k <= |files|
    ensures var r := ProcessFiles(files, split, k);
      (r.0.Ok? <==> forall i :: 0 <= i < k ==> split(files[i].path).Ok?) &&
      (r.0.Err? ==> (1 <= r.1 && split(files[r.1 - 1].path).Err? &&
                     (forall i :: 0 <= i < r.1 - 1 ==> split(files[i].path).Ok?) &&
                     r.0.error == ProcessError(files[r.1 - 1], split(files[r.1 - 1].path).error)))
  {
    if k > 0 {
      ProcessFilesOutcome(files, split, k - 1);
    }
  }

  /** The first `k` items handed to `f` in order: all results in order, or
      the error of the first failure (with `wrap` naming the item), and the
      number of progress steps taken. */
  function MapAll(xs: seq<string>, f: string -> Result<string>, wrap: (string, string) -> string, k: nat): (r: (Result<seq<string>>, nat))
    requires k <= |xs|
    ensures r.1 <= k
    ensures r.0.Ok? ==> r.1 == k && |r.0.value| == k
  {
    if k == 0 then (Ok([]), 0)
    else
      var prev := MapAll(xs, f, wrap, k - 1);
      if prev.0.Err? then prev
      else match f(xs[k - 1])
        case Err(e) => (Err(wrap(xs[k - 1], e)), k)
        case Ok(y) => (Ok(prev.0.value + [y]), k)
  }

  /** Once `f` fails on an item, mapping more items changes nothing. */
  lemma {:induction false} MapAllStops(xs: seq<string>, f: string -> Result<string>, wrap: (string, string) -> string, k: nat, m: nat)
    requires k <= m <= |xs| && MapAll(xs, f, wrap, k).0.Err?
    ensures MapAll(xs, f, wrap, m).0 == MapAll(xs, f, wrap, k).0
    ensures MapAll(xs, f, wrap, m).1 == MapAll(xs, f, wrap, k).1
    decreases m
  {
    if m > k {
      MapAllStops(xs, f, wrap, k, m - 1);
    }
  }

  /** Mapping one more item after `k` successful ones: its result is
      appended, or its error ends the whole mapping. */
  lemma MapAllNext(xs: seq<string>, f: string -> Result<string>, wrap: (string, string) -> string, k: nat, results: seq<string>)
    requires k < |xs| && MapAll(xs, f, wrap, k).0 == Ok(results) && MapAll(xs, f, wrap, k).1 == k
    ensures f(xs[k]).Ok? ==>
      MapAll(xs, f, wrap, k + 1).0 == Ok(results + [f(xs[k]).value]) && MapAll(xs, f, wrap, k + 1).1 == k + 1
    ensures f(xs[k]).Err? ==>
      MapAll(xs, f, wrap, |xs|).0 == Err(wrap(xs[k], f(xs[k]).error)) && MapAll(xs, f, wrap, |xs|).1 == k + 1
  {
    if f(xs[k]).Err? {
      MapAllStops(xs, f, wrap, k + 1, |xs|);
    }
  }

  /** Mapping succeeds exactly when `f` succeeds on every item, and then
      holds its results in order; otherwise it stops at the first failure,
      with that item's error, after one step per item up to and including
      it. */
  lemma {:induction false} MapAllOutcome(xs: seq<string>, f: string -> Result<string>, wrap: (string, string) -> string, k: nat)
    requires k <= |xs|
    ensures var r := MapAll(xs, f, wrap, k);
      (r.0.Ok? <==> forall i :: 0 <= i < k ==> f(xs[i]).Ok?) &&
      (r.0.Ok? ==> forall i :: 0 <= i < k ==> f(xs[i]) == Ok(r.0.value[i])) &&
      (r.0.Err? ==> (1 <= r.1 && f(xs[r.1 - 1]).Err? &&
                     (forall i :: 0 <= i < r.1 - 1 ==> f(xs[i]).Ok?) &&
                     r.0.error == wrap(xs[r.1 - 1], f(xs[r.1 - 1]).error)))
  {
    if k > 0 {
      MapAllOutcome(xs, f, wrap, k - 1);
    }
  }

  function UploadError(path: string, e: string): string
  {
    "Failed to upload file " + path + ": " + e
  }

  function GenerateError(uri: string, e: string): string
  {
    "Failed to generate document for file: " + e
  }

  /** The end of the pipeline, `steps` steps in: several documents are
      integrated in one more step, a single one is the result as it is,
      and none gives the empty document. */
  function Integrate(documents: seq<string>, steps: nat, integrate: seq<string> -> Result<string>): (o: (Result<string>, nat))
    ensures steps <= o.1 <= steps + 1
    ensures o.1 == steps + 1 <==> |documents| > 1
  {
    if |documents| > 1 then
      match integrate(documents)
      case Err(e) => (Err("Failed to integrate documents: " + e), steps + 1)
      case Ok(d) => (Ok(d), steps + 1)
    else (Ok(if documents == [] then "" else documents[0]), steps)
  }

  /** The pipeline from the uploaded files on, `steps` steps in. */
  function AfterUpload(uris: seq<string>, steps: nat, generate: string -> Result<string>,
                       integrate: seq<string> -> Result<string>): (o: (Result<string>, nat))
    ensures steps <= o.1
  {
    var documents := MapAll(uris, generate, GenerateError, |uris|);
    if documents.0.Err? then (Err(documents.0.error), steps + documents.1)
    else Integrate(documents.0.value, steps + documents.1, integrate)
  }

  /** The pipeline from the files to upload on, `steps` steps in. */
  function AfterSplit(paths: seq<string>, steps: nat, upload: string -> Result<string>, generate: string -> Result<string>,
                      integrate: seq<string> -> Result<string>): (o: (Result<string>, nat))
    ensures steps <= o.1
  {
    var uris := MapAll(paths, upload, UploadError, |paths|);
    if uris.0.Err? then (Err(uris.0.error), steps + uris.1)
    else AfterUpload(uris.0.value, steps + uris.1, generate, integrate)
  }

  /** The result of the whole pipeline and the number of progress steps
      taken before it ended. */
  function Pipeline(files: seq<VideoFile>, split: string -> Result<seq<string>>, upload: string -> Result<string>,
                    generate: string -> Result<string>, integrate: seq<string> -> Result<string>): (Result<string>, nat)
  {
    var paths := ProcessFiles(files, split, |files|);
    if paths.0.Err? then (Err(paths.0.error), paths.1)
    else AfterSplit(paths.0.value, paths.1, upload, generate, integrate)
  }

  /** The events of a run that ends with `r` after `reached` steps: one
      per step, from 0, and a last one at the total when the document is
      produced. */
  function EventList(r: Result<string>, reached: nat, total: nat): seq<ProgressUpdate>
  {
    Progress(reached, total) + if r.Ok? then [ProgressUpdate(total, total)] else []
  }

  /** The result of the whole pipeline and the progress events emitted. */
  function Generate(files: seq<VideoFile>, split: string -> Result<seq<string>>, upload: string -> Result<string>,
                    generate: string -> Result<string>, integrate: seq<string> -> Result<string>): (Result<string>, seq<ProgressUpdate>)
  {
    var outcome := Pipeline(files, split, upload, generate, integrate);
    (outcome.0, EventList(outcome.0, outcome.1, TotalSteps(|files|)))
  }

  /** The splitting loop of `generate_document`. */
  method SplitAll(files: seq<VideoFile>, split: string -> Result<seq<string>>, total: nat)
    returns (r: Result<seq<string>>, steps: nat, events: seq<ProgressUpdate>)
    ensures r == ProcessFiles(files, split, |files|).0 && steps == ProcessFiles(files, split, |files|).1
    ensures events == Progress(steps, total)[1..]
  {
    var processed: seq<string> := [];
    steps := 0;
    events := [];
    for index := 0 to |files|
      invariant ProcessFiles(files, split, index).0 == Ok(processed) && ProcessFiles(files, split, index).1 == index
      invariant steps == index && events == Progress(steps, total)[1..]
    {
      ProgressNext(events, 0, steps, total);
      steps := steps + 1;
      events := events + [ProgressUpdate(steps, total)];
      var file := files[index];
      ProcessFilesNext(files, split, index, processed);
      match split(file.path) {
        case Err(e) =>
          return Err(ProcessError(file, e)), steps, events;
        case Ok(segments) =>
          processed := Contribute(processed, file, segments);
      }
    }
    r := Ok(processed);
  }

  /** The files to upload after one more selected file: its segments one by
      one when it was split into several, otherwise its own path. */
  method Contribute(processed: seq<string>, file: VideoFile, segments: seq<string>) returns (out: seq<string>)
    ensures out == processed + Contributed(file, segments)
  {
    out := processed;
    if |segments| > 1 {
      for s := 0 to |segments|
        invariant out == processed + segments[..s]
      {
        out := out + [segments[s]];
      }
      assert segments[..|segments|] == segments;
    } else {
      out := out + [file.path];
    }
  }

  /** The uploading and the generating loops of `generate_document`: `f`
      applied to every item in order, one progress step each, counted on
      from `base`. */
  method Each(xs: seq<string>, f: string -> Result<string>, wrap: (string, string) -> string, base: nat, total: nat)
    returns (r: Result<seq<string>>, steps: nat, events: seq<ProgressUpdate>)
    ensures r == MapAll(xs, f, wrap, |xs|).0 && steps == MapAll(xs, f, wrap, |xs|).1
    ensures events == Progress(base + steps, total)[base + 1..]
  {
    var results: seq<string> := [];
    steps := 0;
    events := [];
    for index := 0 to |xs|
      invariant MapAll(xs, f, wrap, index).0 == Ok(results) && MapAll(xs, f, wrap, index).1 == index
      invariant steps == index && events == Progress(base + steps, total)[base + 1..]
    {
      ProgressNext(events, base, base + steps, total);
      steps := steps + 1;
      events := events + [ProgressUpdate(base + steps, total)];
      MapAllNext(xs, f, wrap, index, results);
      match f(xs[index]) {
        case Err(e) =>
          return Err(wrap(xs[index], e)), steps, events;
        case Ok(y) =>
          results := results + [y];
      }
    }
    r := Ok(results);
  }

  /** The events of `outcome` after step `steps` of it. */
  function EventsAfter(r: Result<string>, reached: nat, steps: nat, total: nat): seq<ProgressUpdate>
    requires steps <= reached
  {
    EventList(r, reached, total)[steps + 1..]
  }

  /** The events of a stage that ends at step `a` followed by those after
      it are the events after the stage began at `b`. */
  lemma EventsJoin(r: Result<string>, reached: nat, a: nat, b: nat, total: nat,
                   stage: seq<ProgressUpdate>, rest: seq<ProgressUpdate>)
    requires b <= a <= reached
    requires stage == Progress(a, total)[b + 1..] && rest == EventsAfter(r, reached, a, total)
    ensures stage + rest == EventsAfter(r, reached, b, total)
  {
  }

  /** The pipeline after the uploads, by the outcome of the generations. */
  lemma AfterUploadStages(uris: seq<string>, steps: nat, generate: string -> Result<string>,
                          integrate: seq<string> -> Result<string>, documents: Result<seq<string>>, e3: nat)
    requires MapAll(uris, generate, GenerateError, |uris|).0 == documents
    requires MapAll(uris, generate, GenerateError, |uris|).1 == e3
    ensures documents.Err? ==> (AfterUpload(uris, steps, generate, integrate).0 == Err(documents.error) &&
       AfterUpload(uris, steps, generate, integrate).1 == steps + e3)
    ensures documents.Ok? ==> (AfterUpload(uris, steps, generate, integrate).0 == Integrate(documents.value, steps + e3, integrate).0 &&
       AfterUpload(uris, steps, generate, integrate).1 == Integrate(documents.value, steps + e3, integrate).1)
  {
  }

  /** The pipeline after the splitting, by the outcome of the uploads. */
  lemma AfterSplitStages(paths: seq<string>, steps: nat, upload: string -> Result<string>,
                         generate: string -> Result<string>, integrate: seq<string> -> Result<string>,
                         uris: Result<seq<string>>, e2: nat)
    requires MapAll(paths, upload, UploadError, |paths|).0 == uris
    requires MapAll(paths, upload, UploadError, |paths|).1 == e2
    ensures uris.Err? ==> (AfterSplit(paths, steps, upload, generate, integrate).0 == Err(uris.error) &&
       AfterSplit(paths, steps, upload, generate, integrate).1 == steps + e2)
    ensures uris.Ok? ==> (AfterSplit(paths, steps, upload, generate, integrate).0 == AfterUpload(uris.value, steps + e2, generate, integrate).0 &&
       AfterSplit(paths, steps, upload, generate, integrate).1 == AfterUpload(uris.value, steps + e2, generate, integrate).1)
  {
  }

  /** The whole pipeline, by the outcome of the splitting. */
  lemma PipelineStages(files: seq<VideoFile>, split: string -> Result<seq<string>>, upload: string -> Result<string>,
                       generate: string -> Result<string>, integrate: seq<string> -> Result<string>,
                       paths: Result<seq<string>>, e1: nat)
    requires ProcessFiles(files, split, |files|).0 == paths
    requires ProcessFiles(files, split, |files|).1 == e1
    ensures paths.Err? ==> (Pipeline(files, split, upload, generate, integrate).0 == Err(paths.error) &&
       Pipeline(files, split, upload, generate, integrate).1 == e1)
    ensures paths.Ok? ==> (Pipeline(files, split, upload, generate, integrate).0 == AfterSplit(paths.value, e1, upload, generate, integrate).0 &&
       Pipeline(files, split, upload, generate, integrate).1 == AfterSplit(paths.value, e1, upload, generate, integrate).1)
  {
  }

  /** After a failure, the events left are the plain steps. */
  lemma EventsAfterFailure(e: string, reached: nat, steps: nat, total: nat)
    requires steps <= reached
    ensures EventsAfter(Err(e), reached, steps, total) == Progress(reached, total)[steps + 1..]
  {
    assert EventList(Err(e), reached, total) == Progress(reached, total);
  }

  /** The first event is step 0, and the rest follow it. */
  lemma EventsFromStart(r: Result<string>, reached: nat, total: nat)
    ensures [ProgressUpdate(0, total)] + EventsAfter(r, reached, 0, total) == EventList(r, reached, total)
  {
    var all := EventList(r, reached, total);
    assert all[0] == ProgressUpdate(0, total);
    assert [all[0]] + all[1..] == all;
  }

  /** The integration at the end of `generate_document`, `steps` steps in. */
  method Finish(documents: seq<string>, steps: nat, total: nat, integrate: seq<string> -> Result<string>)
    returns (r: Result<string>, events: seq<ProgressUpdate>)
    ensures r == Integrate(documents, steps, integrate).0
    ensures events == EventsAfter(Integrate(documents, steps, integrate).0,
                                  Integrate(documents, steps, integrate).1, steps, total)
  {
    var currentStep := steps;
    events := [];
    var finalDocument;
    if |documents| > 1 {
      currentStep := currentStep + 1;
      events := events + [ProgressUpdate(currentStep, total)];
      match integrate(documents) {
        case Err(e) =>
          return Err("Failed to integrate documents: " + e), events;
        case Ok(integrated) =>
          finalDocument := integrated;
      }
    } else {
      finalDocument := if documents == [] then "" else documents[0];
    }
    events := events + [ProgressUpdate(total, total)];
    r := Ok(finalDocument);
  }

  /** The generating loop of `generate_document` and what follows it. */
  method GenerateEach(uris: seq<string>, steps: nat, total: nat, generate: string -> Result<string>,
                      integrate: seq<string> -> Result<string>)
    returns (r: Result<string>, events: seq<ProgressUpdate>)
    ensures r == AfterUpload(uris, steps, generate, integrate).0
    ensures events == EventsAfter(AfterUpload(uris, steps, generate, integrate).0,
                                  AfterUpload(uris, steps, generate, integrate).1, steps, total)
  {
    var documents, e3, more := Each(uris, generate, GenerateError, steps, total);
    AfterUploadStages(uris, steps, generate, integrate, documents, e3);
    if documents.Err? {
      EventsAfterFailure(documents.error, steps + e3, steps, total);
      return Err(documents.error), more;
    }
    var rest;
    r, rest := Finish(documents.value, steps + e3, total, integrate);
    EventsJoin(r, Integrate(documents.value, steps + e3, integrate).1, steps + e3, steps, total, more, rest);
    events := more + rest;
  }

  /** The uploading loop of `generate_document` and what follows it. */
  method UploadEach(paths: seq<string>, steps: nat, total: nat, upload: string -> Result<string>,
                    generate: string -> Result<string>, integrate: seq<string> -> Result<string>)
    returns (r: Result<string>, events: seq<ProgressUpdate>)
    ensures r == AfterSplit(paths, steps, upload, generate, integrate).0
    ensures events == EventsAfter(AfterSplit(paths, steps, upload, generate, integrate).0,
                                  AfterSplit(paths, steps, upload, generate, integrate).1, steps, total)
  {
    var uris, e2, more := Each(paths, upload, UploadError, steps, total);
    AfterSplitStages(paths, steps, upload, generate, integrate, uris, e2);
    if uris.Err? {
      EventsAfterFailure(uris.error, steps + e2, steps, total);
      return Err(uris.error), more;
    }
    var rest;
    r, rest := GenerateEach(uris.value, steps + e2, total, generate, integrate);
    EventsJoin(r, AfterUpload(uris.value, steps + e2, generate, integrate).1, steps + e2, steps, total, more, rest);
    events := more + rest;
  }

  /** `generate_document`. */
  method GenerateDocument(files: seq<VideoFile>, split: string -> Result<seq<string>>, upload: string -> Result<string>,
                          generate: string -> Result<string>, integrate: seq<string> -> Result<string>)
    returns (r: Result<string>, events: seq<ProgressUpdate>)
    ensures r == Generate(files, split, upload, generate, integrate).0
    ensures events == Generate(files, split, upload, generate, integrate).1
  {
    var total := TotalSteps(|files|);
    var currentStep := 0;
    events := [ProgressUpdate(currentStep, total)];
    var paths, e1, more := SplitAll(files, split, total);
    PipelineStages(files, split, upload, generate, integrate, paths, e1);
    ghost var outcome := Pipeline(files, split, upload, generate, integrate);
    EventsFromStart(outcome.0, outcome.1, total);
    if paths.Err? {
      EventsAfterFailure(paths.error, e1, 0, total);
      return Err(paths.error), events + more;
    }
    var rest;
    r, rest := UploadEach(paths.value, e1, total, upload, generate, integrate);
    EventsJoin(r, outcome.1, e1, 0, total, more, rest);
    events := events + (more + rest);
  }

  /** When no selected file is split, the files to upload are the selected
      paths, one each, in order. */
  lemma {:induction false} UnsplitPaths(files: seq<VideoFile>, split: string -> Result<seq<string>>, k: nat)
    requires k <= |files|
    requires forall i :: 0 <= i < k && split(files[i].path).Ok? ==> |split(files[i].path).value| <= 1
    ensures var r := ProcessFiles(files, split, k).0;
      r.Ok? ==> |r.value| == k && forall i :: 0 <= i < k ==> r.value[i] == files[i].path
  {
    if k > 0 {
      UnsplitPaths(files, split, k - 1);
    }
  }

  /** When no selected file is split, the steps taken stay within the
      total announced. */
  lemma StepsWithinTotal(files: seq<VideoFile>, split: string -> Result<seq<string>>, upload: string -> Result<string>,
                         generate: string -> Result<string>, integrate: seq<string> -> Result<string>)
    requires forall i :: 0 <= i < |files| && split(files[i].path).Ok? ==> |split(files[i].path).value| <= 1
    ensures Pipeline(files, split, upload, generate, integrate).1 <= TotalSteps(|files|)
  {
    UnsplitPaths(files, split, |files|);
  }

  /** When no selected file is split, progress never goes beyond the total
      and never goes back, and a successful run ends on the total. */
  lemma ProgressWithinTotal(files: seq<VideoFile>, split: string -> Result<seq<string>>, upload: string -> Result<string>,
                            generate: string -> Result<string>, integrate: seq<string> -> Result<string>)
    requires forall i :: 0 <= i < |files| && split(files[i].path).Ok? ==> |split(files[i].path).value| <= 1
    ensures var (r, events) := Generate(files, split, upload, generate, integrate);
      var total := TotalSteps(|files|);
      (forall i :: 0 <= i < |events| ==> events[i].step <= total && events[i].totalSteps == total) &&
      (forall i, j :: 0 <= i < j < |events| ==> events[i].step <= events[j].step) &&
      (r.Ok? ==> events[|events| - 1].step == total)
  {
    StepsWithinTotal(files, split, upload, generate, integrate);
  }

  /** A single video of two hours: it is split into two segments, so two
      uploads, two generations and an integration follow, and progress
      climbs to step 6 of a total of 3 before the final event drops back to
      3. */
  lemma SplitVideoOverrunsTotal(file: VideoFile, split: string -> Result<seq<string>>, upload: string -> Result<string>,
                                generate: string -> Result<string>, integrate: seq<string> -> Result<string>,
                                first: string, second: string)
    requires split(file.path) == Ok([first, second])
    requires upload(first).Ok? && upload(second).Ok?
    requires generate(upload(first).value).Ok? && generate(upload(second).value).Ok?
    requires integrate([generate(upload(first).value).value, generate(upload(second).value).value]).Ok?
    ensures var (r, events) := Generate([file], split, upload, generate, integrate);
      r.Ok? && TotalSteps(1) == 3 && |events| == 8 &&
      events[6] == ProgressUpdate(6, 3) && events[7] == ProgressUpdate(3, 3)
  {
    var files := [file];
    assert ProcessFiles(files, split, 0) == (Ok([]), 0);
    assert Contributed(file, [first, second]) == [first, second];
    assert [] + [first, second] == [first, second];
    assert ProcessFiles(files, split, 1) == (Ok([first, second]), 1);
    var u1, u2 := upload(first).value, upload(second).value;
    MapPair([first, second], upload, UploadError);
    MapPair([u1, u2], generate, GenerateError);
    assert Pipeline(files, split, upload, generate, integrate).1 == 6;
  }

  /** One video under an hour: its document is the one generated from its
      upload, with events 0, 1, 2, 3 and the final 3. */
  lemma SingleVideoDocument(file: VideoFile, split: string -> Result<seq<string>>, upload: string -> Result<string>,
                            generate: string -> Result<string>, integrate: seq<string> -> Result<string>,
                            uri: string, document: string)
    requires split(file.path).Ok? && |split(file.path).value| <= 1
    requires upload(file.path) == Ok(uri) && generate(uri) == Ok(document)
    ensures Generate([file], split, upload, generate, integrate) ==
      (Ok(document), [ProgressUpdate(0, 3), ProgressUpdate(1, 3), ProgressUpdate(2, 3), ProgressUpdate(3, 3), ProgressUpdate(3, 3)])
  {
    assert ProcessFiles([file], split, 0) == (Ok([]), 0);
    assert Contributed(file, split(file.path).value) == [file.path];
    assert [] + [file.path] == [file.path];
    assert ProcessFiles([file], split, 1) == (Ok([file.path]), 1);
    MapOne(file.path, upload, UploadError);
    MapOne(uri, generate, GenerateError);
    assert Pipeline([file], split, upload, generate, integrate) == (Ok(document), 3);
    assert Progress(3, 3) == [ProgressUpdate(0, 3), ProgressUpdate(1, 3), ProgressUpdate(2, 3), ProgressUpdate(3, 3)];
    assert Generate([file], split, upload, generate, integrate).1 == Progress(3, 3) + [ProgressUpdate(3, 3)];
    assert Progress(3, 3) + [ProgressUpdate(3, 3)] ==
      [ProgressUpdate(0, 3), ProgressUpdate(1, 3), ProgressUpdate(2, 3), ProgressUpdate(3, 3), ProgressUpdate(3, 3)];
  }

  /** With no file selected nothing is uploaded: the document is empty and
      the events are the start and the end, both step 0 of 0. */
  lemma NoFilesEmptyDocument(split: string -> Result<seq<string>>, upload: string -> Result<string>,
                             generate: string -> Result<string>, integrate: seq<string> -> Result<string>)
    ensures Generate([], split, upload, generate, integrate) == (Ok(""), [ProgressUpdate(0, 0), ProgressUpdate(0, 0)])
  {
    assert Pipeline([], split, upload, generate, integrate) == (Ok(""), 0);
    assert Progress(0, 0) == [ProgressUpdate(0, 0)];
    assert Generate([], split, upload, generate, integrate).1 == Progress(0, 0) + [ProgressUpdate(0, 0)];
    assert Progress(0, 0) + [ProgressUpdate(0, 0)] == [ProgressUpdate(0, 0), ProgressUpdate(0, 0)];
  }

  lemma MapOne(x: string, f: string -> Result<string>, wrap: (string, string) -> string)
    requires f(x).Ok?
    ensures MapAll([x], f, wrap, 1) == (Ok([f(x).value]), 1)
  {
    assert MapAll([x], f, wrap, 0) == (Ok([]), 0);
    assert [] + [f(x).value] == [f(x).value];
  }

  lemma MapPair(xs: seq<string>, f: string -> Result<string>, wrap: (string, string) -> string)
    requires |xs| == 2 && f(xs[0]).Ok? && f(xs[1]).Ok?
    ensures MapAll(xs, f, wrap, 2) == (Ok([f(xs[0]).value, f(xs[1]).value]), 2)
  {
    assert MapAll(xs, f, wrap, 0) == (Ok([]), 0);
    assert [] + [f(xs[0]).value] == [f(xs[0]).value];
    assert [f(xs[0]).value] + [f(xs[1]).value] == [f(xs[0]).value, f(xs[1]).value];
  }

  /** A file that cannot be split stops the pipeline right after its own
      progress event: nothing is uploaded. */
  lemma SplitFailureStops(files: seq<VideoFile>, split: string -> Result<seq<string>>, upload: string -> Result<string>,
                          generate: string -> Result<string>, integrate: seq<string> -> Result<string>, j: nat)
    requires j < |files| && split(files[j].path).Err?
    requires forall i :: 0 <= i < j ==> split(files[i].path).Ok?
    ensures Generate(files, split, upload, generate, integrate) ==
      (Err(ProcessError(files[j], split(files[j].path).error)), Progress(j + 1, TotalSteps(|files|)))
  {
    ProcessFilesOutcome(files, split, |files|);
    var (paths, e1) := ProcessFiles(files, split, |files|);
    assert paths.Err? && e1 == j + 1;
    assert Pipeline(files, split, upload, generate, integrate) == (Err(paths.error), j + 1);
    assert Progress(j + 1, TotalSteps(|files|)) + [] == Progress(j + 1, TotalSteps(|files|));
  }
}
