/** `process_document_with_images`: every screenshot placeholder in a
    generated document is replaced by a numbered Markdown image link to a
    frame extracted from one of the videos, or removed when no video gives
    a frame. Probing durations, extracting frames, creating the images
    directory and formatting a timestamp for a file name are inputs. */
module Screenshots {
  import opened Wrappers
  import Strings
  import Decimal
  import Paths
  import Placeholders
  import VideoSplit

  /** The duration a video is taken to have when choosing videos for a
      timestamp: the probed one, or None for the infinite duration assumed
      when probing fails. */
  function ProbedDuration(probe: VideoSplit.ProcessOutcome): (d: Option<real>)
    ensures d.Some? <==> VideoSplit.GetVideoDuration(probe).Ok?
    ensures d.Some? ==> d.value == VideoSplit.GetVideoDuration(probe).value
  {
    match VideoSplit.GetVideoDuration(probe)
    case Ok(duration) => Some(duration)
    case Err(_) => None
  }

  /** The durations of all videos, in order. */
  function Durations(probes: seq<VideoSplit.ProcessOutcome>): (ds: seq<Option<real>>)
    ensures |ds| == |probes|
    ensures forall i :: 0 <= i < |probes| ==> ds[i] == ProbedDuration(probes[i])
  {
    seq(|probes|, i requires 0 <= i < |probes| => ProbedDuration(probes[i]))
  }

  /** A video of this duration can hold the timestamp `t`. */
  predicate Fits(duration: Option<real>, t: real)
  {
    duration.None? || t <= duration.value
  }

  /** The videos among the first `n` that can hold `t`, in order. */
  function Fitting(durations: seq<Option<real>>, t: real, n: nat): (vs: seq<nat>)
    requires n <= |durations|
    ensures forall v: nat :: v in vs <==> v < n && Fits(durations[v], t)
    ensures forall i, j :: 0 <= i < j < |vs| ==> vs[i] < vs[j]
  {
    if n == 0 then []
    else
      var front := Fitting(durations, t, n - 1);
      assert forall i :: 0 <= i < |front| ==> front[i] in front;
      front + if Fits(durations[n - 1], t) then [n - 1] else []
  }

  /** Every video, in order. */
  function AllVideos(n: nat): (vs: seq<nat>)
    ensures |vs| == n && forall i :: 0 <= i < n ==> vs[i] == i
  {
    seq(n, i requires 0 <= i < n => i)
  }

  /** The videos tried for timestamp `t`: those that can hold it, in
      order, or every video when none can. */
  function Candidates(durations: seq<Option<real>>, t: real): (vs: seq<nat>)
    ensures forall i :: 0 <= i < |vs| ==> vs[i] < |durations|
    ensures forall i, j :: 0 <= i < j < |vs| ==> vs[i] < vs[j]
  {
    var fitting := Fitting(durations, t, |durations|);
    assert forall i :: 0 <= i < |fitting| ==> fitting[i] in fitting;
    if fitting == [] then AllVideos(|durations|) else fitting
  }

  /** When some video can hold `t`, the candidates are exactly the videos
      that can; when none can, they are all the videos. */
  lemma CandidatesChoice(durations: seq<Option<real>>, t: real)
    ensures (exists v :: 0 <= v < |durations| && Fits(durations[v], t)) ==>
      forall v: nat :: v in Candidates(durations, t) <==> v < |durations| && Fits(durations[v], t)
    ensures (forall v :: 0 <= v < |durations| ==> !Fits(durations[v], t)) ==>
      Candidates(durations, t) == AllVideos(|durations|)
  {
    var fitting := Fitting(durations, t, |durations|);
    if fitting == [] {
      forall v | 0 <= v < |durations|
        ensures !Fits(durations[v], t)
      {
        assert v !in fitting;
      }
    } else {
      assert fitting[0] in fitting;
    }
  }

  /** What the processing works with: the videos, their durations, the
      output directory, the frame extractor (video, timestamp, image path
      to success) and the formatting of a timestamp. */
  datatype Env = Env(videoFiles: seq<string>, durations: seq<Option<real>>, outputDirectory: string,
                     extract: (string, real, string) -> bool, format: real -> string)

  predicate ValidEnv(env: Env)
  {
    |env.durations| == |env.videoFiles|
  }

  /** `image-{video_no}-{t}s.png`, with the dots of the timestamp turned
      into underscores. */
  function ImageFileName(videoNo: nat, t: real, format: real -> string): (name: string)
    ensures name != [] && name[0] == 'i'
  {
    "image-" + Decimal.NatToString(videoNo) + "-" + Strings.Replace(format(t), ".", "_") + "s.png"
  }

  /** Where the frame is written: in `images` under the output directory. */
  function ImagePath(outputDirectory: string, name: string): string
    requires name != [] && name[0] != '/'
  {
    Paths.Join(Paths.Join(outputDirectory, "images"), name)
  }

  /** The Markdown link to image number `k`. */
  function Link(k: nat, name: string): string
  {
    "![Screenshot " + Decimal.NatToString(k) + "](./images/" + name + ")"
  }

  /** Extracting the frame at `t` from video `v` (from 0) succeeds. */
  predicate Extracted(env: Env, v: nat, t: real)
    requires v < |env.videoFiles|
  {
    env.extract(env.videoFiles[v], t, ImagePath(env.outputDirectory, ImageFileName(v + 1, t, env.format)))
  }

  /** The position, from `from` on, of the first candidate whose frame is
      extracted: all those before it fail. */
  function FirstSuccess(env: Env, cands: seq<nat>, t: real, from: nat): (j: Option<nat>)
    requires forall i :: 0 <= i < |cands| ==> cands[i] < |env.videoFiles|
    requires from <= |cands|
    ensures j.Some? ==> from <= j.value < |cands| && Extracted(env, cands[j.value], t)
    decreases |cands| - from
  {
    if from == |cands| then None
    else if Extracted(env, cands[from], t) then Some(from)
    else FirstSuccess(env, cands, t, from + 1)
  }

  /** Every candidate from `from` on before the first success, or every
      one when none succeeds, fails. */
  lemma {:induction false} FirstSuccessSkipsFailures(env: Env, cands: seq<nat>, t: real, from: nat)
    requires forall i :: 0 <= i < |cands| ==> cands[i] < |env.videoFiles|
    requires from <= |cands|
    ensures var j := FirstSuccess(env, cands, t, from);
      forall i :: from <= i < |cands| && (j.None? || i < j.value) ==> !Extracted(env, cands[i], t)
    decreases |cands| - from
  {
    if from < |cands| && !Extracted(env, cands[from], t) {
      FirstSuccessSkipsFailures(env, cands, t, from + 1);
    }
  }

  /** The processing state: the document so far, the number the next
      image gets, and the extractions tried, in order. */
  datatype ImageState = ImageState(document: string, counter: nat, attempts: seq<(nat, real)>)

  /** The extractions of the frame at `t` from the videos `vs`, in order. */
  function Tries(vs: seq<nat>, t: real): (ts: seq<(nat, real)>)
    ensures |ts| == |vs| && forall i :: 0 <= i < |vs| ==> ts[i] == (vs[i], t)
  {
    seq(|vs|, i requires 0 <= i < |vs| => (vs[i], t))
  }

  /** One placeholder: the candidates are tried in order until a frame is
      extracted; the first success replaces the placeholder everywhere by
      the next numbered link, and no success removes it. */
  function Step(env: Env, st: ImageState, placeholder: (string, real)): ImageState
    requires ValidEnv(env) && |placeholder.0| > 0
  {
    var (text, t) := placeholder;
    var cands := Candidates(env.durations, t);
    match FirstSuccess(env, cands, t, 0)
    case Some(j) =>
      ImageState(Strings.Replace(st.document, text, Link(st.counter, ImageFileName(cands[j] + 1, t, env.format))),
                 st.counter + 1, st.attempts + Tries(cands[..j + 1], t))
    case None => ImageState(Strings.Replace(st.document, text, ""), st.counter, st.attempts + Tries(cands, t))
  }

  predicate NonEmptyTexts(ps: seq<(string, real)>)
  {
    forall i :: 0 <= i < |ps| ==> |ps[i].0| > 0
  }

  /** The placeholders handled one after the other, in order. */
  function Run(env: Env, st: ImageState, ps: seq<(string, real)>): ImageState
    requires ValidEnv(env) && NonEmptyTexts(ps)
  {
    if ps == [] then st else Step(env, Run(env, st, ps[..|ps| - 1]), ps[|ps| - 1])
  }

  /** The placeholders of a document, each with its timestamp in seconds. */
  function Located(document: string): (ps: seq<(string, real)>)
    ensures NonEmptyTexts(ps)
  {
    var found := Placeholders.FindAll(document, 0);
    seq(|found|, i requires 0 <= i < |found| => (found[i].0, Placeholders.ParseTimestamp(found[i].1)))
  }

  /** The processed document, or the error creating the images directory,
      and the extractions tried. */
  function Process(document: string, videoFiles: seq<string>, probes: seq<VideoSplit.ProcessOutcome>,
                   outputDirectory: string, imagesDirError: Option<string>,
                   extract: (string, real, string) -> bool, format: real -> string): (Result<string>, seq<(nat, real)>)
    requires |probes| == |videoFiles|
  {
    if imagesDirError.Some? then (Err(imagesDirError.value), [])
    else
      var env := Env(videoFiles, Durations(probes), outputDirectory, extract, format);
      var final := Run(env, ImageState(document, 1, []), Located(document));
      (Ok(final.document), final.attempts)
  }

  lemma TriesStep(vs: seq<nat>, t: real, c: nat)
    requires c < |vs|
    ensures Tries(vs[..c + 1], t) == Tries(vs[..c], t) + [(vs[c], t)]
  {
  }

  /** The inner loop of `process_document_with_images`: the candidate
      videos are tried in order, stopping at the first frame extracted. */
  method TryCandidates(env: Env, cands: seq<nat>, t: real) returns (found: Option<nat>, tried: seq<(nat, real)>)
    requires forall i :: 0 <= i < |cands| ==> cands[i] < |env.videoFiles|
    ensures found == FirstSuccess(env, cands, t, 0)
    ensures tried == Tries(if found.Some? then cands[..found.value + 1] else cands, t)
  {
    tried := [];
    found := None;
    for c := 0 to |cands|
      invariant FirstSuccess(env, cands, t, 0) == FirstSuccess(env, cands, t, c)
      invariant tried == Tries(cands[..c], t)
    {
      TriesStep(cands, t, c);
      FirstSuccessStep(env, cands, t, c);
      tried := tried + [(cands[c], t)];
      if Extracted(env, cands[c], t) {
        found := Some(c);
        break;
      }
    }
    if found.None? {
      assert cands[..|cands|] == cands;
    }
  }

  /** One placeholder: it becomes the next numbered link when a frame is
      extracted, and is removed otherwise. */
  method HandlePlaceholder(env: Env, document: string, counter: nat, attempts: seq<(nat, real)>,
                           placeholder: string, t: real)
    returns (document': string, counter': nat, attempts': seq<(nat, real)>)
    requires ValidEnv(env) && |placeholder| > 0
    ensures ImageState(document', counter', attempts')
      == Step(env, ImageState(document, counter, attempts), (placeholder, t))
  {
    var cands := Candidates(env.durations, t);
    var found, tried := TryCandidates(env, cands, t);
    attempts' := attempts + tried;
    if found.Some? {
      StepSome(env, ImageState(document, counter, attempts), (placeholder, t), found.value);
      document' := Strings.Replace(document, placeholder, Link(counter, ImageFileName(cands[found.value] + 1, t, env.format)));
      counter' := counter + 1;
    } else {
      StepNone(env, ImageState(document, counter, attempts), (placeholder, t));
      document', counter' := Strings.Replace(document, placeholder, ""), counter;
    }
  }

  lemma FirstSuccessStep(env: Env, cands: seq<nat>, t: real, c: nat)
    requires forall i :: 0 <= i < |cands| ==> cands[i] < |env.videoFiles|
    requires c < |cands|
    ensures FirstSuccess(env, cands, t, c)
      == if Extracted(env, cands[c], t) then Some(c) else FirstSuccess(env, cands, t, c + 1)
  {
  }

  lemma StepSome(env: Env, st: ImageState, placeholder: (string, real), j: nat)
    requires ValidEnv(env) && |placeholder.0| > 0
    requires FirstSuccess(env, Candidates(env.durations, placeholder.1), placeholder.1, 0) == Some(j)
    ensures var cands := Candidates(env.durations, placeholder.1);
      Step(env, st, placeholder) == ImageState(
        Strings.Replace(st.document, placeholder.0, Link(st.counter, ImageFileName(cands[j] + 1, placeholder.1, env.format))),
        st.counter + 1, st.attempts + Tries(cands[..j + 1], placeholder.1))
  {
  }

  lemma StepNone(env: Env, st: ImageState, placeholder: (string, real))
    requires ValidEnv(env) && |placeholder.0| > 0
    requires FirstSuccess(env, Candidates(env.durations, placeholder.1), placeholder.1, 0).None?
    ensures Step(env, st, placeholder) == ImageState(Strings.Replace(st.document, placeholder.0, ""), st.counter,
      st.attempts + Tries(Candidates(env.durations, placeholder.1), placeholder.1))
  {
  }

  /** The probing loop of `process_document_with_images`. */
  method ProbeDurations(probes: seq<VideoSplit.ProcessOutcome>) returns (durations: seq<Option<real>>)
    ensures durations == Durations(probes)
  {
    durations := [];
    for i := 0 to |probes|
      invariant durations == Durations(probes)[..i]
    {
      durations := durations + [ProbedDuration(probes[i])];
    }
  }

  /** The placeholder loop of `process_document_with_images`. */
  method HandleAll(env: Env, document: string, matches: seq<(string, real)>)
    returns (doc: string, counter: nat, attempts: seq<(nat, real)>)
    requires ValidEnv(env) && NonEmptyTexts(matches)
    ensures ImageState(doc, counter, attempts) == Run(env, ImageState(document, 1, []), matches)
  {
    doc, counter, attempts := document, 1, [];
    for m := 0 to |matches|
      invariant ImageState(doc, counter, attempts) == Run(env, ImageState(document, 1, []), matches[..m])
    {
      assert matches[..m + 1][..m] == matches[..m];
      doc, counter, attempts := HandlePlaceholder(env, doc, counter, attempts, matches[m].0, matches[m].1);
    }
    assert matches[..|matches|] == matches;
  }

  /** `process_document_with_images`: probe every video, then handle the
      placeholders in order. */
  method ProcessDocumentWithImages(document: string, videoFiles: seq<string>, probes: seq<VideoSplit.ProcessOutcome>,
                                   outputDirectory: string, imagesDirError: Option<string>,
                                   extract: (string, real, string) -> bool, format: real -> string)
    returns (r: Result<string>, attempts: seq<(nat, real)>)
    requires |probes| == |videoFiles|
    ensures r == Process(document, videoFiles, probes, outputDirectory, imagesDirError, extract, format).0
    ensures attempts == Process(document, videoFiles, probes, outputDirectory, imagesDirError, extract, format).1
  {
    if imagesDirError.Some? {
      return Err(imagesDirError.value), [];
    }
    var matches := Located(document);
    var durations := ProbeDurations(probes);
    var env := Env(videoFiles, durations, outputDirectory, extract, format);
    var doc, counter;
    doc, counter, attempts := HandleAll(env, document, matches);
    r := Ok(doc);
  }

  /** How many of the extractions tried succeeded. */
  function SuccessCount(env: Env, attempts: seq<(nat, real)>): nat
  {
    if attempts == [] then 0
    else
      var (v, t) := attempts[0];
      (if v < |env.videoFiles| && Extracted(env, v, t) then 1 else 0) + SuccessCount(env, attempts[1..])
  }

  lemma {:induction false} SuccessCountAppend(env: Env, a: seq<(nat, real)>, b: seq<(nat, real)>)
    ensures SuccessCount(env, a + b) == SuccessCount(env, a) + SuccessCount(env, b)
  {
    if a == [] {
      assert a + b == b;
    } else {
      assert (a + b)[0] == a[0];
      assert (a + b)[1..] == a[1..] + b;
      SuccessCountAppend(env, a[1..], b);
    }
  }

  /** Tries of candidates that all fail count no success. */
  lemma {:induction false} FailedTries(env: Env, cands: seq<nat>, t: real)
    requires forall i :: 0 <= i < |cands| ==> cands[i] < |env.videoFiles| && !Extracted(env, cands[i], t)
    ensures SuccessCount(env, Tries(cands, t)) == 0
  {
    if cands != [] {
      assert Tries(cands, t)[1..] == Tries(cands[1..], t);
      FailedTries(env, cands[1..], t);
    }
  }

  /** Tries that fail up to the `j`-th candidate, which succeeds, add one
      success. */
  lemma SuccessfulTries(env: Env, before: seq<(nat, real)>, cands: seq<nat>, t: real, j: nat)
    requires j < |cands| && forall i :: 0 <= i < |cands| ==> cands[i] < |env.videoFiles|
    requires forall i :: 0 <= i < j ==> !Extracted(env, cands[i], t)
    requires Extracted(env, cands[j], t)
    ensures SuccessCount(env, before + Tries(cands[..j + 1], t)) == SuccessCount(env, before) + 1
  {
    FailedTries(env, cands[..j], t);
    TriesStep(cands, t, j);
    SuccessCountAppend(env, Tries(cands[..j], t), [(cands[j], t)]);
    SuccessCountAppend(env, before, Tries(cands[..j + 1], t));
    assert SuccessCount(env, [(cands[j], t)]) == 1 by {
      assert [(cands[j], t)][1..] == [];
    }
  }

  /** Tries that all fail add no success. */
  lemma UnsuccessfulTries(env: Env, before: seq<(nat, real)>, cands: seq<nat>, t: real)
    requires forall i :: 0 <= i < |cands| ==> cands[i] < |env.videoFiles| && !Extracted(env, cands[i], t)
    ensures SuccessCount(env, before + Tries(cands, t)) == SuccessCount(env, before)
  {
    FailedTries(env, cands, t);
    SuccessCountAppend(env, before, Tries(cands, t));
  }

  /** One placeholder tries its candidates in order, stops at the first
      success, and numbers an image exactly when one succeeded. */
  lemma StepCounts(env: Env, st: ImageState, placeholder: (string, real))
    requires ValidEnv(env) && |placeholder.0| > 0
    ensures var next := Step(env, st, placeholder);
      var cands := Candidates(env.durations, placeholder.1);
      exists k :: 0 <= k <= |cands| && next.attempts == st.attempts + Tries(cands[..k], placeholder.1) &&
        SuccessCount(env, next.attempts) == SuccessCount(env, st.attempts) + (next.counter - st.counter) &&
        (next.counter == st.counter + 1 || (next.counter == st.counter && k == |cands|))
  {
    var t := placeholder.1;
    var cands := Candidates(env.durations, t);
    var next := Step(env, st, placeholder);
    FirstSuccessSkipsFailures(env, cands, t, 0);
    match FirstSuccess(env, cands, t, 0)
    case Some(j) =>
      StepSome(env, st, placeholder, j);
      SuccessfulTries(env, st.attempts, cands, t, j);
      assert next.attempts == st.attempts + Tries(cands[..j + 1], t) && next.counter == st.counter + 1;
      assert 0 <= j + 1 <= |cands| && next.attempts == st.attempts + Tries(cands[..j + 1], t);
    case None =>
      StepNone(env, st, placeholder);
      UnsuccessfulTries(env, st.attempts, cands, t);
      assert cands[..|cands|] == cands;
      assert next.attempts == st.attempts + Tries(cands[..|cands|], t) && next.counter == st.counter;
  }

  /** Image numbers count successful extractions: after any number of
      placeholders, the next number is one more than the frames
      extracted. */
  lemma {:induction false} CounterCountsImages(env: Env, document: string, ps: seq<(string, real)>)
    requires ValidEnv(env) && NonEmptyTexts(ps)
    ensures var final := Run(env, ImageState(document, 1, []), ps);
      final.counter == 1 + SuccessCount(env, final.attempts)
  {
    if ps != [] {
      var front := ps[..|ps| - 1];
      CounterCountsImages(env, document, front);
      StepCounts(env, Run(env, ImageState(document, 1, []), front), ps[|ps| - 1]);
    }
  }

  /** A document without `[` has no placeholder: it comes back unchanged
      and no frame is extracted. */
  lemma NoPlaceholderUnchanged(document: string, videoFiles: seq<string>, probes: seq<VideoSplit.ProcessOutcome>,
                               outputDirectory: string, extract: (string, real, string) -> bool, format: real -> string)
    requires |probes| == |videoFiles|
    requires forall k :: 0 <= k < |document| ==> document[k] != '['
    ensures Process(document, videoFiles, probes, outputDirectory, None, extract, format) == (Ok(document), [])
  {
    Placeholders.NoBracketNoPlaceholder(document, 0);
  }

  /** Without videos no frame is tried and no image is numbered: every
      placeholder is removed. */
  lemma {:induction false} NoVideosNoImages(env: Env, document: string, ps: seq<(string, real)>)
    requires ValidEnv(env) && NonEmptyTexts(ps) && env.videoFiles == []
    ensures Run(env, ImageState(document, 1, []), ps).attempts == []
    ensures Run(env, ImageState(document, 1, []), ps).counter == 1
  {
    if ps != [] {
      NoVideosNoImages(env, document, ps[..|ps| - 1]);
      assert Candidates(env.durations, ps[|ps| - 1].1) == [];
    }
  }

  /** The image file is a PNG whose name holds no other dot: the dots of
      the timestamp are turned into underscores. */
  lemma ImageNameIsPng(outputDirectory: string, videoNo: nat, t: real, format: real -> string)
    requires '/' !in format(t)
    ensures Paths.Extension(ImagePath(outputDirectory, ImageFileName(videoNo, t, format))) == Some("png")
  {
    var stamp := Strings.Replace(format(t), ".", "_");
    Strings.ReplaceChar(format(t), '.', '_');
    var stem := "image-" + Decimal.NatToString(videoNo) + "-" + stamp + "s";
    assert ImageFileName(videoNo, t, format) == stem + "." + "png";
    assert stem[0] == 'i';
    forall k | 0 <= k < |stem| ensures stem[k] != '/' && (k >= 6 ==> true) {
      var digits := Decimal.NatToString(videoNo);
      if 6 <= k < 6 + |digits| { assert stem[k] == digits[k - 6]; assert Decimal.IsDigit(digits[k - 6]); }
      else if 7 + |digits| <= k < 7 + |digits| + |stamp| {
        assert stem[k] == stamp[k - 7 - |digits|];
        ReplaceKeepsSlashFree(format(t));
      }
    }
    Paths.StemAndExtensionOfJoin(Paths.Join(outputDirectory, "images"), stem, "png");
  }

  /** Turning dots into underscores brings in no `/`. */
  lemma {:induction false} ReplaceKeepsSlashFree(s: string)
    requires '/' !in s
    ensures '/' !in Strings.Replace(s, ".", "_")
  {
    if |s| >= 1 {
      assert '/' !in s[1..] by { assert forall k :: 0 <= k < |s| - 1 ==> s[1..][k] == s[k + 1]; }
      ReplaceKeepsSlashFree(s[1..]);
    }
  }
}
