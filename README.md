# document_encoder backend, modelled in Dafny

document_encoder is a desktop application (Tauri, with a Rust backend) that
turns screen-recording videos into written documents with the Gemini API.
The backend takes the videos the user selected and splits each one longer
than an hour into segments with ffmpeg. It uploads every file to the Gemini
Files API and polls until the server has processed it. It then asks Gemini
for one document per file, and, when there is more than one, asks it to
integrate them into one. Along the way it emits progress events to the
front end. When the user wants screenshots, the prompt asks Gemini to mark
key moments as `[Screenshot: MM:SSs]`. A post-processing pass finds those
markers, extracts the frames and replaces each marker with a Markdown image
link, or removes it when no frame could be extracted. The settings (mode,
API key, output language) are stored in a JSON file. The API key is
obfuscated there: XOR with a fixed key, then Base64.

This project models that backend's core in Dafny and proves properties of
the model. The modules, one per file:

- `api_key_codec.dfy` — `ApiKeyCodec`: the obfuscation of the API key and
  its inverse, including the fallback for keys stored in plain text.
- `settings.dfy` — `Settings`: saving and loading the settings file.
- `mime_types.dfy` — `MimeTypes`: the video MIME type of a path's extension.
- `video_split.dfy` — `VideoSplit`: `get_video_duration` and
  `split_video_if_needed`: the segment count, names and ffmpeg arguments, and
  the fate of the temporary directory.
- `upload_polling.dfy` — `UploadPolling`: the status polling at the end of
  an upload.
- `generation.dfy` — `Generation`: the prompts, the request parts and
  generation config, and how a reply becomes a document or an error, for
  both generation and integration.
- `placeholders.dfy` — `Placeholders`: the screenshot-marker pattern and the
  timestamp parser.
- `screenshots.dfy` — `Screenshots`: `process_document_with_images`.
- `document_pipeline.dfy` — `DocumentPipeline`: `generate_document`, with
  the order of its stages and the progress events it emits.
- Supporting modules for what the Rust standard library and crates provide:
  - `wrappers.dfy`: `Option`, `Result`.
  - `bytes.dfy`: bytes and XOR.
  - `utf8.dfy`: UTF-8.
  - `base64.dfy`: Base64, as in section 4 of RFC 4648.
  - `decimal.dfy`: decimal numerals and `f64` parsing on reals.
  - `strings.dfy`: `split`, `join`, `replace`, `trim`, ASCII lower-casing.
  - `paths.dfy`: `file_name`, `file_stem`, `extension`, `join` for Unix paths.
- `gemini_types.dfy` — `GeminiTypes`: the request and response records.

The external programs and services are not called. Their answers are
parameters of the model:
- ffprobe and ffmpeg become a `ProcessOutcome` and a function from argument
  lists to outcomes;
- the Gemini endpoints become reply datatypes or functions from inputs to
  results;
- frame extraction is a predicate;
- the filesystem becomes a fault parameter or a file state.

Where code runs as a loop in the source, the model has a method with a loop,
proved equal to a specification function. The properties are proved about
that function.

## Model

| member | source | states |
|---|---|---|
| ApiKeyCodec.KeyFacts | src-tauri/src/lib.rs:885 | The XOR key is the UTF-8 of `document_encoder_key_2024`: 25 bytes, from `d` to `4`. |
| ApiKeyCodec.Masked | src-tauri/src/lib.rs:888-890 | XOR with the repeating key keeps the length. |
| ApiKeyCodec.MaskedTwice | src-tauri/src/lib.rs:888-890 | Masking twice with the repeating key gives the bytes back: the decryption loop undoes the encryption loop. |
| ApiKeyCodec.XorWithKey | src-tauri/src/lib.rs:886-890 | The byte loop computes the masking byte by byte. |
| ApiKeyCodec.EncryptApiKey | src-tauri/src/lib.rs:882-894 | Computes the stored form of a key. Its length is 4·⌈n/3⌉ for a key of n UTF-8 bytes. |
| ApiKeyCodec.DecryptApiKey | src-tauri/src/lib.rs:896-916 | Computes the key from its stored form: the Base64 branch, the UTF-8 branch and the plain-text fallback. |
| ApiKeyCodec.DecryptEncrypt | src-tauri/src/lib.rs:882-916 | Decrypting an encrypted key gives the key back, for every key. |
| ApiKeyCodec.EncryptDecrypt | src-tauri/src/lib.rs:896-910 | A stored form that decodes and is valid UTF-8 after unmasking is exactly the encryption of what it decrypts to. |
| ApiKeyCodec.PlainKeyKept | src-tauri/src/lib.rs:911-914 | A string whose length is not a multiple of 4 is not Base64; it is returned unchanged, as a key stored in plain text. |
| ApiKeyCodec.MalformedKeyEmpty | src-tauri/src/lib.rs:909 | Valid Base64 that unmasks to invalid UTF-8 decrypts to the empty string. |
| Base64.EncodeLength | src-tauri/src/lib.rs:892-893 | Standard padded encoding takes 4 characters per 3 bytes, rounded up. |
| Base64.DecodeEncode | src-tauri/src/lib.rs:893 | Decoding an encoding gives the bytes back. |
| Base64.EncodeDecode | src-tauri/src/lib.rs:901 | The strict decoder accepts only canonical encodings: what it accepts is the encoding of its result. |
| Utf8.DecodeEncode | src-tauri/src/lib.rs:888 | `str::bytes` followed by `String::from_utf8` gives the string back. |
| Utf8.EncodeDecode | src-tauri/src/lib.rs:909 | Bytes that `from_utf8` accepts are the UTF-8 encoding of the string it returns. |
| Bytes.XorTwice | src-tauri/src/lib.rs:889 | XOR with the same key byte twice is the identity. |
| Settings.SaveSettings | src-tauri/src/lib.rs:821-847 | Saving succeeds iff no filesystem step fails. The record written keeps mode and language and holds the encrypted key. Each failure carries its own message. |
| Settings.LoadSettings | src-tauri/src/lib.rs:850-871 | No settings exactly when the config directory is known and the file is missing. Loaded settings hold the decrypted key. |
| Settings.SaveThenLoad | src-tauri/src/lib.rs:821-871 | Loading the record that was saved gives back exactly the settings that were saved, the API key included. |
| Settings.MissingLanguageIsJapanese | src-tauri/src/lib.rs:20-33 | A settings file without a language is read with "japanese". |
| MimeTypes.MimeForExtension | src-tauri/src/gemini.rs:511-523 | The fallback "video/mp4" comes exactly for an extension outside the nine known ones. |
| MimeTypes.TableInjective | src-tauri/src/gemini.rs:511-521 | Two extensions share a MIME type other than mp4 only if they are equal or are mpg and mpeg. |
| MimeTypes.CaseInsensitive | src-tauri/src/gemini.rs:506-511 | Extensions that agree once lower-cased give the same MIME type. |
| MimeTypes.LowerChar | src-tauri/src/gemini.rs:511 | A character is changed into an ASCII letter exactly when it is `A`–`Z` or the Kelvin sign U+212A: the characters `to_lowercase` turns into ASCII letters. |
| MimeTypes.Lower | src-tauri/src/gemini.rs:511 | Lower-casing keeps the length and works character by character. |
| MimeTypes.MimeTable | src-tauri/src/gemini.rs:505-524 | `get_mime_type` for a path with an extension: each of the eight named extensions, in any letter case, gives its own type; `mpg` and `mpeg` both give `video/mpeg`; anything else gives `video/mp4`. |
| MimeTypes.KelvinExample | src-tauri/src/gemini.rs:511 | An extension written `m`, Kelvin sign, `v` lower-cases to `mkv` and gives `video/x-matroska`. |
| MimeTypes.KelvinExtension | src-tauri/src/gemini.rs:506-509 | The extension of `/v/clip.m\u{212A}v` is the part after the last dot. |
| MimeTypes.KelvinLower | src-tauri/src/gemini.rs:511 | The Kelvin sign lower-cases to `k`. |
| MimeTypes.NoExtensionIsMp4 | src-tauri/src/gemini.rs:506-521 | A path without an extension is treated as mp4. |
| MimeTypes.QuickTimeExample | src-tauri/src/gemini.rs:505-524 | An upper-case `.MOV` file is QuickTime. |
| VideoSplit.GetVideoDuration | src-tauri/src/video.rs:81-113 | The duration is ffprobe's trimmed output parsed as a float, exactly when ffprobe ran, succeeded and printed a number. Otherwise the error is "Failed to parse duration" for unparsable output. |
| VideoSplit.SegmentCount | src-tauri/src/video.rs:18-19 | For an hour or more: at least 2 segments, at most the i32 maximum. Below saturation, n−1 segments of 3500 s fall short of the video and n cover it. Above it, the count saturates. |
| VideoSplit.SegmentsAreShort | src-tauri/src/video.rs:12-18 | A segment's length is below the one-hour threshold. |
| VideoSplit.StemOf | src-tauri/src/video.rs:23-26 | The stem is never empty and has no `/`, with the "video" fallback. |
| VideoSplit.ExtensionOf | src-tauri/src/video.rs:27-30 | The extension has no `/`, with the "mp4" fallback. |
| VideoSplit.NoSlashInPart | src-tauri/src/video.rs:23-30 | The stem and extension of a slash-free file name are slash-free. |
| VideoSplit.SegmentName | src-tauri/src/video.rs:34-39 | A segment name is never empty and starts as the stem does, so it is relative. |
| VideoSplit.SegmentNameShape | src-tauri/src/video.rs:34-39 | A segment name is the stem, `_part_`, the 1-based index as at least three digits, a dot and the extension. |
| VideoSplit.Calls | src-tauri/src/video.rs:32-56 | The ffmpeg calls of the first k segments, in segment order. |
| VideoSplit.Segments | src-tauri/src/video.rs:32-61 | The paths of the first k segments, in segment order. |
| VideoSplit.CallsStep | src-tauri/src/video.rs:32-56 | One more loop turn appends the call for the next segment. |
| VideoSplit.SegmentsStep | src-tauri/src/video.rs:32-61 | One more loop turn appends the next segment's path. |
| VideoSplit.FirstFailure | src-tauri/src/video.rs:59-74 | The first segment whose ffmpeg run failed; every earlier one succeeded. |
| VideoSplit.CutSegments | src-tauri/src/video.rs:32-77 | The loop over segments returns the paths, or the first failure's error, and the calls made up to then. |
| VideoSplit.SplitVideoIfNeeded | src-tauri/src/video.rs:8-78 | The whole function, proved equal to `Split`. The segments on disk afterwards are all those returned (corrected temporary directory, see Findings). |
| VideoSplit.KeptTempDir | src-tauri/src/video.rs:22 | A directory that outlives the function keeps every segment written to it. |
| VideoSplit.DroppedTempDir | src-tauri/src/video.rs:22 | A directory dropped at return keeps only files outside it. |
| VideoSplit.DroppedSegmentsAreGone | src-tauri/src/video.rs:22-77 | As written, no segment path under the temporary directory exists once the function has returned. |
| VideoSplit.SplitSegmentsAreGone | src-tauri/src/video.rs:8-77 | As written, a successful split of a video of an hour or more returns at least two paths, and none of them exists once the function has returned. |
| VideoSplit.KeptSegmentsExist | src-tauri/src/video.rs:22-77 | With the directory kept, every returned segment exists. |
| VideoSplit.ShortVideoUnsplit | src-tauri/src/video.rs:12-15 | A video under an hour comes back as its own path, and ffmpeg is not run. |
| VideoSplit.CutAllSucceed | src-tauri/src/video.rs:32-77 | If every ffmpeg run succeeds, the result is all segment paths, in order, and every call is made. |
| VideoSplit.CutFails | src-tauri/src/video.rs:59-74 | The first failing run ends the loop with its error. No later call is made. |
| VideoSplit.LongVideoSegments | src-tauri/src/video.rs:8-77 | A video of an hour or more splits into `SegmentCount` segments when ffmpeg succeeds. |
| VideoSplit.SegmentCallTimes | src-tauri/src/video.rs:33-56 | Segment i is cut from i·3500 s for 3500 s, from the input into its own path. |
| VideoSplit.FailureAborts | src-tauri/src/video.rs:59-74 | A failed ffmpeg run makes the whole split fail after j+1 calls, with that run's message. |
| VideoSplit.SegmentNamesDistinct | src-tauri/src/video.rs:34-39 | Different segments get different names. |
| VideoSplit.SegmentPathsDistinct | src-tauri/src/video.rs:34-39 | Different segments get different paths. |
| UploadPolling.Decide | src-tauri/src/gemini.rs:214-284 | Polling continues exactly on a pending reply within 60 retries. It succeeds exactly on ACTIVE with a URI, and the result is that URI. |
| UploadPolling.Poll | src-tauri/src/gemini.rs:192-285 | At most 61 status requests are made. |
| UploadPolling.PollFileStatus | src-tauri/src/gemini.rs:192-285 | The polling loop computes `Poll`: its result and the number of requests. |
| UploadPolling.PollShape | src-tauri/src/gemini.rs:192-285 | Every reply before the last was pending, and the last reply decides the result. |
| UploadPolling.PollSucceedsIff | src-tauri/src/gemini.rs:223-237 | The upload yields a URI iff the last reply read is ACTIVE with that URI and all earlier ones were pending. |
| UploadPolling.ProcessingTimesOut | src-tauri/src/gemini.rs:239-257 | A file that stays PROCESSING times out after 61 requests. |
| UploadPolling.NoStateTimesOut | src-tauri/src/gemini.rs:269-284 | A status that never has a state times out after 61 requests, with its own message. |
| UploadPolling.FirstDecidingReply | src-tauri/src/gemini.rs:192-285 | The first non-pending reply decides the outcome, after exactly that many requests. |
| Generation.ImageInstruction | src-tauri/src/gemini.rs:527-539 | Every frequency's instruction starts with the same head and shows both example markers, one right after the other. |
| Generation.ExamplesInInstruction | src-tauri/src/gemini.rs:530-536 | Where the two examples sit in an instruction of this shape. |
| Generation.PromptShape | src-tauri/src/gemini.rs:338-367 | The prompt opens with the custom prompt if given, else with the default prompt. The screenshot instruction follows iff images are embedded. |
| Generation.DefaultPromptLanguage | src-tauri/src/gemini.rs:346-349 | The default prompt asks for English iff the language is "english", and for Japanese otherwise. |
| Generation.Parts | src-tauri/src/gemini.rs:369-380 | The prompt text first, then one `video/mp4` file part per URI, in order. |
| Generation.BuildParts | src-tauri/src/gemini.rs:369-380 | The loop pushing file parts builds `Parts`. |
| Generation.GenerationConfigFor | src-tauri/src/gemini.rs:384-390 | A config is sent iff the temperature is positive, and it carries that temperature. |
| Generation.BuildGenerationRequest | src-tauri/src/gemini.rs:338-391 | The request is one content holding the prompt and file parts, plus the temperature config. |
| Generation.FirstText | src-tauri/src/gemini.rs:405-416 | A text exists iff there is a first candidate whose first part is text, and the result is that text. |
| Generation.GenerationResult | src-tauri/src/gemini.rs:401-425 | A document comes exactly from a successful reply with a first text part. A successful reply without one gives "No text content in response". |
| Generation.Sections | src-tauri/src/gemini.rs:443 | Each document gets its own heading `=== Document i+1 ===`. |
| Generation.IntegrationPromptShape | src-tauri/src/gemini.rs:438-463 | The integration prompt opens with the custom prompt or the fixed request and always ends with the numbered documents. It asks for English iff the language is "english". |
| Generation.DocumentsInOrder | src-tauri/src/gemini.rs:441-445 | Every document appears in the prompt right after its heading, in the original order, with a blank line between documents. |
| Generation.SectionParts | src-tauri/src/gemini.rs:443 | A section holds its heading and then its document. |
| Generation.IntegrationRequest | src-tauri/src/gemini.rs:465-478 | The integration request has the prompt as its only part, with a config iff the temperature is positive, and that config carries the temperature. |
| Generation.IntegrationResult | src-tauri/src/gemini.rs:486-502 | The integrated document comes exactly from a successful reply with a first text part, with its own error messages. |
| Placeholders.SkipSpaces | src-tauri/src/gemini.rs:573 | `\s*` consumes exactly the maximal run of white space. |
| Placeholders.RunEnd | src-tauri/src/gemini.rs:573 | The maximal run of digits, colons and dots. |
| Placeholders.TimestampShape | src-tauri/src/gemini.rs:573 | A timestamp starts and ends with a digit, and has only digits, `:` and `.`. |
| Placeholders.FractionShape | src-tauri/src/gemini.rs:573 | An optional `.\d+` ends with a digit. |
| Placeholders.MatchAt | src-tauri/src/gemini.rs:573 | A match found at an index satisfies the pattern. |
| Placeholders.MatchAtComplete | src-tauri/src/gemini.rs:573 | Every match of the pattern at an index is found: the pattern's match there is unique. |
| Placeholders.FindAll | src-tauri/src/gemini.rs:578-586 | Every placeholder found starts with `[` and captures a well-formed timestamp. |
| Placeholders.NoBracketNoPlaceholder | src-tauri/src/gemini.rs:578-586 | Text without `[` holds no placeholder. |
| Placeholders.ParseFraction | src-tauri/src/gemini.rs:547-553 | `digits[.digits]` parses as its decimal value. |
| Placeholders.ParseMinutesSeconds | src-tauri/src/gemini.rs:543-550 | `M:SS[.f]` is minutes·60 plus seconds. |
| Placeholders.ParseSeconds | src-tauri/src/gemini.rs:551-553 | Plain seconds parse as their decimal value. |
| Placeholders.NoColonCount | src-tauri/src/gemini.rs:543 | A string without `:` has no colon to count. |
| Placeholders.ParseManyColons | src-tauri/src/gemini.rs:543-555 | Two or more colons give 0. |
| Placeholders.FirstExampleRecognized | src-tauri/src/gemini.rs:530 | `[Screenshot: 00:14s]` is matched and means 14 s. |
| Placeholders.SecondExampleRecognized | src-tauri/src/gemini.rs:530 | `[Screenshot: 01:23s]` is matched and means 83 s. |
| Placeholders.ClockExample | src-tauri/src/gemini.rs:530-536 | Every `MM:SS` marker in the instructed format is matched and read as MM·60+SS. |
| Placeholders.TwoDigitsValue | src-tauri/src/gemini.rs:547-548 | Two digits read as their value. |
| Placeholders.DecimalSecondsRecognized | src-tauri/src/gemini.rs:572-573 | `[Screenshot: 123.45s]` is matched and means 123.45 s. |
| Placeholders.DecimalSecondsShape | src-tauri/src/gemini.rs:573 | `123.45` has the seconds form of the pattern. |
| Placeholders.DecimalSecondsValue | src-tauri/src/gemini.rs:553 | `123.45` parses as 123.45. |
| Placeholders.FractionExample | src-tauri/src/gemini.rs:553 | The value of `123` with `.45`. |
| Placeholders.ExampleRecognized | src-tauri/src/gemini.rs:573 | Any `MM:SS` marker is matched at its position with the right capture. |
| Screenshots.ProbedDuration | src-tauri/src/gemini.rs:593-598 | A duration is known exactly when ffprobe gave one, and it is that duration. |
| Screenshots.Durations | src-tauri/src/gemini.rs:591-600 | One entry per video, in order. |
| Screenshots.ProbeDurations | src-tauri/src/gemini.rs:591-600 | The probing loop computes `Durations`. |
| Screenshots.Fitting | src-tauri/src/gemini.rs:606-610 | Exactly the videos long enough for the timestamp, in increasing order. |
| Screenshots.AllVideos | src-tauri/src/gemini.rs:614 | Every video, in order. |
| Screenshots.Candidates | src-tauri/src/gemini.rs:606-615 | Candidate videos are valid indices in increasing order. |
| Screenshots.CandidatesChoice | src-tauri/src/gemini.rs:606-615 | If some video is long enough, the candidates are exactly those videos. If none is, they are all videos. |
| Screenshots.ImageFileName | src-tauri/src/gemini.rs:619-622 | The image name is non-empty and starts with the `i` of `image-`, so it is relative to the images directory. |
| Screenshots.FirstSuccess | src-tauri/src/gemini.rs:618-645 | The candidate whose extraction succeeded. |
| Screenshots.FirstSuccessSkipsFailures | src-tauri/src/gemini.rs:618-645 | Every candidate tried before the first success failed. Without a success, every candidate failed. |
| Screenshots.Tries | src-tauri/src/gemini.rs:618-630 | One extraction per candidate, in order. |
| Screenshots.TriesStep | src-tauri/src/gemini.rs:618-630 | One more candidate appends one more attempt. |
| Screenshots.Located | src-tauri/src/gemini.rs:578-586 | Every located placeholder has non-empty text. |
| Screenshots.TryCandidates | src-tauri/src/gemini.rs:618-645 | The inner loop stops at the first successful extraction. It has tried exactly the candidates up to it, or all of them. |
| Screenshots.HandlePlaceholder | src-tauri/src/gemini.rs:602-652 | One placeholder is replaced by its image link or removed, and the counter advances on success. |
| Screenshots.HandleAll | src-tauri/src/gemini.rs:602-652 | The loop over placeholders computes `Run`. |
| Screenshots.ProcessDocumentWithImages | src-tauri/src/gemini.rs:559-655 | The whole function, proved equal to `Process`, with the extractions it attempted. |
| Screenshots.FirstSuccessStep | src-tauri/src/gemini.rs:618-645 | One step of the search for the first success. |
| Screenshots.StepSome | src-tauri/src/gemini.rs:631-638 | After a success, the placeholder becomes `![Screenshot k](./images/…)` and the counter increases by one. |
| Screenshots.StepNone | src-tauri/src/gemini.rs:647-651 | Without a success, the placeholder is removed and every candidate has been tried. |
| Screenshots.SuccessCountAppend | src-tauri/src/gemini.rs:618-645 | Successes of consecutive attempt lists add up. |
| Screenshots.FailedTries | src-tauri/src/gemini.rs:640-643 | Only failed attempts count zero successes. |
| Screenshots.SuccessfulTries | src-tauri/src/gemini.rs:631-638 | Tries up to the first success add one success. |
| Screenshots.UnsuccessfulTries | src-tauri/src/gemini.rs:640-651 | Tries with no success add none. |
| Screenshots.StepCounts | src-tauri/src/gemini.rs:602-652 | A placeholder's step adds a prefix of its candidates to the attempts. The counter rises by the successes among them: one, or none after trying every candidate. |
| Screenshots.CounterCountsImages | src-tauri/src/gemini.rs:575-652 | After any number of placeholders, the counter is 1 plus the number of frames extracted. |
| Screenshots.NoPlaceholderUnchanged | src-tauri/src/gemini.rs:559-655 | A document without `[` comes back unchanged, and no extraction is attempted. |
| Screenshots.NoVideosNoImages | src-tauri/src/gemini.rs:602-652 | Without videos, no extraction is tried and the counter stays at 1. |
| Screenshots.ImageNameIsPng | src-tauri/src/gemini.rs:621-623 | Every image path has the extension `png`. |
| Screenshots.ReplaceKeepsSlashFree | src-tauri/src/gemini.rs:621 | Replacing `.` by `_` keeps a name free of `/`. |
| DocumentPipeline.Progress | src-tauri/src/lib.rs:156-170 | Events 0..m, each carrying the total. |
| DocumentPipeline.ProgressNext | src-tauri/src/lib.rs:176-177 | Emitting the next step extends the event list by one. |
| DocumentPipeline.ProcessFiles | src-tauri/src/lib.rs:175-197 | On success, one step per file and at least one path per file. |
| DocumentPipeline.ProcessFilesStops | src-tauri/src/lib.rs:192-195 | After the first failure, later files change nothing. |
| DocumentPipeline.ProcessFilesNext | src-tauri/src/lib.rs:175-197 | One loop turn appends the file's paths or fails with its message. |
| DocumentPipeline.ProcessFilesOutcome | src-tauri/src/lib.rs:175-197 | Processing succeeds iff every file splits. Otherwise it stops at the first failing file, with "Failed to process file …". |
| DocumentPipeline.MapAll | src-tauri/src/lib.rs:203-250 | On success, one result per item and one step per item. |
| DocumentPipeline.MapAllStops | src-tauri/src/lib.rs:203-250 | After the first failure, later items change nothing. |
| DocumentPipeline.MapAllNext | src-tauri/src/lib.rs:203-250 | One loop turn appends the result or fails with the wrapped error. |
| DocumentPipeline.MapAllOutcome | src-tauri/src/lib.rs:203-250 | Uploads (and generations) succeed iff every item does, and the results are in order. Otherwise the loop stops at the first failure with its wrapped message. |
| DocumentPipeline.Integrate | src-tauri/src/lib.rs:252-278 | Integration takes a step exactly when there is more than one document. |
| DocumentPipeline.AfterUpload | src-tauri/src/lib.rs:225-278 | Steps never decrease. |
| DocumentPipeline.AfterSplit | src-tauri/src/lib.rs:203-278 | Steps never decrease. |
| DocumentPipeline.SplitAll | src-tauri/src/lib.rs:173-197 | The file loop computes `ProcessFiles` and emits one event per file processed. |
| DocumentPipeline.Contribute | src-tauri/src/lib.rs:180-191 | A file adds its segments, or its own path when unsplit. |
| DocumentPipeline.Each | src-tauri/src/lib.rs:203-250 | The upload/generate loop computes `MapAll` and emits one event per item attempted. |
| DocumentPipeline.EventsJoin | src-tauri/src/lib.rs:152-282 | The events of a stage followed by those after it are the events from the stage's start. |
| DocumentPipeline.AfterUploadStages | src-tauri/src/lib.rs:225-278 | Generation failure ends the pipeline with its error. Otherwise integration follows. |
| DocumentPipeline.AfterSplitStages | src-tauri/src/lib.rs:203-278 | Upload failure ends the pipeline with its error. Otherwise generation follows. |
| DocumentPipeline.PipelineStages | src-tauri/src/lib.rs:173-278 | Split failure ends the pipeline with its error. Otherwise uploading follows. |
| DocumentPipeline.EventsAfterFailure | src-tauri/src/lib.rs:192-272 | A failure emits no final event. |
| DocumentPipeline.EventsFromStart | src-tauri/src/lib.rs:170-282 | The start event followed by the rest is the event list. |
| DocumentPipeline.Finish | src-tauri/src/lib.rs:252-282 | The integration stage and the final event. |
| DocumentPipeline.GenerateEach | src-tauri/src/lib.rs:225-282 | The generation stage onwards computes `AfterUpload` and its events. |
| DocumentPipeline.UploadEach | src-tauri/src/lib.rs:203-282 | The upload stage onwards computes `AfterSplit` and its events. |
| DocumentPipeline.GenerateDocument | src-tauri/src/lib.rs:147-283 | The whole command computes `Generate`: the document or the first error, and the exact sequence of progress events. |
| DocumentPipeline.UnsplitPaths | src-tauri/src/lib.rs:180-191 | With no file split, the paths are the files' own paths, in order. |
| DocumentPipeline.StepsWithinTotal | src-tauri/src/lib.rs:152 | With no file split, the steps taken stay within the announced total. |
| DocumentPipeline.ProgressWithinTotal | src-tauri/src/lib.rs:152-282 | With no file split, every event's step is at most the total and the steps never go back. A successful run ends at the total. |
| DocumentPipeline.SplitVideoOverrunsTotal | src-tauri/src/lib.rs:152-282 | A single two-segment video reports step 6 of a total of 3, then drops back to 3 at the end. |
| DocumentPipeline.SingleVideoDocument | src-tauri/src/lib.rs:147-283 | One short video: its generated document is the result, with events 0,1,2,3,3 of 3. |
| DocumentPipeline.NoFilesEmptyDocument | src-tauri/src/lib.rs:147-283 | No files: the empty document, with events 0 and 0 of 0. |
| DocumentPipeline.MapOne | src-tauri/src/lib.rs:203-250 | One item that succeeds gives its result. |
| DocumentPipeline.MapPair | src-tauri/src/lib.rs:203-250 | Two items that succeed give both results in order. |
| DocumentPipeline.SplitFailureStops | src-tauri/src/lib.rs:175-197 | A file that cannot be split ends the command with its error right after its own event. Nothing is uploaded. |

## Left out

- I/O is not performed. The model takes these as parameters: ffprobe and
  ffmpeg runs, the HTTP calls and their replies, filesystem results, frame
  extraction, the sleep between polls, and the progress-event emission (as
  a list of events).
- The upload steps before polling (reading the file, starting the
  resumable session, sending the bytes) and the request URLs (model name,
  API key in the query) are not modelled. Their failures reach the pipeline
  as an upload error, which the model covers.
- The progress messages (Japanese text) and the sub-progress events that
  upload and generation emit inside a step are not modelled. The step
  numbers and totals are.
- The dialog commands, `extract_frame_from_video` and the other Tauri
  commands outside the document pipeline and settings are not part of this
  model.
- `f64` is modelled as `real`: NaN, infinities, rounding and `f64` overflow
  are not modelled. A duration ffprobe could not give is `None` rather than
  `f64::INFINITY`, and it is treated as long enough for any timestamp,
  which is the same behaviour.
- Screenshots.ImageFileName: the `Display` form of an `f64` timestamp is a
  parameter `format`, not Rust's shortest-round-trip algorithm.
- Placeholders: `\d` is modelled as the ASCII digits. The regex crate's
  `\d` also matches the other Unicode decimal digits, which `f64` parsing
  then rejects. `\s` is modelled as the Unicode White_Space set, as the
  regex crate has it.
- Settings.SaveSettings: the "Failed to serialize settings" error cannot
  happen for this record and is not modelled.
- JSON encoding of the settings file is represented by the record it holds.
- VideoSplit.GetVideoDuration: ffprobe's output is taken as text. The
  replacement of invalid UTF-8 by `from_utf8_lossy` is not modelled.
- The source comment calls the XOR key 24 bytes; the literal has 25, and
  the model uses the literal (`ApiKeyCodec.KeyFacts`).
- The polling loop and `get_mime_type` appear twice in the source, once in
  `src-tauri/src/gemini.rs` and once in `src-tauri/src/lib.rs`. They are
  modelled once, from `gemini.rs`. The `lib.rs` copy of the polling
  reports a status-parse failure with the parser's message alone,
  without the "Failed to parse file status response" prefix.
- The `lib.rs` versions of document generation and integration
  (`src-tauri/src/lib.rs:518-600` and `736-800`) are not modelled. They are
  the ones `generate_document` calls. Their prompt depends on the `mode`
  setting ("manual", "specification" or any other). Specification mode
  heads each document `=== Specification Part i ===`. They send no
  generation config, no custom prompt and no screenshot instruction.
  `Generation` models the `gemini.rs` variants instead: temperature,
  custom prompt and screenshot instruction, which `generate_document`
  does not call. `DocumentPipeline` takes generation and integration as
  functions, so it holds for either variant. The effect of `mode` on the
  prompts is not modelled.
- MimeTypes.GetMimeType: `str::to_lowercase` is modelled only for the
  characters that lower-case into an ASCII letter: `A`–`Z` and the Kelvin
  sign. Every other character is kept as it is. No other character
  lower-cases into a table entry, so the MIME type is the same as with
  full Unicode lower-casing.
- A placeholder text can occur twice in the document. Its first handling
  replaces both occurrences (`str::replace` replaces all). The second match
  then finds nothing left to replace, but still tries extraction and
  advances the counter on success, so image numbers can skip. The model
  behaves the same way.
- Screenshots.TryCandidates: the document is updated after the candidate
  loop rather than inside it; as the loop ends at the first success, the
  resulting document is the same.
- Paths: only Unix paths (`/` separators) are modelled.

## Findings

| source | as written | input that shows it | evidently intended | confidence | as-written member | corrected member |
|---|---|---|---|---|---|---|
| src-tauri/src/video.rs:22-77 | The segments are written into a `tempfile::tempdir()` whose `TempDir` guard is dropped when `split_video_if_needed` returns, which deletes the directory with every segment. | Any video of 3600 s or more, e.g. 7000 s: two segments are cut, and both paths returned no longer exist when `generate_document` uploads them. | The directory outlives the function (e.g. `TempDir::into_path`), so every returned segment exists. | not executed | VideoSplit.SplitSegmentsAreGone | VideoSplit.KeptSegmentsExist |
