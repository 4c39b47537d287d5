/** Building the requests of `generate_with_gemini_internal` and
    `integrate_documents` and reading their answers: the prompt (a custom
    one or the default, with an optional screenshot instruction), the
    parts of the message, the optional generation config, and the text of
    the first part of the first candidate. The HTTP exchange itself is an
    input: the reply the endpoint gave. */
module Generation {
  import opened Wrappers
  import opened GeminiTypes
  import Strings
  import Decimal

  /** The MIME type every uploaded file is sent with. */
  const VideoMime: string := "video/mp4"

  const EnglishInstruction: string := "Please write the document in English"
  const JapaneseInstruction: string := "Please write the document in Japanese"

  /** The language line of the default prompt: English only for
      "english", Japanese for anything else. */
  function LanguageInstruction(language: string): string
  {
    if language == "english" then EnglishInstruction else JapaneseInstruction
  }

  /** The default prompt up to its language line. */
  const PromptHead: string :=
    "Please analyze the uploaded video(s) and create a comprehensive document based on the content. The document should include:\n"
    + "        \n"
    + "        1. Overview of the content\n"
    + "        2. Key points and important information\n"
    + "        3. Step-by-step instructions or procedures if applicable\n"
    + "        4. Technical details and specifications\n"
    + "        5. Any relevant notes or recommendations\n"
    + "        \n"
    + "        "

  const PromptTail: string := " and format it in a clear, professional manner."

  /** The prompt used when there is no custom prompt. */
  function DefaultPrompt(language: string): string
  {
    PromptHead + LanguageInstruction(language) + PromptTail
  }

  /** The two example placeholders every screenshot instruction shows. */
  const FirstExample: string := "[Screenshot: 00:14s]"
  const SecondExample: string := "[Screenshot: 01:23s]"

  const InstructionHead: string := "\n\nIMPORTANT: When describing "
  const InstructionFormat: string :=
    ", please include screenshot references using this exact format: [Screenshot: XX:XXs] where XX:XX is the timestamp in MM:SS format (e.g., "

  /** What the instruction asks screenshots for, by frequency. */
  function Focus(frequency: ImageEmbedFrequency): string
  {
    match frequency
    case Minimal => "the most critical visual elements or key points in the document"
    case Moderate => "visual elements or important points in the document"
    case Detailed => "visual elements, UI components, or detailed explanations in the document"
  }

  /** How often the instruction asks for screenshots, by frequency. */
  function Usage(frequency: ImageEmbedFrequency): string
  {
    match frequency
    case Minimal => "Use these references sparingly, only for the most important moments that are essential for understanding."
    case Moderate => "Use these references to mark key moments that would benefit from visual representation."
    case Detailed => "Use these references frequently to provide detailed visual context for readers."
  }

  /** Where the first example placeholder stands in an instruction. */
  function ExampleOffset(frequency: ImageEmbedFrequency): nat
  {
    |InstructionHead| + |Focus(frequency)| + |InstructionFormat|
  }

  /** `get_image_instruction`: the text appended to the prompt when images
      are embedded. It starts on a new paragraph and shows the two example
      placeholders, one after the other. */
  function ImageInstruction(frequency: ImageEmbedFrequency): (s: string)
    ensures |s| > |InstructionHead| && s[..|InstructionHead|] == InstructionHead
    ensures Strings.OccursAt(s, FirstExample, ExampleOffset(frequency))
    ensures Strings.OccursAt(s, SecondExample, ExampleOffset(frequency) + |FirstExample| + 2)
  {
    var middle := Focus(frequency) + InstructionFormat;
    ExamplesInInstruction(InstructionHead, middle, FirstExample, SecondExample, Usage(frequency));
    assert ExampleOffset(frequency) == |InstructionHead| + |middle|;
    assert ExampleOffset(frequency) + |FirstExample| + 2 == |InstructionHead| + |middle| + |FirstExample| + 2;
    InstructionHead + middle + FirstExample + ", " + SecondExample + "). " + Usage(frequency)
  }

  /** Where the parts of an instruction stand, whatever their text. */
  lemma ExamplesInInstruction(head: string, middle: string, first: string, second: string, usage: string)
    requires |first| > 0
    ensures var s := head + middle + first + ", " + second + "). " + usage;
      |s| > |head| && s[..|head|] == head &&
      Strings.OccursAt(s, first, |head| + |middle|) &&
      Strings.OccursAt(s, second, |head| + |middle| + |first| + 2)
  {
    var s := head + middle + first + ", " + second + "). " + usage;
    assert s == head + (middle + first + ", " + second + "). " + usage);
    Strings.ConcatParts(head, middle + first + ", " + second + "). " + usage);
    assert s == (head + middle) + first + (", " + second + "). " + usage);
    Strings.OccursInConcat(head + middle, first, ", " + second + "). " + usage);
    assert s == (head + middle + first + ", ") + second + ("). " + usage);
    Strings.OccursInConcat(head + middle + first + ", ", second, "). " + usage);
  }

  /** The base of the prompt: the custom prompt verbatim, or the default. */
  function BasePrompt(customPrompt: Option<string>, language: string): string
  {
    if customPrompt.Some? then customPrompt.value else DefaultPrompt(language)
  }

  /** The prompt of `generate_with_gemini_internal`: the base, followed by
      the screenshot instruction when images are embedded. */
  function Prompt(customPrompt: Option<string>, language: string, embedImages: bool,
                  frequency: ImageEmbedFrequency): string
  {
    BasePrompt(customPrompt, language) + if embedImages then ImageInstruction(frequency) else ""
  }

  /** The prompt starts with the custom prompt when one is given, and with
      the default prompt otherwise; the screenshot instruction follows it
      exactly when images are embedded, and nothing follows otherwise. */
  lemma PromptShape(customPrompt: Option<string>, language: string, embedImages: bool,
                    frequency: ImageEmbedFrequency)
    ensures var p, base := Prompt(customPrompt, language, embedImages, frequency), BasePrompt(customPrompt, language);
      |base| <= |p| && p[..|base|] == base &&
      (customPrompt.Some? ==> base == customPrompt.value) &&
      (customPrompt.None? ==> base == DefaultPrompt(language)) &&
      (embedImages ==> p[|base|..] == ImageInstruction(frequency)) &&
      (!embedImages ==> p == base)
  {
    var base := BasePrompt(customPrompt, language);
    var extra := if embedImages then ImageInstruction(frequency) else "";
    Strings.ConcatParts(base, extra);
  }

  /** The default prompt asks for English exactly when the language is
      "english", and for Japanese otherwise. */
  lemma DefaultPromptLanguage(language: string)
    ensures Strings.OccursAt(DefaultPrompt(language), EnglishInstruction, |PromptHead|) <==> language == "english"
    ensures language != "english" ==> Strings.OccursAt(DefaultPrompt(language), JapaneseInstruction, |PromptHead|)
  {
    var instruction := LanguageInstruction(language);
    Strings.OccursInConcat(PromptHead, instruction, PromptTail);
    var p, k := DefaultPrompt(language), |PromptHead|;
    assert EnglishInstruction[29] == 'E' && JapaneseInstruction[29] == 'J';
    if language != "english" {
      assert p[k..k + |JapaneseInstruction|][29] == p[k + 29];
    }
  }

  /** The parts of the generation request: the prompt as text, then one
      file part per URI, in the order given. */
  function Parts(prompt: string, fileUris: seq<string>): (parts: seq<GeminiPart>)
    ensures |parts| == |fileUris| + 1 && parts[0] == Text(prompt)
    ensures forall i :: 0 <= i < |fileUris| ==> parts[i + 1] == FileData(GeminiFileData(VideoMime, fileUris[i]))
  {
    [Text(prompt)] + seq(|fileUris|, i requires 0 <= i < |fileUris| => FileData(GeminiFileData(VideoMime, fileUris[i])))
  }

  /** Filling the parts vector: the prompt first, then a file part pushed
      for each URI. */
  method BuildParts(prompt: string, fileUris: seq<string>) returns (parts: seq<GeminiPart>)
    ensures parts == Parts(prompt, fileUris)
  {
    parts := [Text(prompt)];
    for i := 0 to |fileUris|
      invariant |parts| == i + 1 && parts[0] == Text(prompt)
      invariant forall k :: 0 <= k < i ==> parts[k + 1] == FileData(GeminiFileData(VideoMime, fileUris[k]))
    {
      parts := parts + [FileData(GeminiFileData(VideoMime, fileUris[i]))];
    }
  }

  /** The generation config: sent, with the temperature, exactly when the
      temperature is positive. */
  function GenerationConfigFor(temperature: real): (c: Option<GenerationConfig>)
    ensures c.Some? <==> temperature > 0.0
    ensures c.Some? ==> c.value.temperature == Some(temperature)
  {
    if temperature > 0.0 then Some(GenerationConfig(Some(temperature))) else None
  }

  /** The request `generate_with_gemini_internal` sends: one content whose
      parts are the prompt and the files, and the config for the
      temperature. */
  method BuildGenerationRequest(fileUris: seq<string>, language: string, temperature: real,
                                customPrompt: Option<string>, embedImages: bool,
                                frequency: ImageEmbedFrequency)
    returns (request: GeminiRequest)
    ensures |request.contents| == 1
    ensures request.contents[0].parts == Parts(Prompt(customPrompt, language, embedImages, frequency), fileUris)
    ensures request.generationConfig == GenerationConfigFor(temperature)
  {
    var prompt := Prompt(customPrompt, language, embedImages, frequency);
    var parts := BuildParts(prompt, fileUris);
    request := GeminiRequest([GeminiContent(parts)], GenerationConfigFor(temperature));
  }

  /** The text of the first part of the first candidate, when that part is
      text. */
  function FirstText(response: GeminiResponse): (t: Option<string>)
    ensures t.Some? <==>
      |response.candidates| > 0 && |response.candidates[0].content.parts| > 0 &&
      response.candidates[0].content.parts[0].Text?
    ensures t.Some? ==> t.value == response.candidates[0].content.parts[0].text
  {
    if |response.candidates| == 0 then None
    else
      var parts := response.candidates[0].content.parts;
      if |parts| == 0 then None
      else match parts[0]
        case Text(text) => Some(text)
        case FileData(_) => None
  }

  /** What the endpoint gave back: the request could not be sent or its
      body not read, an error status with its body, or a decoded answer. */
  datatype GenerationReply = SendFailed(error: string) | ApiError(errorText: string) | Answered(response: GeminiResponse)

  /** The result of `generate_with_gemini_internal` for a reply: the text
      exactly when the reply is an answer whose first candidate starts with
      a text part. */
  function GenerationResult(reply: GenerationReply): (r: Result<string>)
    ensures r.Ok? <==> reply.Answered? && FirstText(reply.response).Some?
    ensures r.Ok? ==> r.value == FirstText(reply.response).value
    ensures reply.Answered? && r.Err? ==> r.error == "No text content in response"
  {
    match reply
    case SendFailed(e) => Err(e)
    case ApiError(text) => Err("API request failed: " + text)
    case Answered(response) =>
      match FirstText(response)
      case Some(text) => Ok(text)
      case None => Err("No text content in response")
  }

  const IntegrationEnglish: string := "Please write the integrated document in English"
  const IntegrationJapanese: string := "Please write the integrated document in Japanese"

  const IntegrationHead: string :=
    "Please integrate the following documents into one comprehensive, cohesive document. "
    + "Ensure proper flow, eliminate redundancy, organize the content logically, and maintain consistency throughout. "

  const CustomSeparator: string := "\n\n=== Documents to integrate ===\n"

  /** The heading line of document `i` (from 0), numbered from 1. */
  function SectionHeader(i: nat): string
  {
    "=== Document " + Decimal.NatToString(i + 1) + " ===\n"
  }

  /** Document `i` with its heading. */
  function Section(i: nat, doc: string): string
  {
    SectionHeader(i) + doc + "\n"
  }

  /** The sections of all documents, in order. */
  function Sections(documents: seq<string>): (sections: seq<string>)
    ensures |sections| == |documents|
    ensures forall i :: 0 <= i < |documents| ==> sections[i] == Section(i, documents[i])
  {
    seq(|documents|, i requires 0 <= i < |documents| => Section(i, documents[i]))
  }

  /** All sections, one after the other, separated by an empty line. */
  function DocumentsBody(documents: seq<string>): string
  {
    Strings.Join("\n", Sections(documents))
  }

  /** The prompt of `integrate_documents`. */
  function IntegrationPrompt(documents: seq<string>, language: string, customPrompt: Option<string>): (p: string)
  {
    if customPrompt.Some? then customPrompt.value + CustomSeparator + DocumentsBody(documents)
    else
      var instruction := if language == "english" then IntegrationEnglish else IntegrationJapanese;
      IntegrationHead + instruction + ":\n\n" + DocumentsBody(documents)
  }

  /** The integration prompt opens with the custom prompt when there is one
      and with the fixed request otherwise, and it always ends with the
      numbered documents; the fixed request asks for English exactly when
      the language is "english", and for Japanese otherwise. */
  lemma IntegrationPromptShape(documents: seq<string>, language: string, customPrompt: Option<string>)
    ensures var p, body := IntegrationPrompt(documents, language, customPrompt), DocumentsBody(documents);
      |body| <= |p| && p[|p| - |body|..] == body
    ensures customPrompt.Some? ==>
      var p := IntegrationPrompt(documents, language, customPrompt);
      |customPrompt.value| <= |p| && p[..|customPrompt.value|] == customPrompt.value
    ensures customPrompt.None? ==>
      var p := IntegrationPrompt(documents, language, customPrompt);
      |IntegrationHead| <= |p| && p[..|IntegrationHead|] == IntegrationHead &&
      (Strings.OccursAt(p, IntegrationEnglish, |IntegrationHead|) <==> language == "english") &&
      (language != "english" ==> Strings.OccursAt(p, IntegrationJapanese, |IntegrationHead|))
  {
    var p, body := IntegrationPrompt(documents, language, customPrompt), DocumentsBody(documents);
    if customPrompt.Some? {
      var front := customPrompt.value + CustomSeparator;
      Strings.ConcatParts(front, body);
      Strings.ConcatParts(customPrompt.value, CustomSeparator);
      assert p[..|customPrompt.value|] == front[..|customPrompt.value|];
    } else {
      var instruction := if language == "english" then IntegrationEnglish else IntegrationJapanese;
      var tail := ":\n\n" + body;
      assert p == IntegrationHead + instruction + tail;
      Strings.OccursInConcat(IntegrationHead, instruction, tail);
      Strings.ConcatParts(IntegrationHead + instruction + ":\n\n", body);
      assert p[..|IntegrationHead|] == (IntegrationHead + instruction + tail)[..|IntegrationHead|];
      assert IntegrationEnglish[40] == 'E' && IntegrationJapanese[40] == 'J';
      if language != "english" {
        var k := |IntegrationHead|;
        assert p[k..k + |IntegrationJapanese|][40] == p[k + 40];
      }
    }
  }

  /** Where document `i` starts in the body. */
  function DocumentOffset(documents: seq<string>, i: nat): nat
    requires i < |documents|
  {
    Strings.JoinOffset("\n", Sections(documents), i) + |SectionHeader(i)|
  }

  /** Every document stands in the body, right after its own numbered
      heading, and the documents come in their original order, each one
      after the previous one's text and its two line breaks. */
  lemma DocumentsInOrder(documents: seq<string>, i: nat)
    requires i < |documents|
    ensures var body := DocumentsBody(documents);
      var at := DocumentOffset(documents, i);
      Strings.OccursAt(body, SectionHeader(i), at - |SectionHeader(i)|) &&
      Strings.OccursAt(body, documents[i], at)
    ensures i + 1 < |documents| ==>
      DocumentOffset(documents, i + 1)
        == DocumentOffset(documents, i) + |documents[i]| + 2 + |SectionHeader(i + 1)|
  {
    var sections := Sections(documents);
    Strings.JoinPieceAt("\n", sections, i);
    var start := Strings.JoinOffset("\n", sections, i);
    SectionParts(Strings.Join("\n", sections), start, SectionHeader(i), documents[i]);
  }

  /** A section standing at `start` holds its heading there and its
      document right after. */
  lemma SectionParts(body: string, start: nat, header: string, doc: string)
    requires Strings.OccursAt(body, header + doc + "\n", start)
    ensures Strings.OccursAt(body, header, start)
    ensures Strings.OccursAt(body, doc, start + |header|)
  {
    Strings.OccursSplit(body, header, doc + "\n", start);
    Strings.OccursSplit(body, doc, "\n", start + |header|);
    assert header + doc + "\n" == header + (doc + "\n");
  }

  /** The request `integrate_documents` sends: the prompt as its only part. */
  function IntegrationRequest(documents: seq<string>, language: string, temperature: real,
                              customPrompt: Option<string>): (request: GeminiRequest)
    ensures request.contents == [GeminiContent([Text(IntegrationPrompt(documents, language, customPrompt))])]
    ensures request.generationConfig.Some? <==> temperature > 0.0
    ensures request.generationConfig.Some? ==> request.generationConfig.value.temperature == Some(temperature)
  {
    GeminiRequest([GeminiContent([Text(IntegrationPrompt(documents, language, customPrompt))])],
                  GenerationConfigFor(temperature))
  }

  /** The result of `integrate_documents` for a reply. */
  function IntegrationResult(reply: GenerationReply): (r: Result<string>)
    ensures r.Ok? <==> reply.Answered? && FirstText(reply.response).Some?
    ensures r.Ok? ==> r.value == FirstText(reply.response).value
    ensures reply.Answered? && r.Err? ==> r.error == "No text content in integration response"
  {
    match reply
    case SendFailed(e) => Err(e)
    case ApiError(text) => Err("Document integration failed: " + text)
    case Answered(response) =>
      match FirstText(response)
      case Some(text) => Ok(text)
      case None => Err("No text content in integration response")
  }
}
