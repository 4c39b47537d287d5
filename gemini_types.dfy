/** The request and response records exchanged with the Gemini
    `generateContent` endpoint, the image-embedding frequency and the
    progress record, as the backend declares them. */
module GeminiTypes {
  import opened Wrappers

  /** A file already uploaded to Gemini, referred to by URI. */
  datatype GeminiFileData = GeminiFileData(mimeType: string, fileUri: string)

  /** One part of a message: plain text, or an uploaded file. */
  datatype GeminiPart = Text(text: string) | FileData(fileData: GeminiFileData)

  datatype GeminiContent = GeminiContent(parts: seq<GeminiPart>)

  /** Sampling settings; absent fields are not sent. */
  datatype GenerationConfig = GenerationConfig(temperature: Option<real>)

  datatype GeminiRequest = GeminiRequest(contents: seq<GeminiContent>, generationConfig: Option<GenerationConfig>)

  datatype GeminiCandidate = GeminiCandidate(content: GeminiContent)

  datatype GeminiResponse = GeminiResponse(candidates: seq<GeminiCandidate>)

  /** How often the model is asked to place screenshot references. */
  datatype ImageEmbedFrequency = Minimal | Moderate | Detailed

  /** A progress event: the step reached out of the total; the message text
      shown with it is not modelled. */
  datatype ProgressUpdate = ProgressUpdate(step: nat, totalSteps: nat)
}
