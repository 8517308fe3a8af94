/** The transcript analysis of lib/shared.ts: the `VoiceNoteAnalysis` schema the
    model's structured output is validated against, and the error contract of
    `performTranscriptAnalysis`. The language-model call itself is not modelled:
    its answer is an input value. */
module Analysis {
  import opened Wrappers
  import opened Strings

  // ---------------------------------------------------------------------
  // The schema (lib/shared.ts:42-51)

  datatype InstructionType = NewNote | AppendDaily | AppendToPage

  /** `{ type, target_page? }`: `target_page` is optional whatever the type. */
  datatype Instruction = Instruction(kind: InstructionType, targetPage: Option<string>)

  datatype VoiceNoteAnalysis = VoiceNoteAnalysis(instruction: Instruction, title: string, content: string)

  /** The wire name of an instruction type, as listed in the `z.enum`. */
  function TagName(t: InstructionType): string {
    match t
    case NewNote => "new_note"
    case AppendDaily => "append_daily"
    case AppendToPage => "append_to_page"
  }

  function ParseTag(s: string): (r: Option<InstructionType>)
    ensures r.Some? ==> TagName(r.value) == s
  {
    if s == "new_note" then Some(NewNote)
    else if s == "append_daily" then Some(AppendDaily)
    else if s == "append_to_page" then Some(AppendToPage)
    else None
  }

  /** Every instruction type is recognised under its own wire name, and under no other. */
  lemma TagRoundTrip(t: InstructionType, s: string)
    ensures ParseTag(TagName(t)) == Some(t)
    ensures ParseTag(s) == Some(t) <==> s == TagName(t)
  {
  }

  /** A JSON member of the model's answer: missing, a string, or any other JSON value. */
  datatype Field = Absent | Text(text: string) | NotText

  /** The model's answer before validation; `instruction` is `None` when the
      member is missing or is not an object. */
  datatype RawInstruction = RawInstruction(tag: Field, targetPage: Field)
  datatype RawAnalysis = RawAnalysis(instruction: Option<RawInstruction>, title: Field, content: Field)

  /** Schema validation: `type` must be one of the three tags, `target_page` may be
      missing or a string, `title` and `content` must be strings. */
  function ValidateAnalysis(raw: RawAnalysis): (r: Option<VoiceNoteAnalysis>)
    ensures r.Some? <==>
      && raw.instruction.Some?
      && raw.instruction.value.tag.Text?
      && ParseTag(raw.instruction.value.tag.text).Some?
      && !raw.instruction.value.targetPage.NotText?
      && raw.title.Text?
      && raw.content.Text?
  {
    match raw.instruction
    case None => None
    case Some(ri) =>
      if !ri.tag.Text? || ri.targetPage.NotText? || !raw.title.Text? || !raw.content.Text? then None
      else
        match ParseTag(ri.tag.text)
        case None => None
        case Some(kind) =>
          var target := if ri.targetPage.Text? then Some(ri.targetPage.text) else None;
          Some(VoiceNoteAnalysis(Instruction(kind, target), raw.title.text, raw.content.text))
  }

  /** The JSON form of an analysis. */
  function Encode(a: VoiceNoteAnalysis): RawAnalysis {
    var target := match a.instruction.targetPage
      case None => Absent
      case Some(p) => Text(p);
    RawAnalysis(Some(RawInstruction(Text(TagName(a.instruction.kind)), target)), Text(a.title), Text(a.content))
  }

  /** Validation accepts exactly the encodings of analyses, and decodes each to
      the analysis it encodes. */
  lemma ValidateEncodeRoundTrip(a: VoiceNoteAnalysis, raw: RawAnalysis)
    ensures ValidateAnalysis(Encode(a)) == Some(a)
    ensures ValidateAnalysis(raw) == Some(a) ==> raw == Encode(a)
  {
    TagRoundTrip(a.instruction.kind, TagName(a.instruction.kind));
    if ValidateAnalysis(raw) == Some(a) {
      var ri := raw.instruction.value;
      TagRoundTrip(a.instruction.kind, ri.tag.text);
    }
  }

  // ---------------------------------------------------------------------
  // performTranscriptAnalysis (lib/shared.ts:82-113)

  /** What `client.responses.parse` did: threw an error with a message, or
      returned a response whose `output_parsed` may be null or undefined. */
  datatype ClientResponse = Threw(message: string) | Returned(outputParsed: Option<VoiceNoteAnalysis>)

  /** The client's structured parse of the model's answer: no parseable answer
      gives a null `output_parsed`; an answer the schema rejects makes the call
      throw, with the validator's message `rejection`. */
  function ParseResponse(answer: Option<RawAnalysis>, rejection: string): ClientResponse {
    match answer
    case None => Returned(None)
    case Some(raw) =>
      match ValidateAnalysis(raw)
      case None => Threw(rejection)
      case Some(a) => Returned(Some(a))
  }

  const AnalysisFailurePrefix := "Transcript analysis using OpenAI failed: "
  const NoParsedOutput := "Failed to parse OpenAI response into the expected format."

  /** `performTranscriptAnalysis`: returns the parsed analysis, and otherwise
      fails with a message carrying the fixed prefix; it never yields an absent
      analysis. */
  function PerformTranscriptAnalysis(response: ClientResponse): (r: Result<VoiceNoteAnalysis, string>)
    ensures r.Success? <==> response.Returned? && response.outputParsed.Some?
    ensures r.Success? ==> r.value == response.outputParsed.value
    ensures r.Failure? ==> StartsWith(r.error, AnalysisFailurePrefix)
    ensures response.Threw? ==> r.error == AnalysisFailurePrefix + response.message
    ensures response == Returned(None) ==> r.error == AnalysisFailurePrefix + NoParsedOutput
  {
    match response
    case Threw(m) =>
      StartsWithConcat(AnalysisFailurePrefix, m);
      Failure(AnalysisFailurePrefix + m)
    case Returned(None) =>
      StartsWithConcat(AnalysisFailurePrefix, NoParsedOutput);
      Failure(AnalysisFailurePrefix + NoParsedOutput)
    case Returned(Some(a)) => Success(a)
  }

  /** An answer missing a required member or carrying an unknown tag is an
      analysis failure, never a default analysis; a valid answer comes through
      unchanged. */
  lemma AnalysisOfAnswer(answer: Option<RawAnalysis>, rejection: string)
    ensures var r := PerformTranscriptAnalysis(ParseResponse(answer, rejection));
      && (r.Success? <==> answer.Some? && ValidateAnalysis(answer.value).Some?)
      && (r.Success? ==> Some(r.value) == ValidateAnalysis(answer.value))
      && (answer.Some? && ValidateAnalysis(answer.value).None? ==>
            r == Failure(AnalysisFailurePrefix + rejection))
  {
  }
}
