/** The routing engine of the web app, app/lib/voxidian.ts, against a GitHub
    repository seen through the contents API. The repository is a map from path
    to file content and SHA; each run returns the new map, the calls it made in
    order, and the written path or an error. The current date, the transcript,
    the directory listing, the model's answer and the SHA the server gives a
    written blob are inputs of a run. */
module WebEngine {
  import opened Wrappers
  import opened Strings
  import opened Naming
  import opened Analysis

  /** A file as the contents API reports it. */
  datatype Blob = Blob(content: string, sha: string)

  type Repo = map<string, Blob>

  /** The calls a run makes, in order. */
  datatype Call =
    | SaveTemp                                    // the decoded audio is written to a temporary file
    | Transcribe
    | ListFiles
    | Analyze(transcript: string, files: seq<string>)
    | GetFile(path: string)
    | PutFile(path: string, content: string, sha: Option<string>)
    | RemoveTemp                                  // the temporary file is unlinked

  datatype Error =
    | AudioNotSaved
    | TranscriptionFailed(detail: string)
    | ListingFailed(detail: string)
    | AnalysisFailed(message: string)
    | MissingTargetPage                           // 'target_page not provided for append_to_page instruction'
    | FetchFailed(path: string)
    | WriteRejected(path: string)

  /** The store, the calls made and the outcome of some part of a run. */
  datatype Step = Step(repo: Repo, trace: seq<Call>, result: Result<string, Error>)

  /** What the outside world answers during one run. */
  datatype Environment = Environment(
    audioSaved: bool,                        // writing the temporary audio file succeeded
    transcription: Result<string, string>,   // the transcript, or the transcription error
    listing: Result<seq<string>, string>,    // names of the repository's root entries, in API order
    response: ClientResponse,                // what the structured-output call returned
    newSha: string)                          // the SHA the server assigns to a written blob

  const DailySeparator := "\n\n---\n\n"
  const DailyHeader := "---\n\n"
  const PageSeparator := "\n\n"
  const UntitledNote := "Untitled Note"

  // ---------------------------------------------------------------------
  // Shapes of a trace

  /** No two calls of the trace are writes. */
  predicate AtMostOneWrite(trace: seq<Call>) {
    forall i, j :: 0 <= i < j < |trace| && trace[i].PutFile? ==> !trace[j].PutFile?
  }

  /** The trace lists the repository at most once. */
  predicate AtMostOneListing(trace: seq<Call>) {
    forall i, j :: 0 <= i < j < |trace| && trace[i].ListFiles? ==> !trace[j].ListFiles?
  }

  /** The trace touches only the repository. */
  predicate StoreCallsOnly(trace: seq<Call>) {
    forall i :: 0 <= i < |trace| ==> trace[i].GetFile? || trace[i].PutFile?
  }

  // ---------------------------------------------------------------------
  // The store (app/lib/voxidian.ts:93-162)

  /** `getExistingFiles`: the names of the listed entries that end in `.md`. */
  function MarkdownNames(names: seq<string>): (r: seq<string>)
    ensures |r| <= |names|
    ensures forall x :: x in r <==> x in names && EndsWith(x, ".md")
  {
    if |names| == 0 then []
    else (if EndsWith(names[0], ".md") then [names[0]] else []) + MarkdownNames(names[1..])
  }

  /** The filter keeps the listing's order: it distributes over concatenation. */
  lemma {:induction false} MarkdownNamesConcat(a: seq<string>, b: seq<string>)
    ensures MarkdownNames(a + b) == MarkdownNames(a) + MarkdownNames(b)
  {
    if |a| > 0 {
      var h := if EndsWith(a[0], ".md") then [a[0]] else [];
      assert (a + b)[0] == a[0];
      assert (a + b)[1..] == a[1..] + b;
      assert MarkdownNames(a + b) == h + MarkdownNames(a[1..] + b);
      MarkdownNamesConcat(a[1..], b);
      assert MarkdownNames(a) == h + MarkdownNames(a[1..]);
    } else {
      assert a + b == b;
    }
  }

  /** `if (sha) body.sha = sha`: a SHA goes into the request only when one is
      supplied, and an empty string counts as none. */
  function SentSha(sha: Option<string>): (r: Option<string>)
    ensures r.Some? ==> sha == r && r.value != ""
    ensures sha.Some? && sha.value != "" ==> r == sha
  {
    if sha.Some? && sha.value != "" then sha else None
  }

  /** The token the server holds for `path`: none for a file that does not exist. */
  function CurrentSha(repo: Repo, path: string): Option<string> {
    if path in repo then Some(repo[path].sha) else None
  }

  /** `getFileContent`: the file's content and SHA, or an error when it is absent. */
  function GetFileContent(repo: Repo, path: string): (r: Result<Blob, Error>)
    ensures r.Success? <==> path in repo
    ensures r.Success? ==> r.value == repo[path]
  {
    if path in repo then Success(repo[path]) else Failure(FetchFailed(path))
  }

  /** `createOrUpdateFile`: one PUT. The server accepts it only when the SHA sent
      matches the file's current one (none for a new file), which is the
      optimistic lock of the contents API. */
  function CreateOrUpdateFile(repo: Repo, path: string, content: string, sha: Option<string>, newSha: string): (r: Step)
    ensures r.trace == [PutFile(path, content, SentSha(sha))]
    ensures r.result.Success? <==> SentSha(sha) == CurrentSha(repo, path)
    ensures r.result.Success? ==> r.result.value == path && r.repo == repo[path := Blob(content, newSha)]
    ensures r.result.Failure? ==> r.result.error == WriteRejected(path) && r.repo == repo
  {
    var sent := SentSha(sha);
    var call := PutFile(path, content, sent);
    if sent == CurrentSha(repo, path) then Step(repo[path := Blob(content, newSha)], [call], Success(path))
    else Step(repo, [call], Failure(WriteRejected(path)))
  }

  // ---------------------------------------------------------------------
  // Appends (app/lib/voxidian.ts:165-230)

  /** Read `name`, then write `prev + separator + content` carrying the SHA just read. */
  function ReadThenAppend(repo: Repo, name: string, separator: string, content: string, newSha: string): (r: Step)
    ensures AtMostOneWrite(r.trace) && StoreCallsOnly(r.trace)
    ensures name !in repo ==> r == Step(repo, [GetFile(name)], Failure(FetchFailed(name)))
    ensures name in repo ==>
      r.trace == [GetFile(name), PutFile(name, repo[name].content + separator + content, SentSha(Some(repo[name].sha)))]
    ensures name in repo && repo[name].sha != "" ==>
      && r.result == Success(name)
      && r.repo == repo[name := Blob(repo[name].content + separator + content, newSha)]
  {
    match GetFileContent(repo, name)
    case Failure(e) => Step(repo, [GetFile(name)], Failure(e))
    case Success(prev) =>
      var w := CreateOrUpdateFile(repo, name, prev.content + separator + content, Some(prev.sha), newSha);
      Step(w.repo, [GetFile(name)] + w.trace, w.result)
  }

  /** The daily note's name, `${today}.md`. */
  function DailyNoteName(today: string): string {
    today + ".md"
  }

  /** `appendToDailyNote`: a listed daily note is read and written back with the
      voice note after a horizontal rule, under the SHA just read; an unlisted
      one is created, without a SHA and without a read, holding a rule and the
      voice note. */
  function AppendToDailyNote(repo: Repo, existing: seq<string>, content: string, today: string, newSha: string): (r: Step)
    ensures AtMostOneWrite(r.trace) && StoreCallsOnly(r.trace)
    ensures DailyNoteName(today) !in existing ==>
      && r.trace == [PutFile(DailyNoteName(today), DailyHeader + content, None)]
      && (DailyNoteName(today) !in repo ==>
            r.result == Success(DailyNoteName(today))
            && r.repo == repo[DailyNoteName(today) := Blob(DailyHeader + content, newSha)])
    ensures DailyNoteName(today) in existing ==> 1 <= |r.trace| && r.trace[0] == GetFile(DailyNoteName(today))
    ensures DailyNoteName(today) in existing && DailyNoteName(today) in repo && repo[DailyNoteName(today)].sha != "" ==>
      var prev := repo[DailyNoteName(today)];
      && r.trace == [GetFile(DailyNoteName(today)), PutFile(DailyNoteName(today), prev.content + DailySeparator + content, Some(prev.sha))]
      && r.result == Success(DailyNoteName(today))
      && r.repo == repo[DailyNoteName(today) := Blob(prev.content + DailySeparator + content, newSha)]
  {
    var name := DailyNoteName(today);
    if name in existing then ReadThenAppend(repo, name, DailySeparator, content, newSha)
    else CreateOrUpdateFile(repo, name, DailyHeader + content, None, newSha)
  }

  /** `appendToPage`: the target gets `.md` unless it already ends in `.md`; a
      listed target is read and written back with the voice note after a blank
      line, under the SHA just read; an unlisted one is created holding the voice
      note verbatim, without a SHA. */
  function AppendToPage(repo: Repo, existing: seq<string>, targetPage: string, content: string, newSha: string): (r: Step)
    ensures AtMostOneWrite(r.trace) && StoreCallsOnly(r.trace)
    ensures WithMd(targetPage) !in existing ==>
      && r.trace == [PutFile(WithMd(targetPage), content, None)]
      && (WithMd(targetPage) !in repo ==>
            r.result == Success(WithMd(targetPage))
            && r.repo == repo[WithMd(targetPage) := Blob(content, newSha)])
    ensures WithMd(targetPage) in existing ==> 1 <= |r.trace| && r.trace[0] == GetFile(WithMd(targetPage))
    ensures WithMd(targetPage) in existing && WithMd(targetPage) in repo && repo[WithMd(targetPage)].sha != "" ==>
      var prev := repo[WithMd(targetPage)];
      && r.trace == [GetFile(WithMd(targetPage)), PutFile(WithMd(targetPage), prev.content + PageSeparator + content, Some(prev.sha))]
      && r.result == Success(WithMd(targetPage))
      && r.repo == repo[WithMd(targetPage) := Blob(prev.content + PageSeparator + content, newSha)]
  {
    var name := WithMd(targetPage);
    if name in existing then ReadThenAppend(repo, name, PageSeparator, content, newSha)
    else CreateOrUpdateFile(repo, name, content, None, newSha)
  }

  // ---------------------------------------------------------------------
  // Dispatch (app/lib/voxidian.ts:250-276)

  /** The title a new note is named after: the trimmed title, or the default. */
  function NewNoteTitle(title: string): (r: string)
    ensures r == UntitledNote <==> AllWhitespace(title) || Trim(title) == UntitledNote
    ensures !AllWhitespace(title) ==> r == Trim(title)
  {
    if Trim(title) == "" then UntitledNote else Trim(title)
  }

  /** `append_to_page` without a usable `target_page`: `undefined` and the empty
      string are both falsy. */
  predicate TargetMissing(a: VoiceNoteAnalysis) {
    a.instruction.targetPage.None? || a.instruction.targetPage.value == ""
  }

  /** The instruction dispatch of `processVoiceNote`, given the one listing. */
  function Route(repo: Repo, a: VoiceNoteAnalysis, existing: seq<string>, today: string, newSha: string): (r: Step)
    ensures AtMostOneWrite(r.trace) && StoreCallsOnly(r.trace)
    ensures r.result == Failure(MissingTargetPage) <==>
      a.instruction.kind.AppendToPage? && TargetMissing(a) && !EndsWith(a.title, ".md")
    ensures r.result == Failure(MissingTargetPage) ==> r.trace == [] && r.repo == repo
    ensures a.instruction.kind.NewNote? ==>
      r.trace == [PutFile(UniqueNoteName(existing, NewNoteTitle(a.title)), a.content, None)]
  {
    match a.instruction.kind
    case AppendDaily => AppendToDailyNote(repo, existing, a.content, today, newSha)
    case AppendToPage =>
      if TargetMissing(a) then
        if EndsWith(a.title, ".md") then AppendToPage(repo, existing, a.title, a.content, newSha)
        else Step(repo, [], Failure(MissingTargetPage))
      else AppendToPage(repo, existing, a.instruction.targetPage.value, a.content, newSha)
    case NewNote =>
      var fileName := UniqueNoteName(existing, NewNoteTitle(a.title));
      CreateOrUpdateFile(repo, fileName, a.content, None, newSha)
  }

  /** Which operation each tag selects: `append_daily` goes to the daily
      note, `append_to_page` to `target_page` when it is usable and else to a
      title ending in `.md`, and `new_note` to a fresh note. */
  lemma RouteSelects(repo: Repo, a: VoiceNoteAnalysis, existing: seq<string>, today: string, newSha: string)
    ensures var r := Route(repo, a, existing, today, newSha);
      && (a.instruction.kind.AppendDaily? ==>
            r == AppendToDailyNote(repo, existing, a.content, today, newSha))
      && (a.instruction.kind.AppendToPage? && !TargetMissing(a) ==>
            r == AppendToPage(repo, existing, a.instruction.targetPage.value, a.content, newSha))
      && (a.instruction.kind.AppendToPage? && TargetMissing(a) && EndsWith(a.title, ".md") ==>
            r == AppendToPage(repo, existing, a.title, a.content, newSha))
      && (a.instruction.kind.NewNote? ==>
            r == CreateOrUpdateFile(repo, UniqueNoteName(existing, NewNoteTitle(a.title)), a.content, None, newSha))
  {
  }

  // ---------------------------------------------------------------------
  // processVoiceNote (app/lib/voxidian.ts:239-284)

  /** The body of the `try`: transcribe, list once, analyse, route. Only a
      run whose transcription, listing and analysis all succeed reaches the
      store; any earlier failure leaves the repository as it was. */
  function Pipeline(repo: Repo, env: Environment, today: string): (r: Step)
    ensures 1 <= |r.trace| && r.trace[0] == Transcribe
    ensures env.transcription.Success? && env.listing.Success? ==>
      3 <= |r.trace| && r.trace[..3] == [Transcribe, ListFiles, Analyze(env.transcription.value, MarkdownNames(env.listing.value))]
    ensures r.result.Success? ==>
      env.transcription.Success? && env.listing.Success? && PerformTranscriptAnalysis(env.response).Success?
    ensures !(env.transcription.Success? && env.listing.Success? && PerformTranscriptAnalysis(env.response).Success?) ==>
      r.repo == repo && r.result.Failure?
  {
    match env.transcription
    case Failure(m) => Step(repo, [Transcribe], Failure(TranscriptionFailed(m)))
    case Success(transcript) =>
      match env.listing
      case Failure(m) => Step(repo, [Transcribe, ListFiles], Failure(ListingFailed(m)))
      case Success(entries) =>
        var existing := MarkdownNames(entries);
        var head := [Transcribe, ListFiles, Analyze(transcript, existing)];
        match PerformTranscriptAnalysis(env.response)
        case Failure(m) => Step(repo, head, Failure(AnalysisFailed(m)))
        case Success(a) =>
          var r := Route(repo, a, existing, today, env.newSha);
          Step(r.repo, head + r.trace, r.result)
  }

  /** `processVoiceNote`: save the audio, run the pipeline, and remove the
      temporary file in the `finally`, whatever the pipeline did; a failure to
      remove it is ignored and does not change the outcome. */
  function ProcessVoiceNote(repo: Repo, env: Environment, today: string): (r: Step)
    ensures !env.audioSaved ==> r.trace == [] && r.repo == repo && r.result == Failure(AudioNotSaved)
    ensures env.audioSaved ==>
      && 3 <= |r.trace|
      && r.trace[0] == SaveTemp && r.trace[1] == Transcribe && r.trace[|r.trace| - 1] == RemoveTemp
    ensures r.result.Success? ==>
      && env.audioSaved && env.transcription.Success? && env.listing.Success?
      && PerformTranscriptAnalysis(env.response).Success?
  {
    if !env.audioSaved then Step(repo, [], Failure(AudioNotSaved))
    else
      var p := Pipeline(repo, env, today);
      Step(p.repo, [SaveTemp] + p.trace + [RemoveTemp], p.result)
  }

  // ---------------------------------------------------------------------
  // Properties of whole runs

  /** The run reached the dispatch with analysis `a` and listing `existing`. */
  predicate Dispatched(env: Environment, a: VoiceNoteAnalysis, existing: seq<string>) {
    && env.audioSaved
    && env.transcription.Success?
    && env.listing.Success?
    && existing == MarkdownNames(env.listing.value)
    && PerformTranscriptAnalysis(env.response) == Success(a)
  }

  /** Cleanup runs on every exit path once the temporary file exists: the trace
      starts with saving it and ends with removing it, removes it nowhere else,
      and the outcome is the pipeline's. Nothing is removed when nothing was
      saved. */
  lemma CleanupOnEveryPath(repo: Repo, env: Environment, today: string)
    ensures var o := ProcessVoiceNote(repo, env, today);
      && (env.audioSaved ==>
            && |o.trace| >= 2
            && o.trace[0] == SaveTemp
            && o.trace[|o.trace| - 1] == RemoveTemp
            && (forall i :: 0 <= i < |o.trace| - 1 ==> o.trace[i] != RemoveTemp)
            && o.result == Pipeline(repo, env, today).result)
      && (!env.audioSaved ==> o.trace == [] && o.result == Failure(AudioNotSaved))
  {
    if env.audioSaved {
      var p := Pipeline(repo, env, today);
      var o := ProcessVoiceNote(repo, env, today);
      PipelineShape(repo, env, today);
      forall i | 0 <= i < |o.trace| - 1
        ensures o.trace[i] != RemoveTemp
      {
        if i > 0 {
          assert o.trace[i] == p.trace[i - 1];
        }
      }
    }
  }

  /** At most one write, at most one listing, and no handling of the
      temporary file. */
  predicate PipelineTraceShape(trace: seq<Call>) {
    && AtMostOneWrite(trace)
    && AtMostOneListing(trace)
    && forall i :: 0 <= i < |trace| ==> !trace[i].SaveTemp? && !trace[i].RemoveTemp?
  }

  /** The pipeline lists at most once, writes at most once, and never saves or
      removes the temporary file. */
  lemma PipelineShape(repo: Repo, env: Environment, today: string)
    ensures PipelineTraceShape(Pipeline(repo, env, today).trace)
  {
    if env.transcription.Success? && env.listing.Success? && PerformTranscriptAnalysis(env.response).Success? {
      RoutedPipelineShape(repo, env, today);
    } else {
      EarlyExitShape(repo, env, today);
    }
  }

  /** A pipeline that reaches the dispatch adds only the dispatch's store calls. */
  lemma RoutedPipelineShape(repo: Repo, env: Environment, today: string)
    requires env.transcription.Success? && env.listing.Success? && PerformTranscriptAnalysis(env.response).Success?
    ensures PipelineTraceShape(Pipeline(repo, env, today).trace)
  {
    var existing := MarkdownNames(env.listing.value);
    var r := Route(repo, PerformTranscriptAnalysis(env.response).value, existing, today, env.newSha);
    RouteAfterAnalysis(Analyze(env.transcription.value, existing), r.trace);
  }

  /** A pipeline that stops before the dispatch has a trace of at most three calls,
      none of them a write. */
  lemma EarlyExitShape(repo: Repo, env: Environment, today: string)
    requires !(env.transcription.Success? && env.listing.Success? && PerformTranscriptAnalysis(env.response).Success?)
    ensures PipelineTraceShape(Pipeline(repo, env, today).trace)
  {
  }

  /** Store calls after the transcription, the one listing and the analysis
      add no second write and no second listing. */
  lemma RouteAfterAnalysis(analyze: Call, t: seq<Call>)
    requires analyze.Analyze?
    requires AtMostOneWrite(t) && StoreCallsOnly(t)
    ensures PipelineTraceShape([Transcribe, ListFiles, analyze] + t)
  {
    var all := [Transcribe, ListFiles, analyze] + t;
    assert all[0] == Transcribe && all[1] == ListFiles && all[2] == analyze;
    assert forall i :: 3 <= i < |all| ==> all[i] == t[i - 3];
  }

  /** A run that reaches the dispatch is the saved audio, the transcription,
      the one listing and the analysis, then exactly the dispatch's calls, then
      the removal of the audio; its repository and result are the dispatch's. */
  lemma WebDispatchedRun(repo: Repo, env: Environment, today: string, a: VoiceNoteAnalysis, existing: seq<string>)
    requires Dispatched(env, a, existing)
    ensures var o := ProcessVoiceNote(repo, env, today);
      var d := Route(repo, a, existing, today, env.newSha);
      && o.trace == [SaveTemp, Transcribe, ListFiles, Analyze(env.transcription.value, existing)] + d.trace + [RemoveTemp]
      && o.repo == d.repo
      && o.result == d.result
  {
  }

  /** Every run issues at most one write and lists the repository at most once. */
  lemma OneWritePerRun(repo: Repo, env: Environment, today: string)
    ensures AtMostOneWrite(ProcessVoiceNote(repo, env, today).trace)
    ensures AtMostOneListing(ProcessVoiceNote(repo, env, today).trace)
  {
    if env.audioSaved {
      var p := Pipeline(repo, env, today);
      var o := ProcessVoiceNote(repo, env, today);
      PipelineShape(repo, env, today);
      forall i | 0 <= i < |o.trace|
        ensures 0 < i < |o.trace| - 1 ==> o.trace[i] == p.trace[i - 1]
        ensures i == 0 || i == |o.trace| - 1 ==> !o.trace[i].PutFile? && !o.trace[i].ListFiles?
      {
      }
    }
  }

  /** A run that fails before the dispatch, or for want of a target page, makes
      no store call and leaves the repository as it was. */
  lemma NoStoreCallWithoutRoute(repo: Repo, env: Environment, today: string)
    requires
      || !env.audioSaved
      || env.transcription.Failure?
      || env.listing.Failure?
      || PerformTranscriptAnalysis(env.response).Failure?
      || ProcessVoiceNote(repo, env, today).result == Failure(MissingTargetPage)
    ensures var o := ProcessVoiceNote(repo, env, today);
      && o.repo == repo
      && o.result.Failure?
      && forall i :: 0 <= i < |o.trace| ==> !o.trace[i].GetFile? && !o.trace[i].PutFile?
  {
  }

  /** The listing fetched once is the list the analysis is given and the list the
      new note's name is resolved against. */
  lemma NewNoteUsesTheOneListing(repo: Repo, env: Environment, today: string, a: VoiceNoteAnalysis, existing: seq<string>)
    requires Dispatched(env, a, existing)
    requires a.instruction.kind.NewNote?
    ensures var o := ProcessVoiceNote(repo, env, today);
      && |o.trace| == 6
      && o.trace[3] == Analyze(env.transcription.value, existing)
      && o.trace[4] == PutFile(UniqueNoteName(o.trace[3].files, NewNoteTitle(a.title)), a.content, None)
  {
    WebDispatchedRun(repo, env, today, a, existing);
  }

  /** A new note's name never clashes, by final path segment, with a listed file. */
  lemma NewNoteNameIsFresh(repo: Repo, env: Environment, today: string, a: VoiceNoteAnalysis, existing: seq<string>)
    requires Dispatched(env, a, existing)
    requires a.instruction.kind.NewNote?
    ensures var o := ProcessVoiceNote(repo, env, today);
      var name := o.trace[4].path;
      && EndsWith(name, ".md")
      && forall e :: e in env.listing.value && EndsWith(e, ".md") ==> Basename(e) != name
  {
    NewNoteUsesTheOneListing(repo, env, today, a, existing);
  }

  /** A daily append to a listed, stored note writes the old content, a rule and
      the voice note under the SHA just read, and nothing else changes. */
  lemma DailyAppendToListedNote(repo: Repo, env: Environment, today: string, a: VoiceNoteAnalysis, existing: seq<string>)
    requires Dispatched(env, a, existing)
    requires a.instruction.kind.AppendDaily?
    requires DailyNoteName(today) in existing && DailyNoteName(today) in repo
    requires repo[DailyNoteName(today)].sha != ""
    ensures var o := ProcessVoiceNote(repo, env, today);
      var prev := repo[DailyNoteName(today)];
      && o.result == Success(DailyNoteName(today))
      && o.trace[4..] == [GetFile(DailyNoteName(today)), PutFile(DailyNoteName(today), prev.content + DailySeparator + a.content, Some(prev.sha)), RemoveTemp]
      && o.repo == repo[DailyNoteName(today) := Blob(prev.content + DailySeparator + a.content, env.newSha)]
  {
  }

  /** A daily append with no listed daily note makes no read and one SHA-less
      write of a rule followed by the voice note. */
  lemma DailyAppendCreatesNote(repo: Repo, env: Environment, today: string, a: VoiceNoteAnalysis, existing: seq<string>)
    requires Dispatched(env, a, existing)
    requires a.instruction.kind.AppendDaily?
    requires DailyNoteName(today) !in existing
    ensures var o := ProcessVoiceNote(repo, env, today);
      && o.trace[4..] == [PutFile(DailyNoteName(today), DailyHeader + a.content, None), RemoveTemp]
      && forall i :: 0 <= i < |o.trace| ==> !o.trace[i].GetFile?
  {
    var o := ProcessVoiceNote(repo, env, today);
    assert o.trace == [SaveTemp, Transcribe, ListFiles, Analyze(env.transcription.value, existing),
                       PutFile(DailyNoteName(today), DailyHeader + a.content, None), RemoveTemp];
  }

  /** With `target_page` missing, the title stands in when it ends in `.md`;
      otherwise the run fails before any store call. */
  lemma PageFallbackToTitle(repo: Repo, env: Environment, today: string, a: VoiceNoteAnalysis, existing: seq<string>)
    requires Dispatched(env, a, existing)
    requires a.instruction.kind.AppendToPage? && TargetMissing(a)
    ensures var o := ProcessVoiceNote(repo, env, today);
      && (EndsWith(a.title, ".md") ==>
            o.trace[3..|o.trace| - 1] == [Analyze(env.transcription.value, existing)]
              + AppendToPage(repo, existing, a.title, a.content, env.newSha).trace)
      && (!EndsWith(a.title, ".md") ==>
            o.trace == [SaveTemp, Transcribe, ListFiles, Analyze(env.transcription.value, existing), RemoveTemp]
            && o.result == Failure(MissingTargetPage) && o.repo == repo)
  {
  }

  /** Every write in the trace that carries a SHA directly follows the read of
      its path, and the SHA is the one the repository held for that path. */
  predicate ShaFromPrecedingRead(repo: Repo, trace: seq<Call>) {
    forall i :: 0 <= i < |trace| && trace[i].PutFile? && trace[i].sha.Some? ==>
      && 0 < i
      && trace[i - 1] == GetFile(trace[i].path)
      && trace[i].path in repo
      && trace[i].sha == Some(repo[trace[i].path].sha)
  }

  /** Calls other than writes around a trace keep its SHAs tied to their reads. */
  lemma ShaFromReadFramed(repo: Repo, pre: seq<Call>, t: seq<Call>, post: seq<Call>)
    requires ShaFromPrecedingRead(repo, t)
    requires forall i :: 0 <= i < |pre| ==> !pre[i].PutFile?
    requires forall i :: 0 <= i < |post| ==> !post[i].PutFile?
    ensures ShaFromPrecedingRead(repo, pre + t + post)
  {
    var all := pre + t + post;
    assert forall j :: 0 <= j < |pre| ==> all[j] == pre[j];
    assert forall j :: |pre| + |t| <= j < |all| ==> all[j] == post[j - |pre| - |t|];
    forall i | 0 <= i < |all| && all[i].PutFile? && all[i].sha.Some?
      ensures 0 < i && all[i - 1] == GetFile(all[i].path)
      ensures all[i].path in repo && all[i].sha == Some(repo[all[i].path].sha)
    {
      assert |pre| <= i < |pre| + |t|;
      assert all[i] == t[i - |pre|];
      assert all[i - 1] == t[i - |pre| - 1];
    }
  }

  /** Every SHA the dispatch sends is the one it has just read. */
  lemma RouteShaFromRead(repo: Repo, a: VoiceNoteAnalysis, existing: seq<string>, today: string, newSha: string)
    ensures ShaFromPrecedingRead(repo, Route(repo, a, existing, today, newSha).trace)
  {
    match a.instruction.kind
    case AppendDaily =>
      var name := DailyNoteName(today);
      if name in existing {
        ReadThenAppendShaFromRead(repo, name, DailySeparator, a.content, newSha);
      }
    case AppendToPage =>
      var page := if TargetMissing(a) then a.title else a.instruction.targetPage.value;
      if WithMd(page) in existing {
        ReadThenAppendShaFromRead(repo, WithMd(page), PageSeparator, a.content, newSha);
      }
    case NewNote =>
  }

  /** A read-then-append sends the SHA of the read that precedes its write. */
  lemma ReadThenAppendShaFromRead(repo: Repo, name: string, separator: string, content: string, newSha: string)
    ensures ShaFromPrecedingRead(repo, ReadThenAppend(repo, name, separator, content, newSha).trace)
  {
  }

  /** A run sends a SHA only with a write that directly follows the read of the
      same path, and that SHA is the one the repository held, so no SHA is
      reused from elsewhere or invented. */
  lemma ShaOnlyFromPrecedingRead(repo: Repo, env: Environment, today: string)
    ensures ShaFromPrecedingRead(repo, ProcessVoiceNote(repo, env, today).trace)
  {
    if env.audioSaved {
      var p := Pipeline(repo, env, today);
      PipelineShaFromRead(repo, env, today);
      ShaFromReadFramed(repo, [SaveTemp], p.trace, [RemoveTemp]);
    }
  }

  /** The pipeline sends no SHA other than one it has just read. */
  lemma PipelineShaFromRead(repo: Repo, env: Environment, today: string)
    ensures ShaFromPrecedingRead(repo, Pipeline(repo, env, today).trace)
  {
    if env.transcription.Success? && env.listing.Success? && PerformTranscriptAnalysis(env.response).Success? {
      var existing := MarkdownNames(env.listing.value);
      var a := PerformTranscriptAnalysis(env.response).value;
      RouteShaFromRead(repo, a, existing, today, env.newSha);
      ShaAfterAnalysis(repo, Analyze(env.transcription.value, existing), Route(repo, a, existing, today, env.newSha).trace);
    }
  }

  /** The transcription, the listing and the analysis send no SHA. */
  lemma ShaAfterAnalysis(repo: Repo, analyze: Call, t: seq<Call>)
    requires analyze.Analyze?
    requires ShaFromPrecedingRead(repo, t)
    ensures ShaFromPrecedingRead(repo, [Transcribe, ListFiles, analyze] + t)
  {
    ShaFromReadFramed(repo, [Transcribe, ListFiles, analyze], t, []);
    assert [Transcribe, ListFiles, analyze] + t + [] == [Transcribe, ListFiles, analyze] + t;
  }

  /** A write keeps history when the content it puts at an existing path starts
      with that path's current content. */
  predicate KeepsHistory(repo: Repo, r: Step) {
    && (forall p :: p in repo ==> p in r.repo && StartsWith(r.repo[p].content, repo[p].content))
    && (forall p :: p in r.repo && p !in repo ==> r.result == Success(p))
    && (forall p :: p in repo && r.repo[p] != repo[p] ==> r.result == Success(p))
  }

  /** A write keeps history when what it puts over an existing file extends it. */
  lemma WriteKeepsHistory(repo: Repo, path: string, content: string, sha: Option<string>, newSha: string)
    requires path in repo && sha.Some? ==> StartsWith(content, repo[path].content)
    ensures KeepsHistory(repo, CreateOrUpdateFile(repo, path, content, sha, newSha))
  {
  }

  /** Appending to what was just read keeps history. */
  lemma ReadThenAppendKeepsHistory(repo: Repo, name: string, separator: string, content: string, newSha: string)
    ensures KeepsHistory(repo, ReadThenAppend(repo, name, separator, content, newSha))
  {
    if name in repo {
      var prev := repo[name].content;
      StartsWithConcat(prev, separator + content);
      assert prev + separator + content == prev + (separator + content);
      WriteKeepsHistory(repo, name, prev + separator + content, Some(repo[name].sha), newSha);
    }
  }

  /** Every dispatch keeps the repository's history. */
  lemma RouteKeepsHistory(repo: Repo, a: VoiceNoteAnalysis, existing: seq<string>, today: string, newSha: string)
    ensures KeepsHistory(repo, Route(repo, a, existing, today, newSha))
  {
    match a.instruction.kind
    case AppendDaily =>
      DailyKeepsHistory(repo, existing, a.content, today, newSha);
    case AppendToPage =>
      if !TargetMissing(a) {
        PageKeepsHistory(repo, existing, a.instruction.targetPage.value, a.content, newSha);
      } else if EndsWith(a.title, ".md") {
        PageKeepsHistory(repo, existing, a.title, a.content, newSha);
      }
    case NewNote =>
      WriteKeepsHistory(repo, UniqueNoteName(existing, NewNoteTitle(a.title)), a.content, None, newSha);
  }

  /** A daily append keeps the repository's history. */
  lemma DailyKeepsHistory(repo: Repo, existing: seq<string>, content: string, today: string, newSha: string)
    ensures KeepsHistory(repo, AppendToDailyNote(repo, existing, content, today, newSha))
  {
    var name := DailyNoteName(today);
    if name in existing {
      ReadThenAppendKeepsHistory(repo, name, DailySeparator, content, newSha);
    } else {
      WriteKeepsHistory(repo, name, DailyHeader + content, None, newSha);
    }
  }

  /** An append to a page keeps the repository's history. */
  lemma PageKeepsHistory(repo: Repo, existing: seq<string>, targetPage: string, content: string, newSha: string)
    ensures KeepsHistory(repo, AppendToPage(repo, existing, targetPage, content, newSha))
  {
    var name := WithMd(targetPage);
    if name in existing {
      ReadThenAppendKeepsHistory(repo, name, PageSeparator, content, newSha);
    } else {
      WriteKeepsHistory(repo, name, content, None, newSha);
    }
  }

  /** History is append-only: no run loses content. Every file that existed
      still exists and its old content is a prefix of its new content; a file
      changes or appears only as the run's reported result. */
  lemma RunNeverLosesContent(repo: Repo, env: Environment, today: string)
    ensures KeepsHistory(repo, ProcessVoiceNote(repo, env, today))
  {
    if env.audioSaved && env.transcription.Success? && env.listing.Success? {
      var existing := MarkdownNames(env.listing.value);
      match PerformTranscriptAnalysis(env.response)
      case Failure(_) =>
      case Success(a) =>
        RouteKeepsHistory(repo, a, existing, today, env.newSha);
    }
  }
}
