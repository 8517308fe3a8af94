/** The routing engine of the Obsidian plugin, plugin/lib/voxidian.ts, against a
    vault. The vault is an ordered sequence of files, in the order the vault
    enumerates its Markdown files; each run returns the new vault, the calls it
    made in order, and the file it wrote, or nothing when it gave up. The
    current date, the transcript and the model's answer are inputs of a run. */
module PluginEngine {
  import opened Wrappers
  import opened Strings
  import opened Naming
  import opened Analysis

  // ---------------------------------------------------------------------
  // The API key (plugin/lib/voxidian.ts:17-35)

  /** The module-level `apiKey` and `openaiClient`; a client is recorded by the
      key it was built with. */
  datatype KeyState = KeyState(apiKey: string, client: Option<string>)

  const KeyPrefix := "sk-"
  const NoKey := KeyState("", None)

  /** Either no key has been accepted and there is no client, or the stored key
      has the `sk-` prefix and the client was built with it. */
  predicate ValidKeyState(s: KeyState) {
    || (s.apiKey == "" && s.client.None?)
    || (StartsWith(s.apiKey, KeyPrefix) && s.client == Some(s.apiKey))
  }

  /** `initializeOpenAI`: an empty key or one without the `sk-` prefix is
      refused and leaves the state as it was; any other key replaces the stored
      key and the client. */
  function InitializeOpenAI(s: KeyState, key: string): (r: KeyState)
    ensures r != s ==> key != "" && StartsWith(key, KeyPrefix)
    ensures key != "" && StartsWith(key, KeyPrefix) ==> r == KeyState(key, Some(key))
    ensures key == "" || !StartsWith(key, KeyPrefix) ==> r == s
  {
    if key == "" then s
    else if !StartsWith(key, KeyPrefix) then s
    else KeyState(key, Some(key))
  }

  /** Every sequence of `initializeOpenAI` calls from the initial state keeps
      the key and the client in step. */
  lemma InitializeKeepsKeyStateValid(s: KeyState, key: string)
    requires ValidKeyState(s)
    ensures ValidKeyState(InitializeOpenAI(s, key))
    ensures InitializeOpenAI(s, key).apiKey != "" ==> InitializeOpenAI(s, key).client.Some?
  {
  }

  function InitializeAll(s: KeyState, keys: seq<string>): KeyState
    decreases |keys|
  {
    if |keys| == 0 then s else InitializeAll(InitializeOpenAI(s, keys[0]), keys[1..])
  }

  /** After any history of settings changes the stored key is empty or was
      accepted, and a stored key always comes with a client. */
  lemma {:induction false} KeyHistoryValid(s: KeyState, keys: seq<string>)
    requires ValidKeyState(s)
    ensures ValidKeyState(InitializeAll(s, keys))
    ensures InitializeAll(s, keys).apiKey != "" ==> InitializeAll(s, keys).client.Some?
    decreases |keys|
  {
    if |keys| > 0 {
      InitializeKeepsKeyStateValid(s, keys[0]);
      KeyHistoryValid(InitializeOpenAI(s, keys[0]), keys[1..]);
    }
  }

  /** The plugin starts with no key and no client, so every state reached
      through `initializeOpenAI` keeps the key and the client in step. */
  lemma InitialKeyHistoryValid(keys: seq<string>)
    ensures ValidKeyState(NoKey)
    ensures ValidKeyState(InitializeAll(NoKey, keys))
    ensures InitializeAll(NoKey, keys).apiKey != "" ==> InitializeAll(NoKey, keys).client.Some?
  {
    KeyHistoryValid(NoKey, keys);
  }

  // ---------------------------------------------------------------------
  // The vault

  datatype VaultFile = VaultFile(path: string, content: string)

  /** The files of the vault, in enumeration order. */
  type Vault = seq<VaultFile>

  /** No two files share a path. */
  predicate ValidVault(v: Vault) {
    forall i, j :: 0 <= i < j < |v| ==> v[i].path != v[j].path
  }

  predicate IsMarkdown(path: string) {
    EndsWith(path, ".md")
  }

  /** `getAbstractFileByPath(path) instanceof TFile`: the position of the file
      at `path`, if any. */
  function Lookup(v: Vault, path: string): (r: Option<nat>)
    ensures r.Some? ==> r.value < |v| && v[r.value].path == path
    ensures r.None? <==> forall i :: 0 <= i < |v| ==> v[i].path != path
  {
    if |v| == 0 then None
    else if v[|v| - 1].path == path then Some(|v| - 1)
    else Lookup(v[..|v| - 1], path)
  }

  /** `getMarkdownFiles().map((file) => file.path)` */
  function MarkdownPaths(v: Vault): (r: seq<string>)
    ensures |r| <= |v|
    ensures forall p :: p in r <==> exists i :: 0 <= i < |v| && v[i].path == p && IsMarkdown(p)
  {
    if |v| == 0 then []
    else
      var rest := MarkdownPaths(v[..|v| - 1]);
      assert forall i :: 0 <= i < |v| - 1 ==> v[..|v| - 1][i] == v[i];
      rest + (if IsMarkdown(v[|v| - 1].path) then [v[|v| - 1].path] else [])
  }

  /** `TFile.basename` of a Markdown file: its final path segment without `.md`. */
  function FileBasename(path: string): string {
    StripMd(Basename(path))
  }

  /** The file matches the lower-cased page name when it is Markdown and its
      basename, lower-cased, equals that name. */
  predicate MatchesBasename(f: VaultFile, name: string) {
    IsMarkdown(f.path) && ToLower(FileBasename(f.path)) == name
  }

  /** `getMarkdownFiles().find((f) => f.basename.toLowerCase() === name)`: the
      first match in enumeration order. */
  function FindByBasename(v: Vault, name: string): (r: Option<nat>)
    ensures r.Some? ==> r.value < |v| && MatchesBasename(v[r.value], name)
    ensures r.Some? ==> forall j :: 0 <= j < r.value ==> !MatchesBasename(v[j], name)
    ensures r.None? <==> forall j :: 0 <= j < |v| ==> !MatchesBasename(v[j], name)
  {
    FirstWhere(v, f => MatchesBasename(f, name), 0)
  }

  /** The first file at or after position `k` that satisfies `p`. */
  function FirstWhere(v: Vault, p: VaultFile -> bool, k: nat): (r: Option<nat>)
    requires k <= |v|
    ensures r.Some? ==> k <= r.value < |v| && p(v[r.value])
    ensures r.Some? ==> forall j :: k <= j < r.value ==> !p(v[j])
    ensures r.None? <==> forall j :: k <= j < |v| ==> !p(v[j])
    decreases |v| - k
  {
    if k == |v| then None
    else if p(v[k]) then Some(k)
    else FirstWhere(v, p, k + 1)
  }

  // ---------------------------------------------------------------------
  // Calls and outcomes

  datatype VaultCall =
    | Transcribe
    | Analyze(transcript: string, files: seq<string>)
    | ReadFile(path: string)
    | ModifyFile(path: string, content: string)
    | CreateFile(path: string, content: string)

  predicate IsMutation(c: VaultCall) {
    c.ModifyFile? || c.CreateFile?
  }

  datatype PluginError =
    | AlreadyExists(path: string)                 // `vault.create` on a taken path
    | ClientMissing                               // 'OpenAI client not initialized'
    | TranscriptionFailed(detail: string)
    | AnalysisFailed(message: string)
    | BlankTranscript                             // the early return on an empty transcript

  datatype VaultStep = VaultStep(vault: Vault, trace: seq<VaultCall>, result: Result<string, PluginError>)

  /** `vault.create(path, content)`: appends a new file, and refuses a path
      that is taken. */
  function Create(v: Vault, path: string, content: string): (r: VaultStep)
    ensures r.trace == [CreateFile(path, content)]
    ensures r.result.Success? <==> Lookup(v, path).None?
    ensures r.result.Success? ==> r.result.value == path && r.vault == v + [VaultFile(path, content)]
    ensures r.result.Failure? ==> r.result == Failure(AlreadyExists(path)) && r.vault == v
  {
    match Lookup(v, path)
    case Some(_) => VaultStep(v, [CreateFile(path, content)], Failure(AlreadyExists(path)))
    case None => VaultStep(v + [VaultFile(path, content)], [CreateFile(path, content)], Success(path))
  }

  /** `vault.read(file)` followed by `vault.modify(file, old + separator + content)`. */
  function AppendAt(v: Vault, i: nat, separator: string, content: string): (r: VaultStep)
    requires i < |v|
    ensures r.trace == [ReadFile(v[i].path), ModifyFile(v[i].path, v[i].content + separator + content)]
    ensures r.result == Success(v[i].path)
    ensures r.vault == v[i := VaultFile(v[i].path, v[i].content + separator + content)]
  {
    var updated := v[i].content + separator + content;
    VaultStep(v[i := VaultFile(v[i].path, updated)], [ReadFile(v[i].path), ModifyFile(v[i].path, updated)], Success(v[i].path))
  }

  const DailySeparator := "\n\n---\n\n"
  const PageSeparator := "\n\n"
  const UntitledVoiceNote := "Untitled Voice Note"

  // ---------------------------------------------------------------------
  // Appends and new notes (plugin/lib/voxidian.ts:38-53, 166-219)

  function DailyNotePath(today: string): string {
    today + ".md"
  }

  /** `appendToDailyNote`: an existing daily note is read and modified with the
      voice note after a horizontal rule; otherwise it is created holding the
      voice note verbatim, with no rule. */
  function AppendToDailyNote(v: Vault, content: string, today: string): (r: VaultStep)
    ensures r.result == Success(DailyNotePath(today))
    ensures Lookup(v, DailyNotePath(today)).Some? ==>
      var i := Lookup(v, DailyNotePath(today)).value;
      && r.trace == [ReadFile(DailyNotePath(today)), ModifyFile(DailyNotePath(today), v[i].content + DailySeparator + content)]
      && r.vault == v[i := VaultFile(DailyNotePath(today), v[i].content + DailySeparator + content)]
    ensures Lookup(v, DailyNotePath(today)).None? ==>
      && r.trace == [CreateFile(DailyNotePath(today), content)]
      && r.vault == v + [VaultFile(DailyNotePath(today), content)]
  {
    var path := DailyNotePath(today);
    match Lookup(v, path)
    case Some(i) => AppendAt(v, i, DailySeparator, content)
    case None => Create(v, path, content)
  }

  /** The path a page name is tried at first: it ends in `.md` in any letter
      case, and it is the name itself exactly when the name already does. */
  function PagePath(pageName: string): (r: string)
    ensures StartsWith(r, pageName)
    ensures EndsWith(ToLower(r), ".md")
    ensures r == pageName <==> EndsWith(ToLower(pageName), ".md")
    ensures !EndsWith(ToLower(pageName), ".md") ==> r == pageName + ".md"
  {
    StartsWithConcat(pageName, ".md");
    if EndsWith(ToLower(pageName), ".md") then pageName
    else
      LowerMdSuffix(pageName);
      pageName + ".md"
  }

  /** Adding `.md` gives a name that ends in `.md` once lower-cased. */
  lemma LowerMdSuffix(s: string)
    ensures EndsWith(ToLower(s + ".md"), ".md")
  {
    var t := ToLower(s + ".md");
    assert t[|s|] == '.' && t[|s| + 1] == 'm' && t[|s| + 2] == 'd';
    assert t[|s|..] == ".md";
  }

  /** `pageName.toLowerCase().replace(/\.md$/i, '')` */
  function PageBasename(pageName: string): (r: string)
    ensures EndsWith(ToLower(pageName), ".md") ==> r + ".md" == ToLower(pageName)
    ensures !EndsWith(ToLower(pageName), ".md") ==> r == ToLower(pageName)
  {
    StripMd(ToLower(pageName))
  }

  /** The file a page append goes to: the file at the page's path when there
      is one, else the first Markdown file whose basename matches the page's
      basename case-insensitively, else none. */
  function PageTarget(v: Vault, pageName: string): (r: Option<nat>)
    ensures r.Some? ==> r.value < |v|
    ensures Lookup(v, PagePath(pageName)).Some? ==> r.Some? && v[r.value].path == PagePath(pageName)
    ensures Lookup(v, PagePath(pageName)).None? && r.Some? ==>
      && MatchesBasename(v[r.value], PageBasename(pageName))
      && forall j :: 0 <= j < r.value ==> !MatchesBasename(v[j], PageBasename(pageName))
    ensures r.None? <==>
      forall j :: 0 <= j < |v| ==> v[j].path != PagePath(pageName) && !MatchesBasename(v[j], PageBasename(pageName))
  {
    match Lookup(v, PagePath(pageName))
    case Some(i) => Some(i)
    case None => FindByBasename(v, PageBasename(pageName))
  }

  /** `appendToPage`: the target file, when there is one, is read and modified
      with the voice note after a blank line; otherwise a file is created at
      the page's path holding the voice note verbatim. */
  function AppendToPage(v: Vault, pageName: string, content: string): (r: VaultStep)
    ensures r.result.Success?
    ensures PageTarget(v, pageName).Some? ==>
      var i := PageTarget(v, pageName).value;
      && i < |v|
      && r.result.value == v[i].path
      && r.trace == [ReadFile(v[i].path), ModifyFile(v[i].path, v[i].content + PageSeparator + content)]
      && r.vault == v[i := VaultFile(v[i].path, v[i].content + PageSeparator + content)]
    ensures PageTarget(v, pageName).None? ==>
      && r.result.value == PagePath(pageName)
      && r.trace == [CreateFile(PagePath(pageName), content)]
      && r.vault == v + [VaultFile(PagePath(pageName), content)]
  {
    match PageTarget(v, pageName)
    case Some(i) => AppendAt(v, i, PageSeparator, content)
    case None => Create(v, PagePath(pageName), content)
  }

  /** The title a new note is named after: the trimmed title, or the default. */
  function NewNoteTitle(title: string): (r: string)
    ensures AllWhitespace(title) ==> r == UntitledVoiceNote
    ensures !AllWhitespace(title) ==> r == Trim(title)
  {
    if Trim(title) == "" then UntitledVoiceNote else Trim(title)
  }

  /** `createNewNote`: one create, at the unique name resolved against the
      paths of all Markdown files of the vault. */
  function CreateNewNote(v: Vault, title: string, content: string): (r: VaultStep)
    ensures var name := UniqueNoteName(MarkdownPaths(v), NewNoteTitle(title));
      && r.trace == [CreateFile(name, content)]
      && (r.result.Success? <==> Lookup(v, name).None?)
      && (r.result.Success? ==> r.result.value == name && r.vault == v + [VaultFile(name, content)])
      && (r.result.Failure? ==> r.vault == v)
  {
    Create(v, UniqueNoteName(MarkdownPaths(v), NewNoteTitle(title)), content)
  }

  // ---------------------------------------------------------------------
  // processVoiceNoteForPlugin (plugin/lib/voxidian.ts:56-102)

  /** What the outside world answers during one run. */
  datatype PluginEnvironment = PluginEnvironment(
    transcription: Result<string, string>,   // the transcript, or the transcription error
    response: ClientResponse)                // what the structured-output call returned

  /** The vault, the calls made, and the file returned (`None` for `void`). */
  datatype PluginRun = PluginRun(vault: Vault, trace: seq<VaultCall>, file: Option<string>)

  /** `target_page?.trim() || analysis.title` */
  function PageName(a: VoiceNoteAnalysis): (r: string)
    ensures a.instruction.targetPage.Some? && !AllWhitespace(a.instruction.targetPage.value) ==>
      r == Trim(a.instruction.targetPage.value)
    ensures a.instruction.targetPage.None? || AllWhitespace(a.instruction.targetPage.value) ==> r == a.title
  {
    match a.instruction.targetPage
    case Some(p) => if Trim(p) != "" then Trim(p) else a.title
    case None => a.title
  }

  /** The instruction dispatch: it ends with its one change to the vault, at
      the path it reports, and changes nothing when that change is refused. */
  function Dispatch(v: Vault, a: VoiceNoteAnalysis, today: string): (r: VaultStep)
    ensures 1 <= |r.trace| && IsMutation(r.trace[|r.trace| - 1])
    ensures forall i :: 0 <= i < |r.trace| - 1 ==> !IsMutation(r.trace[i])
    ensures r.result.Success? ==> r.trace[|r.trace| - 1].path == r.result.value
    ensures r.result.Failure? ==> r.vault == v
    ensures a.instruction.kind.AppendDaily? ==> r == AppendToDailyNote(v, a.content, today)
    ensures a.instruction.kind.AppendToPage? ==> r == AppendToPage(v, PageName(a), a.content)
    ensures a.instruction.kind.NewNote? ==> r == CreateNewNote(v, a.title, a.content)
  {
    match a.instruction.kind
    case AppendDaily => AppendToDailyNote(v, a.content, today)
    case AppendToPage => AppendToPage(v, PageName(a), a.content)
    case NewNote => CreateNewNote(v, a.title, a.content)
  }

  /** The body of the `try`: everything it throws is caught and the run
      returns nothing. Only a run with a non-blank transcript, a client and a
      valid analysis reaches the vault; any earlier exit leaves it as it was. */
  function Attempt(s: KeyState, v: Vault, env: PluginEnvironment, today: string): (r: VaultStep)
    ensures 1 <= |r.trace| && r.trace[0] == Transcribe
    ensures r.result.Success? ==>
      && env.transcription.Success? && !AllWhitespace(env.transcription.value)
      && s.client.Some? && PerformTranscriptAnalysis(env.response).Success?
    ensures !(env.transcription.Success? && !AllWhitespace(env.transcription.value)
              && s.client.Some? && PerformTranscriptAnalysis(env.response).Success?) ==>
      r.vault == v && r.result.Failure?
    ensures r.result.Failure? ==> r.vault == v
  {
    match env.transcription
    case Failure(m) => VaultStep(v, [Transcribe], Failure(TranscriptionFailed(m)))
    case Success(transcript) =>
      if AllWhitespace(transcript) then VaultStep(v, [Transcribe], Failure(BlankTranscript))
      else
        var files := MarkdownPaths(v);
        if s.client.None? then VaultStep(v, [Transcribe], Failure(ClientMissing))
        else
          match PerformTranscriptAnalysis(env.response)
          case Failure(m) => VaultStep(v, [Transcribe, Analyze(transcript, files)], Failure(AnalysisFailed(m)))
          case Success(a) =>
            var r := Dispatch(v, a, today);
            VaultStep(r.vault, [Transcribe, Analyze(transcript, files)] + r.trace, r.result)
  }

  /** `processVoiceNoteForPlugin`: a missing key returns before anything else;
      a failure of the `try` body, or its early return, returns nothing. */
  function ProcessVoiceNoteForPlugin(s: KeyState, v: Vault, env: PluginEnvironment, today: string): (r: PluginRun)
    ensures s.apiKey == "" ==> r == PluginRun(v, [], None)
    ensures s.apiKey != "" ==> 1 <= |r.trace| && r.trace[0] == Transcribe
    ensures r.file.Some? ==>
      && s.apiKey != "" && s.client.Some?
      && env.transcription.Success? && !AllWhitespace(env.transcription.value)
      && PerformTranscriptAnalysis(env.response).Success?
    ensures r.file.None? ==> r.vault == v
  {
    if s.apiKey == "" then PluginRun(v, [], None)
    else
      var r := Attempt(s, v, env, today);
      var file := if r.result.Success? then Some(r.result.value) else None;
      PluginRun(r.vault, r.trace, file)
  }

  // ---------------------------------------------------------------------
  // Properties of whole runs

  /** The run reached the dispatch with analysis `a`. */
  predicate Dispatched(s: KeyState, env: PluginEnvironment, a: VoiceNoteAnalysis) {
    && s.apiKey != ""
    && s.client.Some?
    && env.transcription.Success?
    && !AllWhitespace(env.transcription.value)
    && PerformTranscriptAnalysis(env.response) == Success(a)
  }

  /** Without a key nothing at all happens; with a blank transcript nothing
      happens after transcription; in both cases the run returns nothing. */
  lemma GuardsTouchNothing(s: KeyState, v: Vault, env: PluginEnvironment, today: string)
    ensures s.apiKey == "" ==> ProcessVoiceNoteForPlugin(s, v, env, today) == PluginRun(v, [], None)
    ensures s.apiKey != "" && env.transcription.Success? && AllWhitespace(env.transcription.value) ==>
      ProcessVoiceNoteForPlugin(s, v, env, today) == PluginRun(v, [Transcribe], None)
  {
  }

  /** With a key accepted through `initializeOpenAI`, a client always exists,
      so 'OpenAI client not initialized' cannot arise. */
  lemma ValidKeyHasClient(s: KeyState, v: Vault, env: PluginEnvironment, today: string)
    requires ValidKeyState(s) && s.apiKey != ""
    ensures Attempt(s, v, env, today).result != Failure(ClientMissing)
  {
  }

  /** A run that reaches the dispatch returns the file the dispatch names, and
      hands the analysis the same Markdown paths a new note is resolved against. */
  lemma DispatchedRun(s: KeyState, v: Vault, env: PluginEnvironment, today: string, a: VoiceNoteAnalysis)
    requires Dispatched(s, env, a)
    ensures var o := ProcessVoiceNoteForPlugin(s, v, env, today);
      var d := Dispatch(v, a, today);
      && o.trace == [Transcribe, Analyze(env.transcription.value, MarkdownPaths(v))] + d.trace
      && o.vault == d.vault
      && (d.result.Success? ==> o.file == Some(d.result.value))
      && (d.result.Failure? ==> o.file.None?)
  {
  }

  /** A new note whose title holds no '/' is always created, at a name whose
      final segment clashes with no Markdown file of the vault. */
  lemma NewNoteAlwaysCreated(v: Vault, title: string, content: string)
    requires '/' !in NewNoteTitle(title)
    ensures var r := CreateNewNote(v, title, content);
      && r.result.Success?
      && r.vault == v + [VaultFile(r.result.value, content)]
      && forall i :: 0 <= i < |v| && IsMarkdown(v[i].path) ==> Basename(v[i].path) != r.result.value
  {
    var paths := MarkdownPaths(v);
    var name := UniqueNoteName(paths, NewNoteTitle(title));
    NoSlashInName(paths, NewNoteTitle(title));
    BasenameWithoutSlash(name);
    forall i | 0 <= i < |v|
      ensures v[i].path != name
      ensures IsMarkdown(v[i].path) ==> Basename(v[i].path) != name
    {
      if IsMarkdown(v[i].path) {
        assert v[i].path in paths;
      } else {
        assert IsMarkdown(name);
      }
    }
  }

  /** A title naming a folder path that is already taken is not renumbered:
      the create is refused and the run returns nothing. */
  lemma SlashTitleCreateRefused(v: Vault, s: KeyState, env: PluginEnvironment, today: string, a: VoiceNoteAnalysis)
    requires Dispatched(s, env, a)
    requires a.instruction.kind.NewNote?
    requires '/' in NewNoteTitle(a.title)
    requires Lookup(v, WithMd(NewNoteTitle(a.title))).Some?
    ensures ProcessVoiceNoteForPlugin(s, v, env, today).file.None?
    ensures ProcessVoiceNoteForPlugin(s, v, env, today).vault == v
  {
    SlashTitleNeverCollides(MarkdownPaths(v), NewNoteTitle(a.title));
  }

  /** The vault never loses content: every file keeps its path and position,
      its old content is a prefix of its new content, at most one file
      changes, and any new file is appended at the end. */
  predicate KeepsHistory(v: Vault, w: Vault) {
    && |v| <= |w| <= |v| + 1
    && (forall i :: 0 <= i < |v| ==> w[i].path == v[i].path && StartsWith(w[i].content, v[i].content))
    && (forall i, j :: 0 <= i < j < |v| && w[i] != v[i] ==> w[j] == v[j])
    && (|w| == |v| + 1 ==> forall i :: 0 <= i < |v| ==> w[i] == v[i])
  }

  /** No two calls of the trace change the vault. */
  predicate AtMostOneMutation(trace: seq<VaultCall>) {
    forall i, j :: 0 <= i < j < |trace| && IsMutation(trace[i]) ==> !IsMutation(trace[j])
  }

  lemma KeepsHistoryReflexive(v: Vault)
    ensures KeepsHistory(v, v)
  {
    forall j | 0 <= j < |v|
      ensures StartsWith(v[j].content, v[j].content)
    {
      assert v[j].content[..|v[j].content|] == v[j].content;
    }
  }

  /** A step that keeps the vault's history and distinct paths, changing it
      with at most one call. */
  predicate SafeStep(v: Vault, r: VaultStep) {
    && KeepsHistory(v, r.vault)
    && (ValidVault(v) ==> ValidVault(r.vault))
    && AtMostOneMutation(r.trace)
  }

  lemma AppendAtSafe(v: Vault, i: nat, separator: string, content: string)
    requires i < |v|
    ensures SafeStep(v, AppendAt(v, i, separator, content))
  {
    StartsWithConcat(v[i].content, separator + content);
    assert v[i].content + separator + content == v[i].content + (separator + content);
    KeepsHistoryReflexive(v);
  }

  lemma CreateSafe(v: Vault, path: string, content: string)
    ensures SafeStep(v, Create(v, path, content))
  {
    KeepsHistoryReflexive(v);
  }

  lemma DailySafe(v: Vault, content: string, today: string)
    ensures SafeStep(v, AppendToDailyNote(v, content, today))
  {
    var found := Lookup(v, DailyNotePath(today));
    if found.Some? {
      AppendAtSafe(v, found.value, DailySeparator, content);
    } else {
      CreateSafe(v, DailyNotePath(today), content);
    }
  }

  lemma PageSafe(v: Vault, pageName: string, content: string)
    ensures SafeStep(v, AppendToPage(v, pageName, content))
  {
    var target := PageTarget(v, pageName);
    if target.Some? {
      AppendAtSafe(v, target.value, PageSeparator, content);
    } else {
      CreateSafe(v, PagePath(pageName), content);
    }
  }

  lemma DispatchSafe(v: Vault, a: VoiceNoteAnalysis, today: string)
    ensures SafeStep(v, Dispatch(v, a, today))
  {
    if a.instruction.kind.AppendDaily? {
      DailySafe(v, a.content, today);
    } else if a.instruction.kind.AppendToPage? {
      PageSafe(v, PageName(a), a.content);
    } else {
      CreateSafe(v, UniqueNoteName(MarkdownPaths(v), NewNoteTitle(a.title)), a.content);
    }
  }

  /** A dispatch after the transcription and the analysis adds no second
      mutation. */
  lemma DispatchAfterAnalysis(analyze: VaultCall, t: seq<VaultCall>)
    requires analyze.Analyze?
    requires AtMostOneMutation(t)
    ensures AtMostOneMutation([Transcribe, analyze] + t)
  {
    var all := [Transcribe, analyze] + t;
    assert all[0] == Transcribe && all[1] == analyze;
    assert forall k :: 2 <= k < |all| ==> all[k] == t[k - 2];
  }

  /** Every attempt keeps the vault's history and its distinct paths, and mutates at most once. */
  lemma AttemptSafe(s: KeyState, v: Vault, env: PluginEnvironment, today: string)
    ensures SafeStep(v, Attempt(s, v, env, today))
  {
    if env.transcription.Success? && !AllWhitespace(env.transcription.value) && s.client.Some?
      && PerformTranscriptAnalysis(env.response).Success? {
      DispatchedAttemptSafe(s, v, env, today);
    } else {
      EarlyExitSafe(s, v, env, today);
    }
  }

  /** An attempt that reaches the dispatch is as safe as the dispatch. */
  lemma DispatchedAttemptSafe(s: KeyState, v: Vault, env: PluginEnvironment, today: string)
    requires env.transcription.Success? && !AllWhitespace(env.transcription.value) && s.client.Some?
    requires PerformTranscriptAnalysis(env.response).Success?
    ensures SafeStep(v, Attempt(s, v, env, today))
  {
    var a := PerformTranscriptAnalysis(env.response).value;
    DispatchSafe(v, a, today);
    DispatchAfterAnalysis(Analyze(env.transcription.value, MarkdownPaths(v)), Dispatch(v, a, today).trace);
  }

  /** An attempt that stops before the dispatch leaves the vault as it was. */
  lemma EarlyExitSafe(s: KeyState, v: Vault, env: PluginEnvironment, today: string)
    requires !(env.transcription.Success? && !AllWhitespace(env.transcription.value) && s.client.Some?
      && PerformTranscriptAnalysis(env.response).Success?)
    ensures Attempt(s, v, env, today).vault == v
    ensures SafeStep(v, Attempt(s, v, env, today))
  {
    KeepsHistoryReflexive(v);
  }

  /** Whatever happens in a run, the vault keeps its history and its distinct
      paths, and at most one call changes it. */
  lemma RunKeepsHistory(s: KeyState, v: Vault, env: PluginEnvironment, today: string)
    ensures KeepsHistory(v, ProcessVoiceNoteForPlugin(s, v, env, today).vault)
    ensures ValidVault(v) ==> ValidVault(ProcessVoiceNoteForPlugin(s, v, env, today).vault)
    ensures AtMostOneMutation(ProcessVoiceNoteForPlugin(s, v, env, today).trace)
  {
    if s.apiKey == "" {
      KeepsHistoryReflexive(v);
    } else {
      AttemptSafe(s, v, env, today);
    }
  }
}
