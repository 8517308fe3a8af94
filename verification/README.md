# Voxidian note routing, modelled in Dafny

Voxidian turns a recorded voice note into Markdown. The audio is transcribed and a
language model analyses the transcript into a `VoiceNoteAnalysis`. That analysis
holds an instruction (`new_note`, `append_daily` or `append_to_page`, with an
optional `target_page`), a title and the cleaned-up content. A routing engine then
decides which Markdown file the note goes into and what that file holds
afterwards. There are two engines:

- the web app's engine writes to a GitHub repository through the contents API;
- the Obsidian plugin's engine writes to the local vault.

This project models both engines, the shared naming and analysis code, the
plugin's API-key state, and its audio chunking. It proves what each operation
does to the store and what every run as a whole guarantees.

Modules, one file each:

- `Wrappers`: `Option` and `Result`.
- `Strings`: the JavaScript string operations the code relies on. These are
  `startsWith`, `endsWith`, `lastIndexOf`, `trim`, ASCII `toLowerCase`, and the
  decimal rendering of a counter.
- `Naming`: `getUniqueNoteName` of `lib/shared.ts`.
- `Analysis`: the `VoiceNoteAnalysis` schema and `performTranscriptAnalysis` of
  `lib/shared.ts`.
- `WebEngine`: `app/lib/voxidian.ts`. The repository is a map from path to
  content and SHA. Every run returns:
  - the new repository;
  - the calls it made, in order: save the temporary file, transcribe, list,
    analyse, read, write, remove the temporary file;
  - the written path, or an error.
- `PluginEngine`: `plugin/lib/voxidian.ts`. The vault is a sequence of files in
  the order the vault enumerates them. Every run returns:
  - the new vault;
  - the calls it made;
  - the file it returned, or nothing.
- `Blob`: the data-URL prefix strip and the 512-character slicing of
  `base64ToBlob`.

The following are inputs of a run rather than effects:

- the current date;
- the transcription result;
- the repository listing;
- the model's structured answer;
- the SHA the server assigns to a new version.

## Model

| member | source | states |
|---|---|---|
| Naming.UniqueNoteName | lib/shared.ts:18-39 | The name ends in `.md`. It equals the final path segment of no existing entry. It is the title with `.md` added when the title does not already end in `.md` and that name is free. Otherwise it is `<base> k.md` for the least k whose candidate is free, with k at most the number of entries plus one. |
| Naming.UniqueNoteNameIsLeastFreeCandidate | lib/shared.ts:33-36 | Conversely, when the first name is taken, any k whose candidate is free while all smaller candidates are taken is exactly the k chosen. |
| Naming.ProbesBounded | lib/shared.ts:33-36 | Pigeonhole argument: the numbered candidates are pairwise distinct, so at most as many of them as there are entries can collide in a row. The probing loop therefore terminates. |
| Naming.FirstFreeSuffix | lib/shared.ts:33-36 | The probing loop from a counter value on returns the first free numbered candidate. Every candidate before it collides, and the result lies between the start and the number of entries plus one. |
| Naming.CandidateInjective | lib/shared.ts:34 | Distinct counters give distinct candidate names for the same base. |
| Naming.StripNumberedMd | lib/shared.ts:24 | `replace(/ \d+\.md$/, '')` removes exactly the text from the match of a space, one or more digits and a final `.md`. The title is unchanged when there is no match. |
| Naming.NumberedMdPosition | lib/shared.ts:24 | That pattern can match at one position only. |
| Naming.StripMd | lib/shared.ts:24 | `replace(/\.md$/, '')` removes a final `.md` and nothing else. |
| Naming.WithMd | lib/shared.ts:20 | The first candidate is the title itself when it already ends in `.md`, and the title with `.md` appended otherwise. Either way it ends in `.md`. |
| Naming.UniqueNoteNameDependsOnEntriesOnly | lib/shared.ts:33 | The name depends only on which entries exist, not on their order or on repeated entries. |
| Naming.ExampleFirstSuffix | lib/shared.ts:33-36 | `["Note.md"]` with title `Note` gives `Note 1.md`. |
| Naming.ExampleSecondSuffix | lib/shared.ts:33-36 | `["Note.md", "Note 1.md"]` with title `Note` gives `Note 2.md`. |
| Naming.ExampleFolderCollision | lib/shared.ts:27-30 | `["folder/Note.md"]` with title `Note` gives `Note 1.md`, because entries are compared by their final segment. |
| Naming.ExampleProbeBoundTight | lib/shared.ts:24 | The bound of entries plus one is reached. `["Note 1.md"]` with title `Note 1.md` probes `Note 1.md` twice and returns the second numbered candidate, `Note 2.md`. |
| Naming.SlashTitleNeverCollides | lib/shared.ts:27-33 | A title containing `/` is never reported as colliding, because it is compared with final path segments. |
| Naming.NoSlashInName | lib/shared.ts:20-34 | A title without `/` gives a name without `/`. |
| Strings.Basename | lib/shared.ts:27-30 | `getFilename`: the text after the last `/`, or the whole path when it has no `/`. The result holds no `/`. |
| Strings.Trim | app/lib/voxidian.ts:267 | `trim()`: the result is a contiguous piece of the input with only whitespace around it. It is empty exactly when the input is all whitespace, and otherwise neither starts nor ends with whitespace. |
| Strings.ToLower | plugin/lib/voxidian.ts:189 | `toLowerCase`: the same length, each character lower-cased on its own. |
| Strings.ToLowerIsLower | plugin/lib/voxidian.ts:189-199 | Lower-casing leaves no upper-case letter, keeps every other character in place, and changes nothing when applied again. |
| Strings.NatToStringInjective | lib/shared.ts:34 | Distinct counters render as distinct decimal strings. |
| Analysis.ValidateAnalysis | lib/shared.ts:42-51 | The schema accepts an answer exactly when the instruction holds one of the three tags, `target_page` is missing or a string, and `title` and `content` are strings. |
| Analysis.TagRoundTrip | lib/shared.ts:43 | Each instruction type is recognised under its own wire name and under no other. |
| Analysis.ValidateEncodeRoundTrip | lib/shared.ts:42-51 | Validation decodes the JSON form of every analysis back to that analysis. It accepts nothing else. |
| Analysis.PerformTranscriptAnalysis | lib/shared.ts:82-113 | The call succeeds exactly when the client returned a parsed output, and then yields it unchanged. A null output and a thrown error both fail with a message that starts with `Transcript analysis using OpenAI failed: `. A thrown error's own message follows the prefix; a null output gives the fixed parse-failure message. |
| Analysis.AnalysisOfAnswer | lib/shared.ts:99-112 | An answer the schema rejects, or one that is absent, is an analysis failure and never a default analysis. A valid answer comes through unchanged. |
| WebEngine.MarkdownNames | app/lib/voxidian.ts:106 | The listing keeps a name exactly when the name ends in `.md`. |
| WebEngine.MarkdownNamesConcat | app/lib/voxidian.ts:106 | The filter distributes over concatenation, so it keeps the listing's order. |
| WebEngine.SentSha | app/lib/voxidian.ts:145-147 | A SHA is put in the request only when one is supplied and it is non-empty. |
| WebEngine.GetFileContent | app/lib/voxidian.ts:110-129 | The read succeeds exactly when the file exists, and then returns its content and SHA. |
| WebEngine.CreateOrUpdateFile | app/lib/voxidian.ts:132-162 | One PUT. It succeeds exactly when the SHA sent matches the file's current SHA, none for a new file, and then stores the content. Otherwise it fails and changes nothing. |
| WebEngine.ReadThenAppend | app/lib/voxidian.ts:174-184 | A read, then one write of the old content, the separator and the voice note, carrying the SHA just read. A missing file fails after the read without a write. |
| WebEngine.AppendToDailyNote | app/lib/voxidian.ts:165-195 | If `<today>.md` is listed: a read, then a write of the old content, a horizontal rule and the voice note, under the read SHA. If not listed: one SHA-less write of `---`, a blank line and the voice note, with no read. |
| WebEngine.AppendToPage | app/lib/voxidian.ts:198-230 | The target gets `.md` only when it lacks it. If the target is listed: a read, then a write of the old content, a blank line and the voice note, under the read SHA. If not listed: the voice note is written verbatim with no SHA. |
| WebEngine.NewNoteTitle | app/lib/voxidian.ts:267 | The trimmed title, or `Untitled Note` when the title is all whitespace. |
| WebEngine.Route | app/lib/voxidian.ts:250-276 | The dispatch writes at most once and touches only the repository. It fails for want of a target page exactly when `append_to_page` has no usable `target_page` and the title does not end in `.md`; it then makes no call and changes nothing. A new note is one SHA-less write under the unique name of the trimmed title. |
| WebEngine.RouteSelects | app/lib/voxidian.ts:251-268 | `append_daily` goes to the daily note. `append_to_page` goes to a non-empty `target_page`, or else to a title ending in `.md`. `new_note` is one write under the unique name of the trimmed title. |
| WebEngine.Pipeline | app/lib/voxidian.ts:245-276 | The body of the `try` transcribes first, then lists once and hands that listing to the analysis. It succeeds only when transcription, listing and analysis all succeed. An earlier failure fails the run and leaves the repository unchanged. |
| WebEngine.ProcessVoiceNote | app/lib/voxidian.ts:239-284 | A run whose audio is not saved fails with no call. Otherwise the trace starts with saving the audio and transcribing, and ends with removing the audio. A run succeeds only when every stage before the dispatch succeeded. |
| WebEngine.WebDispatchedRun | app/lib/voxidian.ts:244-283 | A run that reaches the dispatch saves the audio, transcribes, lists once and analyses. It then makes exactly the dispatch's calls and removes the audio. Its repository and result are the dispatch's. |
| WebEngine.CleanupOnEveryPath | app/lib/voxidian.ts:239-284 | Once the temporary file is saved, the trace ends with its removal, and it is removed nowhere else, on every path. The outcome is the pipeline's. Nothing is removed when nothing was saved. |
| WebEngine.PipelineShape | app/lib/voxidian.ts:245-276 | Inside the `try`, the run lists at most once, writes at most once, and never touches the temporary file. |
| WebEngine.OneWritePerRun | app/lib/voxidian.ts:244-284 | Every run writes at most once and lists the repository at most once. |
| WebEngine.NoStoreCallWithoutRoute | app/lib/voxidian.ts:244-262 | A run that fails before the dispatch, or for want of a target page, makes no read and no write, and leaves the repository unchanged. |
| WebEngine.NewNoteUsesTheOneListing | app/lib/voxidian.ts:247-268 | The listing given to the analysis is the list the new note's name is resolved against. |
| WebEngine.NewNoteNameIsFresh | app/lib/voxidian.ts:265-275 | A new note's name ends in `.md` and shares its final segment with no listed Markdown entry. |
| WebEngine.DailyAppendToListedNote | app/lib/voxidian.ts:171-184 | A whole run's daily append to a listed, stored note. It writes the old content, a rule and the voice note under the SHA just read, then removes the temporary file. Only that file changes. |
| WebEngine.DailyAppendCreatesNote | app/lib/voxidian.ts:185-193 | A whole run's daily append with no listed daily note. It makes one SHA-less write of a rule and the voice note, and no read. |
| WebEngine.PageFallbackToTitle | app/lib/voxidian.ts:253-262 | A missing `target_page` falls back to a title ending in `.md`. Otherwise the run fails after the analysis, with no store call. |
| WebEngine.ShaOnlyFromPrecedingRead | app/lib/voxidian.ts:173-218 | Every SHA a run sends travels with a write that directly follows the read of the same path, and it is the SHA the repository held. |
| WebEngine.RouteKeepsHistory | app/lib/voxidian.ts:250-276 | After any dispatch, every file that existed still exists and begins with its old content. A file changes or appears only as the reported result. This rests on the server's lock: a PUT without a SHA over an existing file is refused. |
| WebEngine.RunNeverLosesContent | app/lib/voxidian.ts:239-284 | The same holds for every whole run. Like the dispatch property, it rests on the server refusing a SHA-less PUT over an existing file. |
| PluginEngine.InitializeOpenAI | plugin/lib/voxidian.ts:21-35 | A key is accepted exactly when it is non-empty and starts with `sk-`. The key and the client are then replaced; otherwise the state is unchanged. |
| PluginEngine.KeyHistoryValid | plugin/lib/voxidian.ts:17-35 | After any sequence of initialisations, the stored key is empty or was accepted, and a stored key always comes with a client built from it. |
| PluginEngine.InitialKeyHistoryValid | plugin/lib/voxidian.ts:17-35 | The initial state has no key and no client. Every state reached from it through initialisations has its key and client in step. |
| PluginEngine.ValidKeyHasClient | plugin/lib/voxidian.ts:157-160 | With a key accepted through initialisation, the `OpenAI client not initialized` error cannot arise. |
| PluginEngine.GuardsTouchNothing | plugin/lib/voxidian.ts:57-74 | Without a key the run makes no call. A blank transcript stops the run after transcription. Both return nothing and leave the vault unchanged. |
| PluginEngine.Lookup | plugin/lib/voxidian.ts:170 | The lookup by exact path finds a file at that path, and finds none exactly when no file has that path. |
| PluginEngine.MarkdownPaths | plugin/lib/voxidian.ts:77 | The paths listed are exactly the paths of the vault's Markdown files. |
| PluginEngine.FindByBasename | plugin/lib/voxidian.ts:199 | `find` returns the first file in enumeration order whose lower-cased basename equals the name. It returns none exactly when no file matches. |
| PluginEngine.Create | plugin/lib/voxidian.ts:50 | `vault.create` appends a new file at a free path, and refuses a taken path without changing the vault. |
| PluginEngine.AppendToDailyNote | plugin/lib/voxidian.ts:166-184 | An existing `<today>.md` is read and modified to the old content, a rule and the voice note. Otherwise that note is created holding the voice note verbatim, with no rule. |
| PluginEngine.PagePath | plugin/lib/voxidian.ts:189 | A page name that ends in `.md` in any letter case is used as it is. Any other name gets `.md` appended. Either way the path ends in `.md` in any case. |
| PluginEngine.PageBasename | plugin/lib/voxidian.ts:198 | The lower-cased page name without one trailing `.md`. |
| PluginEngine.PageTarget | plugin/lib/voxidian.ts:194-205 | The file at the page's path wins. Otherwise the target is the first Markdown file whose basename matches case-insensitively. There is no target exactly when neither exists. |
| PluginEngine.AppendToPage | plugin/lib/voxidian.ts:187-219 | A target file is read and modified to the old content, a blank line and the voice note. With no target, a file is created at the page's path holding the voice note verbatim. |
| PluginEngine.PageName | plugin/lib/voxidian.ts:89 | The trimmed `target_page` when it is not blank, and the title otherwise. There is no error. |
| PluginEngine.NewNoteTitle | plugin/lib/voxidian.ts:39 | The trimmed title, or `Untitled Voice Note` when the title is all whitespace. |
| PluginEngine.CreateNewNote | plugin/lib/voxidian.ts:38-53 | One create, at the unique name of the trimmed title, resolved against every Markdown path of the vault. |
| PluginEngine.Dispatch | plugin/lib/voxidian.ts:85-94 | `append_daily` selects the daily-note append. `append_to_page` selects the page append, using the trimmed `target_page` or else the title, with no error. `new_note` selects the creation of a new note. Every dispatch ends with its one change to the vault, at the path it reports. A refused create changes nothing. |
| PluginEngine.Attempt | plugin/lib/voxidian.ts:63-101 | The body of the `try` transcribes first. It reaches the vault only with a non-blank transcript, a client and a valid analysis. Every failure, including a caught one, leaves the vault unchanged. |
| PluginEngine.ProcessVoiceNoteForPlugin | plugin/lib/voxidian.ts:56-102 | Without a key the run makes no call and returns nothing. A returned file means every stage succeeded. A run that returns nothing leaves the vault unchanged. |
| PluginEngine.DispatchedRun | plugin/lib/voxidian.ts:76-96 | A run that reaches the dispatch gives the analysis the same Markdown paths a new note is resolved against, and returns the dispatched file. |
| PluginEngine.NewNoteAlwaysCreated | plugin/lib/voxidian.ts:38-52 | A new note whose title holds no `/` is always created. Its name shares its final segment with no Markdown file. |
| PluginEngine.SlashTitleCreateRefused | plugin/lib/voxidian.ts:45-50 | A title naming a taken folder path is not renumbered. The create is refused, the run returns nothing and the vault is unchanged. |
| PluginEngine.DispatchSafe | plugin/lib/voxidian.ts:85-94 | Every dispatch keeps each file's path and position and extends its old content. Paths stay distinct, and the dispatch mutates at most once. |
| PluginEngine.RunKeepsHistory | plugin/lib/voxidian.ts:56-102 | The same holds for every whole run, including the guards and the caught errors. |
| Blob.DataUrlPayload | plugin/lib/voxidian.ts:107 | With a comma, the payload is the comma-free text after the first comma, up to the next comma or the end. Without a comma, it is the whole input. |
| Blob.DataUrlRoundTrip | plugin/lib/voxidian.ts:107 | A comma-free payload is recovered from `header,payload` and from `header,payload,rest`, and a bare payload is kept. |
| Blob.Base64ToBlob | plugin/lib/voxidian.ts:105-125 | The decoded characters are cut into ceil(n/512) slices, each the bytes of its 512-character window. Each slice holds 1 to 512 bytes, all but the last exactly 512. Together they flatten back to all the bytes. |
| Blob.SliceBytes | plugin/lib/voxidian.ts:114-120 | The inner loop gives, in order, each character's code unit reduced to a byte. |

## Left out

- The OpenAI calls (transcription and `responses.parse`) and the prompt built by
  `instructions()`. Their results are inputs: a transcript or an error, and a
  structured answer or an error.
- `fetch` and the GitHub REST transport, the base64 coding by `Buffer` and
  `atob`, and `normalizePath`. Contents are plain strings. `atob` and
  `normalizePath` are taken as the identity.
- `new Date()`: the day is a parameter.
- The GitHub server's optimistic lock is an assumption of the model, not the
  code's behaviour. A PUT succeeds exactly when the SHA sent equals the file's
  current SHA, none for a new file. The SHA the server gives a new version is an
  input of the run.
- The web listing is an input rather than derived from the repository map,
  because the contents API lists only the repository root. `getExistingFiles`
  is modelled only by its `.md` filter.
- The plugin's `getAbstractFileByPath` lookups are not recorded in the trace.
  Only transcription, analysis, reads, modifications and creations are.
- `toLowerCase` is modelled on ASCII letters only. `trim` uses the JavaScript
  whitespace set for single UTF-16 code units.
- `TFile.basename` of a file whose name starts with a dot (such as `.md`) is
  modelled as the name without `.md`. Obsidian's own rule for such names is not
  modelled.
- The probing loop can try `|existing| + 1` numbered candidates, not
  `|existing|`. A title `<base> j.md` whose own name is taken is probed again
  when the counter reaches j (j = 1 in Naming.ExampleProbeBoundTight). The
  bound proved is therefore `|existing| + 1`, and an example shows it is
  reached.
- Neither the schema (lib/shared.ts:42-51) nor the code requires `content` to
  be non-empty or `target_page` to be present. The model accepts any string as
  content, and `target_page` is optional for every tag.
- UI and plumbing are not modelled: `app/page.tsx`, `plugin/main.ts`, the HTTP
  handler `app/api/send/route.ts`, `auth.ts`, `middleware.ts`, layout and build
  scripts.
- `Notice` and `console` output, the commit messages of the PUT requests, and
  the MIME type of the blob have no effect on the store, and are not modelled.
- Concurrency between runs is not modelled. Each run sees the store as it was
  when the run began.
- The temporary audio file's contents and its decoding are not modelled. Only
  its creation and removal appear in the trace. A failure to remove it is
  swallowed and changes nothing.
