# autoTranslator text handling, modelled in Dafny

autoTranslator is a desktop utility. It captures a webcam image and sends it to an OCR service. It can have the recognised text translated, and it speaks the original and the translations aloud. Between the cloud services sits a little text-handling logic, which this project models and proves things about:

- **`utils.rs`**: the bounding-box line type `InterpretedLine`, its parser `from_str` for `"x,y,width,height"`, and its reading-order comparison `cmp`. The module also has the two-letter codes of `TextToSpeechLanguage` (module `Utils`).
- **`azure_clients.rs`** (module `AzureClients`):
  - the OCR client's reconstruction of one text from the lines of a Read response: words trimmed and joined, lines stable-sorted by (y, x), and the "name label" heuristic that prints `name: rest`;
  - the translator's empty-language shortcut, its comma-joined `to=` list and its dispatch of the answer into the en/fi/sv fields;
  - the text-to-speech client's SSML body per language.
- **`google_client.rs`** (module `GoogleClient`): `extract_google_project`, and the two loops that fold the JSON answers into the detected text and into the English translation.
- **`main.rs`** (module `MainLoop`): the interactive loop that flips six option flags per input line and stops at a line containing `q`. It also models the language choice and the print/playback decisions of `capture_process_playback`.

Supporting modules:
- `Wrappers`: `Option` and `Result`.
- `RustStr`: the pieces of Rust's `str` the code calls, each with the facts the proofs need. These are `split`, `join`, `trim` (with Rust's `char::is_whitespace`), `find` and `parse::<i32>`.
- `Json`: how `serde_json::Value::to_string` renders a string, and an unescaper proved to invert it.

Service responses are inputs. Each JSON shape the code reads is a datatype whose `Option` fields are `None` when the member is absent or has another JSON type. The `unwrap` panics of the reconstruction are the `Err` side of a `Result`. Loops in the source are methods with loop invariants. Each is proved equal to a function that defines its result, and the lemmas are stated about that function.

Three facts about the code shape the model:
- `InterpretedLine` derives `PartialEq` over all five fields, so lines that compare `Equal` need not be `==` (`EqualityFinerThanCmp`).
- `main.rs` runs OCR and translation through the Google client, not the Azure one. So `CaptureProcessPlayback` uses `GoogleClient`, and the Azure reconstruction is modelled as an operation of its own.
- The Azure translator stores `translation["text"].to_string()`. That is the JSON rendering of the value: quoted and escaped, and `null` when the text is absent. It is not the bare text.

`Vec::sort` is modelled as an insertion sort on sequences. Any stable sort by the same comparison gives the same sequence, and the model proves the three properties that pin it down: the result is ordered, it is a permutation of the input, and ties keep their input order.

## Model

| member | source | states |
|---|---|---|
| `Utils.Code` | src/utils.rs:14-23 | each language is written as a two-letter lower-case code: ja, en, fi, sv |
| `Utils.CodeInjective` | src/utils.rs:14-23 | two languages have the same code exactly when they are the same language |
| `Utils.NewLine` | src/utils.rs:49-58 | a new line has the given geometry, in i32 range, and empty text |
| `Utils.FromStrSpec` | src/utils.rs:61-83 | parsing succeeds iff the string splits on ',' into exactly four pieces that each parse as an i32; the result then holds the four values in order, in i32 range, with empty text |
| `Utils.FromStrFormatBox` | src/utils.rs:64-79 | parsing the rendering "x,y,w,h" of any in-range box gives that box back with empty text |
| `Utils.FromStrFourFields` | src/utils.rs:64-79 | "10,20,30,40" parses to x 10, y 20, width 30, height 40 and empty text |
| `Utils.FromStrRejectsFieldCount` | src/utils.rs:67-82 | comma-free fields joined by ',' are rejected when there are not exactly four of them (three, five or more) |
| `Utils.FromStrRejectsBadField` | src/utils.rs:74-78 | four fields of which any one is not an i32 are rejected |
| `Utils.ParseI32Rejects` | src/utils.rs:75-78 | an empty field, a lone sign, or a field with a non-digit anywhere except a leading sign does not parse |
| `RustStr.ParseShowInt` | src/utils.rs:75-78 | `parse::<i32>` of the decimal rendering of n gives n back exactly when n is in i32 range |
| `Utils.Cmp` | src/utils.rs:86-101 | `Less` iff y is smaller, or y is equal and x smaller; `Equal` iff y and x are both equal; `Greater` in the mirrored case |
| `Utils.PartialCmp` | src/utils.rs:103-107 | `partial_cmp` is always `Some`, holding `cmp` |
| `Utils.CmpAntisymmetric` | src/utils.rs:86-101 | swapping the arguments reverses the ordering |
| `Utils.CmpTransitive` | src/utils.rs:86-101 | `cmp` is transitive for each of Less, Equal and Greater |
| `Utils.CmpIgnoresSizeAndText` | src/utils.rs:86-101 | width, height and text never change the comparison |
| `Utils.EqualityFinerThanCmp` | src/utils.rs:40-47 | `==` lines compare `Equal`; lines that compare `Equal` are `==` only when width, height and text also agree |
| `RustStr.TrimExact` | src/azure_clients.rs:63 | trimming whitespace, then a text that neither starts nor ends with whitespace, then whitespace, gives that text |
| `AzureClients.WordsTextAppend` | src/azure_clients.rs:59-65 | a line's text is built word by word in order: the text of a + b is the text of a followed by the text of b |
| `AzureClients.WordsTextOne` | src/azure_clients.rs:59-65 | a word contributes its text without surrounding whitespace; a missing text contributes ""; a missing `words` array contributes nothing |
| `AzureClients.WordsTextThree` | src/azure_clients.rs:59-65 | three words give their trimmed texts one after another, a missing text counting as "" |
| `AzureClients.WordsTextExample` | src/azure_clients.rs:59-65 | words " hello ", "world" and "" make "helloworld" |
| `AzureClients.InterpretLineSpec` | src/azure_clients.rs:57-66 | a line interprets iff its bounding box is a string that parses; the result has that geometry and the joined word text; a missing box is told apart from a malformed one |
| `AzureClients.CollectLinesOk` | src/azure_clients.rs:54-68 | collected lines correspond one to one, by index, to the raw lines, each the interpretation of its raw line |
| `AzureClients.CollectLinesComplete` | src/azure_clients.rs:54-68 | when every raw line interprets, collection succeeds |
| `AzureClients.CollectLinesFailsAt` | src/azure_clients.rs:58 | the first line that fails decides the error, whatever follows it |
| `AzureClients.SortLines` | src/azure_clients.rs:73 | the sorted lines are a permutation of the input: same length, same multiset |
| `AzureClients.SortLinesSorted` | src/azure_clients.rs:73 | after the sort no line compares `Greater` than any later line |
| `AzureClients.SortLinesReadingOrder` | src/azure_clients.rs:73 | neighbours after the sort: the later one has larger y, or equal y and x not smaller |
| `AzureClients.SortLinesStable` | src/azure_clients.rs:73 | lines at the same (x, y) keep their input order |
| `AzureClients.SortThreeLines` | src/azure_clients.rs:73 | three lines in strictly increasing reading order come out in that order, whether they arrive in order or last-first |
| `AzureClients.NameAfterSort` | src/azure_clients.rs:75-83 | after the sort the first line is a name iff there are at least two lines and one of them is above every other and more than 60 px right of each |
| `AzureClients.DetectName` | src/azure_clients.rs:75-83 | the flag is set iff there is more than one line and every later line has first.x - line.x > 60 |
| `AzureClients.RenderAddsLabel` | src/azure_clients.rs:85-100 | without a name the output is the plain concatenation of texts; with one it is that concatenation with ": " inserted after the first text |
| `AzureClients.BuildOutput` | src/azure_clients.rs:85-100 | the pushed output is "first: rest" when the flag is set, the concatenation of every text otherwise |
| `AzureClients.RenderNamedThree` | src/azure_clients.rs:85-94 | three lines whose first is a name render as that name, ": ", then the other two texts in order |
| `AzureClients.NameLabelExample` | src/azure_clients.rs:73-100 | lines at x 200, 10, 15 and y 0, 50, 100 give "name: " followed by the other two texts, in either input order |
| `AzureClients.NoLabelExample` | src/azure_clients.rs:73-100 | lines at x 50 and 10 (offset 40) give the two texts joined, with no label |
| `AzureClients.OcrOutputNoLines` | src/azure_clients.rs:52-71 | no `regions` array, or regions without lines, give "" |
| `AzureClients.OcrOutputSingleLine` | src/azure_clients.rs:75-99 | a single line is output as its text alone |
| `AzureClients.OcrOutputFailsOnBadLine` | src/azure_clients.rs:58 | any line with a missing or malformed bounding box makes the whole call fail; no partial text |
| `AzureClients.OcrOutputSucceeds` | src/azure_clients.rs:54-102 | when every line interprets, the call succeeds |
| `AzureClients.FailingLineDecides` | src/azure_clients.rs:55-58 | the failing line j of region i, after lines that all interpret, decides the error of the whole response |
| `AzureClients.InterpretOne` | src/azure_clients.rs:57-66 | one pass of the inner loop's body yields exactly the line's interpretation: the parsed box with the trimmed word text appended, or the missing-box or malformed-box failure |
| `AzureClients.GatherRegion` | src/azure_clients.rs:56-67 | the inner loop appends one region's lines to those already gathered and ends exactly as collecting all raw lines up to that region's end would, first failure included |
| `AzureClients.GatherLines` | src/azure_clients.rs:54-68 | the outer loop, region by region, gathers every line of every region in order, or stops at the first panic |
| `AzureClients.ReconstructText` | src/azure_clients.rs:52-102 | the reconstruction returns exactly the specified output: gather, sort, detect the name, render |
| `AzureClients.Codes` | src/azure_clients.rs:208-211 | the code list has one code per language, in the same order |
| `AzureClients.LanguageListSplit` | src/azure_clients.rs:208-212 | splitting the `to=` value at its commas gives back the requested codes in order |
| `AzureClients.DispatchField` | src/azure_clients.rs:230-240 | each of en, fi, sv holds the rendered text of the last entry for its code (a missing `to` counts as en), and "" when there is none |
| `AzureClients.DispatchIgnores` | src/azure_clients.rs:233-239 | an entry for any other code changes nothing |
| `AzureClients.DispatchLastWins` | src/azure_clients.rs:233-239 | an entry overwrites its own language's field and leaves the other fields as they were |
| `AzureClients.Translate` | src/azure_clients.rs:198-247 | no output language: no request and three empty fields; otherwise the `to=` list is the codes joined by ',' and the fields are the dispatch of the `translations` array, all empty when it is absent |
| `Json.UnescapeEscape` | src/azure_clients.rs:234 | the JSON rendering of a translation text loses nothing: unescaping gives the text back |
| `Json.EscapePlain` | src/azure_clients.rs:234 | a text with no quote, backslash or control character is stored as itself between double quotes |
| `AzureClients.SpokenTextOfBody` | src/azure_clients.rs:139-144 | the SSML body carries the text verbatim between its language's opening and the closing tags |
| `AzureClients.VoiceMatchesLanguage` | src/azure_clients.rs:139-144 | the voice locale starts with the language's code and names the voice; the document language matches it except for Swedish, which declares fi-FI |
| `GoogleClient.ExtractGoogleProject` | src/google_client.rs:202-206 | `None` iff "project = " occurs nowhere; otherwise the suffix after its first occurrence, with no occurrence earlier |
| `GoogleClient.ExtractAfterFirstKey` | src/google_client.rs:202-206 | for config = prefix + "project = " + rest with no earlier occurrence in the prefix, the result is rest |
| `GoogleClient.ProjectHeader` | src/google_client.rs:60-62 | the header value exists iff the key occurs, and it is trimmed |
| `GoogleClient.ProjectHeaderRunsOn` | src/google_client.rs:60-67 | as written, a non-blank line after the project line ends up in the header value: the value starts with the whole project name, then a line break, then that later line's characters |
| `GoogleClient.ProjectId` | src/google_client.rs:60-62 | the corrected project name exists iff the key occurs; it is trimmed and holds no line break |
| `GoogleClient.ProjectIdOfConfig` | src/google_client.rs:60-62 | a configuration whose first project line reads "project = id" names the project id |
| `GoogleClient.FullTextEmpty` | src/google_client.rs:106-115 | the detected text is empty iff no response carries a non-empty full text |
| `GoogleClient.FullTextAppend` | src/google_client.rs:107-112 | the texts of the responses are concatenated in order |
| `GoogleClient.ExtractText` | src/google_client.rs:106-115 | the loop pushes each present `fullTextAnnotation.text` in order, skipping responses without one; a missing `responses` array gives "" |
| `GoogleClient.CumTranslationTerminated` | src/google_client.rs:185-193 | the English translation is each present `translatedText` followed by '\n', in order |
| `GoogleClient.TranslationLines` | src/google_client.rs:185-193 | splitting the English translation at '\n' gives every present text in order, then "" |
| `GoogleClient.Translate` | src/google_client.rs:162-199 | en holds the accumulated translation, fi and sv are always "", and the requested languages play no part |
| `MainLoop.InitialOptionsOnlyTranslation` | src/main.rs:36-43 | at the start only `use_translation` is on |
| `MainLoop.ToggledFlips` | src/main.rs:46-63 | each option is flipped iff the line contains its letter (f, e, t, h, d, c), once however often the letter repeats |
| `MainLoop.ToggledTwice` | src/main.rs:46-63 | entering the same line twice restores the options |
| `MainLoop.ToggledCommutes` | src/main.rs:46-63 | the order of two lines does not matter |
| `MainLoop.ToggledNoLetters` | src/main.rs:46-63 | a line without toggle letters, such as the empty capture line, changes nothing |
| `MainLoop.OptionsAfterParity` | src/main.rs:36-63 | after a sequence of lines an option differs from its initial value iff an odd number of lines contained its letter |
| `MainLoop.Toggle` | src/main.rs:46-63 | one toggle: the flag is negated iff the line contains the letter |
| `MainLoop.ToggleOptions` | src/main.rs:46-63 | the six toggles of one line give the toggled options |
| `MainLoop.QuitIndex` | src/main.rs:45 | the index of the first line containing 'q'; no line before it contains one |
| `MainLoop.RunSession` | src/main.rs:34-82 | one capture per line before the first 'q' line, none after; capture k runs with the options toggled by lines 0..k |
| `MainLoop.SelectLanguages` | src/main.rs:106-114 | the list is empty without translation, and English, Finnish, Swedish in that order with it |
| `MainLoop.PlaybackStartsWithJapanese` | src/main.rs:100-123 | the extracted text is always printed and then spoken in Japanese first |
| `MainLoop.PlaybackSpeaks` | src/main.rs:127-151 | English or Finnish is spoken iff its translation is non-empty and its playback flag is on; Swedish is never spoken |
| `MainLoop.PlaybackShows` | src/main.rs:104-151 | the extracted text and every non-empty translation are printed, and nothing else |
| `MainLoop.CaptureProcessPlayback` | src/main.rs:94-151 | the actions of one capture are the plan computed from the detected text, the Google translation and the options |
| `MainLoop.OnlyEnglishTranslated` | src/main.rs:116-151 | with the Google translator Finnish and Swedish are never spoken, only the detected text and the English translation are printed, and `use_translation` and `playback_fi` make no difference |

## Left out

- HTTP requests, headers, bearer tokens and multipart bodies. The service answers are inputs to the model.
- JSON decoding. Only the shape the code reads is modelled, as datatypes with `Option` fields.
- Camera capture and image processing in `src/camera_capture.rs`: floating point and OpenCV calls. `src/camera_capture.rs` is not part of this model.
- Audio playback in `src/audio_player.rs`: a native library polled with sleeps. `src/audio_player.rs` is not part of this model. Playback is an action in the capture plan.
- Environment variables, the `gcloud` subprocesses, and the image and mp3 files read and written.
- The async scheduling of `capture_process_playback`. The model runs its steps in program order.
- Errors returned by `?` from the network, file or audio steps. `main` prints them and carries on, and the model does not represent them.
- The Google text-to-speech request and the test-image switch (`use_test_file`). These are I/O only.
- The debug echo of the raw OCR response and the "No text detected." and "Did not get translations" messages. These are prints only.
- The translator's request body `[{ "Text": ... }]` and the SSML text are built with `format!` and no escaping. The model keeps only the per-language choice and the verbatim text.
- AzureClients.DetectName: uses mathematical integers, so it does not model the i32 overflow of `first.x - line.x`. That subtraction overflows only when the difference leaves the i32 range; it then panics in a debug build and wraps in a release build.
- MainLoop.RunSession: the input lines are a parameter. Running out of input ends the session, where `read!` would panic.
- AzureClients.SortLines: the standard library's merge sort is modelled by an insertion sort. Both are stable sorts by the same comparison, so they give the same result, but the algorithm's steps are not modelled.

## Findings

| source | as written | input that shows it | evidently intended | confidence | as-written member | corrected member |
|---|---|---|---|---|---|---|
| src/google_client.rs:60-67 | the project name is everything after the first "project = ", trimmed, so any later configuration lines stay in it | a `gcloud config list` output with a further non-blank line after the project line, e.g. "project = p\n[run]\n"; the header value becomes "p\n[run]", which holds a line break and which `HeaderValue::from_str` refuses, so `unwrap` panics | the rest of the project line only, trimmed | low; not executed, and it depends on the configuration having lines after the project line | `GoogleClient.ProjectHeaderRunsOn` | `GoogleClient.ProjectIdOfConfig` |
