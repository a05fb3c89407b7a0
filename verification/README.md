# aiwine core, modelled in Dafny

aiwine is a kiosk web app. A visitor types a name and picks an MBTI type, a
mood, a zodiac sign and an alcohol strength. The app then asks an image
generation server (ComfyUI) for a personalised "wine card". This project
models the three parts of the app that hold its logic:

- **The `SelectInput` combo box** (`select_input.dfy`, module `SelectInput`).
  - The pure parts are functions: case-insensitive option filtering, the list
    the dropdown displays, how a submit or an Enter key resolves, and how the
    highlight moves under ArrowUp and ArrowDown.
  - The component is the class `ComboBox`, with the fields `isOpen`,
    `highlightedIndex`, `inputValue`, `filteredOptions` and the `value` prop.
  - It has one method per event handler. Each method ends with the effects
    React runs after the re-render, so `Valid()` keeps `filteredOptions` equal
    to the filter of the current text.
- **The generation client** (`comfy.dfy`, module `Comfy`).
  - The workflow is built by five successive `String.prototype.replace` calls
    on the template text. `replace` is modelled exactly: first occurrence only,
    with the ECMAScript `$$`, `$&`, `` $` `` and `$'` replacement patterns.
  - The polling loop of `generateImage` is a `while` method. It is proved equal
    to a recursive specification `PollFrom` over the sequence of server
    answers, and the properties of the loop are proved about `PollFrom`.
  - `extractCard` and `generateImageUrl` build the card's URLs, and a parser
    shows that each URL gives back its file name and type when the file name
    holds no `&`.
- **The input screen** (`input_page.dfy`, module `InputPage`).
  - The required-field check, the one-field edit with its error clearing, and
    the start button form the class `InputForm`.
  - The start button appends a timestamp to the job queue and stores the
    attributes under `userData-<time>`. The loading and result screens read the
    queue's last element as the active job.

Shared text helpers live in `strings.dfy` (modules `Wrappers` and `Strings`):
ASCII lower-casing, `indexOf`/`includes`, JavaScript's rendering of an integer
as text and its inverse, and `trim`.

Some behaviours of the combo box code that the model keeps as they are:

- Only ArrowDown wraps (from the last entry to no highlight). ArrowUp stops at
  the first entry (`Math.max(0, prev - 1)`). See `ArrowDownCycles` and
  `ArrowUpStopsAtTop`.
- Enter and submit test their conditions in a different order: Enter takes a
  highlight before the single-match rule. See `EnterDivergesFromSubmit`.
- Enter indexes the filtered list without a bounds check, so a highlight past
  its end reports `undefined`. See `EnterOnEmptyListIndexesOutOfRange` and
  `NameFieldReportsUndefined`.
- Escape shows the confirmed value again only when it is one of the options;
  a custom confirmed value is not restored. See `ComboBox.KeyDown`.

## Model

| member | source | states |
|---|---|---|
| Strings.Lower | src/components/SelectInput.tsx:80 | `toLowerCase`: same length, each character lower-cased (ASCII letters only) |
| Strings.FindFirst | src/components/SelectInput.tsx:80 | `Some(i)` exactly when the text occurs at `i` and at no earlier index; `None` exactly when it occurs nowhere |
| Strings.ContainsIff | src/components/SelectInput.tsx:80 | `includes` holds iff the text occurs at some index |
| Strings.ContainsSelf | src/components/SelectInput.tsx:80 | every string includes itself, so a shown option survives its own filter |
| Strings.OccursAtShift | src/ai/comfy.ts:34-38 | text occurs at an index of the second half of a concatenation iff it occurs there in that half |
| Strings.NotWhereOtherOccurs | src/ai/comfy.ts:34-38 | where one text occurs, no other text occurs unless one of them is a prefix of the other |
| Strings.FirstOccurrenceAfter | src/ai/comfy.ts:34-38 | a token whose first character is absent from the text before it is first found right after that text |
| Strings.NatToString | src/ai/comfy.ts:38 | the rendering of a number is non-empty decimal digits with no leading zero |
| Strings.ParseNatToString | src/ai/comfy.ts:38 | reading the digits back gives the number (round trip) |
| Strings.IntToStringRoundTrip | src/ai/comfy.ts:38 | `${n}` of any integer reads back as `n` and holds no `$` |
| Strings.IntToString | src/pages/InputPage.tsx:41 | `${n}` of an integer is non-empty; `IntToStringRoundTrip` shows that `ParseInt` reads it back as `n` |
| Strings.TrimStartRemovesLeadingWhitespace | src/pages/InputPage.tsx:17 | the result is a suffix, everything removed is whitespace, and it does not start with whitespace |
| Strings.TrimEndRemovesTrailingWhitespace | src/pages/InputPage.tsx:17 | the result is a prefix, everything removed is whitespace, and it does not end with whitespace |
| Strings.TrimEmptyIff | src/pages/InputPage.tsx:17 | `s.trim()` is empty iff every character of `s` is whitespace |
| Strings.Trim | src/pages/InputPage.tsx:17 | `trim()` as `TrimEnd(TrimStart(s))`; specified by `TrimStartRemovesLeadingWhitespace`, `TrimEndRemovesTrailingWhitespace` and `TrimEmptyIff` |
| SelectInput.Matches | src/components/SelectInput.tsx:80 | the filter test: the option contains the typed text, ignoring case; `FilterMatching` states what keeping exactly the matching options means |
| SelectInput.SubsequenceOfSelf | src/components/SelectInput.tsx:84 | the unfiltered list is a subsequence of the options |
| SelectInput.FilterMatching | src/components/SelectInput.tsx:79-81 | `options.filter(...)` keeps original order (subsequence), keeps exactly the matching options, and keeps each matching option's multiplicity |
| SelectInput.Filter | src/components/SelectInput.tsx:77-86 | with typing allowed and non-empty text, exactly the matching options with their multiplicities; otherwise all options; always a subsequence |
| SelectInput.SubsequenceLength | src/components/SelectInput.tsx:77-86 | the filtered list is never longer than the options |
| SelectInput.FilterKeepsShownOption | src/components/SelectInput.tsx:77-86 | showing an option as the text keeps that option in the filtered list |
| SelectInput.DisplayOptions | src/components/SelectInput.tsx:250-254 | the list shows the filtered options in their order, each at its own position, followed by the typed text once as a last entry only in 'both' mode with non-empty text and no match |
| SelectInput.ClickMatchesHighlight | src/components/SelectInput.tsx:255-262 | list items and highlight share positions: clicking entry `i` of the filtered list takes the option Enter takes with the highlight on `i` |
| SelectInput.Pick | src/components/SelectInput.tsx:127-132 | `filteredOptions[h]` gives an option exactly when `h` is in range, otherwise `undefined` |
| SelectInput.TextAfter | src/components/SelectInput.tsx:113-150 | the text shown after an outcome: the chosen option, "" for `undefined`, the typed text otherwise; `ComboBox.Apply`, `Submit` and `KeyDown` state the new text through it |
| SelectInput.ResolveSubmit | src/components/SelectInput.tsx:113-150 | typed text always resolves to something; a single match is always taken; no match gives the text as a custom value; with two or more matches, typed text gives the highlighted entry (`undefined` past the end) or, with no highlight, the text as a custom value, and without typed text a highlight gives its entry; `undefined` only from a highlight past the end of a list of two or more; without usable text nothing happens iff neither a single entry nor a highlight exists |
| SelectInput.ResolveEnter | src/components/SelectInput.tsx:180-215 | like submit, except that a highlight is taken before the single-match rule and with no bounds check; with no highlight, a single entry is taken, and typed text with two or more matches becomes a custom value; without usable text nothing happens iff there is no highlight and not exactly one entry |
| SelectInput.EnterAgreesWithSubmit | src/components/SelectInput.tsx:180-215 | with no highlight or a highlight inside the list, Enter and submit resolve identically |
| SelectInput.EnterDivergesFromSubmit | src/components/SelectInput.tsx:180-215 | on a one-entry list with the highlight past the end, submit takes the entry but Enter reports `undefined` |
| SelectInput.EnterOnEmptyListIndexesOutOfRange | src/components/SelectInput.tsx:203-208 | on an empty list with the highlight at 0, Enter reports `undefined` while submit does nothing |
| SelectInput.OutcomeReport | src/components/SelectInput.tsx:113-150 | `onChange` is called exactly when the outcome is not "nothing happens" |
| SelectInput.ArrowUpIndex | src/components/SelectInput.tsx:162-170 | from no highlight to the last entry, else one up, never below 0; stays inside the list |
| SelectInput.ArrowDownIndex | src/components/SelectInput.tsx:171-179 | from the last entry to no highlight, else one down but never past the last entry (a highlight past the end moves to the last entry); stays within -1 and the last entry |
| SelectInput.ArrowDownCycles | src/components/SelectInput.tsx:171-179 | from no highlight, the k-th ArrowDown highlights entry k-1, and the (len+1)-th returns to no highlight |
| SelectInput.DownPressesLast | src/components/SelectInput.tsx:171-179 | k presses are k-1 presses followed by one more |
| SelectInput.ArrowUpStopsAtTop | src/components/SelectInput.tsx:162-170 | from no highlight, the k-th ArrowUp highlights entry len-k and then stays at 0; it never wraps |
| SelectInput.UpPressesLast | src/components/SelectInput.tsx:162-170 | k presses are k-1 presses followed by one more |
| SelectInput.IndexOf | src/components/SelectInput.tsx:244 | `findIndex`: -1 iff absent, otherwise the index of the first equal option |
| SelectInput.ComboBox.constructor | src/components/SelectInput.tsx:44-86 | mounting: closed, no highlight, the text is the value when it is an option and "" otherwise, and the filter effect has run |
| SelectInput.ComboBox.FilteredWithinOptions | src/components/SelectInput.tsx:77-86 | the filtered list is never longer than the options |
| SelectInput.ComboBox.FilteredAreOptions | src/components/SelectInput.tsx:79-81 | every filtered entry is an option |
| SelectInput.ComboBox.Type | src/components/SelectInput.tsx:89-101 | typing sets the text, opens the list, reports the text, and highlights 0 for non-empty text and -1 for empty text |
| SelectInput.ComboBox.Clear | src/components/SelectInput.tsx:104-110 | the clear button (in the two modes with a text field) empties the text, reports "", and the filter shows all options; the list ends closed in 'input-only' mode and open in 'both' mode, where focusing the field reopens it (line 352) |
| SelectInput.ComboBox.Apply | src/components/SelectInput.tsx:113-150 | carrying out an outcome reports it, shows its text, and closes the list unless nothing happened |
| SelectInput.ComboBox.Submit | src/components/SelectInput.tsx:113-150 | a form submit (only the two modes with a form) reports and shows the outcome of `ResolveSubmit` on the state before it, and closes the list unless nothing happened |
| SelectInput.ComboBox.PressEnter | src/components/SelectInput.tsx:153-159 | Enter in a mode with a form: on an open list, the outcome of `ResolveEnter`; on a closed list, the key opens it and the form's implicit submission carries out `ResolveSubmit`; the list stays open only when nothing happened |
| SelectInput.ComboBox.KeyDown | src/components/SelectInput.tsx:153-230 | closed: only Enter and space open the list. Open: the arrows move the highlight as `ArrowUpIndex`/`ArrowDownIndex`; Enter carries out `ResolveEnter`; Escape closes and restores the confirmed value if it is an option; Tab closes; other keys change nothing |
| SelectInput.ComboBox.ClickOption | src/components/SelectInput.tsx:255-264 | clicking a shown entry reports it (custom exactly when it equals the typed text), shows it and closes the list |
| SelectInput.ComboBox.Toggle | src/components/SelectInput.tsx:313 | a click on the select-only field or an indicator flips the list |
| SelectInput.ComboBox.Open | src/components/SelectInput.tsx:339-344 | a click on the 'both'-mode field (or focus) opens the list and never closes it |
| SelectInput.ComboBox.Touch | src/components/SelectInput.tsx:241-247 | a touch flips the list; opening it highlights the index of the confirmed value |
| SelectInput.ComboBox.TouchIndicator | src/components/SelectInput.tsx:327-331 | a touch on the select-only indicator leaves the list as it was (its own toggle is undone by the field's touch handler), but highlights the confirmed value if closed |
| SelectInput.ComboBox.SyncValue | src/components/SelectInput.tsx:65-74 | a new `value` that is an option becomes the text; an empty one clears it; a custom one leaves the text alone |
| SelectInput.HapMatchesHappy | src/components/SelectInput.tsx:80 | "Happy" matches "hap" ignoring case |
| SelectInput.NameFieldReportsUndefined | src/components/SelectInput.tsx:162-208 | in the name field's configuration (typing only, no options): typing "a", deleting it, ArrowUp and Enter report `undefined` |
| SelectInput.SubmitSelectsSingleMatch | src/components/SelectInput.tsx:122-126 | with options Happy and Sad, typing "hap", Escape and Enter submit the form, which reports and shows "Happy" |
| Comfy.Substitute | src/ai/comfy.ts:34-38 | ECMAScript's GetSubstitution for a string pattern (`$$`, `$&`, `` $` ``, `$'`); `LiteralSubstitution` and `ReplacementPatternsExpand` state what it inserts |
| Comfy.LiteralSubstitution | src/ai/comfy.ts:34-38 | a replacement with no `$` pattern is inserted unchanged |
| Comfy.ReplaceFirst | src/ai/comfy.ts:34-38 | `replace` leaves the text alone when the pattern is absent, and otherwise rewrites only the first occurrence, with the patterns expanded |
| Comfy.ReplaceAll | src/ai/comfy.ts:32-38 | the chained `replace` calls, left to right; `ReplaceTwice` and `FillInAnyOrder` state what the chain does |
| Comfy.Workflow | src/ai/comfy.ts:31-40 | `createTextToImageWorkflow`'s replacements; `WorkflowFillsEachPlaceholder` states the fill and the capture lemmas what happens with `$` in a value |
| Comfy.AlcoholText | src/ai/comfy.ts:38 | `${alcohol}%` ends in `%`, the text before it reads back as the number, and it holds no `$` |
| Comfy.NoDollarIsLiteral | src/ai/comfy.ts:34-38 | a value without `$` is inserted literally |
| Comfy.ReplaceTokenAfter | src/ai/comfy.ts:34-38 | a `$` token after `$`-free text is replaced in place by a literal value |
| Comfy.LookupFinds | src/ai/comfy.ts:34-38 | among distinct placeholders, the k-th one receives the k-th value |
| Comfy.LookupOfPlainText | src/ai/comfy.ts:34-38 | text without `$` is no placeholder and stays itself |
| Comfy.InterleaveSplit | src/ai/comfy.ts:34-38 | a template cut at one slot is the part before it, the slot and the part after it |
| Comfy.NoEarlyOccurrence | src/ai/comfy.ts:34-38 | a placeholder does not occur inside plain text and other placeholders none of which is its prefix |
| Comfy.ReplaceSlot | src/ai/comfy.ts:34-38 | one `replace` of the placeholder in a slot fills exactly that slot when nothing before it can match |
| Comfy.ArrangedClearBefore | src/ai/comfy.ts:34 | before the slot of the first placeholder replaced, nothing can match it |
| Comfy.ArrangedStep | src/ai/comfy.ts:34-38 | after the first placeholder is filled, the rest of the template is arranged for the remaining placeholders, and every slot is still bound for the same value |
| Comfy.FillInAnyOrder | src/ai/comfy.ts:31-40 | replacing the placeholders one after the other, whatever order the template holds them in, fills every slot with the value of its own placeholder |
| Comfy.PlaceholdersFormFamily | src/ai/comfy.ts:34-38 | the five placeholders are `$` tokens, none a prefix of another |
| Comfy.WorkflowFillsEachPlaceholder | src/ai/comfy.ts:31-40 | a template holding the five placeholders once each, in any order, with `$`-free text before the last one, and field values without `$`, becomes the template with each placeholder's field text in its place |
| Comfy.TestOrderIsArrangement | src/ai/comfy.test.ts:14-18 | the test's node order (name, MBTI, zodiac, mood, alcohol) holds each placeholder once |
| Comfy.WorkflowInTestOrder | src/ai/comfy.test.ts:14-18 | in a template in the test's node order, the nodes receive the name, MBTI, zodiac, mood and alcohol text |
| Comfy.AlcoholTextOfForty | src/ai/comfy.test.ts:18 | 40 becomes "40%" |
| Comfy.WorkflowOnTestRequest | src/ai/comfy.test.ts:13-18 | in a template in the test's node order, the test request's name, MBTI and "40%" land in nodes "57", "58" and "61" |
| Comfy.ReplaceTwice | src/ai/comfy.ts:34-35 | two chained `replace` calls are the first replacement followed by the second |
| Comfy.PlaceholderInValueIsLiteral | src/ai/comfy.ts:34 | a value holding `$ZODIAC` has no replacement pattern in it |
| Comfy.CaptureFirstStep | src/ai/comfy.ts:34 | the first token is replaced by a value that holds the second token |
| Comfy.CaptureByEarlierValue | src/ai/comfy.ts:34-35 | a value holding a later token has that token filled by the later replacement, and the template's own later token stays |
| Comfy.EarlierValueCapturesLaterPlaceholder | src/ai/comfy.ts:34-35 | an MBTI text containing `$ZODIAC` receives the zodiac, and the template's own `$ZODIAC` is left unreplaced |
| Comfy.ReplacementPatternsExpand | src/ai/comfy.ts:37 | a name `<$&>` is inserted as `<$NAME>`: `replace` expands patterns in user text |
| Comfy.ViewUrlRoundTrip | src/ai/comfy.ts:127-129 | a view URL reads back as its file name and type when the file name holds no `&` |
| Comfy.ViewUrl | src/ai/comfy.ts:127-129 | `generateImageUrl`: the view URL of a file name and type; `ViewUrlRoundTrip` shows it reads back |
| Comfy.ParseViewUrl | src/ai/comfy.ts:127-129 | whatever it reads from a URL gives back that URL under `ViewUrl` (the other direction of `ViewUrlRoundTrip`) |
| Comfy.ExtractCard | src/ai/comfy.ts:119-126 | a card exactly when slots "89" and "109" each have an image; otherwise a `TypeError` |
| Comfy.ExtractCardUsesFirstImages | src/ai/comfy.ts:119-126 | the front and back URLs lead back to the first image of slot "89" and of slot "109" |
| Comfy.PollFrom | src/ai/comfy.ts:81-109 | the loop never reads past the answers it has; it runs out of answers only with attempts left; a transport error comes from the last answer read |
| Comfy.Caught | src/ai/comfy.ts:110-115 | the `catch` rethrows a transport error as an `Error` whose message is exactly "API请求失败: " followed by the error's message, and anything else unchanged |
| Comfy.CatchOutcome | src/ai/comfy.ts:110-115 | only a thrown outcome changes, it still throws, and no transport error is left |
| Comfy.Generation | src/ai/comfy.ts:61-116 | never more status requests than answers given; no transport error escapes; a failed submission throws the prefixed message with no status request |
| Comfy.GenerateImage | src/ai/comfy.ts:61-116 | the `while` loop ends with the outcome and request count of `Generation` |
| Comfy.NotFoundStep | src/ai/comfy.ts:87-92 | one "no record yet" answer with attempts left costs one attempt and one request, and polling goes on |
| Comfy.NotFoundPrefix | src/ai/comfy.ts:87-92 | any run of n "no record yet" answers costs n attempts and n requests, and polling goes on after them |
| Comfy.NotFoundCountsOnce | src/ai/comfy.ts:87-92 | each "no record yet" answer uses one attempt and one request |
| Comfy.KeepsPollingPrefix | src/ai/comfy.ts:87-107 | answers that keep the loop going (no record yet, or not a success) are read one request each, with the attempts they use, before the rest |
| Comfy.GenerationAfterPrefix | src/ai/comfy.ts:61-116 | after such answers, the generation ends as the loop on the remaining answers, with their requests added |
| Comfy.SucceededRecordEnds | src/ai/comfy.ts:95-100 | a successful record ends the loop after one request: the card from its outputs, or the "no output" error without outputs |
| Comfy.SuccessAfterPolling | src/ai/comfy.ts:82-115 | any answers that keep polling, within the attempt limit, followed by a success: the card (or the "no output" error) after exactly one request more than those answers |
| Comfy.PollsUntilSuccess | src/ai/comfy.ts:95-98 | n "no record" answers then a success: the card, after exactly n+1 requests |
| Comfy.TimeoutAfterMaxAttempts | src/ai/comfy.ts:82-109 | when the next answers all use an attempt, the loop throws the timeout after exactly the attempts left |
| Comfy.DefaultLimitTimesOut | src/ai/comfy.ts:68 | with the default limit of 60, sixty "no record" answers end in the timeout after sixty requests |
| Comfy.GenerationTimesOut | src/ai/comfy.ts:82-109 | with maxAttempts never-completing answers, the client reports the timeout after exactly maxAttempts requests |
| Comfy.FailedRecordUsesNoAttempt | src/ai/comfy.ts:103-106 | a completed record that did not succeed uses a request but no attempt |
| Comfy.FailedRecordsNeverEnd | src/ai/comfy.ts:95-107 | completed-but-failed records never end the loop, however many arrive |
| Comfy.TimeoutMeansAttemptsUsedUp | src/ai/comfy.ts:81-109 | a timeout means the answers read used up exactly the attempts left |
| Comfy.ReturnedOnlyOnSuccess | src/ai/comfy.ts:95-99 | a card is returned only for a successful record with outputs, read last, while attempts were left |
| Comfy.TransportFailuresAreWrapped | src/ai/comfy.ts:110-115 | no transport error escapes unwrapped; a failed submission reaches the caller as the prefixed message |
| InputPage.WithField | src/pages/InputPage.tsx:95-99 | editing a field sets it to the new value and leaves every other field unchanged |
| InputPage.WithOwnValue | src/pages/InputPage.tsx:95-99 | writing back a field's own value changes nothing |
| InputPage.LaterEditWins | src/pages/InputPage.tsx:95-99 | of two edits of one field, the later wins |
| InputPage.Forwarded | src/pages/InputPage.tsx:131-135 | the name box's report reaches the form as its string, and `undefined` as `undefined` |
| InputPage.AsRequest | src/pages/InputPage.tsx:41 | a complete form is stored with exactly its field texts and alcohol |
| InputPage.RequiredFieldErrors | src/pages/InputPage.tsx:14-28 | with a string name: the name is flagged iff it trims to "", MBTI, mood and zodiac iff falsy (empty or `undefined`); alcohol never; every flag is `true` |
| InputPage.FlagsDetermined | src/pages/InputPage.tsx:14-28 | the flags are fully determined by which fields are missing |
| InputPage.NoErrorsIffComplete | src/pages/InputPage.tsx:30-31 | no flag iff the name has a non-whitespace character and MBTI, mood and zodiac are set and non-empty |
| InputPage.WhitespaceNameFlagged | src/pages/InputPage.tsx:17-19 | the name is flagged iff it is all whitespace (or empty) |
| InputPage.UndefinedChoiceFlagged | src/pages/InputPage.tsx:20-28 | an `undefined` MBTI, mood or zodiac is flagged and blocks the start |
| InputPage.ClearedError | src/pages/InputPage.tsx:100-105 | same flagged fields; the edited field's flag ends up false; the other flags are unchanged |
| InputPage.RecordKey | src/pages/InputPage.tsx:41 | the key `userData-<time>`; `RecordKeyReadsBack` and `RecordKeyInjective` specify it |
| InputPage.RecordKeyReadsBack | src/pages/InputPage.tsx:41 | the key is `userData-` followed by text that reads back as the time |
| InputPage.RecordKeyInjective | src/pages/InputPage.tsx:41 | different start times give different keys |
| InputPage.ActiveJob | src/pages/LoadingPage.tsx:14-15 | no active job iff the queue is empty; the active job is a queued one |
| InputPage.ActiveRecord | src/pages/LoadingPage.tsx:14-16 | the stored attributes of the last queued job; `StartedJobIsActive` and `OtherRecordsKept` state what a start does to it |
| InputPage.StartedJobIsActive | src/pages/LoadingPage.tsx:14-16 | after a start, the new time is the active job and its stored record is the started attributes |
| InputPage.OtherRecordsKept | src/pages/InputPage.tsx:41 | storing a job's record leaves the records of other times as they were |
| InputPage.InputForm.constructor | src/pages/InputPage.tsx:50-56 | a fresh form: empty texts, alcohol 10, no flags |
| InputPage.InputForm.ValidateForm | src/pages/InputPage.tsx:14-32 | an `undefined` name throws a `TypeError` and leaves the flags; otherwise the flags are replaced by exactly `RequiredFieldErrors`, and the result is true iff no field is missing |
| InputPage.InputForm.HandleInputChange | src/pages/InputPage.tsx:95-106 | the record becomes `WithField` of the edit, and the flags become `ClearedError` |
| InputPage.InputForm.HandleStart | src/pages/InputPage.tsx:34-44 | complete: the time is appended to the queue (earlier entries kept), the attributes are stored under its key, and it becomes the active job. Otherwise queue and records unchanged. The flags are the new check's, except that an `undefined` name throws and leaves them |
| InputPage.TestAttributesStart | src/pages/InputPage.tsx:34-44 | a fresh form with its text fields filled starts, and the new time is the active job |
| InputPage.BlankNameBlocksStart | src/pages/InputPage.tsx:17-19 | a name of spaces blocks the start, flags the name and queues nothing |
| InputPage.UndefinedNameThrowsOnStart | src/pages/InputPage.tsx:17 | a name the box reported as `undefined` makes the start button throw: no flag, nothing queued, no navigation |

## Left out

- HTTP is not modelled: the axios POST of the job and the GET of its history are left out. The submission result is a given `Submission`. The history answers are a given finite sequence of `PollResponse`, and a transport failure is an abstract `PollFailed`. The upload code in `LoadingPage.tsx` is not part of this model.
- Timers are not modelled: the poll interval (`setTimeout`), the welcome-screen idle timer and the fake one-second result in the loading screen.
- Comfy.PollFrom: when the given answers run out while the loop would request again, the outcome is `Pending`. The real loop would keep polling; whether it ends depends on the server.
- Comfy.Workflow: the template is opaque text. `JSON.stringify`/`JSON.parse` and the template file `prompt.json` are not part of this model. A value holding a quote or backslash would break the JSON parse; that is not modelled.
- Comfy.WorkflowFillsEachPlaceholder: assumes the template holds each placeholder exactly once, in some order, with no other `$` before the last one, and that no field value holds a `$`. A value with `$` can expand a replacement pattern (`ReplacementPatternsExpand`) or be captured by a later placeholder (`EarlierValueCapturesLaterPlaceholder`). `prompt.json` is not part of this model, so this shape is assumed, not checked. `WorkflowOnTestRequest` further assumes the order of the test's nodes "57" to "61".
- Strings.Lower: lower-cases ASCII letters only, whereas JavaScript's `toLowerCase` is Unicode-wide. The options here are Chinese text and upper-case ASCII MBTI codes, which this covers.
- Strings.IntToString: renders integers only, always in full. Alcohol strengths and timestamps are integers in this app; fractional numbers are not modelled. JavaScript uses exponent form from 10^21 on, which no alcohol strength or timestamp reaches.
- Comfy.ExtractCard: an output slot without an `images` array cannot be represented. Every slot is its list of images.
- SelectInput.Pick: `undefined` shown as the text is stored as "". The truthiness tests on the text cannot tell the two apart. The click handler compares an option with the text, which is false for both since no option is empty. The input box shows the text as its value; there the value-sync effect sets it to "" once the parent stores the `undefined` it was sent.
- SelectInput.ComboBox.Clear: assumes the click moved the focus from the text field to the button, as desktop Chrome and Firefox do. In a browser that keeps the focus in the field, the 'both'-mode list stays closed.
- SelectInput.ComboBox.SyncValue: the value-sync effect is a separate method the parent invokes. On the input screen the option arrays are rebuilt on every render, so the effect runs after every parent render.
- Stale callback across components: the combo box's typing handler is memoised with no dependencies, so it always calls the first render's `onChange`. On the input screen that callback sees the initial, empty error map, so typing never clears an error flag. The model treats each component on its own, so this is not captured.
- The outside-click listener, focus handling, scrolling the highlighted entry into view, rendering and styling are not modelled.
- InputPage.InputForm.HandleInputChange: requires the value to fit the field: a string or `undefined` for the four text fields, a number for alcohol. That is what every caller on the input screen passes. `NumberInput`'s range clamping is done by the browser and is not modelled.
- InputPage.InputForm: the browser's key-value store is modelled by the parsed queue and the attribute records. An absent queue entry reads as the empty queue. The stored results of the loading screen are not part of this model.
- `src/App.tsx` (an older demo screen) is not part of this model, nor are the router, the card flip, buttons, videos and fullscreen handling.
- The assertions of the repository's test on `star` and `emoji` use fields the request type does not have, so `WorkflowOnTestRequest` leaves zodiac and mood open.
