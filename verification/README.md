# YaavRaga raga guesser: a Dafny model

YaavRaga lets a listener pick the notes of a Hindustani raga's ascent (aroha) and
descent (avaroha) on a three-octave keyboard, posts them to `POST /api/guess-raga`,
and shows the identification that comes back on a card. This project models:

- the keyboard's note catalog (`Notes`): 25 keys from Pa of the lower octave (G3)
  to Pa of the upper octave (G5), one per semitone, in pitch order;
- the note selector (`Selection`, over the generic `Sorting` module): the toggle
  that filters a present id out or appends an absent one and stably re-sorts the
  list by catalog position (ascending in aroha, descending in avaroha), the mode
  switch, "Clear", the submit-enable rule and what "Identify Raga" hands on;
- the handler (`Route`): input validation, the user prompt, the offline
  placeholder used when no API key is set, the choice of the model reply part,
  fence stripping and brace slicing, the parse-failure path, the merge of video
  links and `_debug`, and the catch-all 500;
- the card's confidence style (`Confidence`);
- the wiring between them (`Flow`).

`Text` models the JavaScript string operations the handler and the card rely on: `trim`,
`toLowerCase`, `includes`, `indexOf`, `lastIndexOf`, `substring`, `join`, and a
global replace of a marker followed by `\s*`. `Wrappers` holds `Option`.

The handler is a pure function. These arrive as inputs: the request body, the API
key as read from the environment, the fixed system prompt, the model's reply (a
failure or the parts of the first candidate), `JSON.parse` (any function from
text to an optional JSON value), and the list of videos the search returned.
Any exception becomes `Err(500, "Internal Server Error")`, as the catch-all does.

Facts about the code that a reader might not expect:

- The catalog has 25 keys, from `m_P` to `t_P`.
- The prompt carries the raw note ids (`m_P`, `S`, `t_r`), not their swara or
  Western labels.
- The handler builds no article links. The placeholder's single article is a
  constant.
- An empty array is truthy in JavaScript, so a request with `aroha: []` passes
  validation. Only the selector's disabled button keeps empty lists from being sent.

## Model

| member | source | states |
|---|---|---|
| Notes.CatalogIsChromatic | src/components/NoteSelector.tsx:18-49 | The catalog has 25 keys; key i sounds MIDI note 55 + i, so array order is strictly rising pitch order from G3 to G5 |
| Notes.BlackKeysAreSharps | src/components/NoteSelector.tsx:18-49 | A key is black exactly when its Western name holds a sharp |
| Notes.IdShape | src/components/NoteSelector.tsx:18-49 | Every id is its octave's prefix (`m_`, none, `t_`) followed by the letter naming its pitch class, in pitch order within the octave |
| Notes.CatalogOctaves | src/components/NoteSelector.tsx:18-49 | Keys 0 to 4 are the lower octave, 5 to 16 the middle one and 17 to 24 the upper one |
| Notes.CatalogIdsDistinct | src/components/NoteSelector.tsx:18-49 | No two keys share an id |
| Notes.CatalogIdPlain | src/components/NoteSelector.tsx:18-49 | Every catalog id is non-empty and has no comma and no line break |
| Notes.FindIndexIn | src/components/NoteSelector.tsx:116-117 | `findIndex` gives the first position holding the id, or -1 exactly when no entry has it |
| Notes.RankOfCatalog | src/components/NoteSelector.tsx:116-117 | The sort index of a catalog key is its own position |
| Notes.RankInjective | src/components/NoteSelector.tsx:116-117 | Two ids with the same non-negative sort index are the same id |
| Notes.Lookup | src/components/NoteSelector.tsx:108 | `find` gives a catalog note with that id exactly when one exists |
| Sorting.SortByKey | src/components/NoteSelector.tsx:115-124 | The comparator sort leaves the list ordered by key and is a permutation of its input |
| Sorting.SortSorted | src/components/NoteSelector.tsx:115-124 | Sorting an already ordered list changes nothing |
| Sorting.SortInsertsOne | src/components/NoteSelector.tsx:115-124 | Sorting an ordered list with one id appended places that id at its stable position and moves nothing else |
| Sorting.Remove | src/components/NoteSelector.tsx:112 | `filter` removes every occurrence of the id and changes no other id's count |
| Sorting.RemoveAt | src/components/NoteSelector.tsx:112 | In a list without duplicates, filtering out the id at position k deletes exactly that position |
| Selection.ToggleRemoves | src/components/NoteSelector.tsx:111-112 | Toggling a present id removes it and nothing else; on an ordered list the rest keep their order |
| Selection.ToggleInserts | src/components/NoteSelector.tsx:113-125 | Toggling an absent id adds exactly that id and leaves the list sorted for the mode; a catalog id keeps the list strictly ordered |
| Selection.TogglePreservesCanonical | src/components/NoteSelector.tsx:107-127 | On a strictly ordered list a catalog toggle keeps it strictly ordered and changes its length by one |
| Selection.ReAddRemoved | src/components/NoteSelector.tsx:107-127 | Removing a selected key and pressing it again restores the list |
| Selection.RemoveAdded | src/components/NoteSelector.tsx:107-127 | Adding an unselected key and pressing it again restores the list |
| Selection.ToggleTwice | src/components/NoteSelector.tsx:107-127 | Pressing the same key twice restores a strictly ordered list exactly, for any id |
| Selection.SetNotes | src/components/NoteSelector.tsx:104-105 | The setter for the current mode replaces that mode's list and leaves the other list and the mode unchanged |
| Selection.EditsStayInMode | src/components/NoteSelector.tsx:104-105 | A key press changes only the current mode's list, and changes it by the toggle |
| Selection.ClearEmptiesCurrent | src/components/NoteSelector.tsx:199 | "Clear" empties the current mode's list and leaves the other list alone |
| Selection.SubmitDisabled | src/components/NoteSelector.tsx:207 | Submitting is off on first render, while a request is in flight and right after "Clear"; when it is on, both lists are non-empty |
| Selection.ToggleKeepsCatalog | src/components/NoteSelector.tsx:107-127 | A catalog key press on a list of catalog ids leaves only catalog ids |
| Selection.StepValid | src/components/NoteSelector.tsx:107-127 | A catalog key press, a clear or a mode switch keeps aroha strictly ascending, avaroha strictly descending, and all ids in the catalog |
| Selection.RunValid | src/components/NoteSelector.tsx:107-127 | After any sequence of interactions from the first render, both lists stay ordered for their mode and hold only catalog ids |
| Confidence.Classify | src/components/RagaCard.tsx:10-12 | The style is medium iff the lower-cased text contains "medium", high iff it contains "high" but not "medium", and low otherwise |
| Confidence.ClassifyIgnoresCase | src/components/RagaCard.tsx:10-12 | The style depends only on the lower-cased text |
| Confidence.MediumAt | src/components/RagaCard.tsx:12 | Text with "medium" anywhere, in any case, gets the medium style |
| Confidence.MediumBeatsHigh | src/components/RagaCard.tsx:11-12 | Any text mentioning both "high" and "medium", in any case, gets the medium style, since that check runs last |
| Confidence.MediumBeatsHighExample | src/components/RagaCard.tsx:11-12 | For example "High or Medium" gets the medium style |
| Confidence.LowWithoutHOrE | src/components/RagaCard.tsx:10-12 | Text with no 'h' and no 'e', ignoring case, gets the low style |
| Confidence.MockConfidenceIsLow | src/components/RagaCard.tsx:10-12 | The placeholder's "Low (Mock)" gets the low style |
| Text.TrimEmptyIff | src/app/api/guess-raga/route.ts:184 | `trim` gives the empty string exactly when the text is all whitespace |
| Text.TrimKeeps | src/app/api/guess-raga/route.ts:184 | `trim` keeps every non-whitespace character |
| Text.ContainsIff | src/app/api/guess-raga/route.ts:258 | `includes` holds exactly when the pattern occurs at some position |
| Text.IndexOf | src/app/api/guess-raga/route.ts:276 | `indexOf` finds the first occurrence, or -1 exactly when the character is absent |
| Text.IndexOfAt | src/app/api/guess-raga/route.ts:276 | `indexOf` is the position holding the character with no earlier occurrence |
| Text.LastIndexOf | src/app/api/guess-raga/route.ts:277 | `lastIndexOf` finds the last occurrence, or -1 exactly when the character is absent |
| Text.JsSubstring | src/app/api/guess-raga/route.ts:280 | `substring` gives the slice between its arguments in either order |
| Text.SplitJoin | src/app/api/guess-raga/route.ts:180 | `join` with ", " is undone by splitting, given non-empty items without a comma |
| Text.StripMarkerKeeps | src/app/api/guess-raga/route.ts:273 | The global marker replace removes no character that is neither whitespace nor in the marker |
| Text.StripMarkerPrefix | src/app/api/guess-raga/route.ts:273 | Text free of the marker's first character passes the global replace verbatim and in order, whatever follows it |
| Text.StripMarkerAbsent | src/app/api/guess-raga/route.ts:273 | Text without the marker's first character passes the replace unchanged |
| Text.NoFenceLeft | src/app/api/guess-raga/route.ts:273 | After the global replace of "```" with its trailing whitespace, no "```" is left anywhere in the text |
| Route.Handle | src/app/api/guess-raga/route.ts:173-178 | 400 exactly when a list is missing or falsy; every other error is the catch-all 500; success only for two arrays |
| Route.ParsePromptOf | src/app/api/guess-raga/route.ts:180 | The prompt's first line break ends the aroha text, and the text after the avaroha header is the avaroha text |
| Route.PromptRoundTrip | src/app/api/guess-raga/route.ts:180 | The prompt carries both lists unchanged and in order: parsing it back gives exactly the lists sent |
| Route.StripOctaveKeepsPitchClass | src/app/api/guess-raga/route.ts:192 | Every catalog key maps to the middle-octave key of the same pitch class |
| Route.MiddleOctaveOfClass | src/app/api/guess-raga/route.ts:192 | Two keys map to the same middle-octave key exactly when their catalog positions differ by a multiple of 12 |
| Route.MockOctaveInvariant | src/app/api/guess-raga/route.ts:192-199 | Two arohas whose keys agree in pitch class position by position strip to the same letters and get the same placeholder name and body |
| Route.MockRagaName | src/app/api/guess-raga/route.ts:194-199 | Yaman iff M, N and R occur; Alhaiya Bilawal iff not Yaman and R, G, D and N occur; else unknown |
| Route.MockExamples | src/app/api/guess-raga/route.ts:194-199 | S R G M P D N reads as Yaman; with natural Ma it reads as Alhaiya Bilawal |
| Route.MockIgnoresEverythingElse | src/app/api/guess-raga/route.ts:186-212 | Without a key the placeholder for the aroha is returned, whatever the reply, parser and videos, with confidence "Low (Mock)" |
| Route.QualifiesIffBraces | src/app/api/guess-raga/route.ts:255-263 | A part qualifies exactly when its text holds both braces; the blank and bare-fence checks never reject more |
| Route.FirstWhere | src/app/api/guess-raga/route.ts:255-263 | The loop with `break` stops at the first element passing the test; -1 exactly when none passes |
| Route.FirstQualifying | src/app/api/guess-raga/route.ts:255-263 | The chosen part is the first that qualifies; -1 exactly when none does |
| Route.LaterPartsIgnored | src/app/api/guess-raga/route.ts:255-263 | Once a part qualifies, appending parts changes neither the choice nor the text |
| Route.NoUsablePartFails | src/app/api/guess-raga/route.ts:265-268 | With a key, no part holding both braces means a 500 |
| Route.StripFencesKeepsBraces | src/app/api/guess-raga/route.ts:273 | Fence stripping neither adds nor removes a brace |
| Route.StripFencesKeeps | src/app/api/guess-raga/route.ts:273 | Fence stripping keeps the number of occurrences of any non-space character that is not part of a marker |
| Route.StripFencesPlain | src/app/api/guess-raga/route.ts:273 | A reply without a backtick passes fence stripping unchanged |
| Route.StripFencesRemovesFences | src/app/api/guess-raga/route.ts:273 | After fence stripping no "```" remains, so neither "```json" nor "```" survives |
| Route.FencedPayloadKept | src/app/api/guess-raga/route.ts:273 | A payload fenced as "```json" … "```" comes out verbatim between the text before the opening fence and the text after the closing one; only the fences and the whitespace after each go |
| Route.FencedObjectSanitized | src/app/api/guess-raga/route.ts:270-287 | A JSON object in a "```json" fence, with prose around it that holds no brace, reaches `JSON.parse` exactly as written |
| Route.FencedReplyExample | src/app/api/guess-raga/route.ts:270-287 | Example: the reply "Here is the result:\n```json\n{\"a\":1}\n```\nThanks" is handed to the parser as `{"a":1}` |
| Route.FallbackMatch | src/app/api/guess-raga/route.ts:282-285 | The regex fallback gives exactly the span from the first '{' to the last '}' when that '}' comes later, and nothing exactly when no '{' precedes a '}' |
| Route.SanitizeSpan | src/app/api/guess-raga/route.ts:276-287 | On a chosen text both braces survive stripping, so the regex fallback never runs and the parser gets the `substring` from the first '{' to just after the last '}' |
| Route.BraceSpanInOrder | src/app/api/guess-raga/route.ts:276-280 | When the first '{' precedes the last '}', the slice is the inclusive span between them, starting with '{' and ending with '}' |
| Route.BraceSpanCrossed | src/app/api/guess-raga/route.ts:276-280 | When the last '}' precedes the first '{', `substring` swaps its arguments and the slice holds no brace at all |
| Route.ParseFailureFails | src/app/api/guess-raga/route.ts:290-297 | With a key, text that does not parse gives a 500 and never a partial result |
| Route.Merge | src/app/api/guess-raga/route.ts:303-317 | Found videos replace `youtubeLinks`, an empty list keeps the model's links, `_debug` is set, and every other field is untouched |
| Route.Answer | src/app/api/guess-raga/route.ts:335-340 | Every failure on the model path is the catch-all 500 |
| Route.EnrichedAnswer | src/app/api/guess-raga/route.ts:299-333 | With a key and a parsed object, the answer is that object merged: links replaced iff videos were found, an absent `youtubeLinks` left absent otherwise, `_debug` recording prompt, raw text, model and video use, and no other key added or changed |
| Route.NonObjectAnswer | src/app/api/guess-raga/route.ts:299-317 | With a key, a parsed array is answered unchanged and a parsed null, boolean, number or string gives a 500 |
| Flow.CatalogListPromptSafe | src/components/NoteSelector.tsx:18-49 | A list of catalog ids always survives the prompt text |
| Flow.EnabledSubmitPosts | src/components/NoteSelector.tsx:204-210 | When "Identify Raga" is enabled after any clicks, it is not loading and `handleGuess` (lines 129-131) hands on two non-empty lists of catalog ids, aroha strictly ascending and avaroha strictly descending; the page posts them as the request body (src/app/page.tsx lines 27-31) and the handler never answers 400 |
| Flow.SubmittedNeverMissing | src/app/page.tsx:27-31 | A posted selection is never refused with 400, even when empty; with a key it goes down the model path |
| Flow.ClickedPromptRoundTrip | src/components/NoteSelector.tsx:129-131 | After any clicks, the prompt built from the submitted lists carries them exactly as the selector holds them |
| Flow.OfflineCardIsLow | src/app/api/guess-raga/route.ts:204 | Without a key, whatever was selected, the card shows the placeholder's confidence in the low style |

## Left out

- The system prompt's text is the `Config.systemPrompt` parameter. Its content is instructions to the model and has no behaviour to model.
- The model call (`fetch`, HTTP status, response JSON) is the `Reply` input. A non-OK response and a network error are both `Failed`.
- `JSON.parse` is a parameter. No JSON grammar is modelled, and JSON key order is not modelled either (objects are maps).
- The video search in `src/utils/youtube.ts` is the `videos` input. Its own API key, query and error handling are not part of this model.
- Logging, the one-second delay before the placeholder, and the `console` output are left out; none affects the response.
- Text: whitespace and lower-casing are ASCII only. JavaScript's `trim`, `\s` and `toLowerCase` also cover Unicode characters.
- Route.Handle: arrays holding non-strings, and objects whose own `join` or `map` does not throw, are not modelled. A list is either an array of strings or a value on which `join` throws. A `null` body, whose destructuring throws, is the `Unreadable` request, like a body that is not JSON.
- Route.Qualifies: a part whose `text` is not a string (so `trim` would throw) is not modelled.
- Route.Reply: a `null` or `undefined` element of `parts` (on which `part.text` throws, so the answer is a 500) and a truthy `parts` that is not iterable (so the loop throws, also a 500) cannot be represented. A number, string or boolean element has no `text` and is skipped, which is `Part(None)`; a string `parts` iterates its characters, skips them all and ends on the no-part 500, which a list of `Part(None)` represents.
- The card does not enforce the prompt's rule that unverified answers are Low; it styles whatever text it receives.
- Rendering, styles, the audio sampler and the `playNote` side effect of a key press are left out.
- Selection: each click is applied to the latest state. The source's closures read the state of the last render, which is the same when clicks are rendered one at a time.
- The page's handling of the response (`setResult`, the alert, `_debug` logging) is left out apart from what `Flow` states about the card.
