# Japanese vocabulary notebook — a verified model

This project models the logic of a small Japanese-vocabulary web app in
Dafny and proves properties of it. The app has a development-server
plugin (`vite-plugin-api.js`) that keeps the saved words and converts
Japanese text to readings, and a React client (`src/`).

The model covers these parts:

- **Api** — the `/api/words` store and two pure decisions of the plugin.
  - The store is a class over one sequence of records, with GET, POST, DELETE and PUT and their route parsing.
  - The `/api/convert` reply selection.
  - The `/api/tts` text check and content-type normalisation.
- **Japanese** (`src/utils/japanese.js`):
  - `hasKanji`.
  - The romaji spacer `addSpacesToRomaji`: its early exits, four regular-expression passes, whitespace collapse and trim.
  - `fallbackConversion`'s success rule.
  - `processJapanese`'s routing between the server and the local converter.
- **Pipeline** — the client's `processJapanese` talking to the server's `/api/convert` handler.
- **WordForm** — the prefill of the form, and `handleSubmit`'s validation and record composition.
- **WordCard** — which text the play buttons speak, and which lines the card shows.
- **WordList** — the category filter, the list state and the screen selection.
- **App** — the modal and editing state of the shell.
- **Text**, **Seqs**, **Wrappers** and **Words** are support modules:
  - JavaScript `trim` and `\s`;
  - `Array.prototype.filter`;
  - `Option`;
  - the client's word record and the `Saved` invariant that every record from the form satisfies.

The foreign libraries are function parameters that return outcome
values. These are wanakana, kuroshiro, `fetch` and `decodeURIComponent`.
The two `Date.now()` calls of POST are two parameters, `nowId` and `nowCreated`,
so the id and the timestamp may differ. A JSON record is a map from field
names to a `Value`.

Behaviour worth noting:

- "densha" comes back from the romaji spacer unchanged. It is not split
  into syllables (`Japanese.DenshaExample`).
- When the chinese field is the reading source and conversion gives
  nothing, the form copies the trimmed chinese into `hiragana`,
  `katakana` and `romaji`.
- PUT merges the body into the stored record (`{...old, ...body}`). It
  does not replace the record.

## Model

| member | source | states |
|---|---|---|
| Japanese.HasKanji | src/utils/japanese.js:4-6 | true exactly when some character lies in U+4E00–U+9FAF or U+3400–U+4DBF |
| Japanese.KanjiSurvivesTrim | vite-plugin-api.js:337-346 | trimming never changes whether a text holds a kanji |
| Japanese.ClusterIff | src/utils/japanese.js:29-32 | the first pass's case-insensitive alternation matches exactly the listed three-letter clusters |
| Japanese.ReplaceAllInsertsSpaces | src/utils/japanese.js:29-38 | each global `$1 $2` pass only inserts single spaces into its input |
| Japanese.VowelPassSplits | src/utils/japanese.js:34-38 | one `$1 $2` vowel pass over a string with no doubled boundary (vowel, consonant, vowel, consonant, vowel) leaves no vowel directly before a consonant+vowel |
| Japanese.AddSpacesKeepsLetters | src/utils/japanese.js:14-44 | deleting whitespace from the spacer's output gives the input with its whitespace deleted |
| Japanese.AddSpacesSplitsSyllables | src/utils/japanese.js:27-41 | for input without a space the output has no whitespace at either end, never two spaces in a row, and no vowel directly before a consonant+vowel; for input without any whitespace every space also sits between the end of a syllable (a vowel or n) and a consonant, never inside a syllable |
| Japanese.AddSpacesBreaksSyllables | src/utils/japanese.js:29-38 | on whitespace-free input every space of the output has a vowel or n before it and a consonant after it, as each pass puts its space right before a `$2` that starts with a consonant |
| Japanese.ReplaceAllSpacedAtBreaks | src/utils/japanese.js:29-38 | each pass puts its spaces between a syllable end and a consonant and leaves the spaces already there at such breaks |
| Japanese.AddSpacesEmptyIff | src/utils/japanese.js:15-17 | the output is "" exactly when the input is empty or whitespace only |
| Japanese.AddSpacesKeepsSpaced | src/utils/japanese.js:20-22 | input containing a space comes back unchanged unless it is all whitespace |
| Japanese.AddSpacesIdempotentWhenSpaced | src/utils/japanese.js:20-22 | applying the spacer again to an output that contains a space changes nothing |
| Japanese.KanaExample | src/utils/japanese.js:34 | "kana" becomes "ka na" |
| Japanese.DenshaExample | src/utils/japanese.js:27-41 | "densha" matches no pass and comes back unchanged |
| Japanese.FallbackConversion | src/utils/japanese.js:110-133 | the result is three empty strings or the converter's own outputs, and never the input echoed three times |
| Japanese.FallbackFailsIff | src/utils/japanese.js:117-131 | the result is empty exactly when the converter throws or returns the input three times (or three empty strings) |
| Japanese.ProcessBlank | src/utils/japanese.js:52-58 | blank input gives three empty strings whatever the server or converter would do |
| Japanese.ProcessWithoutKanji | src/utils/japanese.js:96-99 | without a kanji the server reply is never consulted, and the result is the local fallback of the trimmed text |
| Japanese.ProcessWithKanji | src/utils/japanese.js:64-95 | with a kanji an OK reply is taken field by field, absent fields as ""; a non-OK reply or a thrown error gives the local fallback |
| Api.SplitJoin | vite-plugin-api.js:82 | joining the pieces of `url.split("/")` with "/" gives the URL back |
| Api.JoinSplit | vite-plugin-api.js:82 | splitting a join of slash-free pieces gives the pieces back |
| Api.RouteIdNone | vite-plugin-api.js:82-83 | the route id is null exactly when the URL is only slashes |
| Api.RouteIdIsLastSegment | vite-plugin-api.js:82-83 | a route id is a non-empty slash-free segment that starts the URL or follows a slash, with only slashes after it |
| Api.RouteIdTrailingSlash | vite-plugin-api.js:82-83 | a trailing slash does not change the route id |
| Api.RouteIdAfterLetter | vite-plugin-api.js:82-83 | a URL not ending in a slash has the text after its last slash as its id |
| Api.WithDefaults | vite-plugin-api.js:114-116 | every field of the body is kept; a truthy `id`/`createdAt` is kept, otherwise the first clock reading becomes the `id` (a string) and the second the `createdAt` |
| Api.WithDefaultsTruthy | vite-plugin-api.js:115-116 | a posted record always has a truthy `id`, and a truthy `createdAt` when the second clock reading is positive |
| Api.WithDefaultsKeepsComplete | vite-plugin-api.js:115-116 | a body with truthy `id` and `createdAt` is stored as sent; uniqueness is not checked |
| Api.WithDefaultsStable | vite-plugin-api.js:115-116 | posting an already posted record again changes nothing |
| Api.WithoutIdSpec | vite-plugin-api.js:138 | DELETE keeps exactly the records without the id, in order and with their multiplicities, and leaves the list unchanged when no record has it |
| Api.FirstIndex | vite-plugin-api.js:163 | `findIndex`: the first record with the id, or none when no record has it |
| Api.Merged | vite-plugin-api.js:166 | body fields override the stored ones and every other stored field is kept |
| Api.MergedIdempotent | vite-plugin-api.js:166 | repeating the same PUT body changes nothing more |
| Api.UpdateFirstSpec | vite-plugin-api.js:162-178 | PUT fails exactly when no record has the id; otherwise only the first match is replaced by the merge, the length and all other records are kept, and the reply is the merged record |
| Api.UpdateKeepsId | vite-plugin-api.js:163-166 | a PUT whose body does not change the id keeps the record findable at the same index |
| Api.WordStore.Post | vite-plugin-api.js:113-125 | appends exactly the defaulted record at the end and answers with it |
| Api.WordStore.Delete | vite-plugin-api.js:137-146 | the new list is the old one without the id's records |
| Api.WordStore.Put | vite-plugin-api.js:162-182 | unknown id: 404 and nothing written; unparsable body: 500 and nothing written; otherwise the first match merged |
| Api.WordStore.Handle | vite-plugin-api.js:81-187 | dispatch by verb and `isIdRoute`: GET lists, POST appends (500 and no write for an unparsable body), DELETE filters, PUT merges (404 for an unknown id, 500 and no write for an unparsable body), anything else is passed on with the list unchanged |
| Api.Convert | vite-plugin-api.js:326-427 | 400 exactly for a missing, empty or blank text; 500 for an unparsable body or a non-string text; non-empty readings only come from the analyser on trimmed text with a kanji, and a kanji text with a working analyser gets exactly the analyser's readings of the trimmed text |
| Api.ConvertEmptyReadings | vite-plugin-api.js:384-422 | text without a kanji, a failed analyser initialisation or a throwing conversion each give 200 with three empty strings |
| Api.ConvertReadings | vite-plugin-api.js:337-381 | a text with a kanji and a working analyser gets 200 with the analyser's three readings of the trimmed text |
| Api.AudioContentType | vite-plugin-api.js:251-273 | the result is always playable; a playable upstream type is kept; anything else becomes "audio/mpeg" |
| Api.AudioContentTypeIdempotent | vite-plugin-api.js:251-273 | normalising a normalised type changes nothing |
| Api.Tts | vite-plugin-api.js:193-316 | OPTIONS is the preflight; GET without text is 400; a GET with text is 500 exactly when `decodeURIComponent` throws or the request fails, passes a non-200 upstream status through, and otherwise streams audio with the normalised type; other verbs are passed on |
| Pipeline.AsSeenByClient | src/utils/japanese.js:77-90 | a 2xx reply carries the three readings and every other status is not OK |
| Pipeline.FixedFallsBack | vite-plugin-api.js:397-422 | with the empty-answer fallback, unreadable or kanji-free text gets the local readings and the analyser's non-empty readings are kept |
| Pipeline.EmptyAnswerNotFallenBack | src/utils/japanese.js:77-84 | for 食べる with a failed analyser, the code as written keeps three empty strings although the local converter has readings |
| WordForm.Prefill | src/components/WordForm.jsx:21-53 | editing fills every input from the word; adding clears the form |
| WordForm.PrefillSplitsByKanji | src/components/WordForm.jsx:24-30 | the word's Japanese goes to the kanji input exactly when it holds a kanji and to the kana input otherwise |
| WordForm.DeriveWordReadings | src/components/WordForm.jsx:100-188 | the Japanese is the first non-blank of kanji, kana and chinese, trimmed; readings follow the conversion (empty when it throws), the chinese fallback, and the edit-mode romaji override |
| WordForm.DeriveExample | src/components/WordForm.jsx:190-264 | a typed example Japanese is kept trimmed and only its romaji derived; otherwise hiragana, katakana or the example; the edit-mode example romaji overrides and spares the conversion |
| WordForm.DerivedIsSaved | src/components/WordForm.jsx:84-98 | every record built from a valid form has trimmed non-blank chinese, Japanese and example, a category and an example Japanese |
| WordForm.ResubmitKeepsWord | src/components/WordForm.jsx:21-279 | saving a saved word's prefilled form untouched is accepted and keeps its chinese, category, Japanese, example and note |
| WordForm.Submit | src/components/WordForm.jsx:79-279 | rejected exactly when chinese or example is blank or no category, flagging exactly those fields; otherwise creates, or updates with the edited word's id and createdAt, a record built by the rules and satisfying `Saved` |
| WordCard.FirstNonEmpty | src/components/WordCard.jsx:6-7 | `a \|\| b \|\| c`: the first non-empty item with only empty items before it, or none exactly when all are empty |
| WordCard.PlayTextChoice | src/components/WordCard.jsx:4-10 | the play button speaks Japanese, else hiragana, else chinese, and nothing when all are empty |
| WordCard.ExamplePlayTextChoice | src/components/WordCard.jsx:12-18 | the example button speaks example Japanese, else the example, else chinese |
| WordCard.Render | src/components/WordCard.jsx:20-137 | shown reading lines are non-blank and do not repeat lines above; the romaji line keeps the romaji's letters; the example block exists exactly when there is an example |
| WordCard.ShownIff | src/components/WordCard.jsx:63-125 | each line is shown exactly when its text is non-blank and differs from the lines it would repeat; the romaji line shows the spaced romaji |
| WordCard.SavedCard | src/components/WordCard.jsx:6-95 | a saved word shows its category, chinese and example with its play button, and both buttons speak the Japanese forms |
| WordCard.ChineseFallbackCard | src/components/WordCard.jsx:63-84 | a word whose Japanese and readings fell back to its chinese shows only the chinese line |
| WordCard.RomajiLineTidy | src/components/WordCard.jsx:68-72 | a romaji line from a romaji without spaces has no stray spaces and no unsplit syllable |
| WordList.FilterWords | src/components/WordList.jsx:26-33 | "全部" keeps every word; any other category keeps only words of that category and loses none of them |
| WordList.FilterWordsSpec | src/components/WordList.jsx:29-31 | the filter is a subsequence holding each word of the category as often as stored, and no other word |
| WordList.FilterWordsEmpty | src/components/WordList.jsx:83 | the filter is empty exactly when no word has the category |
| WordList.FilterWordsIdempotent | src/components/WordList.jsx:26-33 | filtering a filtered list again by the same category changes nothing |
| WordList.SelectScreen | src/components/WordList.jsx:67-115 | loading first, then an empty store, then an empty result under a chosen category, then the cards with their count |
| WordList.LoadedScreen | src/components/WordList.jsx:75-115 | a loaded non-empty store lists every word under "全部", and shows the empty-category screen exactly when no word has the category |
| WordList.WordListState.LoadWords | src/components/WordList.jsx:13-24 | stores the loaded list, re-applies the selected category and stops loading |
| WordList.WordListState.CategoryChange | src/components/WordList.jsx:35-39 | selects the category and filters the full list, not the previous result |
| WordList.WordListState.HandleDelete | src/components/WordList.jsx:55-65 | nothing changes unless confirmed and deleted; then the list is reloaded; the filter invariant is kept |
| App.AppState.constructor | src/App.jsx:9-11 | key 0, no word edited, modal closed |
| App.AppState.WordAdded | src/App.jsx:13-20 | the key grows by exactly one, editing stops and the modal closes |
| App.AppState.EditWord | src/App.jsx:22-25 | the modal opens on the word, and the form shows its prefill |
| App.AppState.CancelEdit | src/App.jsx:27-30 | editing stops and the modal closes; the key is unchanged |
| App.AppState.AddNew | src/App.jsx:32-35 | the modal opens on an empty form |
| App.AppState.CloseModal | src/App.jsx:37-40 | editing stops and the modal closes; the key is unchanged |

## Left out

- File I/O, JSON parsing and serialisation, and the HTTP request and response objects are not modelled. The data file is the store's sequence, which starts empty.
- GET serves the file text as it is. The model answers with the list.
- Exceptions from the file system are not modelled. A POST or PUT body that does not parse is `None`, which gives 500.
- A PUT body that parses to a non-object is not modelled; the body is a record or `None`.
- JSON key order is not modelled, because records are maps.
- Numbers are integers only.
- Only the `id` field of a record is compared by value (`word.id === id`), so an `id` of another type never matches.
- The call to the Google TTS service, the streaming of its audio, and stream errors after the headers are sent are network plumbing. The upstream outcome is a parameter.
- A repeated `text` query parameter is not modelled.
- The kuroshiro import and singleton initialisation, and the wanakana conversions, are foreign libraries. They are function parameters.
- `speakJapanese` and `getJapaneseVoice` drive the browser speech API. The model stops at the text handed to them.
- `src/utils/storage.js` is not part of this model. Its results are parameters; for example, the list `getWords` returns, which is empty on any failure.
- The build configuration is not part of this model.
- JSX markup, `window` events, `alert`/`confirm` and React's asynchronous state updates are not modelled.
- The `wordAdded` event is not modelled. The remount on a new `refreshKey` appears only as the list's constructor.
- The client reads an absent or null record field as "". `Words.Entry` holds only strings.
- WordForm.Submit stops at the save call. Whether `saveWord`/`updateWord` succeed belongs to `storage.js` and the store.
- WordForm.DeriveExample requires a non-blank example. Submit only calls it after validation, so its `else if` on the example is always taken.
- Japanese.AddSpacesSplitsSyllables is stated for input without a space. Input with a space is returned unchanged (Japanese.AddSpacesKeepsSpaced).
- Japanese.VowelPassSplits does not claim canonical mora segmentation ("densha" stays whole).

## Findings

| source | as written | input that shows it | evidently intended | confidence | as-written member | corrected member |
|---|---|---|---|---|---|---|
| src/utils/japanese.js:77-84 | the client takes any OK reply from `/api/convert` as the readings, including the three empty strings the server sends when its analyser fails to initialise or throws (vite-plugin-api.js:384-409), which its own comment says are for "the frontend to handle with wanakana" | "食べる" with the analyser failing to initialise and a local converter that gives readings | an OK reply with all three readings empty falls back to `fallbackConversion`, as a failed request does | not executed | Pipeline.EmptyAnswerNotFallenBack | Pipeline.FixedFallsBack |
