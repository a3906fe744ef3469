# Translaterapp: word list, flashcards and backend decisions in Dafny

Translaterapp is a small mobile vocabulary app. It has a React Native front end
with screens for translating text, listing saved words and reviewing flashcards,
and a Flask backend that calls a translation service and stores words in SQLite.
This project models the app's decision logic as pure Dafny functions and proves
properties about it:

- **Word list** (`screens/WordListScreen.js`). This covers:
  - the script classifier `isJapanese`;
  - the per-record choice of which text is shown under "English" and which under "Japanese";
  - `sortBy`, with its direction toggle and its comparator over `id`, `english`, `japanese` and `known`;
  - the header glyphs (`getSortIcon`) and the "Current order" label (`getSortLabel`);
  - the filter that removes a deleted word.
- **Flashcard review** (`screens/FlashCardScreen.js`). This covers:
  - the state `{cards, currentIndex, showAnswer}`;
  - the swipe classifier;
  - the swipe and tap transitions, and the `/update_known` body a swipe sends;
  - the finish condition and the text shown on the card.
- **Backend** (`main.py`). This covers:
  - how `translate_text` chooses the source and target languages;
  - the empty-input refusals of `/translate` and `/save_word`;
  - the row that `/save_word` stores;
  - the record shape that `/words` returns.

Files:

| file | module | contents |
|---|---|---|
| `wrappers.dfy` | `Wrappers` | `Option` for absent JSON fields and null sort fields |
| `js_string.dfy` | `JsString` | UTF-16 encoding, JavaScript `<` on strings (lexicographic order on code units) and its order laws |
| `script.dfy` | `Script` | `isJapanese` |
| `words.dfy` | `Words` | the word record, column resolution, the rendered row |
| `word_list.dfy` | `WordList` | sort configuration, comparator, sort, `sortBy`, glyphs, label, delete |
| `word_list_properties.dfy` | `WordListProperties` | delete order, glyphs and label after a sort, the sort made before the load, tied records keeping their order, the two-word example, the surrogate-pair example, uniqueness of ordered arrangements, the reversal on a second click |
| `flash_card.dfy` | `FlashCard` | gestures, session state, swipe, tap, display, runs of swipes |
| `flash_card_properties.dfy` | `FlashCardProperties` | mirror symmetry, tap involution, whole-deck review |
| `backend.dfy` | `Backend` | language resolution, `/translate`, `/save_word`, `/words` |
| `backend_properties.dfy` | `BackendProperties` | detector use, default direction, save-then-list |
| `endpoints.dfy` | `Endpoints` | the backend addresses the screens call (see Findings) |

Modelling choices:

- JavaScript compares strings by UTF-16 code units. Dafny's `char` is a Unicode scalar value. The model compares strings character by character in code-unit order. `LessIsCodeUnitOrder` proves that this is the same as comparing the UTF-16 encodings unit by unit. The two orders differ for saved text that mixes an emoji or a rare kanji (above U+FFFF) with a character in U+E000 to U+FFFF, such as fullwidth punctuation. `SurrogateSortExample` shows such a pair sorted the JavaScript way.
- The regular expression in `isJapanese` has no `u` flag, so it tests UTF-16 code units. A character outside the Basic Multilingual Plane is made of surrogate code units (U+D800 to U+DFFF). Neither those code units nor the character itself fall in any of the three ranges, so the model tests whole characters.
- `sortBy` hands the engine a comparator. The model sorts with that same comparator, using an insertion sort. The sort is stable by construction: a record goes in front of the first record it does not compare after, which includes equal ones. Stability is not proved in general; `SortAllTied` proves the case where all records tie. Engine internals are not modelled. The general properties, `SecondClickReverses` among them, use only `Sort`'s contract, so they hold for any sort that returns an ordered permutation. `SecondClickReverses` also needs the values to be distinct. Only the concrete examples `TwoWordExample` and `SurrogateSortExample` unfold the insertion sort itself.
- A swipe needs a card on screen. `handleSwipe` reads `cards[currentIndex]`, and the gesture handler is only mounted while a card is shown. So `HandleSwipe` and `OnGesture` require that the session is not finished.
- `translationX` is a `real` compared against the strict thresholds `> 100` and `< -100`.
- The translation and language-detection services are function parameters. The database is a sequence of rows. The id SQLite assigns to a new row is a parameter.
- Three details follow the code exactly:
  - the labels are spelled `Englsih` and `Japanse` (screens/WordListScreen.js:171-172);
  - the swipe thresholds are strict (screens/FlashCardScreen.js:49-50);
  - delete removes every record with the given id (screens/WordListScreen.js:123). `DeleteUniqueRemovesOne` proves that this removes exactly one record when the id is unique.

## Model

| member | source | states |
|---|---|---|
| `Script.IsJapanese` | screens/WordListScreen.js:81-85 | false on the empty text; otherwise true exactly when some character is Hiragana U+3040–309F, Katakana U+30A0–30FF or a CJK ideograph U+4E00–9FAF |
| `Script.IsJapaneseConcat` | screens/WordListScreen.js:84 | the classifier matches anywhere: a concatenation is Japanese iff either part is |
| `JsString.LessTrichotomy` | screens/WordListScreen.js:36-37 | any two distinct strings are ordered by JavaScript `<` one way or the other |
| `JsString.LessTransitive` | screens/WordListScreen.js:36-37 | JavaScript `<` on strings is transitive |
| `JsString.Units` | screens/WordListScreen.js:36-37 | a character is one code unit below U+10000, otherwise a high and a low surrogate from which the character is recovered |
| `JsString.LessIsCodeUnitOrder` | screens/WordListScreen.js:36-37 | the string order is exactly the lexicographic order of the two strings' UTF-16 code units |
| `JsString.Utf16Injective` | screens/WordListScreen.js:36-37 | distinct strings have distinct UTF-16 encodings: the encoding loses nothing the order needs |
| `JsString.SupplementaryBeforeFullwidth` | screens/WordListScreen.js:36-37 | U+1F600 sorts before U+FF08 under JavaScript `<`, the opposite of their scalar order |
| `Words.Resolve` | screens/WordListScreen.js:132-134 | a record with a Japanese character in its source shows the translation as English and the source as Japanese; a record with none shows the reverse |
| `Words.ResolveIsRearrangement` | screens/WordListScreen.js:132-134 | the two columns are exactly the record's two texts, rearranged |
| `Words.Render` | screens/WordListScreen.js:131-156 | a row shows the id, the resolved columns, and ✓ iff `known` is non-zero (✗ iff zero) |
| `WordList.LoadCompleted` | screens/WordListScreen.js:7-12 | the fetched words replace the records and the sort configuration is kept; from the initial configuration this is `Loaded` |
| `WordList.Extract` | screens/WordListScreen.js:21-34 | the comparator's operands are the record's own `id`/`known` for those keys and the very column texts the row displays for `english`/`japanese` |
| `WordList.Compare` | screens/WordListScreen.js:19-39 | returns -1, 0 or 1; 0 exactly for equal extracted values; negative iff the first value is smaller (ascending) or larger (descending) |
| `WordList.CompareAntisymmetric` | screens/WordListScreen.js:36-38 | swapping the operands negates the comparator |
| `WordList.CompareTransitive` | screens/WordListScreen.js:36-38 | "not after" is transitive, so the comparator is consistent |
| `WordList.Sort` | screens/WordListScreen.js:19 | the sorted copy is a permutation of the records with every adjacent pair in comparator order |
| `WordList.NextDirection` | screens/WordListScreen.js:14-18 | the new direction is descending iff the same key is re-sorted while ascending |
| `WordList.SortBy` | screens/WordListScreen.js:13-44 | the new configuration is the requested key with the toggled direction (also on an empty list); the records are a permutation of the old ones; extracted values are non-decreasing when ascending and non-increasing when descending |
| `WordList.SortIcon` | screens/WordListScreen.js:46-51 | ⇅ iff the column is not the sorted one; ↑ iff it is and the direction is ascending; ↓ for any other direction |
| `WordList.KeyLabel` | screens/WordListScreen.js:170-173 | each key has its own label, spelled as the screen spells it: "ID", "Englsih", "Japanse", "Known"; none is "Original" |
| `WordList.SortLabel` | screens/WordListScreen.js:166-177 | "Original" with no key; otherwise the column label followed by " (Up)" when ascending and " (Down)" otherwise |
| `WordList.DeleteById` | screens/WordListScreen.js:123 | the result keeps no record with the deleted id and is no longer than the input |
| `WordList.DeleteCounts` | screens/WordListScreen.js:123 | every copy of a record with another id survives and no record with the id does |
| `WordList.DeleteWord` | screens/WordListScreen.js:122-124 | removal after the delete request keeps the sort configuration and removes exactly the records with that id |
| `WordListProperties.DeleteConcat` | screens/WordListScreen.js:123 | the filter distributes over concatenation, so kept records keep their relative order |
| `WordListProperties.DeleteAbsent` | screens/WordListScreen.js:123 | a list with no record of that id is returned unchanged |
| `WordListProperties.DeleteUniqueRemovesOne` | screens/WordListScreen.js:123 | when one record has the id, deleting it yields the list without that position, one shorter |
| `WordListProperties.DeleteIdempotent` | screens/WordListScreen.js:123 | deleting the same id twice equals deleting it once |
| `WordListProperties.InitialPresentation` | screens/WordListScreen.js:12-51 | before any sort every column shows ⇅ and the label reads "Original" |
| `WordListProperties.IconsAfterSort` | screens/WordListScreen.js:13-51 | after sorting by a key, that column shows ↓ if the toggle chose descending and ↑ otherwise; every other column shows ⇅ |
| `WordListProperties.LabelAfterSort` | screens/WordListScreen.js:166-177 | after any sort the label names the key and direction and is never "Original" |
| `WordListProperties.ClickCycle` | screens/WordListScreen.js:14-18 | three clicks on a new column give ascending, descending, ascending |
| `WordListProperties.SortEmpty` | screens/WordListScreen.js:13-44 | sorting an empty list keeps it empty and still updates the label |
| `WordListProperties.SortBeforeLoad` | screens/WordListScreen.js:7-51 | a sort by ID made before the words arrive leaves the label "ID (Up)" and the ↑ glyph over words in table order that are not ascending by ID |
| `WordListProperties.SortAllTied` | screens/WordListScreen.js:19-39 | records that all compare equal under the column's comparator come out of the sort in their original order |
| `WordListProperties.TwoWordExample` | screens/WordListScreen.js:13-44 | 「こんにちは」/"Hello" and "Goodbye"/「さようなら」 sorted by English come out as Goodbye then Hello, with the label "Englsih (Up)" |
| `WordListProperties.SurrogateSortExample` | screens/WordListScreen.js:19-39 | a word starting with U+1F600 sorts before one starting with U+FF08 by English, as JavaScript orders them |
| `WordListProperties.OrderedUnique` | screens/WordListScreen.js:19-39 | two comparator-ordered arrangements of the same records with distinct values are identical |
| `WordListProperties.SecondClickReverses` | screens/WordListScreen.js:13-39 | with distinct values, sorting the same column a second time gives exactly the reverse of the first result, descending |
| `FlashCard.Classify` | screens/FlashCardScreen.js:45-51 | right iff the gesture ended (state 5) with `translationX > 100`; left iff it ended with `< -100`; nothing otherwise |
| `FlashCard.KnownFlag` | screens/FlashCardScreen.js:31 | a right swipe reports 1, a left swipe 0 |
| `FlashCard.HandleSwipe` | screens/FlashCardScreen.js:22-38 | reports the current card's id with `KnownFlag` of the swipe (1 right, 0 left); hides the answer; advances the index by one; keeps the deck and keeps the index within the deck |
| `FlashCard.Finished` | screens/FlashCardScreen.js:59 | finished exactly when no card is at the index; in a valid session that means the index equals the deck size; an empty deck is always finished |
| `FlashCard.OnGesture` | screens/FlashCardScreen.js:45-57 | a gesture that is not a swipe changes nothing and sends nothing; a swipe acts as `HandleSwipe` |
| `FlashCard.Tap` | screens/FlashCardScreen.js:76 | flips `showAnswer` and changes nothing else |
| `FlashCard.Display` | screens/FlashCardScreen.js:59-78 | the closing message iff the index has reached the deck size; otherwise the current card's translation when the answer is shown, its source text when not |
| `FlashCard.Review` | screens/FlashCardScreen.js:22-38 | a run of swipes advances the index by its length, keeps the deck and sends one update per swipe |
| `FlashCardProperties.ClassifyMirror` | screens/FlashCardScreen.js:49-50 | mirroring a pan swaps right and left and keeps "no swipe" |
| `FlashCardProperties.ClassifyBoundary` | screens/FlashCardScreen.js:46-50 | a pan of exactly ±100, or any pan that has not ended, is no swipe |
| `FlashCardProperties.TapTwice` | screens/FlashCardScreen.js:76 | two taps restore the session |
| `FlashCardProperties.SwipeIgnoresReveal` | screens/FlashCardScreen.js:36-37 | a swipe's outcome does not depend on whether the answer was shown |
| `FlashCardProperties.EmptyDeckFinished` | screens/FlashCardScreen.js:59-65 | an empty deck is finished at once |
| `FlashCardProperties.EventsKeepValid` | screens/FlashCardScreen.js:37 | no gesture or tap moves the index past the deck size |
| `FlashCardProperties.ReviewConcat` | screens/FlashCardScreen.js:22-38 | two runs of swipes equal one run over the concatenation, with the updates concatenated |
| `FlashCardProperties.ReviewUpdates` | screens/FlashCardScreen.js:23-32 | the i-th update of a run names the i-th card from the start position, with the i-th swipe's flag |
| `FlashCardProperties.WholeDeck` | screens/FlashCardScreen.js:22-65 | swiping through a whole fresh deck reports every card once, in deck order, and ends finished |
| `Backend.ResolveSource` | main.py:58-59 | a given source is kept; otherwise the detected language, or "en" when detection gives nothing; never empty |
| `Backend.ResolveTarget` | main.py:61-65 | an explicit target other than "auto" is kept; a missing, empty or "auto" target becomes "en" iff the source is "ja", else "ja", and then differs from the source |
| `Backend.TranslateText` | main.py:56-88 | the source is the given one, or else the detected language or "en"; the target is the given one unless it is missing, empty or "auto", and then "en" for a "ja" source and "ja" otherwise; neither is empty; the text is the translator's output for them |
| `Backend.ApiTranslate` | main.py:90-107 | a missing or empty `text` is refused with 400 "text is required"; any other request gets the translation |
| `Backend.Field` | main.py:119-122 | a missing field reads as the empty string |
| `Backend.SaveWord` | main.py:119-172 | refused with 400 iff either text is empty, leaving the table as it was; otherwise one row is appended with the given texts and languages and `known = 0`, and its id is returned |
| `Backend.GetWords` | main.py:186-202 | one record per row, in table order, carrying exactly id, both texts and both languages |
| `BackendProperties.DetectorOnlyWithoutSource` | main.py:58-59 | when a source is given, the detector's answer does not matter |
| `BackendProperties.DefaultDirection` | main.py:56-65 | with neither language given, Japanese input goes to English, undetected input is treated as English going to Japanese, and source and target always differ |
| `BackendProperties.AutoIsDefault` | main.py:61 | target "auto" behaves exactly like a missing target |
| `BackendProperties.RefusalIgnoresServices` | main.py:102-103 | a refused translation request does not depend on the detector or translator |
| `BackendProperties.GetWordsConcat` | main.py:194-200 | the listing distributes over the table's order |
| `BackendProperties.SaveThenList` | main.py:119-200 | after a successful save the listing gains exactly the saved word at the end; after a refused one it is unchanged |
| `BackendProperties.SaveKeepsAllUnknown` | main.py:123-157 | if no stored word is memorised, none is after a save |
| `BackendProperties.ListingIgnoresKnown` | main.py:190-200 | tables that differ only in `known` list identically |
| `Endpoints.WordsUrl` | screens/WordListScreen.js:8 | the load address is the backend address followed by "/words" |
| `Endpoints.DeleteWordUrlAsWritten` | screens/WordListScreen.js:113 | the delete address keeps the placeholder `${BACKEND_URL` verbatim, followed by "/delete_word", and is not the intended address for any backend not starting with `$` |
| `Endpoints.DeleteUrlAsWrittenIgnoresBackend` | screens/WordListScreen.js:113 | the written delete address is the same whatever the backend is |
| `Endpoints.DeleteWordUrl` | screens/WordListScreen.js:113 | the intended delete address is the backend address followed by "/delete_word" |
| `Endpoints.DeleteUrlAsWrittenIsWrong` | screens/WordListScreen.js:113 | for backend "http://localhost:5000" the written delete address differs from the intended one |
| `Endpoints.DeleteUrlFollowsBackend` | screens/WordListScreen.js:113 | the intended delete address starts with the same backend as the load address and differs for different backends |

## Left out

- The network and storage are left out: every `fetch`, every Azure request and all SQLite access. This includes the `/update_known` and `/delete_word` handlers and the table creation. They are I/O. The model returns the request bodies and the rows instead.
- The shuffle of the flashcard deck is left out: the screen sorts the loaded words with a random comparator. It is randomness, so a session starts from whatever deck it is given.
- `/word_random` is left out. It is random, and its SQL does not parse (`tranlated_text`, `know`, `ELES`, `RAND()`).
- Animation, gesture plumbing, spring physics, the `Alert`/`window.confirm` dialogs and the `Platform` branch are left out. They are presentation. Deletion is modelled from the point where the backend has answered.
- Floating point is left out. `translationX` is an exact `real`.
- The `OPTIONS` preflight of `/translate` and the 500 replies for exceptions (main.py:108-110, main.py:174-182) are left out. Besides failures of the services and the database, these include a JSON body that is `null`, a list or a string, which has no `get` (main.py:98, main.py:119). Another source is a request whose content type is not JSON. The model takes the body as a map of strings, so those requests cannot be expressed in it.
- JSON values are modelled as strings. A field that is present but `null` is therefore not modelled. In `/save_word` such a field would be refused like an empty one, or stored as NULL for the languages.
- `/words` returns records without `known`, while the list screen renders and sorts by `known`. In JavaScript the missing field behaves like `0` (falsy, and every comparison is false). The model's records carry `known` as a plain integer, and `Backend.ListingIgnoresKnown` states what the listing drops.
- `App.js` (navigation), `screens/TranslateScreen.js` (UI and network) and the style sheets are not part of this model.
- Reloading the list is not modelled. The screen fetches the words once, on mount. `WordList.Loaded` is the state when the words arrive before any sort, and `WordList.LoadCompleted` is their arrival in any state.
- `WordList.Sort`: the sort is an insertion sort, stable by construction but proved stable only when all records tie (`SortAllTied`). The source promises only whatever order its engine's sort produces for equal values.

## Findings

| source | as written | input that shows it | evidently intended | confidence | as-written member | corrected member |
|---|---|---|---|---|---|---|
| screens/WordListScreen.js:113 | the delete address is the single-quoted string `'${BACKEND_URL/delete_word'`; single quotes do no interpolation, and the brace is never closed either, so the address never contains the backend | backend `http://localhost:5000` gives the address `${BACKEND_URL/delete_word` | `${BACKEND_URL}/delete_word`, i.e. `http://localhost:5000/delete_word` | high; not executed | `Endpoints.DeleteWordUrlAsWritten`, `Endpoints.DeleteUrlAsWrittenIgnoresBackend`, `Endpoints.DeleteUrlAsWrittenIsWrong` | `Endpoints.DeleteWordUrl`, `Endpoints.DeleteUrlFollowsBackend` |

Because of this, the delete request cannot reach the backend. Its promise then fails, so the list filter on line 123 never runs. The model's `WordList.DeleteWord` is the evidently intended behaviour: it is what happens once the backend has confirmed the deletion.
