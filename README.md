# Pick list for a retail site: a verified model

The modelled system is a user script for a home-improvement retailer's site.
As the user browses product pages, it keeps a "pick list" of the products seen
(SKU, name, aisle location, URL, price) and shows it in a floating panel:
- entries are not duplicated;
- a per-aisle sidebar shows counts;
- clicking an aisle brings its entries to the top of the list and highlights them;
- each SKU can carry a note.

A second part of the script clicks through the site's barcode-scanner dialog
automatically.

The Dafny modules follow the parts of the script:

| module | file | models |
|---|---|---|
| `Wrappers` | option.dfy | an `Option` type |
| `Text` | text.dfy | JavaScript white space, `trim`, ASCII case folding, `/\s+/g` collapsing, `includes` |
| `AisleText` | aisle_text.dfy | the four aisle regular expressions as hand-written greedy matchers, each proved against a declarative description of its pattern; `AisleSection` and `searchAisle` |
| `Entries` | entries.dfy | list entries, the product-page test, matching, the fill-gaps merge, the late-aisle lookup, delete by id, and the two list invariants (no duplicates, unique ids) |
| `Capture` | capture.dfy | `captureCurrentPage` and the late-aisle observer, as pure steps on the list and `lastCapturedUrl` |
| `Sorting` | sorting.dfy | the ordinal string order and a stable sort by key (`Array.prototype.sort` is stable) |
| `AisleIndex` | aisle_index.dfy | the aisle buckets, `getAisleCounts` (a loop), the sidebar comparator, the selected-aisle reorder and the highlight |
| `Notes` | notes.dfy | `getNote`, `setNote`, `clearAllNotes`, `notesCount`, as map functions and as a `NoteStore` class |
| `Html` | html.dfy | `escapeHtml` and an unescaping inverse |
| `Scanner` | scanner.dfy | `startScan` as a state machine over timer and interval events, both as written and corrected; a `ScanAutomation` class |
| `Session` | session.dfy | the script's module-level state as a `PickList` class, whose methods are the capture, observer, delete, clear-all and aisle-click handlers |

Where the script's documented behaviour and its code disagree, the model follows
the code:
- A "not found" aisle text is counted under `Unknown`, not under `Other`.
- A product page whose data is incomplete does not record `lastCapturedUrl`.
- The re-entrancy guard of the scanner dialog does not always hold (second finding below).
- Selecting the `Other` bucket does not bring out the `Other` entries (first finding below).
  The reorder and the highlight take the selection test as a parameter (`Rule`):
  `AsWritten` is the code's own test, `Intended` the sidebar's bucket test.

## Model

| member | source | states |
|---|---|---|
| AisleText.Search | webrevamp.js:246-247 | `match` without `g`: no result exactly when the pattern matches nowhere, otherwise the group of the leftmost match |
| AisleText.FirstMatch | webrevamp.js:246 | the leftmost position where the pattern matches, or none when it matches nowhere |
| AisleText.GroupText | webrevamp.js:245 | a matched group is non-empty; the aisle number is all digits, the section code alphanumeric, an aisle phrase starts with the word "aisle" |
| AisleText.LocatedPhraseIsLongest | webrevamp.js:245 | at a start position, the `Item Located in (Aisle …)` group begins right after the lead-in and is the longest match the pattern allows; there is none exactly when no such phrase starts there |
| AisleText.AislePhraseIsLongest | webrevamp.js:251 | the `(Aisle\s+\d+\s*(?:Section\s*[A-Z0-9]+)?)` match at a position is the longest one there; none exactly when none exists |
| AisleText.SectionCodeIsLongest | webrevamp.js:283 | `Section\s*([A-Z0-9]+)` takes the longest section code at a position; none exactly when none exists |
| AisleText.AisleNumberIsLongest | webrevamp.js:282 | `Aisle\s+(\d+)` takes all the digits after the white space; none exactly when no such phrase starts there |
| AisleText.LeadInForced | webrevamp.js:245 | the lead-in "Item Located in" can only end where the next word begins |
| AisleText.NumberWherePhrase | webrevamp.js:251 | the aisle-number pattern matches exactly where the aisle-phrase pattern does |
| AisleText.AisleSection | webrevamp.js:241-256 | the extracted location is single-spaced and has no white space at either end |
| AisleText.AisleSectionEmptyIffNoAisle | webrevamp.js:241-256 | the location is empty exactly when the text mentions no "Aisle <digits>" phrase |
| AisleText.AisleSectionStartsWithAisle | webrevamp.js:241-256 | a non-empty location starts with the word "aisle" |
| AisleText.SearchAisle | webrevamp.js:281-288 | the aisle number, when present, is non-empty and all digits; the section, when present, is non-empty, alphanumeric and in upper case |
| AisleText.SearchAisleFindsNumberIffMention | webrevamp.js:282 | `searchAisle` finds an aisle number exactly when the text mentions an aisle phrase |
| AisleText.MentionsAisleIffMatch | webrevamp.js:251 | a mention of an aisle phrase is exactly what the fallback pattern finds |
| Entries.IsProductPage | webrevamp.js:258-261 | a product page exactly when the signal carries a non-empty SKU or somewhere in the URL a slash, digits, `/p-` (any case), a run without line breaks and `.htm` follow each other |
| Entries.IsProductUrlCorrect | webrevamp.js:260 | the URL test holds exactly when `/<digits>/p-…htm` occurs with no line break between `p-` and `.htm` |
| Entries.UrlShapeFromCorrect | webrevamp.js:260 | the scan from a position finds the URL shape exactly when it starts at or after that position |
| Entries.AnyMatch | webrevamp.js:898 | true exactly when some entry matches: by SKU when the SKU key is non-empty, otherwise by URL |
| Entries.NoDuplicatesMeans | webrevamp.js:898-909 | in a deduplicated list two entries never share a non-empty SKU, and two SKU-less entries never share a URL |
| Entries.PrependKeepsNoDuplicates | webrevamp.js:898-909 | putting an entry no one matches in front keeps the list deduplicated |
| Entries.PrependKeepsUniqueIds | webrevamp.js:900-901 | putting an entry with a fresh id in front keeps ids unique |
| Entries.FillGaps | webrevamp.js:915-921 | the merge keeps the id, the SKU and the save time |
| Entries.FillGapsMonotone | webrevamp.js:915-921 | the merge only fills empty fields: a filled field is never changed, each empty one takes the page's value, and merging twice is merging once |
| Entries.MergeEnriches | webrevamp.js:912-922 | the merge never changes a filled field, nor any entry's id, SKU or save time |
| Entries.MergeMatching | webrevamp.js:912-922 | the list keeps its length; matching entries are gap-filled and the others are unchanged |
| Entries.FirstSkuIndex | webrevamp.js:968 | `findIndex`: the first entry with the SKU, or none when no entry has it |
| Entries.RemoveId | webrevamp.js:636 | an entry is kept exactly when it was there and its id is not the deleted one |
| Entries.RemoveIdDistributes | webrevamp.js:636 | deleting from a concatenation deletes from each part |
| Entries.RemoveAbsentId | webrevamp.js:636 | deleting an id nobody has leaves the list as it is |
| Entries.RemoveIdKeepsNoDuplicates | webrevamp.js:634-639 | delete keeps the list deduplicated |
| Entries.RemoveIdKeepsUniqueIds | webrevamp.js:634-639 | delete keeps ids unique |
| Capture.NewEntry | webrevamp.js:900-908 | a new entry matches the page's own SKU and URL keys |
| Capture.SameUrlIsNoOp | webrevamp.js:877 | an automatic call on the URL captured last changes nothing and schedules nothing |
| Capture.NotProductPageLeavesList | webrevamp.js:880-883 | a page that is not a product page leaves the list alone and only records its URL |
| Capture.IncompletePageRetries | webrevamp.js:885-890 | a product page without SKU and name changes nothing; an automatic call schedules a retry, a manual one does not |
| Capture.RetryOnlyWhenIncomplete | webrevamp.js:877-890 | a retry is scheduled exactly for an automatic call on a new URL whose product page is incomplete |
| Capture.RetryRepeats | webrevamp.js:885-889 | the scheduled retry sees the state unchanged, so it schedules again while the page stays incomplete |
| Capture.NewProductAdded | webrevamp.js:898-910 | an unmatched product becomes a new first entry with the fresh id, the time, the trimmed SKU, name and URL, the price and the page's aisle |
| Capture.AutomaticCaptureKeepsExisting | webrevamp.js:877-925 | an automatic call on a product already listed leaves the list alone, never adds or merges, and records the URL unless the signal was incomplete |
| Capture.CaptureKeepsNoDuplicates | webrevamp.js:874-928 | every capture keeps the list deduplicated |
| Capture.MergeKeepsKeys | webrevamp.js:912-922 | the merge keeps every entry's SKU, URL key and id |
| Capture.CaptureKeepsUniqueIds | webrevamp.js:874-928 | with a fresh id, every capture keeps ids unique |
| Capture.CapturedProductIsListed | webrevamp.js:898-927 | after an add, a merge or an already-saved outcome, the product is on the list |
| Capture.SaveListsProduct | webrevamp.js:898-925 | after the save step the product is matched by some entry |
| Capture.CaptureGrowsByAtMostOne | webrevamp.js:898-925 | an add puts exactly one entry in front of the old list; every other outcome keeps the length |
| Capture.ManualCaptureFillsGaps | webrevamp.js:911-925 | a manual re-capture enriches the matched entries by filling their gaps, leaves every other entry as it was, and records the URL |
| Capture.AutomaticCaptureIdempotent | webrevamp.js:877-927 | two automatic calls in a row on an unchanged page do what one does, and add at most one entry |
| Capture.MergeIdempotent | webrevamp.js:912-922 | merging the same page twice is merging once |
| Capture.ManualCaptureIdempotent | webrevamp.js:874-928 | two manual calls in a row on an unchanged page do what one does |
| Capture.SaveManualIdempotent | webrevamp.js:898-925 | the manual save step is idempotent |
| Capture.LateAisleTouchesOneAisle | webrevamp.js:960-976 | the observer changes at most the aisle of the first entry with the page's SKU: only when the page has a SKU and an aisle and that entry's aisle is empty or says "not found"; then it sets exactly that aisle |
| Capture.LateAisleKeepsInvariants | webrevamp.js:960-976 | the observer keeps the list deduplicated and its ids unique |
| AisleIndex.BucketCases | webrevamp.js:266-277 | a text with an aisle phrase is counted under that number, which is the number `searchAisle` reads; other non-empty text without "not found" under `Other`; the rest under `Unknown` |
| AisleIndex.BucketOfLocation | webrevamp.js:268-271 | "Aisle 12 Section A4" is counted under "12" |
| AisleIndex.BucketOfEmpty | webrevamp.js:274-275 | an empty aisle is counted under `Unknown` |
| AisleIndex.BucketOfFreeText | webrevamp.js:272-273 | "Front counter" is counted under `Other` |
| AisleIndex.BucketOfLeadingAisle | webrevamp.js:268-271 | a text that starts "Aisle <digits>" is counted under those digits |
| AisleIndex.NoNumberWithoutA | webrevamp.js:268 | a text without the letter a has no aisle number |
| AisleIndex.GetAisleCounts | webrevamp.js:264-279 | the loop returns the tally of the entries' buckets |
| AisleIndex.BucketBranches | webrevamp.js:268-276 | the loop's three branches pick the entry's bucket |
| AisleIndex.TallyMeaning | webrevamp.js:266-277 | a key is counted exactly when it occurs, and its count is the number of its occurrences |
| AisleIndex.AisleCountsMeaning | webrevamp.js:264-279 | a bucket has a count exactly when some entry is in it, and the count is the number of such entries |
| AisleIndex.AisleCountsTotal | webrevamp.js:264-279 | the counts add up to the length of the list |
| AisleIndex.AisleCountsKeys | webrevamp.js:264-279 | every key is an aisle number, `Other` or `Unknown` |
| AisleIndex.ParseIntDefined | webrevamp.js:598-601 | `parseInt` gives a number exactly when a digit follows the leading white space and an optional sign |
| AisleIndex.ParseNumberKey | webrevamp.js:598 | an aisle-number key parses to its decimal value |
| AisleIndex.ParseWord | webrevamp.js:598-601 | `Other` and `Unknown` parse to NaN |
| AisleIndex.CompareBucketsAgrees | webrevamp.js:597-609 | the comparator and the sort key agree: a negative answer means key-before, a positive one key-after |
| AisleIndex.CompareParsedAgrees | webrevamp.js:603-608 | the same agreement for any pair of parse results |
| AisleIndex.BucketKeyLe | webrevamp.js:597-609 | of two different buckets in key order, the first does not compare after the second, has a number when the second does (never a larger one) and is not `Unknown` |
| AisleIndex.SidebarOrderCorrect | webrevamp.js:594-609 | the sidebar lists each counted bucket once; the comparator never ranks a bucket after one listed later; numbers ascend and come before every word; `Unknown` can only be last |
| AisleIndex.SidebarOrderExample | webrevamp.js:594-609 | the buckets 3, 12, Other and Unknown are shown in exactly that order |
| AisleIndex.FirstBucketsAreCounted | webrevamp.js:595 | the sidebar's buckets are each counted bucket, once |
| AisleIndex.SelectsAgreesOnNumbers | webrevamp.js:649-655 | for an aisle-number selection the code's selection test and the bucket test agree |
| AisleIndex.SelectsAsWrittenMissesOther | webrevamp.js:649-655 | as written, selecting `Other` picks no entry, and selecting `Unknown` also picks the entries counted under `Other` |
| AisleIndex.FrontCounterMisselected | webrevamp.js:649-655 | "Front counter" is counted under `Other`, but the code picks it for `Unknown` and not for `Other` |
| AisleIndex.SelectsAsWrittenByBucket | webrevamp.js:649-655 | as written, a selection picks the entries of its own bucket, except that `Other` picks none and `Unknown` picks the `Other` entries too |
| AisleIndex.HighlightAsWrittenIsOccurrences | webrevamp.js:675-683 | as written, the highlighted entries number those of the selected bucket; none for `Other`; those of `Unknown` and `Other` together for `Unknown` |
| AisleIndex.HighlightMatchesSidebar | webrevamp.js:675-683 | with the intended bucket test, the list highlights exactly as many entries as the sidebar counts for the selected bucket |
| AisleIndex.HighlightIsOccurrences | webrevamp.js:675-683 | with the intended bucket test, the highlighted entries number the entries of the selected bucket |
| AisleIndex.CompareForSelectionAgrees | webrevamp.js:644-667 | under either selection test, the reorder comparator and its sort key give the same three-way answer |
| AisleIndex.DisplayListCorrect | webrevamp.js:642-668 | under either selection test, the shown list is a permutation of the list; picked entries come first, ordered by section with "ZZZ" for none; the other entries keep their order |
| AisleIndex.OtherSelectionAsWritten | webrevamp.js:642-683 | as written, selecting `Other` leaves the list in its saved order and highlights nothing |
| Sorting.SortBySorted | webrevamp.js:594-609 | sorting by key gives a sequence in key order |
| Sorting.SortByStable | webrevamp.js:644 | elements whose keys tie keep their original order |
| Sorting.StrCompare | webrevamp.js:608 | the ordinal three-way comparison: zero exactly at equality, negative exactly below |
| Notes.SetThenGet | webrevamp.js:173-189 | after `setNote(k, n)` with a non-blank key, `getNote(k)` is the trimmed note, "" when that is blank |
| Notes.SetLeavesOthers | webrevamp.js:179-189 | `setNote` leaves the note of every other key unchanged |
| Notes.BlankSkuIsNoOp | webrevamp.js:180-181 | a SKU that trims to nothing changes nothing |
| Notes.SetIdempotent | webrevamp.js:179-189 | writing the same note twice is writing it once |
| Notes.SetKeepsValid | webrevamp.js:179-189 | every write keeps the keys trimmed and non-empty and the notes trimmed and non-empty |
| Notes.LookupMeans | webrevamp.js:173-178 | in a well-formed store a SKU has a note exactly when its key is filed |
| Notes.CountAfterSet | webrevamp.js:179-195 | the count goes up by one for a new note, down by one for an erased one, and otherwise stays |
| Notes.CountZeroMeansEmpty | webrevamp.js:193-195 | the count is zero exactly when there are no notes |
| Notes.ClearedIsEmpty | webrevamp.js:190-195 | after clearing, the count is zero and every SKU reads as "" |
| Notes.NoteStore.GetNote | webrevamp.js:173-178 | on a well-formed store, "" means no note is filed |
| Notes.NoteStore.SetNote | webrevamp.js:179-189 | the new map files the trimmed note, or erases the key for a blank note, and is unchanged for a blank SKU |
| Notes.NoteStore.ClearAllNotes | webrevamp.js:190-192 | the stored map becomes empty |
| Notes.NoteStore.NotesCount | webrevamp.js:193-195 | zero exactly when nothing is stored |
| Html.Escape | webrevamp.js:777-785 | the escaped text is never shorter than the original |
| Html.EscapeHasNoMarkup | webrevamp.js:777-785 | the escaped text contains no `<`, `>`, `"` or `'` |
| Html.Entity | webrevamp.js:779-783 | each entity starts with `&`, ends with `;` and contains no markup character |
| Html.EscapeChar | webrevamp.js:778-784 | an `&` in a replacement is the first character of an entity |
| Html.UnescapeEscape | webrevamp.js:777-785 | unescaping undoes escaping, so nothing is lost |
| Html.EscapeAppend | webrevamp.js:778 | escaping works character by character over concatenation |
| Html.EscapePlain | webrevamp.js:778 | text without special characters is left as it is |
| Html.AmpersandsStartEntities | webrevamp.js:777-785 | every `&` of escaped text begins one of the five entities |
| Scanner.FindFirst | webrevamp.js:50-52 | `find`: the first button whose label holds START SCANNER, none when no button does |
| Scanner.Decide | webrevamp.js:30-66 | a poll stops for a missing modal; clicks Continue exactly when the modal is shown and its primary button reads CONTINUE; otherwise clicks the first START SCANNER button; failing that, a green START button; otherwise it waits |
| Scanner.StartWhileStartingIsNoOp | webrevamp.js:24-26 | while an attempt runs, another call of `startScan` does nothing |
| Scanner.StopOnlyPoller | webrevamp.js:31-57 | stopping the only running attempt and clearing the flag leaves no attempt running |
| Scanner.StepKeepsOnePoller | webrevamp.js:20-72 | with the corrected timer, every event keeps at most one attempt polling, and the flag is set exactly when one polls |
| Scanner.RunKeepsOnePoller | webrevamp.js:20-72 | the same for any sequence of events |
| Scanner.OverlapAsWritten | webrevamp.js:68-71 | as written, closing and reopening the dialog within 10 s ends with two attempts polling at once |
| Scanner.OverlapFixed | webrevamp.js:68-71 | with the corrected timer, the same events end with one attempt polling |
| Scanner.ContinueOnlyEndsIdle | webrevamp.js:24-72 | a dialog that shows only Continue, which then goes away: Continue is clicked once, nothing else is, and after 10 s no attempt runs and the flag is clear |
| Scanner.ContinueReadsAsContinue | webrevamp.js:44 | a button reading "Continue" passes the Continue test |
| Scanner.ScanAutomation.StartScan | webrevamp.js:24-72 | nothing while the flag is set; otherwise the flag is set and a new polling attempt with a pending timer begins |
| Scanner.ScanAutomation.PollTick | webrevamp.js:30-66 | the recorded clicks and the new state are those of the poll decision |
| Scanner.ScanAutomation.constructor | webrevamp.js:22 | no attempt has started and the flag is clear |
| Scanner.ScanAutomation.Elapse | webrevamp.js:68-71 | time passes; the attempts, the flag and the clicks stay as they are |
| Scanner.ScanAutomation.TimerFires | webrevamp.js:68-71 | the timer stops its attempt and clears the flag |
| Session.ToggleMeans | webrevamp.js:768-775 | a click clears the selection exactly when that aisle was selected, and otherwise selects it |
| Session.ToggleTwice | webrevamp.js:768-775 | two clicks on one aisle undo each other when nothing or that aisle was selected |
| Session.ClearedPanelIsEmpty | webrevamp.js:821-825 | after Clear all there is nothing to show: no entries, no counts, no sidebar buckets |
| Session.LateAisleScenario | webrevamp.js:874-976 | a first visit without an aisle, then the aisle appearing, gives one entry with that aisle and the page's price |
| Session.ManualNameScenario | webrevamp.js:911-925 | "Add current" on a product saved without a name fills in the name and keeps one entry |
| Session.PickList.CaptureCurrentPage | webrevamp.js:874-928 | the list, `lastCapturedUrl` and the retry are those of the capture step; the selection is unchanged; with a fresh id both invariants are kept |
| Session.PickList.ObserveLateData | webrevamp.js:960-976 | the list becomes the observer's update and keeps both invariants |
| Session.PickList.Delete | webrevamp.js:634-639 | the list loses the entries with that id and keeps both invariants |
| Session.PickList.ClearAll | webrevamp.js:821-825 | the list becomes empty and the selection is cleared |
| Session.PickList.AisleClick | webrevamp.js:768-775 | the selection toggles; nothing else changes |

## Left out

- `readProductData` reads JSON-LD and the DOM. It is an input: the `ProductSignal` (or none) and the page's body text. The `JSON.parse` failure paths are therefore not modelled.
- The price is parsed and formatted with floating point. It is kept as an opaque optional value, and only carried and compared for presence.
- `GM_getValue` and `GM_setValue` persistence is left out. The stored list, notes and selection are plain fields, so a value read from storage is the value last written.
- Rendering, CSS, the note editor, `alert` and `confirm` are left out. So are the minimize state and the event wiring: the MutationObservers, the modal patch, the click listener and the history hooks.
- `randomID` and `new Date()` are inputs: the fresh id and the timestamp of a new entry. Id uniqueness is assumed of the id that is passed in (`FreshId`).
- The 700 ms retry of `captureCurrentPage` is the `retry` output, not a timer.
- In the scanner, a running attempt may be polled at any moment while it runs. This is more than the exact 100 ms schedule, so what is proved for every interleaving holds for the scheduled one too. A timer may fire any time after its 10 s.
- `localeCompare` is modelled as ordinal (code point) order.
- `toUpperCase` is modelled on ASCII letters only, and the `i` flag of the regular expressions folds ASCII letters only. The latter agrees with JavaScript for patterns without the `u` flag.
- SidebarOrder: breaks a tie between two aisle numbers with the same value (`7` and `07`) by their text, so `07` is listed before `7`. The script's comparator returns 0 for them, and the stable sort keeps `Object.entries` order, which lists integer-like keys such as `7` first. Buckets with different values are ordered alike in both, since the comparator then decides every pair.
- SidebarOrder: starts from first-insertion order (`FirstOccurrences`) and not from `Object.entries` order. The order of the result depends on this only through the ties above.
- BucketKey: compares aisle numbers exactly. `parseInt` gives a double, so two numbers beyond 2^53 that round to the same double tie in the script, and keep `Object.entries` order there.
- Keys that collide with JavaScript object prototype properties are not modelled. A SKU named `constructor`, for example, would read a prototype member through `notes[key]` in the source.
- `escapeHtml` applies `String(s)` to non-strings. The model takes strings only.
- Scanner.ScanAutomation: the class follows the code as written, including the timer defect; the corrected machine is the pure `Step`.

## Findings

| source | as written | input that shows it | evidently intended | confidence | as-written member | corrected member |
|---|---|---|---|---|---|---|
| webrevamp.js:649-683 | the selection test compares `searchAisle`'s number with the selected sidebar key, and treats `Unknown` as "no number" | an entry with aisle "Front counter" is counted under `Other`; selecting `Other` never picks it (nor any entry), and selecting `Unknown` picks it | selecting a sidebar bucket picks the entries counted in that bucket (`Bucket(aisle) == sel`) | high (not executed) | AisleIndex.SelectsAsWrittenMissesOther | AisleIndex.HighlightMatchesSidebar |
| webrevamp.js:68-71 | the 10 s timer of an attempt clears `isStarting` even after that attempt has ended and a later one has started | start at 0 s; the modal is closed, so the poll stops and clears the flag; start again at 3 s; the first timer fires at 10 s and clears the flag while the second attempt polls; a start at 11 s makes two attempts poll at once | one attempt at a time: a timer clears the flag only if its own attempt still runs | medium (not executed) | Scanner.OverlapAsWritten | Scanner.StepKeepsOnePoller |
