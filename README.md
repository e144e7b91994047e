# Table viewer data pipeline, in Dafny

The table viewer loads a JSON file holding an array of flat records and shows them as an editable, filterable and sortable table. Only about six rows are rendered at a time, with two spacer rows standing in for the rest. This project models how the viewer gets from the loaded records to the rows on screen, and proves properties of each step:

- **Load**: each record is keyed by its `id`, or by a fresh uuid when the id is falsy. A later record with the same identity replaces an earlier one.
- **Edit**: an edit shallow-merges a partial record into the record at an identity.
- **Filter**: the filter is an object from field name to filter text. A row passes when every non-empty text is a case-insensitive substring of the row's field, converted with `String(...)`.
- **Sort**: clicking a column header cycles through ascending, descending and unsorted. The sort is stable and uses `localeCompare` on `String(field)`.
- **Scroll**: the scroll position selects the first visible row. That row fixes the window `rows.slice(first, first + 6)` and the heights of the two spacers.
- **Cells**: each cell of a rendered row gets an editor chosen from its key and its value: read-only `id`, checkbox, number, date, text area, e-mail input or text input.
- **validateEmail**: the e-mail check, modelled as a grammar.

Files:

- `js_values.dfy` (`JsValues`): the JavaScript values held by a record, plus `String(v)`, truthiness, ASCII `toLowerCase`, `includes` and `slice`.
- `ordered_maps.dfy` (`OrderedMaps`): a JavaScript object as its entries in insertion order, plus `{ ...m, [k]: v }` and `{ ...a, ...b }`.
- `js_sort.dfy` (`JsSort`): the stable `Array.prototype.sort`.
- `utils.dfy` (`Utils`): `filterRowItem` and `validateEmail`.
- `pipeline.dfy` (`Pipeline`): the pure derivations of `App`.
- `row.dfy` (`RowCells`): the cell classifier and `handleChange` of `Row`.
- `app_state.dfy` (`TableApp`): the `App` component as a class.
  - Its fields are the `useState` variables.
  - A handler is a method that updates the fields and then runs the effects whose dependencies changed, in their declaration order.
  - `Valid()` states that the derived fields agree with their sources.

Behaviour of the code that the model reproduces as written:

- An edit of an identity that is not in the row map adds a new row holding only the edited fields (src/App.tsx:109-112).
- Loading keeps the sort key and direction (src/App.tsx:54-68 does not touch them). In the running program this cannot be seen: the file picker shows only while no records are loaded (src/App.tsx:142), and sort buttons exist only once the first record has fields (src/App.tsx:120, 147-151), so no file is ever loaded while a sort is set.
- The filter effect tests whether the filter object has any entry, not whether any entry is active (src/App.tsx:72). A filter whose texts are all empty still runs the reduce and returns the view to the top (src/App.tsx:77-86).
- `ASC` compares the second row's text against the first's (src/App.tsx:98-99), so ascending shows the rows in non-increasing locale order and descending in non-decreasing order.
- A filter that hides every row shows "Loading...", not "No data" (src/App.tsx:135, 173-174).
- The first visible row is the scroll offset divided by 140, rounded down, and is not clamped to the number of rows (src/App.tsx:42). Past the end of the list the window is empty and the spacers are taller than the list (src/App.tsx:122-127, 175-176).

## Model

| member | source | states |
|---|---|---|
| JsValues.NatToString | src/utils.ts:35 | the decimal form of a number is non-empty, all digits, one digit exactly for numbers below ten, with no leading zero, and reads back as the number |
| JsValues.IntToStringInjective | src/App.tsx:58 | different integers have different `String(n)` forms |
| JsValues.Lower | src/utils.ts:35 | lower-casing keeps the length |
| JsValues.LowerIdempotent | src/utils.ts:35 | lower-casing twice is lower-casing once |
| JsValues.LowerOfLowercase | src/utils.ts:35 | text without capitals is its own lower-case form |
| JsValues.LowerEmpty | src/utils.ts:31-35 | a text is empty exactly when its lower-case form is |
| JsValues.ContainsAt | src/utils.ts:35 | `includes` holds exactly when the text occurs at some position, in both directions |
| JsValues.ContainsEmpty | src/utils.ts:35 | every text includes the empty text |
| JsValues.SliceShape | src/App.tsx:175-176 | a slice is the contiguous run from the clamped start to the clamped end (empty when the end comes first), no longer than `end - start` |
| OrderedMaps.LookupFound | src/App.tsx:111 | a key is found exactly when it is one of the keys, and then gives the value of its first entry |
| OrderedMaps.LookupDistinct | src/App.tsx:111 | with distinct keys, looking up the key at a position gives the value at that position |
| OrderedMaps.PutLookup | src/App.tsx:58 | `{ ...m, [k]: v }` maps `k` to `v` and every other key as before |
| OrderedMaps.PutKeys | src/App.tsx:58 | an existing key keeps its place, a new key goes last |
| OrderedMaps.PutNew | src/App.tsx:82 | putting a new key appends exactly one entry |
| OrderedMaps.PutExisting | src/App.tsx:109-112 | putting an existing key replaces that one entry and moves nothing |
| OrderedMaps.PutDistinct | src/App.tsx:58 | putting keeps the keys distinct |
| OrderedMaps.SpreadLookup | src/App.tsx:111 | after `{ ...base, ...patch }` a key of the patch has the patch's value, any other key the base's |
| OrderedMaps.SpreadDistinct | src/App.tsx:111 | spreading keeps the keys distinct |
| JsSort.InsertPermutes | src/App.tsx:96-102 | inserting adds exactly the one element |
| JsSort.InsertSorted | src/App.tsx:96-102 | inserting into a sorted sequence keeps it sorted, for a total preorder |
| JsSort.SortPermutes | src/App.tsx:96-102 | the sorted rows are a permutation of the rows, duplicates included |
| JsSort.SortSorted | src/App.tsx:96-102 | under a total preorder the sorted rows are in comparator order |
| Utils.FilterRowItem | src/utils.ts:21-37 | `filterRowItem`; its meaning is stated by Utils.FilterRowItemMeaning |
| Utils.FilterRowItemMeaning | src/utils.ts:21-37 | a record passes exactly when, for every active entry `(k, t)`, the lower-cased `String(obj[k])` includes the lower-cased `t` |
| Utils.EveryAcceptsMeaning | src/utils.ts:30-36 | `every` holds exactly when the callback holds at every position |
| Utils.EmptyFilterAcceptsAll | src/utils.ts:26-28 | a filter with no entries accepts every record |
| Utils.InactiveFilterAcceptsAll | src/utils.ts:24-33 | entries whose text is '', `null` or `undefined` impose nothing |
| Utils.MissingFieldIsUndefined | src/utils.ts:35 | a missing field is compared as the text "undefined" |
| Utils.FilterNarrows | src/utils.ts:30-36 | a record that a filter accepts is accepted by every filter made of some of its entries |
| Utils.AddedEntryNarrows | src/utils.ts:30-36 | adding a filter entry can only turn an acceptance into a rejection |
| Utils.FilterTextCaseInsensitive | src/utils.ts:31-35 | the verdict does not depend on the letter case of the filter texts |
| Utils.FieldCaseInsensitive | src/utils.ts:35 | the verdict does not depend on the letter case of the record's fields |
| Utils.SplitOn | src/utils.ts:7 | the pieces hold no separator and, joined with it, give the text back |
| Utils.ValidateEmail | src/utils.ts:3-9 | `validateEmail`; its properties are stated by the e-mail lemmas below |
| Utils.ValidateEmailIgnoresCase | src/utils.ts:3-9 | texts equal after lower-casing get the same verdict |
| Utils.ValidateEmailOfLower | src/utils.ts:3-9 | the verdict on the lower-case form is the verdict on the text |
| Utils.SplitOnNoSeparator | src/utils.ts:7 | text without the separator is a single piece |
| Utils.SplitOnMissing | src/utils.ts:7 | a character that no piece holds, other than the separator, is not in the text |
| Utils.DomainHasNoAt | src/utils.ts:7 | neither an IP literal nor a host name contains `@` |
| Utils.EmailSplitIsUnique | src/utils.ts:7 | the pattern splits an address only at its last `@`, so local part and domain are unique |
| Utils.ShortAddressIsValid | src/utils.ts:3-9 | `a@b.io` passes |
| Utils.DotlessDomainIsInvalid | src/utils.ts:3-9 | `a@b` fails: a host name needs a top-level label |
| Utils.NoAtIsInvalid | src/utils.ts:3-9 | text without `@` fails |
| Pipeline.RowKey | src/App.tsx:58 | a record's identity: the text of its id when truthy, otherwise a fresh uuid; its property is stated by Pipeline.NumericIdsGiveDistinctKeys |
| Pipeline.NumericIdsGiveDistinctKeys | src/App.tsx:58 | records with different non-zero numeric ids get different identities |
| Pipeline.LoadRows | src/App.tsx:55-60 | the load reduce; its properties are stated by the four Pipeline.LoadRows lemmas below |
| Pipeline.FirstOccurrences | src/App.tsx:55-60 | keeping first occurrences keeps exactly the keys that occur |
| Pipeline.LoadRowsDistinctKeys | src/App.tsx:55-60 | the loaded row map holds each identity once |
| Pipeline.LoadRowsKeyOrder | src/App.tsx:55-60 | the identities are in the order of their first occurrence in the file |
| Pipeline.LoadRowsLastWins | src/App.tsx:55-60 | the record stored under an identity is the last record with that identity |
| Pipeline.LoadRowsDistinct | src/App.tsx:55-60 | with distinct identities, every record is kept, in file order |
| Pipeline.FirstOccurrencesOfDistinct | src/App.tsx:55-60 | distinct keys are their own first occurrences |
| Pipeline.ApplyEdit | src/App.tsx:109-112 | the edit update; its meaning is stated by Pipeline.ApplyEditSpec |
| Pipeline.ApplyEditSpec | src/App.tsx:108-113 | the edited record is the old one shallow-merged with the patch; other rows and the identity order are unchanged; an unknown identity is appended |
| Pipeline.ApplyEditDistinct | src/App.tsx:108-113 | an edit keeps the identities distinct |
| Pipeline.EditsAccumulate | src/App.tsx:108-113 | two one-field edits of a row keep both fields and change no other |
| Pipeline.FilterFold | src/App.tsx:77-83 | the filter reduce; Pipeline.FilterFoldIsSelect ties it to the reference Pipeline.Select |
| Pipeline.FilterRows | src/App.tsx:71-83 | the filter effect's result; its meaning is stated by Pipeline.FilterRowsSpec |
| Pipeline.SelectMembers | src/App.tsx:77-83 | an entry is selected exactly when it is an entry that the filter accepts |
| Pipeline.SelectIsSubsequence | src/App.tsx:77-83 | the selection keeps the entries' order |
| Pipeline.SelectIdempotent | src/App.tsx:77-83 | selecting twice is selecting once |
| Pipeline.SelectAppend | src/App.tsx:77-83 | selecting distributes over appending one entry |
| Pipeline.SelectAll | src/App.tsx:77-83 | a filter that accepts every entry selects all of them |
| Pipeline.FilterFoldIsSelect | src/App.tsx:77-83 | over distinct identities the reduce of the filter effect is the order-preserving selection |
| Pipeline.FilterFoldDistinct | src/App.tsx:77-83 | the reduce keeps the identities distinct |
| Pipeline.EmptyFilterShowsAll | src/App.tsx:72-75 | with an empty filter object the visible rows are the edited rows |
| Pipeline.FilterRowsSpec | src/App.tsx:71-87 | the visible rows are exactly the accepted edited entries, unchanged, distinct and in order |
| Pipeline.FilterRowsIdempotent | src/App.tsx:71-87 | filtering the visible rows again changes nothing |
| Pipeline.InactiveFilterShowsAll | src/App.tsx:71-87 | a filter whose texts are all empty shows every edited row |
| Pipeline.HandleOrderChange | src/App.tsx:28-35 | the toggle; its cases are stated by Pipeline.OrderToggleSpec |
| Pipeline.OrderToggleSpec | src/App.tsx:28-35 | a new key starts ascending; the current key cycles ASC, DESC, none, ASC |
| Pipeline.ThreeClicksReturn | src/App.tsx:30 | three clicks on the current key restore its direction |
| Pipeline.Comparator | src/App.tsx:97-101 | the sort callback as "may stay in front of"; see Pipeline.ComparatorPreorder and Pipeline.OrderDirectionSpec |
| Pipeline.OrderRows | src/App.tsx:90-102 | the sort effect's result; see Pipeline.OrderPermutes, Pipeline.OrderDirectionSpec and Pipeline.UnorderedKeepsInsertionOrder |
| Pipeline.ComparatorPreorder | src/App.tsx:97-101 | for a consistent `localeCompare` both directions' comparators are total preorders |
| Pipeline.UnorderedKeepsInsertionOrder | src/App.tsx:91-94 | without a key or a direction the rows keep insertion order |
| Pipeline.OrderPermutes | src/App.tsx:90-106 | ordering only rearranges the `[id, record]` pairs |
| Pipeline.OrderDirectionSpec | src/App.tsx:97-101 | DESC gives non-decreasing and ASC non-increasing locale order of the key's text |
| Pipeline.FirstVisibleRow | src/App.tsx:42 | the scroll offset over the row height, rounded down; characterised by Pipeline.FirstVisibleRowSpec |
| Pipeline.FirstVisibleRowSpec | src/App.tsx:41-44 | the first visible row is the row under the top edge; non-negative for a non-negative offset |
| Pipeline.Window | src/App.tsx:175-176 | the rendered slice; see Pipeline.WindowSpec |
| Pipeline.TopHeight | src/App.tsx:122 | `getTopHeight`; see Pipeline.HeightsSpec |
| Pipeline.BottomHeight | src/App.tsx:124-127 | `getBottomHeight`; see Pipeline.HeightsSpec |
| Pipeline.WindowSpec | src/App.tsx:175-176 | the window holds at most six rows, a contiguous run of the rows from the first visible one |
| Pipeline.HeightsSpec | src/App.tsx:122-127 | the bottom spacer is never negative; with the first row inside the list, spacers and window add up to the list's height; past the end the window is empty |
| Pipeline.IsLoading | src/App.tsx:135 | `isLoading`; see Pipeline.PlaceholderSpec |
| Pipeline.ShowsNoData | src/App.tsx:174 | the "No data" condition; see Pipeline.PlaceholderSpec |
| Pipeline.PlaceholderSpec | src/App.tsx:135-174 | "Loading..." and "No data" never show together; "No data" only for a loaded file with no records |
| Pipeline.HeaderKeys | src/App.tsx:120 | the fields of the first loaded record; what it means for each row is stated by RowCells.RowCellsFollowHeader |
| RowCells.Classify | src/Row.tsx:21-51 | the editor chain; its decision table is stated by RowCells.ClassifySpec |
| RowCells.ClassifySpec | src/Row.tsx:20-51 | each kind of cell with the exact condition choosing it, first match wins, holding the value itself |
| RowCells.IdIsReadOnly | src/Row.tsx:23-25 | `id` is read-only whatever its value |
| RowCells.DateWins | src/Row.tsx:36-38 | a date-parseable string gets a date input even when long or an address |
| RowCells.Cells | src/Row.tsx:20-21 | one cell per header key; see RowCells.RowCellsFollowHeader |
| RowCells.RowCellsFollowHeader | src/Row.tsx:20-25 | every row shows the first record's columns: one cell per field of that record, none for a field only this row has, an empty cell (blank read-only for `id`) for a column this row lacks |
| RowCells.HandleChange | src/Row.tsx:14-16 | a cell change as the row's id and a one-field partial record; see RowCells.CellChangeSpec |
| RowCells.CellChangeSpec | src/Row.tsx:14-16 | a cell change sets one field of its row and leaves all else unchanged |
| TableApp.TableView.constructor | src/App.tsx:15-24 | the initial state is empty, unsorted, unfiltered and at the top |
| TableApp.TableView.FilterEffect | src/App.tsx:71-87 | the visible rows are recomputed; the view returns to the top for a non-empty filter object |
| TableApp.TableView.OrderEffect | src/App.tsx:90-106 | the rows are reordered; the view returns to the top when a sort is set |
| TableApp.TableView.Load | src/App.tsx:54-68 | loading keys the records, drops edits and filter, returns to the top and keeps the sort, keeping `Valid()` |
| TableApp.TableView.Edit | src/App.tsx:108-113 | an edit merges into the edited rows, then filter and order are re-applied, keeping `Valid()` |
| TableApp.TableView.SetFilter | src/App.tsx:37-39 | the filter gets the text for the key, rows are recomputed and the view returns to the top |
| TableApp.TableView.ToggleOrder | src/App.tsx:28-35 | the key and direction follow the toggle and the rows are reordered, keeping `Valid()` |
| TableApp.TableView.Scroll | src/App.tsx:41-44 | only the first visible row changes, to the row under the top edge, keeping `Valid()` |
| TableApp.TableView.RenderedRows | src/App.tsx:175-176 | at most six rows are rendered, each a row of the table |
| TableApp.TableView.Spacers | src/App.tsx:122-127 | the bottom spacer is never negative; while the first visible row is inside the table, spacers and rendered rows add up to the table's height |
| TableApp.TableView.Loading | src/App.tsx:135 | in a consistent state "Loading..." shows exactly when records were loaded and none passes the filter |
| TableApp.TableView.RowsComeFromEdited | src/App.tsx:77-102 | every displayed pair is an entry of the edited rows |

## Left out

- Object key order: JavaScript lists integer-like keys (such as `"1"`, `"42"`) first, in numeric order, and the others in insertion order. The model keeps every key in insertion order, so it is exact only for identities and field names that are not array indices.
- Numbers: only integers are modelled. Fractions, `NaN`, infinities and the exponent form of `String(n)` are not.
- Text: `toLowerCase` is modelled for ASCII letters only, and `length` counts characters rather than UTF-16 code units.
- `Date.parse` and `localeCompare` are left as parameters: `dateParses` and `leLocale`. `leLocale` is assumed to be a total preorder.
- `uuidv4()` is a parameter: the token sequence gives record `i` its uuid.
- Reading the file: `FileReader`, `JSON.parse`, the `alert` on a malformed file and `FileSelect` are not part of this model. Records arrive already parsed as flat objects. Nested objects and arrays as field values are not modelled.
- `FilterInput` and its `debounce` of 1000 ms are not modelled. `SetFilter` is the call that fires once the delay has passed.
- `DataComponents` are not modelled: the editors and how they convert their input. A change reaches the table as a value through `HandleChange`.
- Rendering is not modelled: the scroll listener, `scrollTo({ top: 0 })`, React's render and effect scheduling, memoisation, and the container height in `containerStyle`. The effects run as explicit steps, in the order React runs them.
- Utils.MissingFieldIsUndefined: a field is a record's own entry or `undefined`. Reading a field by name in the filter (src/utils.ts:35) and the sort (src/App.tsx:99-100) also finds members inherited from `Object.prototype`, so the claim that a missing field reads as "undefined" holds only for field names that are not such members (`toString`, `constructor`, ...); the same restriction applies to `Utils.Field` wherever filtering and sorting use it.
- JsSort.Sort: stability is built into the definition, namely insertion after every element that may precede. It is not stated as a separate lemma.
- Utils.ValidateEmail: the regular expression is modelled as an equivalent grammar over the lower-cased text. Backtracking and the match object are not modelled, only whether there is a match.
