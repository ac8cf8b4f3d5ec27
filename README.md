# TodoFlow task collection, modelled in Dafny

TodoFlow is a single-user task list that runs in the browser. Its logic sits in
the `useTodos` React hook. The hook keeps three state cells: the task list
`todos` (newest first), the completion `filter` (`all`, `active`,
`completed`) and the `search` string. It writes the whole list to local
storage after every change. It offers `addTodo`, `toggleTodo`, `deleteTodo`,
`editTodo` and `clearCompleted`, which rewrite the list, plus two setters for
the view. It hands out two projections: `filtered`, the list the page shows,
and `stats`, the total, active and completed counts.

The model has five modules:

- `Types` (types.dfy): the `Todo` record, `Priority`, `Filter`, and an `Option`.
- `JsArray` (js_array.dfy): `Array.prototype.map` and `filter` as recursive
  functions on sequences. Its lemmas cover order, occurrences, idempotence and
  partition.
- `Text` (text.dfy): `trim`, `toLowerCase` and `includes`.
- `Todos` (todos.dfy): the update bodies as whole-list functions
  `seq<Todo> -> seq<Todo>`, plus `filtered` and `stats`. It also proves the
  collection invariant and the lemmas about these operations.
- `Hook` (hook.dfy): the hook as a class `TodoHook`. Its fields are the three
  state cells and `saved`, the storage slot. Each method replaces a cell the
  way the hook's setter does. `LoadTodos` is the fail-soft load.

Foreign calls become parameters:

- `crypto.randomUUID()` becomes `freshId`. `TodoHook.AddTodo` requires it to be
  an id that no record has.
- `new Date()` becomes `now`, a `Timestamp` (milliseconds, as a `Date` holds).
- `JSON.parse` and the rebuilding of `createdAt` become `parse`, a function
  that returns `None` where the source throws: text that is not JSON, or JSON
  that is not an array, or an array with a `null` element. Its result is always a list of well-formed records.

The collection invariant is `Todos.Invariant`: ids are pairwise distinct, and
every text is trimmed and not empty. Each operation preserves it. A list
loaded from storage is not guaranteed to satisfy it. So the class methods
state preservation as an implication (`Invariant(old(todos)) ==>
Invariant(todos)`), not as part of `Valid()`. `Valid()` says only that the
storage slot holds the current list.

The operations match on id without assuming ids are unique:

- `toggleTodo` and `editTodo` rewrite every record whose id matches.
- `deleteTodo` removes every record whose id matches.
- The lemmas that speak of exactly one record (`ToggleStats`,
  `DeleteRemovesOne`) assume unique ids.

## Model

| member | source | states |
|---|---|---|
| JsArray.Map | src/hooks/useTodos.ts:42-44 | `map` keeps the length, and element i of the result is the step applied to element i |
| JsArray.Filter | src/hooks/useTodos.ts:47-49 | `filter` is never longer than its input, and an element is in the result iff it is in the input and passes the test |
| JsArray.FilterIsSubsequence | src/hooks/useTodos.ts:59 | `filter` keeps the relative order of what it keeps (the result is a subsequence of the input) |
| JsArray.FilterOccurrences | src/hooks/useTodos.ts:59 | `filter` keeps every occurrence of a passing element and none of a failing one, so with the subsequence lemma the result is exactly the passing subsequence |
| JsArray.FilterCounts | src/hooks/useTodos.ts:48 | for every element at once, `filter` keeps each occurrence of a passing element and none of a failing one |
| JsArray.FilterKeepsAll | src/hooks/useTodos.ts:48 | `filter` returns its input when every element passes |
| JsArray.FilterIdempotent | src/hooks/useTodos.ts:59 | filtering twice with the same test equals filtering once |
| JsArray.FilterAgreeing | src/hooks/useTodos.ts:62-69 | two tests that agree on every element give the same filter result |
| JsArray.FilterPartition | src/hooks/useTodos.ts:73-74 | a test and its negation split the list: the two filter lengths add up to its length |
| JsArray.FilterDropsOne | src/hooks/useTodos.ts:48 | when exactly one position fails the test, the filter is one shorter than its input |
| JsArray.MapFixes | src/hooks/useTodos.ts:43 | a map whose step fixes every element returns its input |
| JsArray.MapInvolution | src/hooks/useTodos.ts:43 | mapping twice with a self-inverse step restores the input |
| Text.IsSpace | src/hooks/useTodos.ts:29-32 | the characters `trim` removes include space, tab, line feed and carriage return, and never an ASCII letter or digit |
| Text.LeadingSpace | src/hooks/useTodos.ts:32 | counts the leading white space: all of it is white space, and the next character (if any) is not |
| Text.TrailingSpace | src/hooks/useTodos.ts:32 | counts the trailing white space: all of it is white space, and the character before it (if any) is not |
| Text.Trim | src/hooks/useTodos.ts:29-32 | `trim` neither starts nor ends with white space, and it is empty exactly when the input is all white space (the `!text.trim()` guard) |
| Text.IsBlank | src/hooks/useTodos.ts:29 | the `!text.trim()` guard (also at line 52) holds exactly when every character is white space |
| Text.TrimCutsEnds | src/hooks/useTodos.ts:32 | `trim` returns a slice of its input, and everything before and after that slice is white space |
| Text.TrimmedTail | src/hooks/useTodos.ts:54 | what `trim` cuts from the end is white space |
| Text.TrimTrimmed | src/hooks/useTodos.ts:32 | a string that neither starts nor ends with white space is its own trim |
| Text.TrimIdempotent | src/hooks/useTodos.ts:54 | trimming twice equals trimming once |
| Text.LowerChar | src/hooks/useTodos.ts:67 | maps each capital `A`-`Z` to the small letter at the same alphabet position, changes no other character, and leaves no capital behind, so lower-casing its result changes nothing |
| Text.ToLower | src/hooks/useTodos.ts:67 | `toLowerCase` keeps the length and lower-cases each character |
| Text.ToLowerIdempotent | src/hooks/useTodos.ts:67 | lower-casing leaves no upper-case ASCII letter, so it is idempotent |
| Text.Includes | src/hooks/useTodos.ts:67 | `includes` can only hold when the needle is no longer than the haystack (and `IncludesOccurs` gives its exact meaning) |
| Text.OccursInTail | src/hooks/useTodos.ts:67 | an occurrence in the tail of a string is an occurrence in the string, one place later |
| Text.OccursIncluded | src/hooks/useTodos.ts:67 | an occurrence at any position makes `includes` true |
| Text.IncludesOccurs | src/hooks/useTodos.ts:67 | `includes` holds iff the needle occurs at some position of the haystack |
| Text.IncludesEmpty | src/hooks/useTodos.ts:67 | the empty string is included in every string |
| Todos.AddTodo | src/hooks/useTodos.ts:28-39 | blank text leaves the list unchanged. Otherwise the list grows by one and the old list follows the new head. The head has the given id, the trimmed text, completed false, and the given priority, category and timestamp |
| Todos.ToggleTodo | src/hooks/useTodos.ts:41-45 | keeps the length. A record with the id has `completed` negated and every other field kept. Every other record is unchanged |
| Todos.DeleteTodo | src/hooks/useTodos.ts:47-49 | a record is kept iff it was there and its id differs from the given one, and every record with another id keeps all its occurrences, duplicates included |
| Todos.EditTodo | src/hooks/useTodos.ts:51-56 | blank text leaves the list unchanged. The length is kept. A record with the id gets the trimmed text and keeps every other field. Every other record is unchanged |
| Todos.ClearCompleted | src/hooks/useTodos.ts:58-60 | a record is kept iff it was there and is not completed |
| Todos.Filtered | src/hooks/useTodos.ts:62-69 | a record is shown iff it is in the list, passes the completion filter, and its lower-cased text includes the lower-cased search, and a shown record appears as often as in the list |
| Todos.ToggleIfId | src/hooks/useTodos.ts:43 | the toggle step negates `completed` exactly on the given id and keeps every other field, and applying it twice restores any record |
| Todos.RetextIfId | src/hooks/useTodos.ts:54 | the edit step sets the text exactly on the given id and keeps every other field, and applying it twice is applying it once |
| Todos.IdIsNot | src/hooks/useTodos.ts:48 | the delete test passes exactly the records the toggle step of the same id leaves unchanged: delete keeps what toggle would not touch |
| Todos.IsActive | src/hooks/useTodos.ts:59 | the test of `clearCompleted` and of the active count (line 73) passes exactly the records the `active` filter shows |
| Todos.IsDone | src/hooks/useTodos.ts:74 | the completed-count test is the negation of the active test `IsActive` used at lines 59 and 73 |
| Todos.MatchesFilter | src/hooks/useTodos.ts:63-66 | `all` passes every record; `completed` passes exactly the completed ones and `active` exactly the others |
| Todos.MatchesSearch | src/hooks/useTodos.ts:67 | a record can match only a search no longer than its text |
| Todos.Shown | src/hooks/useTodos.ts:62-68 | the visible-list test passes a record iff it passes both the completion filter and the search, so a non-empty search never shows an empty text |
| Todos.GetStats | src/hooks/useTodos.ts:71-75 | total is the list length, and active plus completed equals total |
| Todos.UniqueIdsCons | src/hooks/useTodos.ts:38 | a prepended list has unique ids iff the rest has and the new id is not among them |
| Todos.FilterKeepsUnique | src/hooks/useTodos.ts:48 | filtering keeps ids unique |
| Todos.MapKeepsIds | src/hooks/useTodos.ts:43 | a map whose step keeps ids keeps the id set and its uniqueness |
| Todos.AddPrepends | src/hooks/useTodos.ts:29-38 | a non-blank add grows the list by one, keeps the old list as the tail, and stores a trimmed, non-empty text under the given id |
| Todos.AddKeepsInvariant | src/hooks/useTodos.ts:28-39 | with a fresh id, adding keeps ids unique and every text trimmed and non-empty |
| Todos.AddStats | src/hooks/useTodos.ts:28-39 | a blank add leaves the counts unchanged. A non-blank add raises total and active by one and leaves completed unchanged |
| Todos.AddShowsFirst | src/hooks/useTodos.ts:38 | after a non-blank add, the view with filter `all` and an empty search is the whole list, headed by the new record |
| Todos.ToggleTwice | src/hooks/useTodos.ts:41-45 | toggling the same id twice restores the original list |
| Todos.ToggleAbsent | src/hooks/useTodos.ts:43 | toggling an id no record has changes nothing |
| Todos.ToggleKeepsInvariant | src/hooks/useTodos.ts:41-45 | toggling keeps the id set and the collection invariant |
| Todos.ToggleStats | src/hooks/useTodos.ts:41-45 | with unique ids, toggling a present record moves exactly one unit between the active and completed counts, in the direction of its new state |
| Todos.CountChange | src/hooks/useTodos.ts:73-74 | two lists that differ at one position, where only the second passes the test, differ by one in their filter lengths |
| Todos.DeleteKeepsOrder | src/hooks/useTodos.ts:48 | the records that remain keep their relative order |
| Todos.DeleteTwice | src/hooks/useTodos.ts:47-49 | deleting the same id again is a no-op |
| Todos.DeleteAbsent | src/hooks/useTodos.ts:48 | deleting an id no record has is a no-op |
| Todos.DeleteRemovesOne | src/hooks/useTodos.ts:47-49 | with unique ids, deleting a present id removes exactly one record, and the total drops by one |
| Todos.DeleteKeepsInvariant | src/hooks/useTodos.ts:47-49 | deleting keeps the collection invariant |
| Todos.EditAbsent | src/hooks/useTodos.ts:54 | editing an id no record has is a no-op |
| Todos.EditKeepsInvariant | src/hooks/useTodos.ts:51-56 | editing keeps the id set and the collection invariant |
| Todos.EditStoresTrimmed | src/hooks/useTodos.ts:52-54 | after an edit, every text is still trimmed and non-empty |
| Todos.ClearCompletedExact | src/hooks/useTodos.ts:58-60 | clearing yields the uncompleted records as a subsequence, each as often as before, and no completed record |
| Todos.ClearCompletedTwice | src/hooks/useTodos.ts:58-60 | clearing is idempotent |
| Todos.ClearCompletedStats | src/hooks/useTodos.ts:58-75 | after clearing, completed is 0 and total and active both equal the previous active count |
| Todos.ClearCompletedKeepsInvariant | src/hooks/useTodos.ts:58-60 | clearing keeps the collection invariant |
| Todos.FilteredKeepsOrder | src/hooks/useTodos.ts:62-69 | the visible list is an order-preserving subsequence of the list |
| Todos.EmptySearchMatches | src/hooks/useTodos.ts:67 | an empty search matches every record |
| Todos.FilteredShowsAll | src/hooks/useTodos.ts:62-69 | with filter `all` and an empty search, the visible list equals the list |
| Todos.FilteredActive | src/hooks/useTodos.ts:62-69 | with filter `active` and an empty search, the visible list is exactly what clearing keeps |
| Todos.FilteredCompleted | src/hooks/useTodos.ts:62-75 | with filter `completed` and an empty search, the visible list is the completed records, and its length is the completed count |
| Todos.SearchIgnoresCase | src/hooks/useTodos.ts:67 | two searches that lower-case alike show the same records |
| Todos.SearchOccurs | src/hooks/useTodos.ts:67 | a record matches iff the lower-cased search occurs at some position of its lower-cased text |
| Todos.Scenario | src/hooks/useTodos.ts:28-75 | add "Buy milk", add "Call dentist", toggle the first: counts are 2/1/1 and the active view holds only "Call dentist" |
| Todos.ScenarioAdds | src/hooks/useTodos.ts:28-39 | the two adds of the example build the two-record list, newest first |
| Todos.ScenarioToggle | src/hooks/useTodos.ts:41-45 | toggling the older of two records with distinct ids completes that record and no other |
| Todos.ScenarioCounts | src/hooks/useTodos.ts:58-75 | one active and one completed record give counts 2/1/1, and clearing keeps only the active one |
| Hook.LoadTodos | src/hooks/useTodos.ts:6-17 | a missing, empty or unparsable stored value gives the empty list. Otherwise the result is exactly what was parsed |
| Hook.TodoHook.constructor | src/hooks/useTodos.ts:20-26 | mounting loads the list, sets filter `all` and an empty search, and the storage slot holds the loaded list |
| Hook.TodoHook.AddTodo | src/hooks/useTodos.ts:28-39 | the list becomes `Todos.AddTodo` of the old list. Filter and search are unchanged. The slot holds the new list. The invariant is kept |
| Hook.TodoHook.ToggleTodo | src/hooks/useTodos.ts:41-45 | the list becomes `Todos.ToggleTodo` of the old list. Filter and search are unchanged. The slot holds the new list. The invariant is kept |
| Hook.TodoHook.DeleteTodo | src/hooks/useTodos.ts:47-49 | the list becomes `Todos.DeleteTodo` of the old list. Filter and search are unchanged. The slot holds the new list. The invariant is kept |
| Hook.TodoHook.EditTodo | src/hooks/useTodos.ts:51-56 | the list becomes `Todos.EditTodo` of the old list. Filter and search are unchanged. The slot holds the new list. The invariant is kept |
| Hook.TodoHook.ClearCompleted | src/hooks/useTodos.ts:58-60 | the list becomes `Todos.ClearCompleted` of the old list. Afterwards completed is 0 and total equals the previous active count. The slot holds the new list |
| Hook.TodoHook.SetFilter | src/hooks/useTodos.ts:21 | only the filter changes. The list, search, slot and counts are unchanged |
| Hook.TodoHook.SetSearch | src/hooks/useTodos.ts:22 | only the search changes. The list, filter, slot and counts are unchanged |
| Hook.TodoHook.Filtered | src/hooks/useTodos.ts:62-69 | the returned `todos` is an order-preserving subsequence of the list, holding exactly the records that pass the current filter and search, each as often as in the list |
| Hook.TodoHook.Stats | src/hooks/useTodos.ts:71-75 | the returned counts cover the whole list whatever the filter and search: total is its length, active plus completed is total, and active is what clearing would keep |

## Left out

- JSON: `JSON.stringify` and `JSON.parse` are not modelled. The storage slot `saved` holds the list itself. Loading takes the parser as a parameter, so the save/load round trip (including `createdAt` precision) is not stated.
- Local storage is not modelled as I/O. Reading is the `stored` parameter of `LoadTodos`. Writing is the assignment to `saved`. A write that fails is not modelled.
- React is not modelled: no `useState`, no `useEffect`, no re-render scheduling. The model applies each setter's functional update at once. React queues the update and applies it at the next render; until then the `filtered` and `stats` the hook returns are those of the last render, and the effect writes storage only after the commit. Applying the queued updates in order at the next render gives the same state the model reaches. The persistence effect is folded into each method that replaces the list.
- Hook.LoadTodos: the fail-soft rule covers only text that is not JSON, JSON that is not an array, an array with a `null` element (reading `createdAt` of `null` throws), and storage errors. A parsable array with malformed elements (such as `[{}]` or `[1]`) loads without throwing, as records without a `text` and with an invalid `createdAt`; the model's `Todo` cannot hold such a record, and rendering one later throws in `toLowerCase` at `src/hooks/useTodos.ts:67`.
- Hook.TodoHook.AddTodo: the freshness of the id is a precondition standing for the UUID generator's promise. A list loaded from storage is not checked for duplicate ids.
- Text.ToLower: folds ASCII `A`-`Z` only. JavaScript's `toLowerCase` follows full Unicode case mapping, so for non-ASCII text the search is less case-insensitive in the model than in the browser.
- Text.Trim: the white-space set is written out from the ECMAScript definition and the Unicode space separators (category Zs). A later Unicode version could add characters to it.
- Presentation is not modelled: `src/App.tsx`, `src/components/TodoItem.tsx`, `TodoInput.tsx`, `FilterBar.tsx` and `EmptyState.tsx`. Their one piece of logic, the blank-text guard at `src/components/TodoInput.tsx:26`, repeats the hook's guard.
- The completion percentage of `src/components/StatsBar.tsx:9-11` is not modelled: it uses floating-point division and rounding and is only displayed.
- Build configuration (`vite.config.ts`) is not modelled.
