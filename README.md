# Note widget: a Dafny model of its note collection

The widget keeps short text notes in the browser's local storage, under
the single key `"notes"`, as one serialized array of records
`{id, content, created_at}`. Every handler that reads or changes the
collection loads it whole; add and edit-save first return, without
loading, when the trimmed text is "". Add, edit-save and delete save the
whole array back; search and the date filter only read it.
This project models that collection and the five things the handlers do
to it:

- **add**: trim the typed text; refuse "" (the alert); otherwise append a
  record with the clock's milliseconds as id and the date part of the
  clock's ISO timestamp as `created_at`.
- **edit-save**: trim the new text; refuse ""; otherwise overwrite the
  content of the first record with the id (`Array.find`).
- **delete**: save back the records whose id differs (`Array.filter`).
- **search**: show the records whose lower-cased content includes the
  lower-cased query.
- **date filter**: show the records whose `created_at` equals the picked
  date.

Files and modules:

- `text.dfy`, module `Text`: `trim` with ECMAScript's whitespace and
  line-terminator set, `toLowerCase` on ASCII letters, and `includes`.
- `sequences.dfy`, module `Seqs`: `Array.prototype.filter` as a function
  on sequences. Its lemmas cover membership, multiplicity, order
  (subsequence), idempotence, and when it keeps all or nothing.
- `notes.dfy`, module `Notes`: the `Note` record, the creation date
  (`toISOString().split("T")[0]`), the `find` behind edit-save, and
  delete, search and the date filter as pure functions with their lemmas.
- `store.dfy`, module `Store`: class `NoteStore`. Its field `item` is what
  the `"notes"` key holds (`None` while nothing has been saved). `Load` reads
  the stored collection whole and `Save` replaces it whole. The handlers are methods
  whose contracts give the new stored value in terms of the old one.
- `scenario.dfy`, module `Scenario`: clients of the store and the
  filters. Three methods use only `NoteStore`'s method contracts: add a
  note and then edit it, delete the only note, and run two adds and a
  blank one in a row. The concrete search lemmas work through the
  definitions of `MatchesText`, `ToLower` and `Filter`.

The clock is not modelled. `Date.now()` and `new Date().toISOString()`
become the parameters `id` and `now` of `Add`.

The edit-save handler dereferences the result of `find` without a check
(script.js:76-77). When no stored note has the id, it throws before it
reaches `saveNotesToStorage`, so storage stays as it was. `Edit` models
this as the outcome `NotFound` with storage untouched.

With no date picked, the date filter still compares against `""`
(script.js:121-123). The model keeps that behaviour.
`FilterByDateEmptyDate` shows that it keeps no note when every note has
the calendar date that add stamps on it.

## Model

| member | source | states |
|---|---|---|
| Text.Trim | script.js:27 | `String.prototype.trim` (also at line 72): TrimStart then TrimEnd; its contract is stated by TrimSpec and TrimUnique, which together characterise it exactly |
| Text.TrimStartSpec | script.js:27 | dropping leading whitespace keeps a suffix of the input, drops only whitespace, and keeps nothing that starts with whitespace |
| Text.TrimEndSpec | script.js:27 | dropping trailing whitespace keeps a prefix of the input, drops only whitespace, and keeps nothing that ends with whitespace |
| Text.TrimSpec | script.js:27 | `trim()` gives a slice of the input that neither starts nor ends with whitespace and has only whitespace around it |
| Text.TrimStartUnique | script.js:27 | when the leading spaces are exactly `s[..i]`, TrimStart keeps `s[i..]` |
| Text.TrimEndUnique | script.js:27 | when the trailing spaces are exactly `s[j..]`, TrimEnd keeps `s[..j]` |
| Text.TrimUnique | script.js:27 | any slice that fits Trim's description is Trim's result, so the description defines `trim` |
| Text.TrimIdempotent | script.js:72 | trimming a trimmed text changes nothing |
| Text.TrimEmptyIff | script.js:28 | the trimmed text is "" exactly when every character is whitespace, which is when add and edit refuse |
| Text.ToLower | script.js:111 | `toLowerCase` on each character (also at line 114); its contract is stated by ToLowerSpec |
| Text.ToLowerSpec | script.js:111 | `toLowerCase` keeps the length, maps each ASCII capital to its small letter, keeps every other character, and leaves no capital |
| Text.ToLowerIdempotent | script.js:114 | lower-casing twice equals lower-casing once |
| Text.Includes | script.js:114 | `includes`: a match at the front or further on; its contract is stated by IncludesIff |
| Text.IncludesIff | script.js:114 | `includes` holds exactly when the needle occurs at some position of the text |
| Text.IncludesEmpty | script.js:114 | every text includes "" |
| Seqs.Filter | script.js:89 | `filter` never lengthens its input and every element it keeps passes the test |
| Seqs.FilterMember | script.js:89 | an element is in the result exactly when it is in the input and passes |
| Seqs.FilterCount | script.js:89 | an element that passes occurs as often as in the input; one that fails does not occur |
| Seqs.FilterIsSubsequence | script.js:89 | the result is a subsequence of the input, so relative order is kept |
| Seqs.FilterIdempotent | script.js:89 | filtering twice with the same test equals filtering once |
| Seqs.FilterKeepsAll | script.js:89 | the input comes back unchanged exactly when every element passes |
| Seqs.FilterKeepsNone | script.js:123 | the result is empty exactly when no element passes |
| Seqs.FilterSameTest | script.js:113-115 | two tests that agree on every element give the same result |
| Notes.DatePart | script.js:34 | `split("T")[0]` is the prefix before the first 'T' (all of the text when there is none) and holds no 'T' |
| Notes.DatePartOfTimestamp | script.js:34 | for a timestamp of the shape `toISOString` gives, the date part is its first ten characters, a `YYYY-MM-DD` date, never "" |
| Notes.NewNote | script.js:31-35 | the new record has the given id and content, and a calendar date when the clock reading is well formed |
| Notes.FindIndex | script.js:76 | `find` stops at the first note with the id; it finds none exactly when no note has the id |
| Notes.EditContent | script.js:76-77 | edit fails exactly when no note has the id; otherwise it keeps length and order and changes only the content of the first note with the id |
| Notes.EditKeepsIdsAndDates | script.js:77 | an edit keeps every id and every `created_at` in place, so it keeps notes well dated |
| Notes.RemoveById | script.js:89 | delete never lengthens the collection and leaves no note with the id |
| Notes.RemoveByIdSpec | script.js:88-89 | delete keeps, in order and with multiplicity, exactly the notes whose id differs; it returns the input itself exactly when the id is absent; deleting twice equals deleting once |
| Notes.MatchesText | script.js:113-115 | the search callback, lower-cased content includes lower-cased query; its contract is stated by FilterByTextSpec |
| Notes.FilterByText | script.js:113-115 | search never lengthens the collection and every note it keeps matches the query |
| Notes.FilterByTextSpec | script.js:111-115 | search keeps, in order and with multiplicity, exactly the notes whose lower-cased content holds the lower-cased query at some position; it is idempotent |
| Notes.FilterByTextEmptyQuery | script.js:111-115 | an empty query keeps the whole collection unchanged |
| Notes.FilterByTextIgnoresCase | script.js:111 | lower-casing the query first changes nothing |
| Notes.FilterByDate | script.js:123 | the date filter never lengthens the collection and keeps only notes with that date |
| Notes.FilterByDateSpec | script.js:121-123 | the date filter keeps, in order and with multiplicity, exactly the notes whose date equals the picked one; it is idempotent |
| Notes.FilterByDateEmptyDate | script.js:121-123 | with no date picked, the filter keeps nothing from a collection whose notes all carry a calendar date |
| Store.NoteStore.constructor | script.js:17-18 | a fresh browser has no `"notes"` key, so the collection loads as empty |
| Store.NoteStore.Load | script.js:16-19 | `getNotesFromStorage` returns the stored array, or [] when the key is absent |
| Store.NoteStore.Save | script.js:21-23 | `saveNotesToStorage` replaces the stored collection whole |
| Store.NoteStore.Add | script.js:26-42 | add is refused, with storage untouched, exactly when the text is all whitespace; otherwise the stored collection becomes the old one with one new record at the end, whose content is the trimmed text; it keeps notes well dated and non-blank |
| Store.NoteStore.Edit | script.js:71-81 | EmptyContent exactly when the text is all whitespace; NotFound exactly when no stored note has the id; storage is untouched in both cases; otherwise the stored collection becomes EditContent of the old one with the trimmed text, which is never ""; it keeps notes well dated and non-blank |
| Store.NoteStore.Delete | script.js:87-92 | storage becomes the old collection without the notes carrying the id, and is saved even when nothing was removed; it keeps notes well dated and non-blank |
| Store.NoteStore.Search | script.js:110-117 | the search view is the stored collection filtered by text, exactly the matching notes; storage is untouched |
| Store.NoteStore.SelectDate | script.js:120-125 | the date view is the stored collection filtered by date, exactly the notes with that date; storage is untouched |
| Scenario.EditOnlyNote | script.js:76-77 | editing the only note replaces its content and nothing else |
| Scenario.AddThenEdit | script.js:26-81 | from a fresh browser, an add stores exactly the new note, and an edit of it keeps its id and date and takes the new trimmed text |
| Scenario.DeleteOnlyNote | script.js:87-92 | deleting the only stored note leaves an empty collection stored |
| Scenario.InsertionOrder | script.js:30-38 | two adds are stored in the order made, and a blank add is refused |
| Scenario.MilkMatchesBuyMilk | script.js:113-115 | the query "MILK" matches the note "Buy milk", ignoring case |
| Scenario.MilkMissesCallMom | script.js:113-115 | the query "MILK" does not match the note "Call mom" |
| Scenario.MilkSearch | script.js:110-117 | searching "MILK" among "Buy milk" and "Call mom" keeps only "Buy milk" |

## Left out

- Rendering: `renderNotes`, `addNoteToUI`, the list items and their
  buttons, the edit-mode input box, and clearing the input after an add.
  These build the page and hold no data of the collection (script.js:1-6,
  41, 44-69, 103-106).
- The "Save and Remove" button and the clear-view button. They remove
  rendered rows only and never touch storage (script.js:95-99, 127-131).
- Event wiring and the `DOMContentLoaded` hook (script.js:9-14). These only
  connect the handlers to the page.
- `alert`. A refused add or edit is a returned flag or outcome, and
  storage is not written.
- `localStorage`, `JSON.parse` and `JSON.stringify`. The stored value is
  modelled as the array itself. Malformed stored text, which the source
  does not handle, is not modelled. `localStorage.setItem` can throw (for
  example when the storage quota is exceeded), and then add, edit-save or
  delete stores nothing; the model's `Save` always succeeds.
- Other tabs. Another tab of the same site can write the `"notes"` key
  between two handler calls, and the later write wins. The model has a
  single writer: `item` changes only through `NoteStore`'s own methods,
  so a load returns what this page last saved.
- The clock. `Date.now()` and `new Date().toISOString()` are parameters.
  Ids are not assumed to be unique, because nothing in the source
  enforces it. `IsIsoTimestamp` describes the timestamp shape only for
  years 0 to 9999. Outside that range `toISOString` adds a sign and two
  more year digits; DatePart handles such input, but no lemma covers it.
- Text.ToLower: does not model Unicode lower-casing beyond the ASCII
  letters A-Z. Letters such as 'É' stay as they are, and JavaScript's
  length-changing mappings (for example 'İ') are not modelled.
- Strings are sequences of Unicode scalar values, not of UTF-16 code
  units. A lone surrogate, which a JavaScript string can hold, has no
  counterpart.
