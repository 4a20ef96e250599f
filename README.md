# Note version ledger and analytics, in Dafny

This project models the core of a small note-taking backend: the note **version ledger**
kept in two database tables, and the **corpus analytics** computed over the notes.

- `notes(id, title, content, version)` holds the current state of every note.
- `note_histories(id, note_id, content, version)` is an append-only log of the versions
  written. Its `note_id` is a foreign key to `notes.id` with `ON DELETE CASCADE`.

The model follows the crud layer operation by operation. Every write is modelled twice:
- as a pure transition over the two tables (`CrudNote.CreateNote`, `UpdateNote`,
  `RollBackNote`, `DeleteNote`), each returning the tables after its transaction and its answer;
- as a method of the mutable store `Database.NoteStore`, which changes its fields in place
  and is proved to end in exactly the state the transition describes.

A rolled-back transaction leaves the tables as they were. Reads are functions of the tables.

Files:
- `models.dfy` (`Models`): rows, tables, the database invariant `Valid`, the
  `WHERE note_id = ...` filter `HistoryOf` and the delete cascade `Cascade`.
- `schemas.dfy` (`Schemas`): the response shapes.
- `crud_note.dfy` (`CrudNote`): every operation of the crud module.
- `version_ledger.dfy` (`VersionLedger`): what the writes guarantee.
  - `Valid` is preserved by every write.
  - Each write changes exactly its own rows.
  - The lockstep invariant (the note's version is that of its latest history row, and
    history versions increase) is kept by create, update and delete.
  - For a note whose history is in lockstep, an update followed by a rollback to the
    previous version restores the notes table. A rollback to an older version breaks the
    lockstep, and then the restore can fail (`RollBackThenUpdateRepeatsVersion`).
  - N successful updates (the version stays within 2^31 - 1) raise the version by N and
    log N rows.
- `sorting.dfy` (`Sorting`): a stable sort by an integer key, the reference for Python's
  `sorted` and for `Counter.most_common`. It is sorted, a permutation and stable.
- `analytics.dfy` (`Analytics`): the analytics report.
- `note_store.dfy` (`Database`): the store class.

Modelled behaviour:
- `update_note` on an id with no note raises nothing at the `UPDATE`. The history row it
  then inserts breaks the foreign key at commit, so the whole transaction fails with a 500
  and nothing changes. A version already at 2^31 - 1 fails the same way, because the
  column is a 32-bit `INTEGER`. Both outcomes are written into `CrudNote.UpdateNote`.

Behaviour the proofs make explicit:
- `roll_back_note` writes no history row, so a rollback to an older version breaks the lockstep invariant
  (`RollBackBreaksLockstep`). A later update can then log the same version twice
  (`RollBackThenUpdateRepeatsVersion`). Taking rows in insertion order, as the model does
  for the unordered `SELECT`, a rollback to that version restores the older of the two rows.
- `shortest_notes` and `longest_notes` overlap when there are one to five notes. A shortest
  note can be longer than a longest one only with two to four notes (`OverlappingExtremes`). With at
  most one note, or five or more, no shortest note is longer than any longest note
  (`ShortestNotLongerThanLongest`).
- Ties in `most_common` keep the order in which the words were first met
  (`MostCommonTies`).

## Model

| member | source | states |
|---|---|---|
| Models.Valid | app/models/models.py:9-42 | defines the table invariant: keys below their sequences, versions in the `INTEGER` range, history ids increasing, the foreign key, and every note's current state recorded in its history |
| Models.HistoryOf | app/crud/crud_note.py:229 | the `WHERE note_id = :id` filter; no longer than the table |
| Models.Cascade | app/models/models.py:21-24 | the `ON DELETE CASCADE` removal of a note's rows; no longer than the table |
| Models.EmptyIsValid | app/models/models.py:9-42 | a fresh database with both id sequences at 1 satisfies the table invariant |
| Models.HistoryOfMembers | app/crud/crud_note.py:229-231 | the `WHERE note_id = :id` filter keeps exactly the rows of that note |
| Models.CascadeMembers | app/models/models.py:21-24 | the cascade keeps exactly the rows of the other notes |
| Models.HistoryOfCascade | app/models/models.py:21-24 | after the cascade the deleted note has no history and every other note keeps all of its own |
| Models.HistoryOfAppend | app/crud/crud_note.py:190-196 | appending a history row extends its own note's history by that row and no other note's |
| Models.CascadeIdsIncreasing | app/models/models.py:17-24 | the cascade keeps the surviving history rows in id order |
| Models.CascadeIdempotent | app/models/models.py:21-24 | cascading the same note twice removes nothing more |
| CrudNote.GetNote | app/crud/crud_note.py:16-36 | a note is returned iff the id is stored, with that row's id, title, content and version |
| CrudNote.CheckNote | app/crud/crud_note.py:39-49 | true iff `GetNote` finds the note |
| CrudNote.CurrentIsInHistory | app/crud/crud_note.py:97-113 | under the invariant, a stored note's current content and version appear in its history, and a missing note has none |
| CrudNote.GetHistoryByCurrentNote | app/crud/crud_note.py:224-243 | the note's history rows in insertion order; empty for a missing note, and it includes the current version of a stored one |
| CrudNote.GetNoteWithHistory | app/crud/crud_note.py:52-87 | present iff the note exists, with the note's fields and exactly `GetHistoryByCurrentNote`; the history is never empty for a stored note |
| CrudNote.IdsBetween | app/crud/crud_note.py:133-137 | the stored keys in a range, strictly ascending, and all of them |
| CrudNote.StoredIds | app/crud/crud_note.py:133-137 | the scan order of `select(Note)`: every stored key once, ascending |
| CrudNote.Page | app/crud/crud_note.py:133-137 | `LIMIT`/`OFFSET`: the length is `min(limit, n - offset)` or 0, and the i-th row is row `offset + i` |
| CrudNote.GetNotes | app/crud/crud_note.py:129-161 | `count_items` is the number of stored notes; the page has the expected length, holds stored notes in ascending id order from position `offset`, and carries their titles, versions and summarized contents |
| CrudNote.Contents | app/crud/crud_note.py:286-293 | one content per stored note, in scan order |
| CrudNote.GetNotesAnalytics | app/crud/crud_note.py:285-322 | the default report exactly when no note is stored; otherwise at most 5 common words and `min(3, n)` shortest and longest notes |
| CrudNote.CreateNote | app/crud/crud_note.py:90-126 | the answer carries the given title and content at version 1 and is what `get_note` then returns; the id is fresh and exactly one history row is appended |
| CrudNote.UpdateNote | app/crud/crud_note.py:164-206 | succeeds iff the note exists and its version is below 2^31 - 1; failure changes nothing; success bumps the version by one, sets the content, keeps the title, appends the matching history row and advances only the history id sequence |
| CrudNote.FindHistory | app/crud/crud_note.py:253-262 | a row with that note id and version when one exists; None only when no row matches |
| CrudNote.RollBackNote | app/crud/crud_note.py:246-282 | writes no history row; answers iff the note exists and a matching row exists, then the note carries the requested version and keeps its title; None changes nothing |
| CrudNote.DeleteNote | app/crud/crud_note.py:209-221 | always true; afterwards the note and its history are gone, exactly that key is removed, and neither id sequence moves |
| VersionLedger.RecordedAppend | app/crud/crud_note.py:190-196 | appending a row keeps every recorded version recorded |
| VersionLedger.CreatePreservesValid | app/crud/crud_note.py:90-126 | create keeps the table invariant |
| VersionLedger.CreateNoteEffect | app/crud/crud_note.py:95-113 | create adds the note at version 1 and makes its history exactly one row with the same content; no other note or history changes |
| VersionLedger.UpdatePreservesValid | app/crud/crud_note.py:164-206 | update keeps the table invariant, on success and on failure |
| VersionLedger.UpdateKeepsRecorded | app/crud/crud_note.py:170-196 | after an update every note's current state is still one of its history rows |
| VersionLedger.AppendRowKeepsRows | app/crud/crud_note.py:188-196 | appending a history row with the next id, a stored note and a valid version keeps ids increasing and the foreign key |
| VersionLedger.UpdateNoteEffect | app/crud/crud_note.py:172-198 | a successful update changes only its own note (same title, new content, version + 1) and appends one row to its history only |
| VersionLedger.RollBackPreservesValid | app/crud/crud_note.py:246-282 | rollback keeps the table invariant |
| VersionLedger.RollBackKeepsRecorded | app/crud/crud_note.py:259-272 | after a rollback the note's new state is the row it was copied from, so it stays recorded |
| VersionLedger.RollBackNoteEffect | app/crud/crud_note.py:253-278 | a successful rollback copies the content of a row of that note with the requested version onto the note and changes nothing else |
| VersionLedger.RollBackIdempotent | app/crud/crud_note.py:246-282 | rolling back twice to the same version is the same as once |
| VersionLedger.DeletePreservesValid | app/crud/crud_note.py:209-221 | delete keeps the table invariant |
| VersionLedger.DeleteKeepsForeignKey | app/models/models.py:21-24 | after the cascade every remaining history row still refers to a stored note |
| VersionLedger.DeleteKeepsRecorded | app/crud/crud_note.py:209-217 | every remaining note keeps the row that records its current state |
| VersionLedger.DeleteNoteEffect | app/crud/crud_note.py:209-217 | delete removes the note and only its history rows; every other note's history is unchanged and neither id sequence moves |
| VersionLedger.DeleteIdempotent | app/crud/crud_note.py:209-221 | deleting twice is the same as deleting once |
| VersionLedger.CreatePreservesLockstep | app/crud/crud_note.py:97-113 | create keeps every note's version equal to that of its latest history row, with versions increasing |
| VersionLedger.LockstepAppend | app/crud/crud_note.py:172-196 | appending a row with a higher version keeps a history in lockstep with the updated note |
| VersionLedger.UpdatePreservesLockstep | app/crud/crud_note.py:172-196 | update keeps the lockstep invariant |
| VersionLedger.DeletePreservesLockstep | app/crud/crud_note.py:209-217 | delete keeps the lockstep invariant |
| VersionLedger.LockstepUniqueVersion | app/crud/crud_note.py:253-262 | in a history in lockstep, the note's current version is carried by its latest row only |
| VersionLedger.FindLockstepVersion | app/crud/crud_note.py:253-262 | after one update of a note in lockstep, looking up its previous version finds the row written before the update |
| VersionLedger.UpdateThenRollBackRestores | app/crud/crud_note.py:246-282 | for a note whose history is in lockstep (a rollback to an older version breaks it; see `RollBackThenUpdateRepeatsVersion` for a failing case), update then rollback to the previous version restores the notes table exactly and answers the old note; the history keeps the update's row |
| VersionLedger.RollBackBreaksLockstep | app/crud/crud_note.py:262-271 | after create, update and rollback to version 1, the note's version is behind its latest history row |
| VersionLedger.RollBackThenUpdateRepeatsVersion | app/crud/crud_note.py:262-271 | create, update, rollback, update logs version 2 twice, and rollback to 2 restores the older content |
| VersionLedger.Lockstep | app/crud/crud_note.py:164-206 | defines the lockstep of a note's history: non-empty, versions increasing, the latest row carrying the note's content and version |
| VersionLedger.InLockstep | app/crud/crud_note.py:90-126 | defines lockstep for every stored note |
| VersionLedger.UpdateAll | app/crud/crud_note.py:164-206 | N updates in a row keep the set of notes and the note sequence, and only append to the history |
| VersionLedger.UpdateRows | app/crud/crud_note.py:190-196 | N updates log N rows |
| VersionLedger.UpdateRowsAt | app/crud/crud_note.py:190-196 | the k-th logged row has id `first + k`, version `v + k + 1` and the k-th content |
| VersionLedger.UpdateAllNote | app/crud/crud_note.py:172-182 | after N successful updates the note is at version v + N, keeps its title and holds the last content |
| VersionLedger.UpdateAllHistory | app/crud/crud_note.py:190-196 | after N successful updates the note's history gains exactly the N rows for versions v + 1 to v + N |
| VersionLedger.CreateThenUpdates | app/crud/crud_note.py:97-113 | create then N updates gives version 1 + N and N + 1 history rows, the k-th at version k + 1 with the k-th content written |
| Sorting.Insert | app/crud/crud_note.py:309 | insertion adds exactly that element: one longer, and the multiset grows by it |
| Sorting.InsertSorted | app/crud/crud_note.py:309 | inserting into a sorted sequence keeps it sorted |
| Sorting.SortBy | app/crud/crud_note.py:309 | the result is sorted by the key and is a permutation of the input |
| Sorting.InsertWithKey | app/crud/crud_note.py:309 | insertion puts the element at the end of its own key's run |
| Sorting.SortByStable | app/crud/crud_note.py:309 | for every key, the elements carrying it keep their input order |
| Sorting.SortByKeepsTies | app/crud/crud_note.py:309 | two elements with equal keys come out in the order they went in |
| Sorting.SortedSplit | app/crud/crud_note.py:311-312 | cutting a sorted sequence leaves no element in front longer than one behind |
| Analytics.AlphabeticCounts | app/crud/crud_note.py:299 | the `isalpha` filter keeps every alphabetic token as often as it occurs, and nothing else |
| Analytics.AlphabeticConcat | app/crud/crud_note.py:299 | the filter distributes over concatenation |
| Analytics.IsAlpha | app/crud/crud_note.py:299 | defines `str.isalpha`: non-empty and letters only |
| Analytics.Alphabetic | app/crud/crud_note.py:299 | the `isalpha` filter, in input order; no longer than its input |
| Analytics.Words | app/crud/crud_note.py:303 | every word kept is alphabetic |
| Analytics.Join | app/crud/crud_note.py:295 | `" ".join`: no texts give the empty string; otherwise the length is all the texts' characters plus one separator between each two |
| Analytics.JoinPlacesText | app/crud/crud_note.py:295 | each text appears in the joined string at its offset, after every earlier text and its separator |
| Analytics.JoinPlacesSpace | app/crud/crud_note.py:295 | a single space follows every text but the last |
| Analytics.NoteLengths | app/crud/crud_note.py:303 | one word count per note |
| Analytics.Mean | app/crud/crud_note.py:304 | the mean of the note lengths: non-negative, and times the number of notes it gives their sum |
| Analytics.JoinedWords | app/crud/crud_note.py:295-303 | when the tokenizer splits at the joining space, the words of the joined corpus number the sum of the note lengths |
| Analytics.TotalOverCountIsMean | app/crud/crud_note.py:301-304 | under the same condition, the average note length is the total word count divided by the number of notes |
| Analytics.Distinct | app/crud/crud_note.py:306 | the counter's keys in first-occurrence order; no more of them than words |
| Analytics.DistinctMembers | app/crud/crud_note.py:306 | the counter's keys are the words of the input, each once |
| Analytics.First | app/crud/crud_note.py:306 | the first position of a word |
| Analytics.DistinctOrder | app/crud/crud_note.py:306 | the counter's keys come in order of first occurrence |
| Analytics.Tally | app/crud/crud_note.py:306 | `Counter(ws)`: every word of the input exactly once, keys in the counter's order, each with its number of occurrences (at least one) |
| Analytics.TallyTotal | app/crud/crud_note.py:306 | the counts of the counter add up to the number of words counted |
| Analytics.MostCommon | app/crud/crud_note.py:307 | `most_common(n)` has `min(n, distinct words)` pairs |
| Analytics.SortedTally | app/crud/crud_note.py:306-307 | the ranked pairs are exactly the words with their true counts, with no repeats |
| Analytics.MostCommonCounts | app/crud/crud_note.py:307 | each pair is a word of the input with its true count, and no word is listed twice |
| Analytics.MostCommonOrdered | app/crud/crud_note.py:307 | counts do not increase along the list |
| Analytics.MostCommonTop | app/crud/crud_note.py:307 | a word is left out only when n pairs are listed, and it is no more frequent than any listed word |
| Analytics.MostCommonTies | app/crud/crud_note.py:307 | listed words with equal counts appear in order of their first occurrence |
| Analytics.ByLength | app/crud/crud_note.py:309 | `sorted` by length: a permutation of the contents, in non-decreasing length |
| Analytics.Shortest | app/crud/crud_note.py:311 | `sorted_notes[:3]` has `min(3, n)` entries |
| Analytics.Longest | app/crud/crud_note.py:312 | `sorted_notes[-3:]` has `min(3, n)` entries |
| Analytics.ShortestSpec | app/crud/crud_note.py:309-311 | the shortest notes are notes of the corpus and every other note is at least as long as each |
| Analytics.LongestSpec | app/crud/crud_note.py:309-312 | the longest notes are notes of the corpus and every other note is at most as long as each |
| Analytics.ShortestNotLongerThanLongest | app/crud/crud_note.py:309-312 | with at most one note or at least five, no shortest note is longer than any longest note |
| Analytics.OverlappingExtremes | app/crud/crud_note.py:309-312 | with notes "a" and "bb" both lists are ["a", "bb"], so a shortest note is longer than a longest one |
| Analytics.Report | app/crud/crud_note.py:285-322 | the default report exactly for an empty corpus; otherwise at most 5 common words, `min(3, n)` shortest and longest notes, and the average is the mean of the note lengths |
| Database.NoteStore.constructor | app/models/models.py:29-42 | the store starts empty and valid |
| Database.NoteStore.CreateNote | app/crud/crud_note.py:90-126 | the in-place insertions end in the state and answer of `CrudNote.CreateNote`, keeping the invariant |
| Database.NoteStore.UpdateNote | app/crud/crud_note.py:164-206 | the in-place update ends in the state and answer of `CrudNote.UpdateNote`, keeping the invariant |
| Database.NoteStore.RollBackNote | app/crud/crud_note.py:246-282 | the in-place rollback ends in the state and answer of `CrudNote.RollBackNote`, keeping the invariant |
| Database.NoteStore.DeleteNote | app/crud/crud_note.py:209-221 | the in-place delete ends in the state and answer of `CrudNote.DeleteNote`, keeping the invariant |

## Left out

- Async session mechanics (`execute`, `commit`, `refresh`, `joinedload`) and connection setup. Each operation is one atomic step, and a failed transaction is "no change".
- CrudNote.CreateNote: only the successful outcome is modelled. A failure between its two commits, which would leave a note without a history row, is not covered.
- Id sequences: a value consumed by a rolled-back insert and the exhaustion of the 32-bit id range are not modelled. Ids are unbounded integers taken in order.
- `updated_at` timestamps, which come from the database clock.
- CrudNote.GetNotes: the external summarizer is a function parameter `summarize`.
- CrudNote.StoredIds: `select(Note)` has no `ORDER BY`. The scan order is taken to be ascending id.
- CrudNote.GetHistoryByCurrentNote: `select(NoteHistory).where(...)` has no `ORDER BY`. Rows are taken in insertion order.
- CrudNote.GetNoteWithHistory: the `joinedload` of `Note.histories` has no ordering. Rows are taken in insertion order.
- CrudNote.FindHistory: the `.scalar()` lookup in `roll_back_note` has no `ORDER BY`. The first row in insertion order is taken; which row the database returns when a version is logged twice is not promised.
- Analytics.Words: `nltk.word_tokenize` is a function parameter, and no property depends on it except where a lemma states its condition.
- Analytics.IsAlpha: only the 52 ASCII letters count as letters, while `str.isalpha` accepts every Unicode letter. Tokens such as "café" or "привет" are counted by the source and dropped by the model, so for non-ASCII text `total_words`, `average_note_length` and `most_common_words` differ. `Alphabetic`, `AlphabeticCounts`, `Words` and `NoteLengths` inherit this gap.
- Analytics.Report: `np.mean` is modelled as exact real division rather than 64-bit floating point.
- Analytics.Report: `app/schemas/note.py` declares neither `AnalyticsResponse` nor `DetailResponseNote`. Both shapes are built from the fields set at app/crud/crud_note.py:71-84 and 314-320. The default `AnalyticsResponse()` for an empty corpus (app/crud/crud_note.py:291) is assumed to be zero and empty lists.
- Analytics.ShortestSpec: the source sorts note rows and then takes their contents. The model sorts the contents directly, which gives the same lists since the key depends on the content only.
- HTTP routing, status codes and pydantic validation. Errors are the `Result` and `Option` datatypes.
- CrudNote.GetNotes: `limit` and `offset` are natural numbers. Negative values are rejected by the database and are not modelled.
