/** The operations of `app/crud/crud_note.py` as functions of the two tables.
    A read returns a projection; a write returns the tables after its transaction
    (unchanged when the transaction is rolled back) together with its answer. */
module CrudNote {
  import opened Models
  import opened Schemas
  import opened Analytics

  /** An operation that raises `HTTPException(500, "Database error: ...")`. */
  datatype Result<T> = Ok(value: T) | DatabaseError

  /** The tables after a write, and what the write returned. */
  datatype Step<R> = Step(tables: Tables, result: R)

  function Project(noteId: int, n: Note): ResponseNote {
    ResponseNote(noteId, n.title, n.content, n.version)
  }

  function HistoryView(h: NoteHistory): ResponseNoteHistory {
    ResponseNoteHistory(h.id, h.version, h.content)
  }

  // ---------------------------------------------------------------- reads

  /** `get_note`: the note with key `noteId`, if there is one. */
  function GetNote(t: Tables, noteId: int): (r: Option<ResponseNote>)
    ensures r.Some? <==> noteId in t.notes
    ensures r.Some? ==> r.value.id == noteId && r.value.title == t.notes[noteId].title
                        && r.value.content == t.notes[noteId].content && r.value.version == t.notes[noteId].version
  {
    if noteId in t.notes then Some(Project(noteId, t.notes[noteId])) else None
  }

  /** `check_note`: whether `get_note` finds the note. */
  function CheckNote(t: Tables, noteId: int): (r: bool)
    ensures r <==> GetNote(t, noteId).Some?
  {
    noteId in t.notes
  }

  lemma CurrentIsInHistory(t: Tables, noteId: int)
    ensures Valid(t) && noteId !in t.notes ==> HistoryOf(t.histories, noteId) == []
    ensures Valid(t) && noteId in t.notes ==>
              exists i :: 0 <= i < |HistoryOf(t.histories, noteId)| && HistoryOf(t.histories, noteId)[i].content == t.notes[noteId].content
                          && HistoryOf(t.histories, noteId)[i].version == t.notes[noteId].version
  {
    if Valid(t) && noteId in t.notes {
      var n := t.notes[noteId];
      var k :| 0 <= k < |t.histories| && t.histories[k].noteId == noteId
               && t.histories[k].content == n.content && t.histories[k].version == n.version;
      var hs := HistoryOf(t.histories, noteId);
      HistoryOfMembers(t.histories, noteId);
      assert t.histories[k] in hs;
      var i :| 0 <= i < |hs| && hs[i] == t.histories[k];
    }
    if Valid(t) && noteId !in t.notes {
      HistoryOfUnreferenced(t.histories, noteId);
    }
  }

  /** `get_history_by_current_note`: the history rows of `noteId`, in insertion order. */
  function GetHistoryByCurrentNote(t: Tables, noteId: int): (r: seq<ResponseNoteHistory>)
    ensures |r| == |HistoryOf(t.histories, noteId)|
    ensures forall i :: 0 <= i < |r| ==> r[i] == HistoryView(HistoryOf(t.histories, noteId)[i])
    // the foreign key: a note that is not stored has no history
    ensures Valid(t) && noteId !in t.notes ==> r == []
    // the current content and version of a stored note are among its history rows
    ensures Valid(t) && noteId in t.notes ==>
              exists i :: 0 <= i < |r| && r[i].content == t.notes[noteId].content && r[i].version == t.notes[noteId].version
  {
    var hs := HistoryOf(t.histories, noteId);
    CurrentIsInHistory(t, noteId);
    seq(|hs|, i requires 0 <= i < |hs| => HistoryView(hs[i]))
  }

  /** `get_note_with_history`: the note and its history, if the note is stored. */
  function GetNoteWithHistory(t: Tables, noteId: int): (r: Option<DetailResponseNote>)
    ensures r.Some? <==> GetNote(t, noteId).Some?
    ensures r.Some? ==> var n := GetNote(t, noteId).value;
                        r.value.id == n.id && r.value.title == n.title && r.value.content == n.content
                        && r.value.version == n.version
                        && r.value.history == GetHistoryByCurrentNote(t, noteId)
    ensures Valid(t) && r.Some? ==> |r.value.history| >= 1
  {
    if noteId in t.notes then
      var n := t.notes[noteId];
      Some(DetailResponseNote(noteId, n.title, n.content, n.version, GetHistoryByCurrentNote(t, noteId)))
    else
      None
  }

  /** The keys of `notes` in `[lo, hi)`, ascending. */
  function IdsBetween(notes: map<int, Note>, lo: int, hi: int): (r: seq<int>)
    decreases hi - lo
    ensures forall i :: 0 <= i < |r| ==> r[i] in notes && lo <= r[i] < hi
    ensures forall i, j :: 0 <= i < j < |r| ==> r[i] < r[j]
    ensures forall id :: id in notes && lo <= id < hi ==> id in r
  {
    if lo >= hi then []
    else
      var rest := IdsBetween(notes, lo + 1, hi);
      var r := (if lo in notes then [lo] else []) + rest;
      IdsStep(notes, lo, hi, rest, r);
      r
  }

  /** One step of the range scan: the key `lo`, if stored, in front of the keys above it. */
  lemma IdsStep(notes: map<int, Note>, lo: int, hi: int, rest: seq<int>, r: seq<int>)
    requires lo < hi
    requires forall i :: 0 <= i < |rest| ==> rest[i] in notes && lo + 1 <= rest[i] < hi
    requires forall i, j :: 0 <= i < j < |rest| ==> rest[i] < rest[j]
    requires forall id :: id in notes && lo + 1 <= id < hi ==> id in rest
    requires r == (if lo in notes then [lo] else []) + rest
    ensures forall i :: 0 <= i < |r| ==> r[i] in notes && lo <= r[i] < hi
    ensures forall i, j :: 0 <= i < j < |r| ==> r[i] < r[j]
    ensures forall id :: id in notes && lo <= id < hi ==> id in r
  {
    var k := |r| - |rest|;
    assert forall i :: k <= i < |r| ==> r[i] == rest[i - k];
    forall id | id in notes && lo + 1 <= id < hi ensures id in r {
      var i :| 0 <= i < |rest| && rest[i] == id;
      assert r[i + k] == id;
    }
  }

  lemma {:induction false} StrictlyIncreasingCard(s: seq<int>)
    requires forall i, j :: 0 <= i < j < |s| ==> s[i] < s[j]
    ensures |set x | x in s| == |s|
  {
    if s != [] {
      StrictlyIncreasingCard(s[1..]);
      var rest := set x | x in s[1..];
      assert (set x | x in s) == {s[0]} + rest;
      assert s[0] !in rest;
    }
  }

  /** The keys of the stored notes in the order a scan of `notes` yields them, taken here
      as ascending key order. */
  function StoredIds(t: Tables): (r: seq<int>)
    ensures forall i :: 0 <= i < |r| ==> r[i] in t.notes
    ensures forall i, j :: 0 <= i < j < |r| ==> r[i] < r[j]
    ensures Valid(t) ==> (forall id :: id in t.notes ==> id in r) && |r| == |t.notes|
  {
    var r := IdsBetween(t.notes, 1, t.nextNoteId);
    StrictlyIncreasingCard(r);
    assert Valid(t) ==> (set x | x in r) == t.notes.Keys;
    r
  }

  /** `LIMIT limit OFFSET offset` over a sequence of rows. */
  function Page<T>(rows: seq<T>, limit: nat, offset: nat): (r: seq<T>)
    ensures |r| == if offset >= |rows| then 0 else Min(limit, |rows| - offset)
    ensures forall i :: 0 <= i < |r| ==> offset + i < |rows| && r[i] == rows[offset + i]
  {
    rows[Min(offset, |rows|)..Min(offset + limit, |rows|)]
  }

  /** The listing row of one stored note: its content replaced by the summarizer's answer. */
  function Summarized(t: Tables, id: int, summarize: string -> string): ResponseNote
    requires id in t.notes
  {
    ResponseNote(id, t.notes[id].title, summarize(t.notes[id].content), t.notes[id].version)
  }

  /** The fields of each listing row, unfolded from `Summarized` so that the proof of
      `GetNotes` stays cheap; not a property of `get_notes` in its own right. */
  lemma SummarizedRows(t: Tables, page: seq<int>, summarize: string -> string, rows: seq<ResponseNote>)
    requires forall i :: 0 <= i < |page| ==> page[i] in t.notes
    requires |rows| == |page| && forall i :: 0 <= i < |rows| ==> rows[i] == Summarized(t, page[i], summarize)
    ensures forall i :: 0 <= i < |rows| ==>
              && rows[i].id == page[i] && rows[i].id in t.notes
              && rows[i].title == t.notes[rows[i].id].title
              && rows[i].version == t.notes[rows[i].id].version
              && rows[i].content == summarize(t.notes[rows[i].id].content)
  {
  }

  /** A page of the stored keys holds stored keys, in ascending order. */
  lemma StoredPage(t: Tables, limit: nat, offset: nat, page: seq<int>)
    requires page == Page(StoredIds(t), limit, offset)
    ensures forall i :: 0 <= i < |page| ==> page[i] in t.notes
    ensures forall i, j :: 0 <= i < j < |page| ==> page[i] < page[j]
  {
    var ids := StoredIds(t);
    forall i, j | 0 <= i < j < |page| ensures page[i] < page[j] {
      assert page[i] == ids[offset + i] && page[j] == ids[offset + j];
    }
  }

  /** `get_notes`: `SELECT ... LIMIT limit OFFSET offset`, each content replaced by the
      summarizer's answer for it, and the number of stored notes. */
  function GetNotes(t: Tables, limit: nat, offset: nat, summarize: string -> string): (r: ResponseNotes)
    ensures r.countItems == |t.notes|
    ensures Valid(t) ==> |r.notes| == if offset >= |t.notes| then 0 else Min(limit, |t.notes| - offset)
    ensures forall i :: 0 <= i < |r.notes| ==>
              offset + i < |StoredIds(t)| && r.notes[i].id == StoredIds(t)[offset + i]
    ensures forall i :: 0 <= i < |r.notes| ==>
              r.notes[i].id in t.notes
              && r.notes[i].title == t.notes[r.notes[i].id].title
              && r.notes[i].version == t.notes[r.notes[i].id].version
              && r.notes[i].content == summarize(t.notes[r.notes[i].id].content)
    ensures forall i, j :: 0 <= i < j < |r.notes| ==> r.notes[i].id < r.notes[j].id
  {
    var ids := StoredIds(t);
    var page := Page(ids, limit, offset);
    StoredPage(t, limit, offset, page);
    var rows := seq(|page|, i requires 0 <= i < |page| => Summarized(t, page[i], summarize));
    SummarizedRows(t, page, summarize, rows);
    ResponseNotes(rows, |t.notes|)
  }

  /** The contents of the stored notes, in the order `select(Note)` yields them. */
  function Contents(t: Tables): (r: seq<string>)
    ensures |r| == |StoredIds(t)|
    ensures Valid(t) ==> |r| == |t.notes|
    ensures forall i :: 0 <= i < |r| ==> r[i] == t.notes[StoredIds(t)[i]].content
  {
    var ids := StoredIds(t);
    seq(|ids|, i requires 0 <= i < |ids| => t.notes[ids[i]].content)
  }

  /** `get_notes_analytics`: the corpus report over every stored note; the default report
      exactly when no note is stored. */
  function GetNotesAnalytics(t: Tables, tokenize: string -> seq<string>): (r: Analytics.AnalyticsResponse)
    ensures Valid(t) ==> (r == Analytics.DefaultReport <==> |t.notes| == 0)
    ensures Valid(t) && |t.notes| > 0 ==>
              && |r.mostCommonWords| <= Analytics.TopWords
              && |r.shortestNotes| == Min(Analytics.ExtremeNotes, |t.notes|)
              && |r.longestNotes| == Min(Analytics.ExtremeNotes, |t.notes|)
  {
    Analytics.Report(Contents(t), tokenize)
  }

  // ---------------------------------------------------------------- writes

  /** `create_note`: a note at version 1 (the column default) and its first history row. */
  function CreateNote(t: Tables, title: string, content: string): (r: Step<ResponseNote>)
    ensures r.result.title == title && r.result.content == content && r.result.version == 1
    ensures GetNote(r.tables, r.result.id) == Some(r.result)
    ensures Valid(t) ==> r.result.id !in t.notes
    ensures |r.tables.histories| == |t.histories| + 1 && r.tables.histories[..|t.histories|] == t.histories
  {
    var id := t.nextNoteId;
    var note := Note(title, content, 1);
    var row := NoteHistory(t.nextHistoryId, id, note.content, note.version);
    var tables := Tables(t.notes[id := note], t.histories + [row], id + 1, t.nextHistoryId + 1);
    Step(tables, Project(id, note))
  }

  /** `update_note`: `version = version + 1` and the new content in one UPDATE, then a history
      row with the returned version. A missing note (the history row then breaks the foreign
      key) or a version past the INTEGER range fails the transaction, which is rolled back. */
  function UpdateNote(t: Tables, noteId: int, content: string): (r: Step<Result<ResponseNote>>)
    ensures r.result.Ok? <==> noteId in t.notes && t.notes[noteId].version < INT32_MAX
    ensures r.result.DatabaseError? ==> r.tables == t
    ensures r.tables.nextNoteId == t.nextNoteId
    ensures r.result.Ok? ==> r.tables.nextHistoryId == t.nextHistoryId + 1
    ensures r.result.Ok? ==> GetNote(r.tables, noteId) == Some(r.result.value)
                             && r.result.value.version == t.notes[noteId].version + 1
                             && r.result.value.content == content
                             && r.result.value.title == t.notes[noteId].title
    ensures r.result.Ok? ==> r.tables.histories == t.histories + [NoteHistory(t.nextHistoryId, noteId, content, r.result.value.version)]
  {
    if noteId !in t.notes || t.notes[noteId].version + 1 > INT32_MAX then
      Step(t, DatabaseError)
    else
      var old_ := t.notes[noteId];
      var newVersion := old_.version + 1;
      var tables := Tables(t.notes[noteId := Note(old_.title, content, newVersion)],
                           t.histories + [NoteHistory(t.nextHistoryId, noteId, content, newVersion)],
                           t.nextNoteId, t.nextHistoryId + 1);
      Step(tables, Ok(Project(noteId, tables.notes[noteId])))
  }

  /** `.scalar()` of `SELECT note_histories WHERE note_id = :noteId AND version = :version`:
      the first matching row in insertion order. */
  function FindHistory(h: seq<NoteHistory>, noteId: int, version: int): (r: Option<NoteHistory>)
    ensures r.Some? ==> r.value in h && r.value.noteId == noteId && r.value.version == version
    ensures r.None? ==> forall i :: 0 <= i < |h| ==> !(h[i].noteId == noteId && h[i].version == version)
  {
    if h == [] then None
    else if h[0].noteId == noteId && h[0].version == version then Some(h[0])
    else FindHistory(h[1..], noteId, version)
  }

  /** `roll_back_note`: copy the matching history row's content and version onto the note.
      No history row is written. Without a matching row the attribute access raises, the
      session is rolled back and the answer is None. */
  function RollBackNote(t: Tables, noteId: int, version: int): (r: Step<Option<ResponseNote>>)
    ensures r.tables.histories == t.histories && r.tables.nextHistoryId == t.nextHistoryId
    ensures r.tables.notes.Keys == t.notes.Keys && r.tables.nextNoteId == t.nextNoteId
    ensures r.result.None? ==> r.tables == t
    ensures r.result.Some? <==>
              noteId in t.notes && exists i :: 0 <= i < |t.histories| && t.histories[i].noteId == noteId && t.histories[i].version == version
    ensures r.result.Some? ==> GetNote(r.tables, noteId) == r.result
                               && r.result.value.version == version
                               && r.result.value.title == t.notes[noteId].title
  {
    match FindHistory(t.histories, noteId, version)
    case None => Step(t, None)
    case Some(row) =>
      if noteId !in t.notes then Step(t, None)  // the UPDATE touches no row; get_note finds nothing
      else
        var tables := t.(notes := t.notes[noteId := t.notes[noteId].(content := row.content, version := row.version)]);
        Step(tables, GetNote(tables, noteId))
  }

  /** `delete_note`: `DELETE FROM notes WHERE id = :noteId`; the cascade removes its history.
      The answer is true whether or not the note existed. */
  function DeleteNote(t: Tables, noteId: int): (r: Step<bool>)
    ensures r.result
    ensures GetNote(r.tables, noteId) == None && GetNoteWithHistory(r.tables, noteId) == None
    ensures GetHistoryByCurrentNote(r.tables, noteId) == []
    ensures r.tables.notes.Keys == t.notes.Keys - {noteId}
    ensures r.tables.nextNoteId == t.nextNoteId && r.tables.nextHistoryId == t.nextHistoryId
  {
    var hs := Cascade(t.histories, noteId);
    HistoryOfCascade(t.histories, noteId, noteId);
    Step(t.(notes := t.notes - {noteId}, histories := hs), true)
  }
}
