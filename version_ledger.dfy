/** What the write operations of `crud_note.py` guarantee about the note and history
    tables: which rows change, that every committed state satisfies the database
    invariant, and how versions and history rows evolve over several calls. */
module VersionLedger {
  import opened Models
  import opened Schemas
  import opened CrudNote

  /** Appending a row keeps every note's recorded versions recorded. */
  lemma RecordedAppend(h: seq<NoteHistory>, x: NoteHistory, noteId: int, n: Note)
    requires Recorded(h, noteId, n)
    ensures Recorded(h + [x], noteId, n)
  {
    var i :| 0 <= i < |h| && h[i].noteId == noteId && h[i].content == n.content && h[i].version == n.version;
    assert (h + [x])[i] == h[i];
  }

  // ------------------------------------------------------------ create_note

  lemma CreatePreservesValid(t: Tables, title: string, content: string)
    requires Valid(t)
    ensures Valid(CreateNote(t, title, content).tables)
  {
    var r := CreateNote(t, title, content);
    var t' := r.tables;
    var id := r.result.id;
    var row := t'.histories[|t.histories|];
    assert t'.histories == t.histories + [row];
    forall j | j in t'.notes ensures Recorded(t'.histories, j, t'.notes[j]) {
      if j == id {
        assert t'.histories[|t.histories|] == row;
      } else {
        RecordedAppend(t.histories, row, j, t.notes[j]);
      }
    }
  }

  /** create_note writes the note at version 1 and exactly one history row for it, with the
      same content; no other note and no other note's history changes. */
  lemma CreateNoteEffect(t: Tables, title: string, content: string)
    requires Valid(t)
    ensures var r := CreateNote(t, title, content);
            var id := r.result.id;
            && r.tables.notes == t.notes[id := Note(title, content, 1)]
            && HistoryOf(r.tables.histories, id) == [NoteHistory(t.nextHistoryId, id, content, 1)]
            && (forall j :: j != id ==> HistoryOf(r.tables.histories, j) == HistoryOf(t.histories, j))
  {
    var r := CreateNote(t, title, content);
    var id := r.result.id;
    var row := NoteHistory(t.nextHistoryId, id, content, 1);
    assert r.tables.histories == t.histories + [row];
    forall j ensures HistoryOf(r.tables.histories, j) == HistoryOf(t.histories, j) + (if j == id then [row] else []) {
      HistoryOfAppend(t.histories, row, j);
    }
    assert forall i :: 0 <= i < |t.histories| ==> t.histories[i].noteId != id;
    HistoryOfUnreferenced(t.histories, id);
  }

  // ------------------------------------------------------------ update_note

  /** Appending a history row that takes the next id, belongs to a stored note and carries a
      valid version keeps the row conditions of the invariant. */
  lemma AppendRowKeepsRows(t: Tables, t': Tables, row: NoteHistory)
    requires Valid(t)
    requires t'.histories == t.histories + [row]
    requires row.id == t.nextHistoryId && t'.nextHistoryId == t.nextHistoryId + 1
    requires row.noteId in t'.notes && IsVersion(row.version)
    requires t.notes.Keys <= t'.notes.Keys
    ensures forall i :: 0 <= i < |t'.histories| ==> 1 <= t'.histories[i].id < t'.nextHistoryId
    ensures forall i, j :: 0 <= i < j < |t'.histories| ==> t'.histories[i].id < t'.histories[j].id
    ensures forall i :: 0 <= i < |t'.histories| ==> t'.histories[i].noteId in t'.notes
    ensures forall i :: 0 <= i < |t'.histories| ==> IsVersion(t'.histories[i].version)
  {
    var n := |t.histories|;
    forall i | 0 <= i < |t'.histories|
      ensures t'.histories[i] == if i < n then t.histories[i] else row
    {
    }
  }

  lemma UpdatePreservesValid(t: Tables, noteId: int, content: string)
    requires Valid(t)
    ensures Valid(UpdateNote(t, noteId, content).tables)
  {
    var r := UpdateNote(t, noteId, content);
    if r.result.Ok? {
      var t' := r.tables;
      AppendRowKeepsRows(t, t', t'.histories[|t.histories|]);
    }
    UpdateKeepsRecorded(t, noteId, content);
  }

  /** After an update every note's current state is still recorded: the updated note by the
      row just appended, the others by the rows they had. */
  lemma UpdateKeepsRecorded(t: Tables, noteId: int, content: string)
    requires forall id :: id in t.notes ==> Recorded(t.histories, id, t.notes[id])
    ensures var t' := UpdateNote(t, noteId, content).tables;
            forall id :: id in t'.notes ==> Recorded(t'.histories, id, t'.notes[id])
  {
    var r := UpdateNote(t, noteId, content);
    if r.result.Ok? {
      var t' := r.tables;
      var row := NoteHistory(t.nextHistoryId, noteId, content, r.result.value.version);
      assert t'.histories == t.histories + [row];
      forall j | j in t'.notes ensures Recorded(t'.histories, j, t'.notes[j]) {
        if j == noteId {
          assert t'.histories[|t.histories|] == row;
        } else {
          RecordedAppend(t.histories, row, j, t.notes[j]);
        }
      }
    }
  }

  /** A successful update_note changes the content and version of its own note only,
      keeps its title, and appends one history row to that note's history and to no other. */
  lemma UpdateNoteEffect(t: Tables, noteId: int, content: string)
    requires noteId in t.notes && t.notes[noteId].version < INT32_MAX
    ensures var r := UpdateNote(t, noteId, content);
            var n := t.notes[noteId];
            && r.tables.notes == t.notes[noteId := Note(n.title, content, n.version + 1)]
            && HistoryOf(r.tables.histories, noteId)
               == HistoryOf(t.histories, noteId) + [NoteHistory(t.nextHistoryId, noteId, content, n.version + 1)]
            && (forall j :: j != noteId ==> HistoryOf(r.tables.histories, j) == HistoryOf(t.histories, j))
  {
    var r := UpdateNote(t, noteId, content);
    var row := NoteHistory(t.nextHistoryId, noteId, content, t.notes[noteId].version + 1);
    forall j ensures HistoryOf(r.tables.histories, j) == HistoryOf(t.histories, j) + (if j == noteId then [row] else []) {
      HistoryOfAppend(t.histories, row, j);
    }
  }

  // ------------------------------------------------------------ roll_back_note

  lemma RollBackPreservesValid(t: Tables, noteId: int, version: int)
    requires Valid(t)
    ensures Valid(RollBackNote(t, noteId, version).tables)
  {
    RollBackKeepsRecorded(t, noteId, version);
  }

  /** After a rollback every note's current state is still recorded: the rolled-back note by
      the row it was copied from, the others by the rows they had. */
  lemma RollBackKeepsRecorded(t: Tables, noteId: int, version: int)
    requires forall id :: id in t.notes ==> Recorded(t.histories, id, t.notes[id])
    ensures var t' := RollBackNote(t, noteId, version).tables;
            forall id :: id in t'.notes ==> Recorded(t'.histories, id, t'.notes[id])
  {
    var r := RollBackNote(t, noteId, version);
    if r.result.Some? {
      var row := FindHistory(t.histories, noteId, version).value;
      var k :| 0 <= k < |t.histories| && t.histories[k] == row;
      assert Recorded(r.tables.histories, noteId, r.tables.notes[noteId]) by {
        assert r.tables.histories[k] == row;
      }
    }
  }

  /** A successful roll_back_note sets its own note's content and version to those of a
      history row of that note carrying the requested version; nothing else changes. */
  lemma RollBackNoteEffect(t: Tables, noteId: int, version: int)
    requires RollBackNote(t, noteId, version).result.Some?
    ensures var r := RollBackNote(t, noteId, version);
            && r.tables.histories == t.histories
            && (exists i :: 0 <= i < |t.histories| && t.histories[i].noteId == noteId && t.histories[i].version == version
                            && r.tables.notes == t.notes[noteId := Note(t.notes[noteId].title, t.histories[i].content, version)])
  {
    var row := FindHistory(t.histories, noteId, version).value;
    var k :| 0 <= k < |t.histories| && t.histories[k] == row;
  }

  /** Rolling back twice to the same version is the same as rolling back once. */
  lemma RollBackIdempotent(t: Tables, noteId: int, version: int)
    ensures var once := RollBackNote(t, noteId, version);
            RollBackNote(once.tables, noteId, version) == once
  {
  }

  // ------------------------------------------------------------ delete_note

  lemma DeletePreservesValid(t: Tables, noteId: int)
    requires Valid(t)
    ensures Valid(DeleteNote(t, noteId).tables)
  {
    CascadeIdsIncreasing(t.histories, noteId);
    DeleteKeepsForeignKey(t, noteId);
    DeleteKeepsRecorded(t, noteId);
  }

  /** Every row the cascade keeps still refers to a stored note, with a key and a version
      in range. */
  lemma DeleteKeepsForeignKey(t: Tables, noteId: int)
    requires forall i :: 0 <= i < |t.histories| ==> t.histories[i].noteId in t.notes
    requires forall i :: 0 <= i < |t.histories| ==> 1 <= t.histories[i].id < t.nextHistoryId
    requires forall i :: 0 <= i < |t.histories| ==> IsVersion(t.histories[i].version)
    ensures var t' := DeleteNote(t, noteId).tables;
            forall i :: 0 <= i < |t'.histories| ==>
              t'.histories[i].noteId in t'.notes
              && 1 <= t'.histories[i].id < t'.nextHistoryId && IsVersion(t'.histories[i].version)
  {
    var t' := DeleteNote(t, noteId).tables;
    CascadeMembers(t.histories, noteId);
    forall i | 0 <= i < |t'.histories|
      ensures t'.histories[i].noteId in t'.notes
              && 1 <= t'.histories[i].id < t'.nextHistoryId && IsVersion(t'.histories[i].version)
    {
      assert t'.histories[i] in t.histories;
    }
  }

  /** Every remaining note keeps the history row that records its current state. */
  lemma DeleteKeepsRecorded(t: Tables, noteId: int)
    requires forall id :: id in t.notes ==> Recorded(t.histories, id, t.notes[id])
    ensures var t' := DeleteNote(t, noteId).tables;
            forall id :: id in t'.notes ==> Recorded(t'.histories, id, t'.notes[id])
  {
    var t' := DeleteNote(t, noteId).tables;
    CascadeMembers(t.histories, noteId);
    forall j | j in t'.notes ensures Recorded(t'.histories, j, t'.notes[j]) {
      var n := t.notes[j];
      var k :| 0 <= k < |t.histories| && t.histories[k].noteId == j
               && t.histories[k].content == n.content && t.histories[k].version == n.version;
      assert t.histories[k] in t'.histories;
    }
  }

  /** delete_note removes the note and, through the cascade, exactly its history rows:
      every other note and its history stay as they were. */
  lemma DeleteNoteEffect(t: Tables, noteId: int)
    ensures var t' := DeleteNote(t, noteId).tables;
            && t'.notes == t.notes - {noteId}
            && t'.nextNoteId == t.nextNoteId && t'.nextHistoryId == t.nextHistoryId
            && forall j :: j != noteId ==> HistoryOf(t'.histories, j) == HistoryOf(t.histories, j)
  {
    forall j | j != noteId ensures HistoryOf(DeleteNote(t, noteId).tables.histories, j) == HistoryOf(t.histories, j) {
      HistoryOfCascade(t.histories, noteId, j);
    }
  }

  /** Deleting a note a second time changes nothing (and still answers true). */
  lemma DeleteIdempotent(t: Tables, noteId: int)
    ensures var once := DeleteNote(t, noteId);
            DeleteNote(once.tables, noteId) == once
  {
    CascadeIdempotent(t.histories, noteId);
  }

  // ------------------------------------------------------------ the ledger in lockstep

  /** The history of a note, read in insertion order, has strictly increasing versions and
      ends with the note's current content and version. */
  ghost predicate Lockstep(hs: seq<NoteHistory>, n: Note) {
    && |hs| > 0
    && hs[|hs| - 1].content == n.content
    && hs[|hs| - 1].version == n.version
    && forall i, j :: 0 <= i < j < |hs| ==> hs[i].version < hs[j].version
  }

  /** Every note's version equals the version of its most recently written history row. */
  ghost predicate InLockstep(t: Tables) {
    forall id :: id in t.notes ==> Lockstep(HistoryOf(t.histories, id), t.notes[id])
  }

  lemma CreatePreservesLockstep(t: Tables, title: string, content: string)
    requires Valid(t) && InLockstep(t)
    ensures InLockstep(CreateNote(t, title, content).tables)
  {
    var r := CreateNote(t, title, content);
    CreateNoteEffect(t, title, content);
    forall j | j in r.tables.notes ensures Lockstep(HistoryOf(r.tables.histories, j), r.tables.notes[j]) {
      if j != r.result.id {
        assert Lockstep(HistoryOf(t.histories, j), t.notes[j]);
      }
    }
  }

  /** A row with a higher version, appended to a history in lockstep, keeps it in lockstep
      with a note carrying that row's content and version. */
  lemma LockstepAppend(hs: seq<NoteHistory>, n: Note, row: NoteHistory, n': Note)
    requires Lockstep(hs, n) && n.version < row.version
    requires n'.content == row.content && n'.version == row.version
    ensures Lockstep(hs + [row], n')
  {
    var hs' := hs + [row];
    forall i, j | 0 <= i < j < |hs'| ensures hs'[i].version < hs'[j].version {
      if j == |hs| {
        assert hs'[i] == hs[i];
        assert i == |hs| - 1 || hs[i].version < hs[|hs| - 1].version;
      }
    }
  }

  lemma UpdatePreservesLockstep(t: Tables, noteId: int, content: string)
    requires InLockstep(t)
    ensures InLockstep(UpdateNote(t, noteId, content).tables)
  {
    var r := UpdateNote(t, noteId, content);
    if r.result.Ok? {
      UpdateNoteEffect(t, noteId, content);
      var t' := r.tables;
      forall id | id in t'.notes ensures Lockstep(HistoryOf(t'.histories, id), t'.notes[id]) {
        if id == noteId {
          var row := NoteHistory(t.nextHistoryId, noteId, content, t.notes[noteId].version + 1);
          LockstepAppend(HistoryOf(t.histories, noteId), t.notes[noteId], row, t'.notes[noteId]);
        } else {
          assert HistoryOf(t'.histories, id) == HistoryOf(t.histories, id);
          assert t'.notes[id] == t.notes[id];
        }
      }
    }
  }

  lemma DeletePreservesLockstep(t: Tables, noteId: int)
    requires InLockstep(t)
    ensures InLockstep(DeleteNote(t, noteId).tables)
  {
    DeleteNoteEffect(t, noteId);
  }

  /** In a history in lockstep with `n`, extended by a row with a higher version, the only
      row carrying `n`'s version is the last row before the extension. */
  lemma LockstepUniqueVersion(hs: seq<NoteHistory>, n: Note, row: NoteHistory, x: NoteHistory)
    requires Lockstep(hs, n) && n.version < row.version
    requires x in hs + [row] && x.version == n.version
    ensures x == hs[|hs| - 1]
  {
    var m :| 0 <= m < |hs| + 1 && (hs + [row])[m] == x;
  }

  /** Looking up the version of a note in lockstep, after one row with a higher version was
      appended, finds the last row written before it. */
  lemma FindLockstepVersion(h: seq<NoteHistory>, noteId: int, n: Note, row: NoteHistory)
    requires Lockstep(HistoryOf(h, noteId), n) && n.version < row.version
    ensures FindHistory(h + [row], noteId, n.version) == Some(HistoryOf(h, noteId)[|HistoryOf(h, noteId)| - 1])
  {
    var hs := HistoryOf(h, noteId);
    var last := hs[|hs| - 1];
    HistoryOfMembers(h, noteId);
    HistoryOfMembers(h + [row], noteId);
    assert last in h;
    var k :| 0 <= k < |h| && h[k] == last;
    assert (h + [row])[k] == last;
    var found := FindHistory(h + [row], noteId, n.version);
    HistoryOfAppend(h, row, noteId);
    assert found.value in HistoryOf(h + [row], noteId);
    LockstepUniqueVersion(hs, n, row, found.value);
  }

  /** update_note followed by roll_back_note to the version the note had before restores the
      notes table exactly, when that note is in lockstep; the history keeps the row the update
      appended. */
  lemma UpdateThenRollBackRestores(t: Tables, noteId: int, content: string)
    requires noteId in t.notes && t.notes[noteId].version < INT32_MAX
    requires Lockstep(HistoryOf(t.histories, noteId), t.notes[noteId])
    ensures var u := UpdateNote(t, noteId, content);
            var b := RollBackNote(u.tables, noteId, t.notes[noteId].version);
            && b.result == Some(Project(noteId, t.notes[noteId]))
            && b.tables.notes == t.notes
            && b.tables.histories == u.tables.histories
  {
    var n := t.notes[noteId];
    var row := NoteHistory(t.nextHistoryId, noteId, content, n.version + 1);
    FindLockstepVersion(t.histories, noteId, n, row);
  }

  // A concrete history: create "first", update to "second", roll back to 1, update to "third".

  const Row1 := NoteHistory(1, 1, "first", 1)
  const Row2 := NoteHistory(2, 1, "second", 2)
  const Row3 := NoteHistory(3, 1, "third", 2)
  const Created := Tables(map[1 := Note("title", "first", 1)], [Row1], 2, 2)
  const Updated := Tables(map[1 := Note("title", "second", 2)], [Row1, Row2], 2, 3)
  const RolledBack := Tables(map[1 := Note("title", "first", 1)], [Row1, Row2], 2, 3)
  const UpdatedAgain := Tables(map[1 := Note("title", "third", 2)], [Row1, Row2, Row3], 2, 4)

  lemma CreateStep()
    ensures CreateNote(Empty, "title", "first").tables == Created
  {
  }

  lemma UpdateStep()
    ensures UpdateNote(Created, 1, "second").tables == Updated
  {
    assert [Row1] + [Row2] == [Row1, Row2];
  }

  lemma RollBackStep()
    ensures RollBackNote(Updated, 1, 1).tables == RolledBack
  {
    assert FindHistory([Row1, Row2], 1, 1) == Some(Row1);
  }

  lemma UpdateAgainStep()
    ensures UpdateNote(RolledBack, 1, "third").tables == UpdatedAgain
  {
    assert [Row1, Row2] + [Row3] == [Row1, Row2, Row3];
  }

  lemma ScenarioHistories()
    ensures HistoryOf([Row1, Row2], 1) == [Row1, Row2]
    ensures HistoryOf([Row1, Row2, Row3], 1) == [Row1, Row2, Row3]
  {
    assert [Row1, Row2][1..] == [Row2];
    assert [Row1, Row2, Row3][1..] == [Row2, Row3] && [Row2, Row3][1..] == [Row3];
    assert HistoryOf([Row3], 1) == [Row3] + HistoryOf([], 1);
    assert HistoryOf([Row2], 1) == [Row2] + HistoryOf([], 1);
    assert HistoryOf([Row2, Row3], 1) == [Row2] + HistoryOf([Row3], 1);
  }

  /** roll_back_note does not keep the ledger in lockstep: after a rollback the note's version
      is behind the version of its most recent history row. */
  lemma RollBackBreaksLockstep()
    ensures var t1 := CreateNote(Empty, "title", "first").tables;
            var t2 := UpdateNote(t1, 1, "second").tables;
            var t3 := RollBackNote(t2, 1, 1).tables;
            InLockstep(t2) && !InLockstep(t3)
  {
    CreateStep();
    UpdateStep();
    RollBackStep();
    ScenarioHistories();
    assert Lockstep(HistoryOf(Updated.histories, 1), Updated.notes[1]);
    assert !Lockstep(HistoryOf(RolledBack.histories, 1), RolledBack.notes[1]);
  }

  /** Because roll_back_note writes no row, a later update_note can give a note the same
      version twice: after create, update, rollback to 1 and update, two history rows of the
      note carry version 2, and rolling back to version 2 restores the older of the two. */
  lemma RollBackThenUpdateRepeatsVersion()
    ensures var t1 := CreateNote(Empty, "title", "first").tables;
            var t2 := UpdateNote(t1, 1, "second").tables;
            var t3 := RollBackNote(t2, 1, 1).tables;
            var t4 := UpdateNote(t3, 1, "third").tables;
            && HistoryOf(t4.histories, 1) == [NoteHistory(1, 1, "first", 1), NoteHistory(2, 1, "second", 2), NoteHistory(3, 1, "third", 2)]
            && RollBackNote(t4, 1, 2).result == Some(ResponseNote(1, "title", "second", 2))
  {
    CreateStep();
    UpdateStep();
    RollBackStep();
    UpdateAgainStep();
    ScenarioHistories();
    assert FindHistory([Row1, Row2, Row3], 1, 2) == Some(Row2);
  }

  // ------------------------------------------------------------ many updates

  /** update_note called once for each element of `contents`, in order. */
  function UpdateAll(t: Tables, noteId: int, contents: seq<string>): (r: Tables)
    ensures r.notes.Keys == t.notes.Keys && r.nextNoteId == t.nextNoteId
    ensures t.histories <= r.histories
    decreases |contents|
  {
    if contents == [] then t else UpdateAll(UpdateNote(t, noteId, contents[0]).tables, noteId, contents[1..])
  }

  /** The history rows that update_note appends for `contents`, in order: the k-th gets row id
      `firstId + k`, version `version + k + 1` and content `contents[k]`. */
  function UpdateRows(noteId: int, firstId: int, version: int, contents: seq<string>): (r: seq<NoteHistory>)
    decreases |contents|
    ensures |r| == |contents|
  {
    if contents == [] then []
    else [NoteHistory(firstId, noteId, contents[0], version + 1)] + UpdateRows(noteId, firstId + 1, version + 1, contents[1..])
  }

  lemma {:induction false} UpdateRowsAt(noteId: int, firstId: int, version: int, contents: seq<string>, k: int)
    requires 0 <= k < |contents|
    decreases |contents|
    ensures UpdateRows(noteId, firstId, version, contents)[k] == NoteHistory(firstId + k, noteId, contents[k], version + k + 1)
  {
    if k > 0 {
      UpdateRowsAt(noteId, firstId + 1, version + 1, contents[1..], k - 1);
    }
  }

  /** Each of N successful updates raises the version by one, so afterwards the note is at
      version v + N, keeps its title and holds the last content written. */
  lemma {:induction false} UpdateAllNote(t: Tables, noteId: int, contents: seq<string>)
    requires noteId in t.notes
    requires t.notes[noteId].version + |contents| <= INT32_MAX
    decreases |contents|
    ensures var t' := UpdateAll(t, noteId, contents);
            && t'.notes.Keys == t.notes.Keys
            && t'.notes[noteId].title == t.notes[noteId].title
            && t'.notes[noteId].version == t.notes[noteId].version + |contents|
            && (contents != [] ==> t'.notes[noteId].content == contents[|contents| - 1])
            && t'.nextHistoryId == t.nextHistoryId + |contents|
  {
    if contents != [] {
      var t1 := UpdateNote(t, noteId, contents[0]).tables;
      assert t1.notes == t.notes[noteId := Note(t.notes[noteId].title, contents[0], t.notes[noteId].version + 1)];
      UpdateAllNote(t1, noteId, contents[1..]);
      assert UpdateAll(t, noteId, contents) == UpdateAll(t1, noteId, contents[1..]);
      assert |contents| > 1 ==> contents[1..][|contents[1..]| - 1] == contents[|contents| - 1];
    }
  }

  /** Each of N successful updates appends one row to the note's history, so its history
      gains the rows for versions v + 1, ..., v + N carrying the contents in order. */
  lemma {:induction false} UpdateAllHistory(t: Tables, noteId: int, contents: seq<string>)
    requires noteId in t.notes
    requires t.notes[noteId].version + |contents| <= INT32_MAX
    decreases |contents|
    ensures HistoryOf(UpdateAll(t, noteId, contents).histories, noteId)
            == HistoryOf(t.histories, noteId) + UpdateRows(noteId, t.nextHistoryId, t.notes[noteId].version, contents)
  {
    var H := HistoryOf(t.histories, noteId);
    if contents == [] {
      assert H + [] == H;
    } else {
      var n := t.notes[noteId];
      var t1 := UpdateNote(t, noteId, contents[0]).tables;
      var first := NoteHistory(t.nextHistoryId, noteId, contents[0], n.version + 1);
      assert t1.notes[noteId].version == n.version + 1 && t1.nextHistoryId == t.nextHistoryId + 1;
      assert t1.histories == t.histories + [first];
      HistoryOfAppend(t.histories, first, noteId);
      UpdateAllHistory(t1, noteId, contents[1..]);
      var rest := UpdateRows(noteId, t.nextHistoryId + 1, n.version + 1, contents[1..]);
      assert UpdateAll(t, noteId, contents) == UpdateAll(t1, noteId, contents[1..]);
      assert (H + [first]) + rest == H + ([first] + rest);
    }
  }

  /** create_note followed by N update_note calls: the note is at version 1 + N and its
      history holds N + 1 rows, the k-th at version k + 1 with the k-th content written. */
  lemma CreateThenUpdates(t: Tables, title: string, content: string, contents: seq<string>)
    requires Valid(t)
    requires 1 + |contents| <= INT32_MAX
    ensures var c := CreateNote(t, title, content);
            var id := c.result.id;
            var t' := UpdateAll(c.tables, id, contents);
            var hs := HistoryOf(t'.histories, id);
            var written := [content] + contents;
            && id in t'.notes
            && t'.notes[id].version == 1 + |contents|
            && |hs| == |written|
            && forall k :: 0 <= k < |hs| ==> hs[k].version == k + 1 && hs[k].content == written[k]
  {
    var c := CreateNote(t, title, content);
    var id := c.result.id;
    CreateNoteEffect(t, title, content);
    UpdateAllNote(c.tables, id, contents);
    UpdateAllHistory(c.tables, id, contents);
    var t' := UpdateAll(c.tables, id, contents);
    var hs := HistoryOf(t'.histories, id);
    var rows := UpdateRows(id, c.tables.nextHistoryId, 1, contents);
    assert hs == [NoteHistory(t.nextHistoryId, id, content, 1)] + rows;
    forall k | 0 <= k < |hs| ensures hs[k].version == k + 1 && hs[k].content == ([content] + contents)[k] {
      if k > 0 {
        UpdateRowsAt(id, c.tables.nextHistoryId, 1, contents, k - 1);
        assert hs[k] == rows[k - 1];
      }
    }
    if contents != [] {
      UpdateRowsAt(id, c.tables.nextHistoryId, 1, contents, 0);
    }
  }
}
