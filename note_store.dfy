/** The database as a mutable store: the `notes` and `note_histories` tables and their id
    sequences. Each write of `crud_note.py` is a method that changes the tables in place and
    ends in the state the corresponding transition of `CrudNote` describes, keeping the
    database invariant. */
module Database {
  import opened Models
  import opened Schemas
  import CrudNote
  import VersionLedger

  class NoteStore {
    var notes: map<int, Note>
    var histories: seq<NoteHistory>
    var nextNoteId: int
    var nextHistoryId: int

    /** The current contents of both tables, as a value. */
    function Snapshot(): Tables
      reads this
    {
      Tables(notes, histories, nextNoteId, nextHistoryId)
    }

    ghost predicate Valid()
      reads this
    {
      Models.Valid(Snapshot())
    }

    /** An empty database; both sequences start at 1. */
    constructor()
      ensures Snapshot() == Empty
      ensures Valid()
    {
      notes := map[];
      histories := [];
      nextNoteId := 1;
      nextHistoryId := 1;
      EmptyIsValid();
    }

    /** `create_note`: insert the note (its version takes the column default 1), commit, then
        insert its first history row from the refreshed note, commit. */
    method CreateNote(title: string, content: string) returns (r: ResponseNote)
      requires Valid()
      modifies this
      ensures Valid()
      ensures CrudNote.CreateNote(old(Snapshot()), title, content) == CrudNote.Step(Snapshot(), r)
    {
      VersionLedger.CreatePreservesValid(Snapshot(), title, content);
      var id := nextNoteId;
      notes := notes[id := Note(title, content, 1)];
      nextNoteId := nextNoteId + 1;
      var note := notes[id];
      histories := histories + [NoteHistory(nextHistoryId, id, note.content, note.version)];
      nextHistoryId := nextHistoryId + 1;
      r := ResponseNote(id, note.title, note.content, note.version);
    }

    /** `update_note`: bump the version and replace the content in one UPDATE, append the
        history row carrying the returned version, commit, and read the note back. A missing
        note or a version past the INTEGER range fails the transaction and nothing changes. */
    method UpdateNote(noteId: int, content: string) returns (r: CrudNote.Result<ResponseNote>)
      requires Valid()
      modifies this
      ensures Valid()
      ensures CrudNote.UpdateNote(old(Snapshot()), noteId, content) == CrudNote.Step(Snapshot(), r)
    {
      VersionLedger.UpdatePreservesValid(Snapshot(), noteId, content);
      if noteId !in notes || notes[noteId].version + 1 > INT32_MAX {
        return CrudNote.DatabaseError;
      }
      var newVersion := notes[noteId].version + 1;
      notes := notes[noteId := notes[noteId].(content := content, version := newVersion)];
      histories := histories + [NoteHistory(nextHistoryId, noteId, content, newVersion)];
      nextHistoryId := nextHistoryId + 1;
      r := CrudNote.Ok(CrudNote.Project(noteId, notes[noteId]));
    }

    /** `roll_back_note`: look up the first history row with this note id and version and copy
        its content and version onto the note; without such a row nothing changes and the
        answer is None. */
    method RollBackNote(noteId: int, version: int) returns (r: Option<ResponseNote>)
      requires Valid()
      modifies this
      ensures Valid()
      ensures CrudNote.RollBackNote(old(Snapshot()), noteId, version) == CrudNote.Step(Snapshot(), r)
    {
      VersionLedger.RollBackPreservesValid(Snapshot(), noteId, version);
      var found := CrudNote.FindHistory(histories, noteId, version);
      if found.None? {
        return None;
      }
      var row := found.value;
      if noteId in notes {
        notes := notes[noteId := notes[noteId].(content := row.content, version := row.version)];
      }
      r := CrudNote.GetNote(Snapshot(), noteId);
    }

    /** `delete_note`: delete the note; the foreign key's cascade deletes its history rows.
        The answer is true whether or not the note existed. */
    method DeleteNote(noteId: int) returns (r: bool)
      requires Valid()
      modifies this
      ensures Valid()
      ensures CrudNote.DeleteNote(old(Snapshot()), noteId) == CrudNote.Step(Snapshot(), r)
    {
      ghost var before := Snapshot();
      notes := notes - {noteId};
      histories := Cascade(histories, noteId);
      r := true;
      assert Snapshot() == CrudNote.DeleteNote(before, noteId).tables;
      VersionLedger.DeletePreservesValid(before, noteId);
    }
  }
}
