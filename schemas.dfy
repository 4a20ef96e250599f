/** The response shapes the note operations return. `ResponseNote`, `ResponseNoteHistory`
    and `ResponseNotes` follow `app/schemas/note.py`; `DetailResponseNote` is not declared
    there, and its fields are those `get_note_with_history` fills in. */
module Schemas {

  /** `ResponseNote`: the public projection of a stored note. */
  datatype ResponseNote = ResponseNote(id: int, title: string, content: string, version: int)

  /** `ResponseNoteHistory` without its `updated_at` timestamp. */
  datatype ResponseNoteHistory = ResponseNoteHistory(id: int, version: int, content: string)

  /** `DetailResponseNote`: a note together with its history, with the fields set where
      `get_note_with_history` builds it. */
  datatype DetailResponseNote =
    DetailResponseNote(id: int, title: string, content: string, version: int, history: seq<ResponseNoteHistory>)

  /** `ResponseNotes`: one page of notes and the number of notes stored. */
  datatype ResponseNotes = ResponseNotes(notes: seq<ResponseNote>, countItems: nat)
}
