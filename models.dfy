/** The two tables of the note service and the invariants the database keeps on them:
    `notes(id, title, content, version)` and
    `note_histories(id, content, version, note_id -> notes.id ON DELETE CASCADE)`. */
module Models {

  datatype Option<T> = None | Some(value: T)

  /** Largest value of an INTEGER column; `version` is one. */
  const INT32_MAX: int := 0x7FFF_FFFF

  /** A row of `notes`, without its key. */
  datatype Note = Note(title: string, content: string, version: int)

  /** A row of `note_histories` (its `updated_at` timestamp is left out). */
  datatype NoteHistory = NoteHistory(id: int, noteId: int, content: string, version: int)

  /** Both tables: `notes` by primary key, `histories` in insertion order, and the next
      values of the two id sequences. */
  datatype Tables = Tables(notes: map<int, Note>, histories: seq<NoteHistory>,
                           nextNoteId: int, nextHistoryId: int)

  /** A fresh database: no rows, both sequences start at 1. */
  const Empty: Tables := Tables(map[], [], 1, 1)

  predicate IsVersion(v: int) {
    1 <= v <= INT32_MAX
  }

  /** Some history row of note `noteId` carries the content and version of `n`. */
  ghost predicate Recorded(h: seq<NoteHistory>, noteId: int, n: Note) {
    exists i :: 0 <= i < |h| && h[i].noteId == noteId && h[i].content == n.content && h[i].version == n.version
  }

  /** What the database guarantees of the two tables between requests. */
  ghost predicate Valid(t: Tables) {
    && 1 <= t.nextNoteId
    && 1 <= t.nextHistoryId
    // keys come from the notes sequence; versions fit the column
    && (forall id :: id in t.notes ==> 1 <= id < t.nextNoteId && IsVersion(t.notes[id].version))
    // history keys come from their sequence, in insertion order
    && (forall i :: 0 <= i < |t.histories| ==> 1 <= t.histories[i].id < t.nextHistoryId)
    && (forall i, j :: 0 <= i < j < |t.histories| ==> t.histories[i].id < t.histories[j].id)
    // the foreign key: every history row belongs to a stored note
    && (forall i :: 0 <= i < |t.histories| ==> t.histories[i].noteId in t.notes)
    && (forall i :: 0 <= i < |t.histories| ==> IsVersion(t.histories[i].version))
    // the current state of every note is one of its recorded versions
    && (forall id :: id in t.notes ==> Recorded(t.histories, id, t.notes[id]))
  }

  lemma EmptyIsValid()
    ensures Valid(Empty)
  {
  }

  /** The rows of `note_histories` whose `note_id` is `noteId`, in insertion order
      (`WHERE note_id = :noteId`). */
  function HistoryOf(h: seq<NoteHistory>, noteId: int): (r: seq<NoteHistory>)
    ensures |r| <= |h|
  {
    if h == [] then []
    else (if h[0].noteId == noteId then [h[0]] else []) + HistoryOf(h[1..], noteId)
  }

  /** The filter keeps exactly the rows of the note. */
  lemma {:induction false} HistoryOfMembers(h: seq<NoteHistory>, noteId: int)
    ensures forall x :: x in HistoryOf(h, noteId) <==> x in h && x.noteId == noteId
  {
    if h != [] {
      HistoryOfMembers(h[1..], noteId);
    }
  }

  /** The rows of `note_histories` that survive deleting note `noteId`: the
      ON DELETE CASCADE of the foreign key removes every row that refers to it. */
  function Cascade(h: seq<NoteHistory>, noteId: int): (r: seq<NoteHistory>)
    ensures |r| <= |h|
  {
    if h == [] then []
    else (if h[0].noteId != noteId then [h[0]] else []) + Cascade(h[1..], noteId)
  }

  /** The cascade keeps exactly the rows of the other notes. */
  lemma {:induction false} CascadeMembers(h: seq<NoteHistory>, noteId: int)
    ensures forall x :: x in Cascade(h, noteId) <==> x in h && x.noteId != noteId
  {
    if h != [] {
      CascadeMembers(h[1..], noteId);
    }
  }

  lemma {:induction false} HistoryOfConcat(a: seq<NoteHistory>, b: seq<NoteHistory>, noteId: int)
    ensures HistoryOf(a + b, noteId) == HistoryOf(a, noteId) + HistoryOf(b, noteId)
  {
    if a == [] {
      assert a + b == b;
    } else {
      var head := if a[0].noteId == noteId then [a[0]] else [];
      var ab := a + b;
      assert ab != [] && ab[0] == a[0] && ab[1..] == a[1..] + b;
      HistoryOfConcat(a[1..], b, noteId);
      calc {
        HistoryOf(ab, noteId);
        head + HistoryOf(a[1..] + b, noteId);
        head + (HistoryOf(a[1..], noteId) + HistoryOf(b, noteId));
        (head + HistoryOf(a[1..], noteId)) + HistoryOf(b, noteId);
        HistoryOf(a, noteId) + HistoryOf(b, noteId);
      }
    }
  }

  /** Appending one row extends the history of its own note and no other. */
  lemma HistoryOfAppend(h: seq<NoteHistory>, x: NoteHistory, noteId: int)
    ensures HistoryOf(h + [x], noteId) == HistoryOf(h, noteId) + (if x.noteId == noteId then [x] else [])
  {
    HistoryOfConcat(h, [x], noteId);
    assert HistoryOf([x], noteId) == (if x.noteId == noteId then [x] else []) + HistoryOf([], noteId);
  }

  /** After the cascade, the deleted note has no history and every other note keeps all of its own. */
  lemma {:induction false} HistoryOfCascade(h: seq<NoteHistory>, deleted: int, noteId: int)
    ensures HistoryOf(Cascade(h, deleted), noteId) == if noteId == deleted then [] else HistoryOf(h, noteId)
  {
    if h != [] {
      HistoryOfCascade(h[1..], deleted, noteId);
      var head := if h[0].noteId != deleted then [h[0]] else [];
      HistoryOfConcat(head, Cascade(h[1..], deleted), noteId);
      assert HistoryOf(head, noteId) == (if h[0].noteId != deleted && h[0].noteId == noteId then [h[0]] else []) by {
        if head != [] { assert head[1..] == []; }
      }
    }
  }

  /** A note that no row refers to has an empty history. */
  lemma {:induction false} HistoryOfUnreferenced(h: seq<NoteHistory>, noteId: int)
    requires forall i :: 0 <= i < |h| ==> h[i].noteId != noteId
    ensures HistoryOf(h, noteId) == []
  {
    if h != [] {
      HistoryOfUnreferenced(h[1..], noteId);
    }
  }

  /** History ids stay in insertion order: they come from one increasing sequence. */
  ghost predicate IdsIncreasing(h: seq<NoteHistory>) {
    forall i, j :: 0 <= i < j < |h| ==> h[i].id < h[j].id
  }

  /** The cascade removes rows and never reorders the ones it keeps. */
  lemma {:induction false} CascadeIdsIncreasing(h: seq<NoteHistory>, noteId: int)
    requires IdsIncreasing(h)
    ensures IdsIncreasing(Cascade(h, noteId))
  {
    if h != [] {
      CascadeIdsIncreasing(h[1..], noteId);
      CascadeMembers(h[1..], noteId);
      var rest := Cascade(h[1..], noteId);
      forall x | x in rest ensures h[0].id < x.id {
        assert x in h[1..];
        var k :| 0 <= k < |h[1..]| && h[1..][k] == x;
        assert h[k + 1] == x;
      }
    }
  }

  /** Deleting the same note twice removes nothing more. */
  lemma {:induction false} CascadeIdempotent(h: seq<NoteHistory>, noteId: int)
    ensures Cascade(Cascade(h, noteId), noteId) == Cascade(h, noteId)
  {
    if h != [] {
      CascadeIdempotent(h[1..], noteId);
      if h[0].noteId != noteId {
        var c := Cascade(h, noteId);
        assert c == [h[0]] + Cascade(h[1..], noteId);
        assert c[0] == h[0] && c[1..] == Cascade(h[1..], noteId);
        assert Cascade(c, noteId) == [c[0]] + Cascade(c[1..], noteId);
      } else {
        assert Cascade(h, noteId) == [] + Cascade(h[1..], noteId) == Cascade(h[1..], noteId);
      }
    }
  }
}
