/** The note state of the `App` component in src/App.tsx: the `notes` object,
    the selected note id, and the two handlers that change them. `uuid()` and
    `new Date()` are passed in as a fresh id and a time in milliseconds. */
module App {
  import opened Wrappers
  import opened Notes
  import NotesOrder

  /** What creating a note does to the object as a dictionary (src/App.tsx:45-55):
      the new note has the fixed title and content, the given time and its own
      id as key; every other entry is kept; a fresh id adds one entry, an id
      already present is overwritten rather than duplicated. */
  lemma CreatingANote(notes: Record, id: string, now: int)
    ensures var m, m' := AsMap(notes), AsMap(Spread(notes, id, NewNote(id, now)));
      && id in m'
      && m'[id].id == id
      && m'[id].title == "A new note title"
      && m'[id].content == "<h1>This is note content</h1>"
      && m'[id].updatedAt == now
      && m'.Keys == m.Keys + {id}
      && (forall k :: k in m && k != id ==> m'[k] == m[k])
      && |m'| == if id in m then |m| else |m| + 1
  {
    var note := NewNote(id, now);
    SpreadUpdatesMap(notes, id, note);
    var m, m' := AsMap(notes), AsMap(Spread(notes, id, note));
    assert m' == m[id := note];
    assert m'[id] == note;
  }

  /** Creating a note keeps the object well formed, and a note with a fresh id
      is the last of `Object.values`, after all the others in their order. */
  lemma CreatingANoteKeepsOrder(notes: Record, id: string, now: int)
    requires WellFormed(notes)
    ensures var notes' := Spread(notes, id, NewNote(id, now));
      && WellFormed(notes')
      && (id !in AsMap(notes) ==> Values(notes') == Values(notes) + [NewNote(id, now)])
  {
    var note := NewNote(id, now);
    SpreadKeepsIds(notes, note);
    SpreadKeepsOrder(notes, id, note);
    if id !in AsMap(notes) {
      assert Spread(notes, id, note) == notes + [Entry(id, note)];
      assert Values(notes + [Entry(id, note)]) == Values(notes) + [note];
    }
  }

  /** The component's state cells. */
  class AppState {
    var notes: Record
    var activeNoteId: Option<string>

    ghost predicate Valid()
      reads this
    {
      WellFormed(notes)
    }

    /** `useState({})` and `useState(null)`. */
    constructor ()
      ensures Valid() && notes == [] && activeNoteId == None
    {
      notes := [];
      activeNoteId := None;
    }

    /** `handleCreateNewNote`, with `uuid()` as `id` and `new Date()` as `now`.
        It does not select the new note. */
    method CreateNewNote(id: string, now: int)
      requires Valid()
      modifies this
      ensures Valid()
      ensures notes == Spread(old(notes), id, NewNote(id, now))
      ensures AsMap(notes) == AsMap(old(notes))[id := NewNote(id, now)]
      ensures |AsMap(notes)| == |AsMap(old(notes))| + (if id in AsMap(old(notes)) then 0 else 1)
      ensures activeNoteId == old(activeNoteId)
    {
      var newNote := NewNote(id, now);
      CreatingANote(notes, id, now);
      CreatingANoteKeepsOrder(notes, id, now);
      SpreadUpdatesMap(notes, id, newNote);
      notes := Spread(notes, newNote.id, newNote);
    }

    /** `handleChangeActiveNoteId`: any id may be selected, present or not. */
    method ChangeActiveNoteId(id: string)
      modifies this
      ensures activeNoteId == Some(id)
      ensures notes == old(notes)
    {
      activeNoteId := Some(id);
    }

    /** `notesList`: every note once, newest first, ties in property order. */
    function NotesList(): (list: seq<Note>)
      reads this
      ensures NotesOrder.NewestFirst(list)
      ensures multiset(list) == multiset(Values(notes))
      ensures forall t :: NotesOrder.StampedAt(list, t) == NotesOrder.StampedAt(Values(notes), t)
    {
      NotesOrder.NotesListIsStableSort(notes, []);
      NotesOrder.NotesList(notes)
    }
  }
}
