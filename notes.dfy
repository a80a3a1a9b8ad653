/** The notes of src/App.tsx and the plain object that holds them.

    `notes` is a `Record<string, Note>`: a JavaScript object whose own
    properties, in order, are modelled as a sequence of entries. For keys that
    are not array indices (ids from `uuid()` never are) property order is
    creation order, and `Object.values` lists the values in that order. */
module Notes {

  /** A note. `content` is the editor document, here the HTML string the app
      creates; `updatedAt` is the `Date`, as its `getTime()` in milliseconds. */
  datatype Note = Note(id: string, title: string, content: string, updatedAt: int)

  const NewNoteTitle: string := "A new note title"
  const NewNoteContent: string := "<h1>This is note content</h1>"

  /** The record `handleCreateNewNote` builds from a fresh id and the current time. */
  function NewNote(id: string, now: int): Note {
    Note(id, NewNoteTitle, NewNoteContent, now)
  }

  /** One own property of the object. */
  datatype Entry = Entry(key: string, note: Note)

  /** The object's properties in property order. */
  type Record = seq<Entry>

  function Keys(r: Record): (ks: set<string>)
    ensures forall i :: 0 <= i < |r| ==> r[i].key in ks
    decreases |r|
  {
    if r == [] then {} else {r[0].key} + Keys(r[1..])
  }

  /** Where a key stands. */
  lemma {:induction false} KeyIndex(r: Record, k: string) returns (i: nat)
    requires k in Keys(r)
    ensures i < |r| && r[i].key == k
    decreases |r|
  {
    if r[0].key == k {
      i := 0;
    } else {
      var j := KeyIndex(r[1..], k);
      i := j + 1;
    }
  }

  /** An object never has two properties with the same key. */
  predicate DistinctKeys(r: Record)
    decreases |r|
  {
    r == [] || (r[0].key !in Keys(r[1..]) && DistinctKeys(r[1..]))
  }

  /** Every note is stored under its own id. */
  predicate KeysMatchIds(r: Record) {
    forall i :: 0 <= i < |r| ==> r[i].key == r[i].note.id
  }

  predicate WellFormed(r: Record) {
    DistinctKeys(r) && KeysMatchIds(r)
  }

  /** The object as a dictionary from key to note. */
  function AsMap(r: Record): (m: map<string, Note>)
    ensures m.Keys == Keys(r)
    decreases |r|
  {
    if r == [] then map[] else AsMap(r[1..])[r[0].key := r[0].note]
  }

  /** `Object.values(r)`. */
  function Values(r: Record): (vs: seq<Note>)
    ensures |vs| == |r|
    ensures forall i :: 0 <= i < |r| ==> vs[i] == r[i].note
    decreases |r|
  {
    if r == [] then [] else [r[0].note] + Values(r[1..])
  }

  /** `{ ...r, [key]: note }`: a copy of `r` in which `key` maps to `note`. An
      existing property keeps its place; a new one comes last. */
  function Spread(r: Record, key: string, note: Note): (r': Record)
    ensures Keys(r') == Keys(r) + {key}
    ensures |r'| == if key in Keys(r) then |r| else |r| + 1
    decreases |r|
  {
    if r == [] then [Entry(key, note)]
    else if r[0].key == key then [Entry(key, note)] + r[1..]
    else [r[0]] + Spread(r[1..], key, note)
  }

  /** In a well-formed object the dictionary view has one key per property,
      and each property's note is what the dictionary holds under its key. */
  lemma {:induction false} AsMapOfDistinct(r: Record)
    requires DistinctKeys(r)
    ensures |AsMap(r)| == |r|
    ensures forall i :: 0 <= i < |r| ==> AsMap(r)[r[i].key] == r[i].note
    decreases |r|
  {
    if r != [] {
      AsMapOfDistinct(r[1..]);
      forall i | 1 <= i < |r| ensures AsMap(r)[r[i].key] == r[i].note {
        assert r[i] == r[1..][i - 1];
      }
    }
  }

  /** `Object.values` of a well-formed object lists each of the dictionary's
      notes, and only those. */
  lemma ValuesAreMapValues(r: Record)
    requires DistinctKeys(r)
    ensures |Values(r)| == |AsMap(r)|
    ensures forall n :: n in Values(r) <==> n in AsMap(r).Values
  {
    AsMapOfDistinct(r);
    var m := AsMap(r);
    forall n | n in m.Values ensures n in Values(r) {
      var k :| k in m && m[k] == n;
      var i := KeyIndex(r, k);
      assert Values(r)[i] == n;
    }
  }

  /** The spread stores `note` under `key` and leaves every other key as it was. */
  lemma {:induction false} SpreadUpdatesMap(r: Record, key: string, note: Note)
    ensures AsMap(Spread(r, key, note)) == AsMap(r)[key := note]
    decreases |r|
  {
    if r != [] && r[0].key != key {
      SpreadUpdatesMap(r[1..], key, note);
      var r' := Spread(r, key, note);
      assert r'[0] == r[0] && r'[1..] == Spread(r[1..], key, note);
    } else if r != [] {
      var r' := Spread(r, key, note);
      assert r'[0] == Entry(key, note) && r'[1..] == r[1..];
    }
  }

  /** The spread keeps property order: a new key is appended, an existing
      property is replaced where it stands, and no key is duplicated. */
  lemma {:induction false} SpreadKeepsOrder(r: Record, key: string, note: Note)
    requires DistinctKeys(r)
    ensures DistinctKeys(Spread(r, key, note))
    ensures key !in Keys(r) ==> Spread(r, key, note) == r + [Entry(key, note)]
    ensures key in Keys(r) ==> forall i :: 0 <= i < |r| ==>
      Spread(r, key, note)[i] == if r[i].key == key then Entry(key, note) else r[i]
    decreases |r|
  {
    if r != [] {
      var r' := Spread(r, key, note);
      if r[0].key == key {
        assert r'[1..] == r[1..];
        forall i | 1 <= i < |r| ensures r[i].key != key {
          assert r[i] == r[1..][i - 1];
        }
      } else {
        SpreadKeepsOrder(r[1..], key, note);
        assert r'[1..] == Spread(r[1..], key, note);
        forall i | 1 <= i < |r| ensures r'[i] == r'[1..][i - 1] && r[i] == r[1..][i - 1] {
        }
      }
    }
  }

  /** Spreading a note under its own id keeps every note stored under its id. */
  lemma SpreadKeepsIds(r: Record, note: Note)
    requires WellFormed(r)
    ensures WellFormed(Spread(r, note.id, note))
  {
    SpreadKeepsOrder(r, note.id, note);
  }
}
