/** The sidebar order of src/App.tsx:62-64: `Object.values(notes)` sorted with
    the comparator `b.updatedAt.getTime() - a.updatedAt.getTime()`.

    The comparator is negative exactly when `a` is newer than `b` and zero exactly
    on equal times (the difference of two millisecond times never rounds across
    zero), so it sorts newest first. `Array.prototype.sort` is stable, so notes
    with equal times keep the order `Object.values` gave them. Any stable sort
    by that comparator yields the same list (StableOrderIsUnique), so an
    insertion sort stands for the engine's algorithm. */
module NotesOrder {
  import opened Notes

  /** Newest first: no note comes before a newer one. */
  predicate NewestFirst(s: seq<Note>) {
    forall i, j :: 0 <= i < j < |s| ==> s[i].updatedAt >= s[j].updatedAt
  }

  /** The notes of `s` stamped `t`, in their order in `s`. */
  function StampedAt(s: seq<Note>, t: int): seq<Note>
    decreases |s|
  {
    if s == [] then []
    else if s[0].updatedAt == t then [s[0]] + StampedAt(s[1..], t)
    else StampedAt(s[1..], t)
  }

  /** `StampedAt` keeps exactly the notes of `s` with time `t`. */
  lemma {:induction false} StampedAtMembers(s: seq<Note>, t: int)
    ensures forall n :: n in StampedAt(s, t) <==> n in s && n.updatedAt == t
    decreases |s|
  {
    if s != [] {
      StampedAtMembers(s[1..], t);
      assert s == [s[0]] + s[1..];
    }
  }

  /** Places `n` before the first note that is not newer than it. */
  function Insert(n: Note, s: seq<Note>): seq<Note>
    decreases |s|
  {
    if s == [] || s[0].updatedAt <= n.updatedAt then [n] + s
    else [s[0]] + Insert(n, s[1..])
  }

  lemma {:induction false} InsertIsPermutation(n: Note, s: seq<Note>)
    ensures multiset(Insert(n, s)) == multiset(s) + multiset{n}
    decreases |s|
  {
    if !(s == [] || s[0].updatedAt <= n.updatedAt) {
      InsertIsPermutation(n, s[1..]);
      assert s == [s[0]] + s[1..];
    }
  }

  lemma {:induction false} InsertKeepsNewestFirst(n: Note, s: seq<Note>)
    requires NewestFirst(s)
    ensures NewestFirst(Insert(n, s))
    decreases |s|
  {
    if !(s == [] || s[0].updatedAt <= n.updatedAt) {
      var rest := Insert(n, s[1..]);
      InsertKeepsNewestFirst(n, s[1..]);
      InsertIsPermutation(n, s[1..]);
      forall j | 0 <= j < |rest| ensures rest[j].updatedAt <= s[0].updatedAt {
        assert rest[j] in multiset(rest);
        if rest[j] != n {
          assert rest[j] in multiset(s[1..]);
          var k :| 0 <= k < |s[1..]| && s[1..][k] == rest[j];
          assert s[k + 1] == rest[j];
        }
      }
      var r := Insert(n, s);
      forall i, j | 0 <= i < j < |r| ensures r[i].updatedAt >= r[j].updatedAt {
        assert r[j] == rest[j - 1];
        if i > 0 {
          assert r[i] == rest[i - 1];
        }
      }
    }
  }

  /** Inserting `n` puts it first among the notes of its own time. */
  lemma {:induction false} InsertStamps(n: Note, s: seq<Note>, t: int)
    ensures StampedAt(Insert(n, s), t) == (if n.updatedAt == t then [n] else []) + StampedAt(s, t)
    decreases |s|
  {
    var r := Insert(n, s);
    if s == [] || s[0].updatedAt <= n.updatedAt {
      assert r[0] == n && r[1..] == s;
    } else {
      InsertStamps(n, s[1..], t);
      assert r[0] == s[0] && r[1..] == Insert(n, s[1..]);
      if s[0].updatedAt == t {
        assert n.updatedAt != t;
      }
    }
  }

  /** An insertion sort of `s`, newest first. */
  function SortNewestFirst(s: seq<Note>): seq<Note>
    decreases |s|
  {
    if s == [] then [] else Insert(s[0], SortNewestFirst(s[1..]))
  }

  lemma {:induction false} SortIsPermutation(s: seq<Note>)
    ensures multiset(SortNewestFirst(s)) == multiset(s)
    decreases |s|
  {
    if s != [] {
      SortIsPermutation(s[1..]);
      InsertIsPermutation(s[0], SortNewestFirst(s[1..]));
      assert s == [s[0]] + s[1..];
    }
  }

  lemma {:induction false} SortIsNewestFirst(s: seq<Note>)
    ensures NewestFirst(SortNewestFirst(s))
    decreases |s|
  {
    if s != [] {
      SortIsNewestFirst(s[1..]);
      InsertKeepsNewestFirst(s[0], SortNewestFirst(s[1..]));
    }
  }

  /** The sort is stable: for every time, the notes of that time come out in
      the order they went in. */
  lemma {:induction false} SortIsStable(s: seq<Note>, t: int)
    ensures StampedAt(SortNewestFirst(s), t) == StampedAt(s, t)
    decreases |s|
  {
    if s != [] {
      SortIsStable(s[1..], t);
      InsertStamps(s[0], SortNewestFirst(s[1..]), t);
    }
  }

  /** `notesList`. */
  function NotesList(notes: Record): seq<Note> {
    SortNewestFirst(Values(notes))
  }

  /** Two newest-first lists that agree on the notes of every timestamp start
      with the same note. */
  lemma SameFirstNote(p: seq<Note>, q: seq<Note>)
    requires NewestFirst(p) && NewestFirst(q) && p != [] && q != []
    requires forall t :: StampedAt(p, t) == StampedAt(q, t)
    ensures p[0] == q[0]
  {
    var time, other := p[0].updatedAt, q[0].updatedAt;
    assert StampedAt(p, time)[0] == p[0];
    assert StampedAt(q, other)[0] == q[0];
    StampedAtMembers(p, other);
    StampedAtMembers(q, time);
    assert StampedAt(q, time) == StampedAt(p, time);
    assert StampedAt(p, other) == StampedAt(q, other);
    assert p[0] in StampedAt(q, time);
    assert q[0] in StampedAt(p, other);
    var j :| 0 <= j < |q| && q[j] == p[0];
    var i :| 0 <= i < |p| && p[i] == q[0];
    assert other == time;
  }

  /** Removing the same first note from both lists keeps them in agreement. */
  lemma SameRest(p: seq<Note>, q: seq<Note>)
    requires p != [] && q != [] && p[0] == q[0]
    requires forall t :: StampedAt(p, t) == StampedAt(q, t)
    ensures forall t :: StampedAt(p[1..], t) == StampedAt(q[1..], t)
  {
    forall t ensures StampedAt(p[1..], t) == StampedAt(q[1..], t) {
      var head := if p[0].updatedAt == t then [p[0]] else [];
      assert StampedAt(p, t) == head + StampedAt(p[1..], t);
      assert StampedAt(q, t) == head + StampedAt(q[1..], t);
      assert (head + StampedAt(p[1..], t))[|head|..] == StampedAt(p[1..], t);
      assert (head + StampedAt(q[1..], t))[|head|..] == StampedAt(q[1..], t);
    }
  }

  /** Two newest-first lists that agree on the notes of every timestamp are the
      same list: sortedness and stability fix the result completely. */
  lemma {:induction false} StableOrderIsUnique(p: seq<Note>, q: seq<Note>)
    requires NewestFirst(p) && NewestFirst(q)
    requires forall t :: StampedAt(p, t) == StampedAt(q, t)
    ensures p == q
    decreases |p|
  {
    if q != [] {
      assert StampedAt(q, q[0].updatedAt) != [];
    }
    if p != [] {
      assert StampedAt(p, p[0].updatedAt) != [];
      SameFirstNote(p, q);
      SameRest(p, q);
      assert NewestFirst(p[1..]) && NewestFirst(q[1..]);
      StableOrderIsUnique(p[1..], q[1..]);
      assert p == [p[0]] + p[1..] && q == [q[0]] + q[1..];
    }
  }

  /** `notesList` holds each note of the object exactly once, newest first, and
      notes with equal times in property order. Any list with those properties
      is `notesList`. */
  lemma NotesListIsStableSort(notes: Record, other: seq<Note>)
    ensures NewestFirst(NotesList(notes))
    ensures multiset(NotesList(notes)) == multiset(Values(notes))
    ensures forall t :: StampedAt(NotesList(notes), t) == StampedAt(Values(notes), t)
    ensures NewestFirst(other) && (forall t :: StampedAt(other, t) == StampedAt(Values(notes), t))
      ==> other == NotesList(notes)
  {
    var sorted := NotesList(notes);
    SortIsPermutation(Values(notes));
    SortIsNewestFirst(Values(notes));
    forall t ensures StampedAt(sorted, t) == StampedAt(Values(notes), t) {
      SortIsStable(Values(notes), t);
    }
    if NewestFirst(other) && (forall t :: StampedAt(other, t) == StampedAt(Values(notes), t)) {
      StableOrderIsUnique(other, sorted);
    }
  }

  /** Notes created one after another at times T1 < T2 < T3 are listed [T3, T2, T1]. */
  lemma ThreeNotesNewestFirst(a: Note, b: Note, c: Note)
    requires a.updatedAt < b.updatedAt < c.updatedAt
    ensures NotesList([Entry(a.id, a), Entry(b.id, b), Entry(c.id, c)]) == [c, b, a]
  {
    var notes := [Entry(a.id, a), Entry(b.id, b), Entry(c.id, c)];
    assert Values(notes) == [a, b, c];
    assert [a, b, c][1..] == [b, c];
    SortTwo(b, c);
    assert [c, b][1..] == [b];
    assert Insert(a, [b]) == [b, a];
    assert Insert(a, [c, b]) == [c] + Insert(a, [b]) == [c, b, a];
  }

  lemma SortTwo(a: Note, b: Note)
    ensures SortNewestFirst([a, b]) == if a.updatedAt < b.updatedAt then [b, a] else [a, b]
  {
    assert [a, b][1..] == [b] && [b][1..] == [];
    assert SortNewestFirst([b]) == Insert(b, []) == [b];
    assert SortNewestFirst([a, b]) == Insert(a, [b]);
    assert Insert(a, []) == [a];
  }

  /** Two notes with the same time are listed in the order they were created,
      and the tie is no error. */
  lemma TiesKeepCreationOrder(a: Note, b: Note)
    requires a.updatedAt == b.updatedAt
    ensures NotesList([Entry(a.id, a), Entry(b.id, b)]) == [a, b]
  {
    var notes := [Entry(a.id, a), Entry(b.id, b)];
    assert Values(notes) == [a, b];
    SortTwo(a, b);
  }
}
