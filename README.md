# Notes app core: trailing-edge debouncer and in-memory note collection

This project models the two pieces of logic of a small browser note-taking app:

- **The debouncer** (`src/debounce.ts`). `debounce(fn, delay)` returns a wrapper
  that keeps one captured `timeoutId`. Each call clears that timer and schedules
  a new one that runs `fn` with the call's arguments `delay` later. The host
  timer API is made explicit. `Debounce.State` holds the closure's `timeoutId`,
  the host's next timer id, the wrapper's still-scheduled timers (`live`) and a
  log of every invocation of `fn` (`fired`). `CallStep` is one call of the
  wrapper at a given time. `TickStep` is the host running the oldest timer once
  it is due. The class `Debounce.Debounced` holds the same state as fields. Its
  `Call` and `Tick` methods are proved against those two functions.
- **The note collection** (`src/App.tsx`). The component keeps two state cells:
  `notes`, a `Record<string, Note>`, and `activeNoteId`. The notes object is
  modelled as its own properties in property order (`Notes.Record`), with
  `Notes.AsMap` as its dictionary view. `handleCreateNewNote` is the object
  spread `Notes.Spread` applied to a fresh note. `handleChangeActiveNoteId` sets
  the selection. `notesList` is `Object.values` stably sorted newest first
  (`NotesOrder.NotesList`). The class `App.AppState` holds the two cells and the
  two handlers.

What is proved:

- A call cancels the pending invocation and leaves exactly one pending, carrying
  its own arguments and due `delay` after it.
- `fn` never runs during a call.
- A burst of calls produces exactly one invocation, with the last call's arguments.
- After firing, the slot is empty. A later call's `clearTimeout` on the spent id
  does nothing.
- Calls with different arguments share the one slot.
- Creating a note stores the default note under its id and keeps every other
  entry.
- `notesList` is a permutation of the object's values. It is ordered newest
  first, and ties keep property order. It is the only list with those
  properties.

The model follows the code as written:

- The code keeps one timer per wrapper, not one per key. Two calls for
  different note ids therefore supersede each other
  (`Debounce.SharedSlotDropsEarlierCall`).
- `handleCreateNewNote` does not select the new note.
- The default title is `'A new note title'`, with content
  `'<h1>This is note content</h1>'`.
- No persistence code (note index, per-note records, load/save) exists in these
  files, so none is modelled.

Time is an integer number of milliseconds. `uuid()` becomes an `id: string`
parameter and `new Date()` becomes a `now: int` parameter. A note's `content` is
modelled as the HTML string the app creates.

## Model

| member | source | states |
|---|---|---|
| `Debounce.ClearTimeout` | src/debounce.ts:8 | `clearTimeout` removes exactly the timer with the given id. An undefined id, or an id no live timer carries (a spent one), leaves the timers exactly as they were. If every live timer carries the id, none remains |
| `Debounce.InitialIsValid` | src/debounce.ts:5 | a new wrapper has `timeoutId` undefined, nothing pending and no invocation of `fn` |
| `Debounce.CallReschedules` | src/debounce.ts:7-11 | after a call exactly one invocation is pending. It is a fresh timer with this call's arguments, due `delay` after the call. Every earlier timer is gone and `fn` was not run |
| `Debounce.TickBeforeDueIsNoop` | src/debounce.ts:10 | nothing runs before the pending invocation is due, or when nothing is pending |
| `Debounce.CallIsDueAfterDelay` | src/debounce.ts:3-10 | the invocation a call schedules is due exactly `delay` after the call: a tick one unit earlier runs nothing, a tick at that time runs `fn` with the call's arguments; a negative delay acts as zero |
| `Debounce.TickFires` | src/debounce.ts:10 | once due, the pending invocation runs `fn` once with its arguments and the slot is empty |
| `Debounce.TickKeepsValid` | src/debounce.ts:10 | a timer run keeps the one-slot invariant and appends at most the pending arguments to the invocations |
| `Debounce.CallAfterFireSchedulesAfresh` | src/debounce.ts:5-10 | after firing, `timeoutId` still names the spent timer. Clearing it is a no-op, and the next call schedules a new invocation |
| `Debounce.RunKeepsValid` | src/debounce.ts:5-11 | over any trace of calls and timer runs, at most one invocation is pending and earlier invocations are never undone |
| `Debounce.PendingThroughBurst` | src/debounce.ts:7-11 | while calls keep arriving before the deadline, exactly one invocation is pending, for the latest call, and `fn` does not run |
| `Debounce.BurstCoalesces` | src/debounce.ts:7-11 | N calls, each before the previous deadline, then a timer run past the last deadline: `fn` runs exactly once, with the last call's arguments |
| `Debounce.SharedSlotDropsEarlierCall` | src/debounce.ts:5-10 | two calls with any arguments, such as two note ids, share one slot: only the second call's arguments reach `fn` |
| `Debounce.Debounced.constructor` | src/debounce.ts:1-5 | `delay` is fixed at creation; the wrapper starts with nothing scheduled |
| `Debounce.Debounced.Call` | src/debounce.ts:7-11 | the wrapper call changes the fields as `CallStep` says, keeps the invariant, and leaves exactly the new timer scheduled without running `fn` |
| `Debounce.Debounced.Tick` | src/debounce.ts:10 | a due timer runs `fn` with its arguments and empties the slot; otherwise nothing changes |
| `Notes.AsMap` | src/App.tsx:15 | the dictionary view has exactly the object's keys |
| `Notes.Values` | src/App.tsx:62 | `Object.values` lists each property's note, in property order |
| `Notes.Spread` | src/App.tsx:52-55 | `{...notes, [id]: note}` has the old keys plus `id`. It grows by one exactly when `id` is new |
| `Notes.AsMapOfDistinct` | src/App.tsx:15 | an object with distinct keys has one dictionary entry per property, holding that property's note |
| `Notes.ValuesAreMapValues` | src/App.tsx:62 | `Object.values` holds exactly the dictionary's notes, as many as it has keys |
| `Notes.SpreadUpdatesMap` | src/App.tsx:52-55 | the spread stores the note under `id` and leaves every other key unchanged |
| `Notes.SpreadKeepsOrder` | src/App.tsx:52-55 | the spread keeps keys distinct. A new key goes last. An existing property is overwritten in place and never duplicated |
| `Notes.SpreadKeepsIds` | src/App.tsx:46-54 | spreading a note under its own id keeps every note stored under its own id |
| `App.CreatingANote` | src/App.tsx:45-55 | the new entry has key `id`, field `id`, title `'A new note title'`, the default content and `updatedAt == now`. Every other entry is kept. The size grows by one for a fresh id and stays the same for an existing one |
| `App.CreatingANoteKeepsOrder` | src/App.tsx:52-55 | creation keeps the object well formed, and a fresh note comes last in `Object.values` |
| `App.AppState.constructor` | src/App.tsx:15-16 | the state starts with no notes and no selection |
| `App.AppState.CreateNewNote` | src/App.tsx:45-56 | `notes` becomes the spread with the new note, its dictionary view is the old one updated at `id`, and the selection is unchanged |
| `App.AppState.ChangeActiveNoteId` | src/App.tsx:58-60 | the selection becomes the given id, present or not, and `notes` is unchanged |
| `App.AppState.NotesList` | src/App.tsx:62-64 | the sidebar list is newest first, a permutation of the object's values, and stable on ties |
| `NotesOrder.InsertIsPermutation` | src/App.tsx:62-64 | inserting a note adds exactly that note |
| `NotesOrder.InsertKeepsNewestFirst` | src/App.tsx:62-64 | inserting into a newest-first list keeps it newest first |
| `NotesOrder.InsertStamps` | src/App.tsx:62-64 | an inserted note comes before the notes of equal time it is inserted among |
| `NotesOrder.StampedAtMembers` | src/App.tsx:62-64 | the notes of time `t` are exactly the list's notes with that time |
| `NotesOrder.SortIsPermutation` | src/App.tsx:62 | the sort loses and duplicates no note |
| `NotesOrder.SortIsNewestFirst` | src/App.tsx:62-64 | the sort orders by `updatedAt`, non-increasing |
| `NotesOrder.SortIsStable` | src/App.tsx:62-64 | for every time, the notes of that time keep their input order |
| `NotesOrder.SameFirstNote` | src/App.tsx:62-64 | two newest-first lists with the same notes at every time start with the same note |
| `NotesOrder.SameRest` | src/App.tsx:62-64 | removing that common first note keeps the two lists agreeing at every time |
| `NotesOrder.StableOrderIsUnique` | src/App.tsx:62-64 | two newest-first lists with the same notes at every time, in the same order, are equal. Any stable sort by this comparator gives one result |
| `NotesOrder.NotesListIsStableSort` | src/App.tsx:62-64 | `notesList` is newest first, a permutation of `Object.values(notes)`, and stable. Any list with those three properties equals it |
| `NotesOrder.ThreeNotesNewestFirst` | src/App.tsx:62-64 | notes created at T1 < T2 < T3 are listed [T3, T2, T1] |
| `NotesOrder.TiesKeepCreationOrder` | src/App.tsx:62-64 | two notes with equal times are listed in creation order, without failure |

## Left out

- Rendering, CSS classes, toolbar buttons and the tiptap editor chains in `src/App.tsx`. They are UI on a library and have no logic of their own.
- `src/NoteEditor.tsx` is not part of this model. Its title derivation calls the editor library's `generateText`, which cannot be seen here.
- The sidebar item binds `handleChangeActiveNoteId` to `onChange` of a `div`, so a click does not reach it. This event wiring is not modelled. The handler itself is.
- `uuid()` and `new Date()` are foreign randomness and a wall clock. They are parameters. An invalid `Date` (NaN time) cannot arise from `new Date()` and is not modelled.
- The editor `Content` type is opaque. It is modelled as the HTML string the app stores.
- Real `setTimeout`/`clearTimeout` and the event loop are replaced by explicit time values and a tick step. Timer ids are counted per wrapper, whereas a host shares one counter among all timers.
- Host behaviour beyond clamping a negative delay to zero is not modelled: the minimum delay for nested timers, the overflow of delays above 2^31-1 ms, and fractional delays.
- React applies `setNotes` updaters asynchronously and in batches. The model applies each update at once, in call order.
- Property order assumes no key is an array index; such keys would be listed first, in numeric order. Ids from `uuid()` never are array indices.
- Persistence (note index, per-note records, load and save) does not appear in these source files, so it is not modelled.
