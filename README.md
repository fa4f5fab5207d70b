# Record manager state machine (edit-user)

This project models the state kept by the `App` component of `src/App.js` in Dafny,
without React and the DOM. The component manages an ordered list of user records
`{id, name, address, phoneNumber, email}`. It also holds a monotonic id counter
`lastId`, a form buffer of four strings that carries an `id` once a record is loaded
into it for editing, and an edit-mode flag `editingUser`. The browser-local snapshot
under the key `users` is rewritten every time the list is set.

Files:

- `text.dfy` (module `Text`): the emptiness guard `s.trim() !== ''`. `IsWhitespace` lists the
  code points that ECMAScript's WhiteSpace and LineTerminator productions name.
  `Trim` strips them from both ends.
- `users.dfy` (module `Users`): the `User` and `FormData` values, and the pure list
  transformations inside the handlers. These are the spread that builds a record, `map` for
  saving an edit (`ReplaceById`), `filter` for deleting (`RemoveById`) and `Math.max` over the
  ids (`MaxId`). The module also holds the lemmas about these transformations.
- `app.dfy` (module `App`): class `Store`, whose fields are the component's state variables
  plus `storage`, the persisted snapshot. Each handler is a method that overwrites those fields.
  Its `modifies` frame names only the fields the handler's setters touch. Its `ensures` states
  the whole new state, and says that the invariant `IdsConsistent` (ids unique and at most
  `lastId`) is kept, under the condition the code actually needs.
- `scenarios.dfy` (module `Scenarios`): handler sequences that run on a freshly mounted
  component and use only the handler contracts.

Behaviour of the code as written, kept in the model:

- The new record is built as `{ id: newId, ...formData }` (`src/App.js:45`), so an `id` left in
  the buffer overrides `newId`. `handleEditUser` puts the id there (`src/App.js:54`).
  `handleDeleteUser` leaves edit mode but does not clear the buffer (`src/App.js:66-70`).
  After "Edit a record, Delete another, Add User", the collection therefore holds two records
  with the same id (`LeftoverIdDuplicates`, `EditDeleteAddDuplicatesId`). Id uniqueness is
  proved only for an add whose buffer carries no id (`AddKeepsIdsFresh`).
- Saving an edit does not check for empty fields. Only add does.
- Deleting leaves edit mode whichever record was being edited.
- The counter only moves forward in the handlers: add raises it by one and nothing else
  touches it. Load sets it to the largest stored id without comparing it to the current
  value.
- A delete leaves edit mode but does not clear the buffer (`src/App.js:66-70`), so ids can be
  reused through the spread at `src/App.js:45` (see above).
- The counter is not persisted. Load recomputes it as the largest stored id
  (`src/App.js:21-23`), so after deleting the record with the largest id (or every record) and
  reloading, the next add reuses that id (`ReloadAfterDeleteReusesId`).
- `JSON.parse` at `src/App.js:19` has no `try`/`catch`, so a malformed snapshot throws. The
  model takes the snapshot as already parsed (see Left out).
- `HandleAddUser` requires `editingUser == None` and `HandleSaveEdit` requires
  `editingUser.Some?`. The render (`src/App.js:117-121`) shows only the "Add User" button
  outside edit mode and only the "Save Edit" button inside it.

## Model

| member | source | states |
|---|---|---|
| `Text.TrimSpec` | src/App.js:39-42 | `trim()` returns the piece of the string between its leading and trailing whitespace: every character cut away is whitespace, and the piece kept neither starts nor ends with whitespace |
| `Text.TrimEmptyIffBlank` | src/App.js:39-42 | `s.trim() === ''` holds exactly when every character of `s` is whitespace |
| `Text.Trim` | src/App.js:39-42 | `trim()` never lengthens its input; `TrimSpec` and `TrimEmptyIffBlank` characterise its result |
| `Users.WithField` | src/App.js:32-35 | `handleChange` sets the named buffer field to the new value; the other three fields and the buffer's id are unchanged |
| `Users.IsComplete` | src/App.js:38-43 | the add guard passes only when all four fields are non-empty; `IsCompleteIffNoBlankField` states it exactly |
| `Users.IsCompleteIffNoBlankField` | src/App.js:38-43 | the add guard passes exactly when none of the four fields is blank |
| `Users.FormOf` | src/App.js:54 | the buffer loaded for editing carries the record's id, and reading it back as a record gives the record itself, whatever fallback id is used |
| `Users.ToUser` | src/App.js:45 | the buffer's id, when present, wins over the fallback id; without one the record gets the fallback id; the four fields are copied unchanged |
| `Users.ReplaceById` | src/App.js:58-60 | the `map` in save keeps the length; position `i` becomes the edited record when its id matches and keeps its old record otherwise; with no matching id the list is unchanged |
| `Users.ReplaceKeepsIds` | src/App.js:57-61 | replacing by a record with the matched id keeps the id at every position, so unique ids stay unique and the counter bound still holds |
| `Users.EditThenSaveIsIdentity` | src/App.js:52-64 | when ids are unique, loading a record into the buffer and saving it unchanged gives back the same list |
| `Users.RemoveById` | src/App.js:67 | the `filter` in delete keeps a record exactly when it was in the list and its id differs from the deleted one |
| `Users.RemoveByIdAppend` | src/App.js:67 | filtering distributes over concatenation, so the survivors keep their relative order |
| `Users.RemoveByIdAbsent` | src/App.js:66-68 | deleting an id that no record has leaves the list unchanged |
| `Users.RemoveByIdRemovesAll` | src/App.js:67 | after a delete, no record with that id is left |
| `Users.RemoveKeepsUniqueIds` | src/App.js:67-68 | deleting keeps unique ids unique |
| `Users.RemoveKeepsIdsAtMost` | src/App.js:67-68 | deleting keeps every id at most the counter |
| `Users.MaxId` | src/App.js:22 | `Math.max` over the ids of a non-empty list is an id of the list, and no id exceeds it |
| `Users.AddKeepsIdsFresh` | src/App.js:44-48 | when the buffer has no id, the added record gets `lastId + 1`; unique ids bounded by `lastId` stay unique and bounded by `lastId + 1` |
| `Users.LeftoverIdDuplicates` | src/App.js:45 | when the buffer still has the id of a record in the list, the next add creates a second record with that id |
| `App.Store.constructor` | src/App.js:6-14 | the initial state is an empty list, counter 0, an empty buffer with no id, not editing, and whatever snapshot the browser has stored |
| `App.Store.Load` | src/App.js:16-26 | a present snapshot becomes the list. If it is non-empty, the counter becomes its largest id and the next id is taken by no record. An absent snapshot keeps the list and an empty one keeps the counter. The snapshot ends equal to the list. Ids stay consistent when the snapshot's ids are unique |
| `App.Store.HandleChange` | src/App.js:32-35 | only the buffer changes, and it changes only in the named field |
| `App.Store.HandleAddUser` | src/App.js:37-50 | a complete buffer appends exactly one record built from it, under id `lastId + 1` unless the buffer has an id. The counter advances by one, the buffer is cleared and the snapshot is rewritten. An incomplete buffer changes nothing. Ids stay consistent when the buffer has no id |
| `App.Store.HandleEditUser` | src/App.js:52-55 | enters edit mode on the record and loads it into the buffer, id included; the list, counter and snapshot are untouched |
| `App.Store.HandleSaveEdit` | src/App.js:57-64 | every record whose id equals the buffer's id is replaced by the buffer, with no emptiness check. Length and order are kept, and with no id in the buffer the list is unchanged. Afterwards the buffer is empty, edit mode is off, the snapshot equals the list and ids stay consistent |
| `App.Store.HandleDeleteUser` | src/App.js:66-70 | the list becomes the filtered list, so a missing id changes nothing. Edit mode is always left and the snapshot is rewritten. The buffer and counter are untouched and ids stay consistent |
| `Scenarios.Mount` | src/App.js:6-26 | mounting with a snapshot yields its list and its largest id as counter. With no snapshot, or an empty one, it yields an empty list and counter 0 |
| `Scenarios.AddWithBlankName` | src/App.js:37-50 | an add whose name is blank (whitespace only, or empty) leaves the list, the counter and edit mode as they were, and keeps the typed values in the buffer |
| `Scenarios.EditOneField` | src/App.js:52-64 | with unique ids, editing one field of record `i` and saving changes record `i` in that field only; the rest of the list, its order and the counter are unchanged |
| `Scenarios.CreateEditDelete` | src/App.js:37-70 | from an empty store: the first record gets id 1, an add with an empty name is rejected, an edit keeps the id, and deleting id 1 empties the list and leaves edit mode |
| `Scenarios.ReloadContinuesAfterMax` | src/App.js:16-48 | a snapshot with ids 3, 7, 2 sets the counter to 7, and the next record gets id 8 |
| `Scenarios.EditDeleteAddDuplicatesId` | src/App.js:45-70 | editing record 1, deleting record 2 and then adding leaves two records with id 1 |
| `Scenarios.ReloadAfterDeleteReusesId` | src/App.js:16-70 | adding records 1 and 2, deleting 2 and reloading sets the counter to 1, so the next record gets id 2 again |

## Left out

- Rendering and button wiring (`src/App.js:85-154`). The only part kept is which submit handler is reachable (`src/App.js:117-121`), as the preconditions of `HandleAddUser` and `HandleSaveEdit`.
- Export to a file (`src/App.js:72-83`): Blob, object URL and DOM plumbing, with no state change.
- The JSON text of the snapshot. `storage` holds the list itself: `None` when nothing is stored. `JSON.stringify` and `JSON.parse` are taken to round-trip.
- Malformed snapshots. `JSON.parse` throws on them at `src/App.js:19`, and the model has no such input.
- Non-numeric ids, for which `Math.max` gives NaN, and extra keys on stored objects. Ids are integers and records have exactly five fields.
- React scheduling. Each handler is one atomic transition; batched `setState` and the order of effects at mount are not modelled. At mount, the persist effect first writes the initial empty list and then the loaded one. The model keeps only the final state, where the snapshot equals the list.
- Unicode versions: `IsWhitespace` lists the current Unicode "Zs" space separators; JavaScript engines built on other Unicode versions may differ.
- Number limits. `Math.max(...ids)` at `src/App.js:22` throws a RangeError once the list exceeds the engine's argument limit, and `lastId + 1` at `src/App.js:44` loses precision past 2^53. The model uses unbounded integers and lists.
