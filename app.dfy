/**
 * The `App` component's state and its event handlers, without React and
 * the DOM. Each handler is one atomic transition of the four state
 * variables; `storage` stands for the browser-local snapshot under the key
 * `users`, which the component rewrites whenever `users` is set.
 */
module App {
  import opened Users

  class Store {
    var users: seq<User>
    var lastId: int
    var formData: FormData
    var editingUser: Option<User>
    /** The persisted snapshot: `None` when nothing is stored, the parsed list otherwise. */
    var storage: Option<seq<User>>

    /** Every id occurs once and none exceeds the counter. */
    predicate IdsConsistent()
      reads this
    {
      UniqueIds(users) && IdsAtMost(users, lastId)
    }

    /** The snapshot holds exactly the collection. */
    predicate Synced()
      reads this
    {
      storage == Some(users)
    }

    /** The component's initial state, with whatever the browser has stored. */
    constructor (stored: Option<seq<User>>)
      ensures users == [] && lastId == 0 && formData == EmptyForm() && editingUser == None
      ensures storage == stored
      ensures IdsConsistent()
    {
      users := [];
      lastId := 0;
      formData := EmptyForm();
      editingUser := None;
      storage := stored;
    }

    /**
     * The mount effect: adopt a stored snapshot and set the counter to its
     * largest id. An absent snapshot keeps the collection, and an empty one
     * keeps the counter. Either way the snapshot ends up equal to the collection.
     */
    method Load()
      modifies this`users, this`lastId, this`storage
      ensures users == if old(storage).Some? then old(storage).value else old(users)
      ensures lastId == if old(storage).Some? && |old(storage).value| > 0 then MaxId(old(storage).value) else old(lastId)
      ensures Synced()
      ensures old(storage).Some? && |old(storage).value| > 0 ==> !HasId(users, lastId + 1)
      ensures (if old(storage).Some? then UniqueIds(old(storage).value) else old(IdsConsistent())) ==> IdsConsistent()
    {
      if storage.Some? {
        var parsed := storage.value;
        users := parsed;
        if |parsed| > 0 {
          lastId := MaxId(parsed);
        }
      }
      storage := Some(users);
    }

    /** `handleChange`: one input's value goes into the buffer. */
    method HandleChange(field: Field, value: string)
      modifies this`formData
      ensures formData == WithField(old(formData), field, value)
    {
      formData := WithField(formData, field, value);
    }

    /**
     * `handleAddUser`, reachable only from the "Add User" button, which is
     * shown while no record is being edited. A complete buffer is appended
     * under the next id (unless the buffer still carries an id of its own)
     * and cleared; an incomplete one changes nothing.
     */
    method HandleAddUser()
      requires editingUser == None
      modifies this`users, this`lastId, this`formData, this`storage
      ensures IsComplete(old(formData)) ==>
        && users == old(users) + [ToUser(old(formData), old(lastId) + 1)]
        && lastId == old(lastId) + 1
        && formData == EmptyForm()
        && Synced()
      ensures !IsComplete(old(formData)) ==>
        users == old(users) && lastId == old(lastId) && formData == old(formData) && storage == old(storage)
      ensures old(formData).id == None && old(IdsConsistent()) ==> IdsConsistent()
    {
      if IsComplete(formData) {
        var newId := lastId + 1;
        var newUser := ToUser(formData, newId);
        if formData.id == None && IdsConsistent() {
          AddKeepsIdsFresh(users, lastId, formData);
        }
        users := users + [newUser];
        formData := EmptyForm();
        lastId := newId;
        storage := Some(users);
      }
    }

    /** `handleEditUser`: enter edit mode on `user` and load it, id included, into the buffer. */
    method HandleEditUser(user: User)
      modifies this`editingUser, this`formData
      ensures editingUser == Some(user)
      ensures formData == FormOf(user) && formData.id == Some(user.id)
    {
      editingUser := Some(user);
      formData := FormOf(user);
    }

    /**
     * `handleSaveEdit`, reachable only from the "Save Edit" button, shown in
     * edit mode. Every record whose id equals the buffer's is overwritten by
     * the buffer, without any emptiness check; then the buffer is cleared and
     * edit mode left.
     */
    method HandleSaveEdit()
      requires editingUser.Some?
      modifies this`users, this`formData, this`editingUser, this`storage
      ensures users == match old(formData).id
        case Some(k) => ReplaceById(old(users), k, ToUser(old(formData), k))
        case None => old(users)
      ensures |users| == |old(users)|
      ensures formData == EmptyForm() && editingUser == None
      ensures Synced()
      ensures old(IdsConsistent()) ==> IdsConsistent()
    {
      match formData.id {
        case Some(k) =>
          var edited := ToUser(formData, k);
          if IdsConsistent() {
            ReplaceKeepsIds(users, k, edited, lastId);
          }
          users := ReplaceById(users, k, edited);
        case None =>
      }
      formData := EmptyForm();
      editingUser := None;
      storage := Some(users);
    }

    /**
     * `handleDeleteUser`: drop every record with this id and leave edit mode,
     * whichever record was being edited. The buffer is not cleared.
     */
    method HandleDeleteUser(id: int)
      modifies this`users, this`editingUser, this`storage
      ensures users == RemoveById(old(users), id)
      ensures !HasId(users, id)
      ensures !HasId(old(users), id) ==> users == old(users)
      ensures editingUser == None
      ensures Synced()
      ensures old(IdsConsistent()) ==> IdsConsistent()
    {
      if IdsConsistent() {
        RemoveKeepsUniqueIds(users, id);
        RemoveKeepsIdsAtMost(users, id, lastId);
      }
      RemoveByIdRemovesAll(users, id);
      if !HasId(users, id) {
        RemoveByIdAbsent(users, id);
      }
      users := RemoveById(users, id);
      editingUser := None;
      storage := Some(users);
    }
  }
}
