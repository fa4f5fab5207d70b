/**
 * Short sequences of user actions on a freshly mounted component, each
 * ending in a state stated in the postcondition. They rely on the handler
 * contracts alone: nothing here looks inside a handler.
 */
module Scenarios {
  import opened Users
  import opened App
  import opened Text

  /** Printable ASCII other than the space is not whitespace. */
  predicate Visible(s: string) {
    |s| > 0 && '!' <= s[0] <= '~'
  }

  /** A buffer whose four fields each start with a visible character passes the creation guard. */
  lemma CompleteWhenVisible(f: FormData)
    requires Visible(f.name) && Visible(f.address) && Visible(f.phoneNumber) && Visible(f.email)
    ensures IsComplete(f)
  {
    IsCompleteIffNoBlankField(f);
    forall field: Field ensures !IsBlank(FieldValue(f, field)) {
      assert !IsWhitespace(FieldValue(f, field)[0]);
    }
  }

  /** Mounting the component: initial state, then the load effect. */
  method Mount(stored: Option<seq<User>>) returns (s: Store)
    ensures fresh(s)
    ensures s.users == if stored.Some? then stored.value else []
    ensures s.lastId == if stored.Some? && |stored.value| > 0 then MaxId(stored.value) else 0
    ensures s.formData == EmptyForm() && s.editingUser == None && s.Synced()
    ensures (stored.Some? ==> UniqueIds(stored.value)) ==> s.IdsConsistent()
  {
    s := new Store(stored);
    s.Load();
  }

  /** Types `name`, `address`, `phone` and `email` into the four inputs. */
  method Fill(s: Store, name: string, address: string, phone: string, email: string)
    modifies s`formData
    ensures s.formData == FormData(name, address, phone, email, old(s.formData).id)
  {
    s.HandleChange(Name, name);
    s.HandleChange(Address, address);
    s.HandleChange(PhoneNumber, phone);
    s.HandleChange(Email, email);
  }

  /** Types four visible values and presses "Add User": the record goes in under the buffer's id if it has one, else the next id. */
  method AddRecord(s: Store, name: string, address: string, phone: string, email: string)
    requires s.editingUser == None
    requires Visible(name) && Visible(address) && Visible(phone) && Visible(email)
    modifies s
    ensures s.users == old(s.users) + [ToUser(FormData(name, address, phone, email, old(s.formData).id), old(s.lastId) + 1)]
    ensures s.lastId == old(s.lastId) + 1 && s.formData == EmptyForm() && s.editingUser == None && s.Synced()
    ensures old(s.formData).id == None && old(s.IdsConsistent()) ==> s.IdsConsistent()
  {
    Fill(s, name, address, phone, email);
    CompleteWhenVisible(s.formData);
    s.HandleAddUser();
  }

  /** Types a blank name and three other values and presses "Add User": nothing is added. */
  method AddWithBlankName(s: Store, name: string, address: string, phone: string, email: string)
    requires s.editingUser == None
    requires IsBlank(name)
    modifies s
    ensures s.users == old(s.users) && s.lastId == old(s.lastId) && s.editingUser == None
    ensures s.formData == FormData(name, address, phone, email, old(s.formData).id)
  {
    Fill(s, name, address, phone, email);
    assert !IsComplete(s.formData) by { TrimEmptyIffBlank(name); }
    s.HandleAddUser();
  }

  /**
   * Presses "Edit" on record `i`, changes one field and presses "Save Edit":
   * with unique ids, only record `i` changes, and only in that field.
   */
  method EditOneField(s: Store, i: nat, field: Field, value: string)
    requires i < |s.users| && UniqueIds(s.users)
    modifies s
    ensures s.users == old(s.users)[i := ToUser(WithField(FormOf(old(s.users)[i]), field, value), old(s.users)[i].id)]
    ensures s.lastId == old(s.lastId) && s.editingUser == None && s.formData == EmptyForm()
  {
    ghost var before := s.users;
    var u := s.users[i];
    s.HandleEditUser(u);
    s.HandleChange(field, value);
    s.HandleSaveEdit();
    forall j | 0 <= j < |before| ensures s.users[j] == before[i := ToUser(WithField(FormOf(u), field, value), u.id)][j] {
      if before[j].id == u.id {
        assert j == i;
      }
    }
  }

  /**
   * Nothing stored: the first record gets id 1, an add with an empty name
   * is rejected, editing the address keeps the id, and deleting id 1
   * empties the collection and leaves edit mode.
   */
  method CreateEditDelete() returns (s: Store)
    ensures s.users == [] && s.lastId == 1 && s.editingUser == None && s.Synced()
  {
    s := Mount(None);
    AddRecord(s, "Alice", "1 Main St", "555-1111", "a@x.com");
    var alice := User(1, "Alice", "1 Main St", "555-1111", "a@x.com");
    assert s.users == [alice];

    AddWithBlankName(s, "", "9 Elm St", "555-2222", "b@x.com");
    assert s.users == [alice] && s.lastId == 1;

    EditOneField(s, 0, Address, "2 Oak Ave");
    assert s.users == [alice.(address := "2 Oak Ave")];

    s.HandleDeleteUser(1);
  }

  /** A stored snapshot with ids 3, 7 and 2 sets the counter to 7, so the next record gets id 8. */
  method ReloadContinuesAfterMax() returns (s: Store)
    ensures s.lastId == 8 && |s.users| == 4 && s.users[3].id == 8
    ensures s.IdsConsistent() && s.Synced()
  {
    var stored := [User(3, "C", "c", "3", "c@x"), User(7, "G", "g", "7", "g@x"), User(2, "B", "b", "2", "b@x")];
    s := Mount(Some(stored));
    assert HasId(stored, 7) && s.lastId == MaxId(stored);
    assert s.lastId == 7;
    AddRecord(s, "H", "h", "8", "h@x");
  }

  /**
   * Edit the first record, delete the second, then add: the buffer still
   * holds the first record's id, so the new record reuses it.
   */
  method EditDeleteAddDuplicatesId() returns (s: Store)
    ensures |s.users| == 2 && s.users[0].id == 1 && s.users[1].id == 1
    ensures !UniqueIds(s.users)
  {
    s := Mount(None);
    AddRecord(s, "Ann", "1 Elm", "555", "ann@x");
    AddRecord(s, "Bob", "2 Elm", "556", "bob@x");
    assert s.users[0].id == 1 && s.users[1].id == 2;

    s.HandleEditUser(s.users[0]);
    s.HandleDeleteUser(2);
    assert s.users == [User(1, "Ann", "1 Elm", "555", "ann@x")];
    assert s.formData.id == Some(1) && s.editingUser == None;
    AddRecord(s, "Ann", "1 Elm", "555", "ann@x");
  }

  /**
   * The counter is not stored: after deleting the record with the largest
   * id and reloading, the counter is the largest surviving id, so the next
   * record reuses the deleted id.
   */
  method ReloadAfterDeleteReusesId() returns (s: Store)
    ensures |s.users| == 2 && s.users[0].id == 1 && s.users[1].id == 2 && s.lastId == 2
  {
    s := Mount(None);
    AddRecord(s, "Ann", "1 Elm", "555", "ann@x");
    AddRecord(s, "Bob", "2 Elm", "556", "bob@x");
    assert s.users[0].id == 1 && s.users[1].id == 2;
    s.HandleDeleteUser(2);
    assert s.users == [User(1, "Ann", "1 Elm", "555", "ann@x")];
    s := Mount(s.storage);
    assert s.lastId == 1;
    AddRecord(s, "Cy", "3 Elm", "557", "cy@x");
  }
}
