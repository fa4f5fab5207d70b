/**
 * The values the record manager works on (a user record, the form buffer)
 * and the pure list transformations inside its handlers: the object spread
 * that builds a new record, `map` for saving an edit, `filter` for deleting,
 * and `Math.max` over the ids when a snapshot is loaded.
 */
module Users {
  import opened Text

  datatype Option<T> = None | Some(value: T)

  /** One stored record. Ids are JavaScript numbers; the model takes them to be integers. */
  datatype User = User(id: int, name: string, address: string, phoneNumber: string, email: string)

  /** The four inputs of the form, named by their `name` attribute. */
  datatype Field = Name | Address | PhoneNumber | Email

  /**
   * The form buffer. It holds an `id` only after a record has been loaded
   * into it for editing; nothing but a save ever removes it again.
   */
  datatype FormData = FormData(name: string, address: string, phoneNumber: string, email: string, id: Option<int>)

  /** `{ name: '', address: '', phoneNumber: '', email: '' }` */
  function EmptyForm(): FormData {
    FormData("", "", "", "", None)
  }

  function FieldValue(f: FormData, field: Field): string {
    match field
    case Name => f.name
    case Address => f.address
    case PhoneNumber => f.phoneNumber
    case Email => f.email
  }

  /** `{ ...formData, [name]: value }`: the named field takes the new value and nothing else moves. */
  function WithField(f: FormData, field: Field, value: string): (g: FormData)
    ensures FieldValue(g, field) == value
    ensures forall other: Field | other != field :: FieldValue(g, other) == FieldValue(f, other)
    ensures g.id == f.id
  {
    match field
    case Name => f.(name := value)
    case Address => f.(address := value)
    case PhoneNumber => f.(phoneNumber := value)
    case Email => f.(email := value)
  }

  /** The guard of creation: every field is non-empty once trimmed. */
  predicate IsComplete(f: FormData)
    ensures IsComplete(f) ==> f.name != "" && f.address != "" && f.phoneNumber != "" && f.email != ""
  {
    && Trim(f.name) != ""
    && Trim(f.address) != ""
    && Trim(f.phoneNumber) != ""
    && Trim(f.email) != ""
  }

  /** Creation is rejected exactly when some field is blank. */
  lemma IsCompleteIffNoBlankField(f: FormData)
    ensures IsComplete(f) <==> forall field: Field :: !IsBlank(FieldValue(f, field))
  {
    TrimEmptyIffBlank(f.name);
    TrimEmptyIffBlank(f.address);
    TrimEmptyIffBlank(f.phoneNumber);
    TrimEmptyIffBlank(f.email);
    assert IsComplete(f) <==> !IsBlank(f.name) && !IsBlank(f.address) && !IsBlank(f.phoneNumber) && !IsBlank(f.email);
    EveryField(f, s => !IsBlank(s));
  }

  lemma EveryField(f: FormData, p: string -> bool)
    ensures (forall field: Field :: p(FieldValue(f, field))) <==> p(f.name) && p(f.address) && p(f.phoneNumber) && p(f.email)
  {
    if p(f.name) && p(f.address) && p(f.phoneNumber) && p(f.email) {
      forall field: Field ensures p(FieldValue(f, field)) {
        match field
        case Name =>
        case Address =>
        case PhoneNumber =>
        case Email =>
      }
    } else {
      assert !p(FieldValue(f, Name)) || !p(FieldValue(f, Address))
          || !p(FieldValue(f, PhoneNumber)) || !p(FieldValue(f, Email));
    }
  }

  /** `setFormData(user)`: the buffer becomes the record itself, id included. */
  function FormOf(u: User): (f: FormData)
    ensures f.id == Some(u.id)
    ensures forall fallbackId: int :: ToUser(f, fallbackId) == u
  {
    FormData(u.name, u.address, u.phoneNumber, u.email, Some(u.id))
  }

  /**
   * The buffer read as a record, `{ id: fallbackId, ...f }`: the spread is
   * applied after `id`, so an id left in the buffer wins over `fallbackId`.
   */
  function ToUser(f: FormData, fallbackId: int): (u: User)
    ensures f.id.Some? ==> u.id == f.id.value
    ensures f.id == None ==> u.id == fallbackId
    ensures u.name == f.name && u.address == f.address && u.phoneNumber == f.phoneNumber && u.email == f.email
  {
    User(if f.id.Some? then f.id.value else fallbackId, f.name, f.address, f.phoneNumber, f.email)
  }

  predicate HasId(users: seq<User>, k: int) {
    exists i | 0 <= i < |users| :: users[i].id == k
  }

  predicate UniqueIds(users: seq<User>) {
    forall i, j | 0 <= i < j < |users| :: users[i].id != users[j].id
  }

  predicate IdsAtMost(users: seq<User>, bound: int) {
    forall i | 0 <= i < |users| :: users[i].id <= bound
  }

  /**
   * `users.map(user => user.id === k ? u : user)`: every record with id `k`
   * becomes `u`, all others stay where they are.
   */
  function ReplaceById(users: seq<User>, k: int, u: User): (r: seq<User>)
    ensures |r| == |users|
    ensures forall i | 0 <= i < |users| :: r[i] == if users[i].id == k then u else users[i]
    ensures !HasId(users, k) ==> r == users
  {
    if users == [] then []
    else [if users[0].id == k then u else users[0]] + ReplaceById(users[1..], k, u)
  }

  /** Replacing records by one that carries the same id keeps the id column, hence uniqueness and the bound. */
  lemma ReplaceKeepsIds(users: seq<User>, k: int, u: User, bound: int)
    requires u.id == k
    ensures forall i | 0 <= i < |users| :: ReplaceById(users, k, u)[i].id == users[i].id
    ensures UniqueIds(users) ==> UniqueIds(ReplaceById(users, k, u))
    ensures IdsAtMost(users, bound) ==> IdsAtMost(ReplaceById(users, k, u), bound)
  {
  }

  /** Loading a record into the buffer and saving it untouched gives back the same collection when ids are unique. */
  lemma EditThenSaveIsIdentity(users: seq<User>, i: nat)
    requires UniqueIds(users)
    requires i < |users|
    ensures ReplaceById(users, users[i].id, ToUser(FormOf(users[i]), users[i].id)) == users
  {
  }

  /** `users.filter(user => user.id !== k)` */
  function RemoveById(users: seq<User>, k: int): (r: seq<User>)
    ensures |r| <= |users|
    ensures forall x :: x in r <==> x in users && x.id != k
  {
    if users == [] then []
    else (if users[0].id != k then [users[0]] else []) + RemoveById(users[1..], k)
  }

  /** Filtering distributes over concatenation: survivors keep their relative order. */
  lemma {:induction false} RemoveByIdAppend(a: seq<User>, b: seq<User>, k: int)
    ensures RemoveById(a + b, k) == RemoveById(a, k) + RemoveById(b, k)
  {
    if a == [] {
      assert a + b == b;
    } else {
      assert (a + b)[1..] == a[1..] + b;
      RemoveByIdAppend(a[1..], b, k);
    }
  }

  /** Deleting an id no record carries leaves the collection as it was. */
  lemma {:induction false} RemoveByIdAbsent(users: seq<User>, k: int)
    requires !HasId(users, k)
    ensures RemoveById(users, k) == users
  {
    if users != [] {
      assert !HasId(users[1..], k) by {
        forall i | 0 <= i < |users[1..]| ensures users[1..][i].id != k {
          assert users[1..][i] == users[i + 1];
        }
      }
      RemoveByIdAbsent(users[1..], k);
    }
  }

  /** After deleting `k`, no record with id `k` remains. */
  lemma RemoveByIdRemovesAll(users: seq<User>, k: int)
    ensures !HasId(RemoveById(users, k), k)
  {
  }

  /** Every record that survives a delete comes from the original collection, after its first element when it is not that element. */
  lemma SurvivorOfTail(users: seq<User>, k: int, x: User)
    requires users != [] && x in RemoveById(users[1..], k)
    ensures exists m | 1 <= m < |users| :: users[m] == x
  {
  }

  /** Deleting keeps unique ids unique. */
  lemma {:induction false} RemoveKeepsUniqueIds(users: seq<User>, k: int)
    requires UniqueIds(users)
    ensures UniqueIds(RemoveById(users, k))
  {
    if users != [] {
      assert UniqueIds(users[1..]) by {
        forall i, j | 0 <= i < j < |users[1..]| ensures users[1..][i].id != users[1..][j].id {
          assert users[1..][i] == users[i + 1] && users[1..][j] == users[j + 1];
        }
      }
      RemoveKeepsUniqueIds(users[1..], k);
      var rest := RemoveById(users[1..], k);
      forall j | 0 <= j < |rest| ensures rest[j].id != users[0].id {
        SurvivorOfTail(users, k, rest[j]);
      }
    }
  }

  /** Deleting keeps every id under the bound. */
  lemma RemoveKeepsIdsAtMost(users: seq<User>, k: int, bound: int)
    requires IdsAtMost(users, bound)
    ensures IdsAtMost(RemoveById(users, k), bound)
  {
  }

  /** `Math.max(...users.map(user => user.id))` over a non-empty list. */
  function MaxId(users: seq<User>): (m: int)
    requires |users| > 0
    ensures HasId(users, m)
    ensures IdsAtMost(users, m)
  {
    if |users| == 1 then users[0].id
    else
      var rest := MaxId(users[1..]);
      assert forall i | 1 <= i < |users| :: users[i] == users[1..][i - 1];
      if users[0].id >= rest then users[0].id else rest
  }

  /**
   * Appending a record built from a buffer that carries no id, under the
   * next counter value, keeps ids unique and bounded by the new counter.
   */
  lemma AddKeepsIdsFresh(users: seq<User>, lastId: int, f: FormData)
    requires UniqueIds(users) && IdsAtMost(users, lastId)
    requires f.id == None
    ensures ToUser(f, lastId + 1).id == lastId + 1
    ensures UniqueIds(users + [ToUser(f, lastId + 1)])
    ensures IdsAtMost(users + [ToUser(f, lastId + 1)], lastId + 1)
  {
  }

  /**
   * The spread quirk: a buffer that still carries the id of a record in the
   * collection makes the next add append a second record with that id.
   */
  lemma LeftoverIdDuplicates(users: seq<User>, lastId: int, f: FormData)
    requires f.id.Some? && HasId(users, f.id.value)
    ensures !UniqueIds(users + [ToUser(f, lastId + 1)])
  {
    var r := users + [ToUser(f, lastId + 1)];
    var i :| 0 <= i < |users| && users[i].id == f.id.value;
    assert r[i] == users[i] && r[|users|].id == f.id.value;
  }
}
