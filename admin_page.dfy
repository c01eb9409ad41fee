/**
 * The user administration of components/AdminPage.tsx: the on-screen
 * `users` table, the persisted `custom_users` store (`None` while nothing
 * was ever saved), the per-id password visibility flags, and the handlers
 * that load, add, update and delete users.
 *
 * The `Date.now()` id of a new user and the answer to the confirmation
 * dialog are inputs; the toast is left out.
 */
module Admin {
  import opened Wrappers
  import opened Text
  import opened Types
  import opened Session

  const FirstLastLogin: string := "2023-11-20 08:30"
  const NoLogin: string := "-"

  function UserId(u: User): string { u.id }
  function StoredId(s: StoredUser): string { s.id }

  /** The id a static credential gets in the table: `static-{index}`. */
  function StaticId(i: nat): string
  {
    "static-" + Decimal(i)
  }

  /** Two static rows never share an id. */
  lemma StaticIdsDistinct(i: nat, j: nat)
    requires i != j
    ensures StaticId(i) != StaticId(j)
  {
    DecimalInjective(i, j);
    assert StaticId(i)[7..] == Decimal(i);
    assert StaticId(j)[7..] == Decimal(j);
  }

  /** The row of a stored custom user: it has never logged in. */
  function CustomRow(s: StoredUser): User
  {
    User(s.id, s.username, s.role, NoLogin, s.password)
  }

  function StaticRows(table: seq<Credential>): (us: seq<User>)
    ensures |us| == |table|
    ensures forall i :: 0 <= i < |table| ==> us[i].id == StaticId(i)
  {
    seq(|table|, i requires 0 <= i < |table| =>
      User(StaticId(i), table[i].username, table[i].role, if i == 0 then FirstLastLogin else NoLogin, table[i].password))
  }

  /** The rows of the stored custom users, in store order. */
  function CustomRows(ss: seq<StoredUser>): (us: seq<User>)
    ensures |us| == |ss|
    ensures forall j :: 0 <= j < |ss| ==> us[j] == CustomRow(ss[j])
  {
    if ss == [] then [] else [CustomRow(ss[0])] + CustomRows(ss[1..])
  }

  /**
   * loadUsers: the static credentials first, as `static-{index}` rows whose
   * first one carries a fixed last-login time, then the stored custom users.
   */
  function LoadedUsers(table: seq<Credential>, store: Option<seq<StoredUser>>): (us: seq<User>)
    ensures |us| == |table| + |CustomUsers(store)|
    ensures forall i :: 0 <= i < |table| ==>
      && us[i].id == StaticId(i)
      && us[i].username == table[i].username && us[i].role == table[i].role
      && us[i].password == table[i].password
      && us[i].lastLogin == (if i == 0 then FirstLastLogin else NoLogin)
    ensures forall j :: 0 <= j < |CustomUsers(store)| ==>
      var s := CustomUsers(store)[j];
      us[|table| + j] == User(s.id, s.username, s.role, NoLogin, s.password)
  {
    StaticRows(table) + CustomRows(CustomUsers(store))
  }

  /** `filter(x => key(x) !== id)`. */
  function RemoveId<T>(xs: seq<T>, key: T -> string, id: string): (r: seq<T>)
    ensures |r| <= |xs|
    ensures forall i :: 0 <= i < |r| ==> r[i] in xs && key(r[i]) != id
    ensures forall i :: 0 <= i < |xs| && key(xs[i]) != id ==> xs[i] in r
  {
    if xs == [] then []
    else (if key(xs[0]) == id then [] else [xs[0]]) + RemoveId(xs[1..], key, id)
  }

  /** Removal works piecewise, so the survivors keep their relative order. */
  lemma {:induction false} RemoveIdAppend<T>(a: seq<T>, b: seq<T>, key: T -> string, id: string)
    ensures RemoveId(a + b, key, id) == RemoveId(a, key, id) + RemoveId(b, key, id)
  {
    if a == [] {
      assert a + b == b;
    } else {
      assert (a + b)[0] == a[0];
      assert (a + b)[1..] == a[1..] + b;
      RemoveIdAppend(a[1..], b, key, id);
    }
  }

  /** Removing an id nobody has changes nothing. */
  lemma {:induction false} RemoveIdAbsent<T>(xs: seq<T>, key: T -> string, id: string)
    requires forall i :: 0 <= i < |xs| ==> key(xs[i]) != id
    ensures RemoveId(xs, key, id) == xs
  {
    if xs != [] {
      RemoveIdAbsent(xs[1..], key, id);
    }
  }

  /** Deleting the same id twice is deleting it once. */
  lemma RemoveIdTwice<T>(xs: seq<T>, key: T -> string, id: string)
    ensures RemoveId(RemoveId(xs, key, id), key, id) == RemoveId(xs, key, id)
  {
    RemoveIdAbsent(RemoveId(xs, key, id), key, id);
  }

  /** `users.map(u => u.id === e.id ? e : u)`. */
  function ReplaceUser(us: seq<User>, e: User): (r: seq<User>)
    ensures |r| == |us|
    ensures forall i :: 0 <= i < |us| ==> r[i] == (if us[i].id == e.id then e else us[i])
  {
    if us == [] then [] else [if us[0].id == e.id then e else us[0]] + ReplaceUser(us[1..], e)
  }

  /** The stored entry after an edit: the new role, and the new password unless it was left blank. */
  function Amended(s: StoredUser, e: User): StoredUser
  {
    StoredUser(s.id, s.username, if e.password != "" then e.password else s.password, e.role)
  }

  /** The store's `map` in handleUpdateUser. */
  function AmendStored(ss: seq<StoredUser>, e: User): (r: seq<StoredUser>)
    ensures |r| == |ss|
    ensures forall j :: 0 <= j < |ss| ==> r[j].id == ss[j].id && r[j].username == ss[j].username
    ensures forall j :: 0 <= j < |ss| && ss[j].id == e.id ==>
      r[j].role == e.role && r[j].password == (if e.password != "" then e.password else ss[j].password)
    ensures forall j :: 0 <= j < |ss| && ss[j].id != e.id ==> r[j] == ss[j]
  {
    if ss == [] then [] else [if ss[0].id == e.id then Amended(ss[0], e) else ss[0]] + AmendStored(ss[1..], e)
  }

  /** The store after deleting an id: only an existing store is rewritten. */
  function StoreWithout(store: Option<seq<StoredUser>>, id: string): Option<seq<StoredUser>>
  {
    if store.Some? then Some(RemoveId(store.value, StoredId, id)) else None
  }

  /** The store after an edit: only an existing store is rewritten. */
  function StoreAmended(store: Option<seq<StoredUser>>, e: User): Option<seq<StoredUser>>
  {
    if store.Some? then Some(AmendStored(store.value, e)) else None
  }

  /** `!prev[id]`: an id with no entry counts as hidden. */
  predicate Visible(flags: map<string, bool>, id: string)
  {
    id in flags && flags[id]
  }

  /** togglePasswordVisibility's new flags. */
  function Toggled(flags: map<string, bool>, id: string): (r: map<string, bool>)
    ensures Visible(r, id) == !Visible(flags, id)
    ensures forall k :: k != id ==> Visible(r, k) == Visible(flags, k)
  {
    flags[id := !Visible(flags, id)]
  }

  /** Toggling the same id twice shows exactly what was shown before. */
  lemma ToggleTwice(flags: map<string, bool>, id: string, k: string)
    ensures Visible(Toggled(Toggled(flags, id), id), k) == Visible(flags, k)
  {
  }

  lemma {:induction false} CustomRowsAppend(ss: seq<StoredUser>, o: StoredUser)
    ensures CustomRows(ss + [o]) == CustomRows(ss) + [CustomRow(o)]
  {
    var l := CustomRows(ss + [o]);
    var r := CustomRows(ss) + [CustomRow(o)];
    assert |l| == |r|;
    forall j | 0 <= j < |l|
      ensures l[j] == r[j]
    {
      if j < |ss| {
        assert (ss + [o])[j] == ss[j];
      }
    }
  }

  lemma {:induction false} CustomRowsRemove(ss: seq<StoredUser>, id: string)
    ensures CustomRows(RemoveId(ss, StoredId, id)) == RemoveId(CustomRows(ss), UserId, id)
  {
    if ss != [] {
      var rows := CustomRows(ss);
      assert rows == [CustomRow(ss[0])] + CustomRows(ss[1..]);
      var head := if ss[0].id == id then [] else [ss[0]];
      assert RemoveId(ss, StoredId, id) == head + RemoveId(ss[1..], StoredId, id);
      CustomRowsRemove(ss[1..], id);
      assert CustomRows(head + RemoveId(ss[1..], StoredId, id))
          == CustomRows(head) + CustomRows(RemoveId(ss[1..], StoredId, id)) by {
        if head != [] {
          var t := head + RemoveId(ss[1..], StoredId, id);
          assert t[0] == ss[0];
          assert t[1..] == RemoveId(ss[1..], StoredId, id);
        }
      }
      RemoveIdAppend([CustomRow(ss[0])], CustomRows(ss[1..]), UserId, id);
    }
  }

  /** Reloading after an add shows what the add appended on screen. */
  lemma LoadAfterAdd(table: seq<Credential>, store: Option<seq<StoredUser>>, o: StoredUser)
    ensures LoadedUsers(table, Some(CustomUsers(store) + [o])) == LoadedUsers(table, store) + [CustomRow(o)]
  {
    CustomRowsAppend(CustomUsers(store), o);
  }

  /** No row of the credential table has this id. */
  predicate NotStatic(table: seq<Credential>, id: string)
  {
    forall i :: 0 <= i < |table| ==> id != StaticId(i)
  }

  /** Reloading after deleting a custom user's id shows what the delete left on screen. */
  lemma LoadAfterDelete(table: seq<Credential>, store: Option<seq<StoredUser>>, id: string)
    requires NotStatic(table, id)
    ensures LoadedUsers(table, StoreWithout(store, id)) == RemoveId(LoadedUsers(table, store), UserId, id)
  {
    var st := StaticRows(table);
    RemoveIdAppend(st, CustomRows(CustomUsers(store)), UserId, id);
    RemoveIdAbsent(st, UserId, id);
    CustomRowsRemove(CustomUsers(store), id);
  }

  /**
   * Deleting a static user only hides its row: the credential table is not
   * touched, so the next load lists the same row again.
   */
  lemma DeletedStaticUserReappears(table: seq<Credential>, store: Option<seq<StoredUser>>, i: nat)
    requires i < |table|
    ensures var shown := RemoveId(LoadedUsers(table, store), UserId, StaticId(i));
      forall k :: 0 <= k < |shown| ==> shown[k].id != StaticId(i)
    ensures var reloaded := LoadedUsers(table, StoreWithout(store, StaticId(i)));
      reloaded[i].id == StaticId(i) && reloaded[i].username == table[i].username
      && reloaded[i].password == table[i].password
  {
  }

  /**
   * After an edit that sets a non-blank password on a stored user, that
   * user logs in with the new password.
   */
  lemma UpdatedPasswordLogsIn(table: seq<Credential>, ss: seq<StoredUser>, e: User, j: nat)
    requires j < |ss| && ss[j].id == e.id && e.password != ""
    ensures FirstMatch(Candidates(table, Some(AmendStored(ss, e))), ss[j].username, e.password).Some?
  {
    var cands := Candidates(table, Some(AmendStored(ss, e)));
    assert Matches(cands[|table| + j], ss[j].username, e.password);
  }

  /**
   * An edit that leaves the password blank keeps the stored password, while
   * the on-screen row takes the edited user with its blank password.
   */
  lemma BlankPasswordKeptInStore(users: seq<User>, ss: seq<StoredUser>, e: User, i: nat, j: nat)
    requires e.password == ""
    requires i < |users| && users[i].id == e.id && j < |ss| && ss[j].id == e.id
    ensures AmendStored(ss, e)[j].password == ss[j].password
    ensures ReplaceUser(users, e)[i].password == ""
  {
  }

  /** The admin page's state. */
  class AdminPage {
    var users: seq<User>
    var store: Option<seq<StoredUser>>
    var showPasswords: map<string, bool>
    var newUsername: string
    var newPassword: string
    var newRole: Role
    var editingUser: Option<User>
    var addModalOpen: bool
    var editModalOpen: bool

    constructor (saved: Option<seq<StoredUser>>)
      ensures users == [] && store == saved && showPasswords == map[]
      ensures newUsername == "" && newPassword == "" && newRole == UserRole
      ensures editingUser == None && !addModalOpen && !editModalOpen
    {
      users := [];
      store := saved;
      showPasswords := map[];
      newUsername := "";
      newPassword := "";
      newRole := UserRole;
      editingUser := None;
      addModalOpen := false;
      editModalOpen := false;
    }

    /** The on-screen table lists exactly what a load of the store would. */
    predicate ShowsStore(table: seq<Credential>)
      reads this
    {
      users == LoadedUsers(table, store)
    }

    /** loadUsers, run on mount. */
    method LoadUsers(table: seq<Credential>)
      modifies this
      ensures users == LoadedUsers(table, store) && ShowsStore(table)
      ensures store == old(store) && showPasswords == old(showPasswords)
      ensures newUsername == old(newUsername) && newPassword == old(newPassword) && newRole == old(newRole)
      ensures editingUser == old(editingUser) && addModalOpen == old(addModalOpen) && editModalOpen == old(editModalOpen)
    {
      users := LoadedUsers(table, store);
    }

    /**
     * handleAddUser: with both fields filled, one entry is appended to the
     * store and one row to the table, the form is reset and the modal closes.
     */
    method HandleAddUser(newId: string, ghost table: seq<Credential>)
      modifies this
      ensures old(newUsername) == "" || old(newPassword) == "" ==>
        && users == old(users) && store == old(store)
        && newUsername == old(newUsername) && newPassword == old(newPassword) && newRole == old(newRole)
        && addModalOpen == old(addModalOpen)
      ensures old(newUsername) != "" && old(newPassword) != "" ==>
        && store == Some(CustomUsers(old(store)) + [StoredUser(newId, old(newUsername), old(newPassword), old(newRole))])
        && users == old(users) + [User(newId, old(newUsername), old(newRole), NoLogin, old(newPassword))]
        && newUsername == "" && newPassword == "" && newRole == UserRole
        && !addModalOpen
      ensures old(ShowsStore(table)) ==> ShowsStore(table)
      ensures showPasswords == old(showPasswords) && editingUser == old(editingUser) && editModalOpen == old(editModalOpen)
    {
      if newUsername == "" || newPassword == "" {
        return;
      }
      var userObject := StoredUser(newId, newUsername, newPassword, newRole);
      LoadAfterAdd(table, store, userObject);
      store := Some(CustomUsers(store) + [userObject]);
      users := users + [CustomRow(userObject)];
      newUsername := "";
      newPassword := "";
      newRole := UserRole;
      addModalOpen := false;
    }

    /** openEditModal: edit a copy of the row. */
    method OpenEditModal(u: User)
      modifies this
      ensures editingUser == Some(u) && editModalOpen
      ensures users == old(users) && store == old(store) && showPasswords == old(showPasswords)
      ensures newUsername == old(newUsername) && newPassword == old(newPassword) && newRole == old(newRole)
      ensures addModalOpen == old(addModalOpen)
    {
      editingUser := Some(u);
      editModalOpen := true;
    }

    /**
     * handleUpdateUser: every row with the edited id becomes the edited
     * user; an existing store gets the new role and, unless left blank, the
     * new password; the modal closes.
     */
    method HandleUpdateUser()
      modifies this
      ensures old(editingUser).None? ==>
        users == old(users) && store == old(store) && editingUser == old(editingUser) && editModalOpen == old(editModalOpen)
      ensures old(editingUser).Some? ==>
        && users == ReplaceUser(old(users), old(editingUser).value)
        && store == StoreAmended(old(store), old(editingUser).value)
        && editingUser == None && !editModalOpen
      ensures showPasswords == old(showPasswords) && addModalOpen == old(addModalOpen)
      ensures newUsername == old(newUsername) && newPassword == old(newPassword) && newRole == old(newRole)
    {
      if editingUser.None? {
        return;
      }
      var e := editingUser.value;
      users := ReplaceUser(users, e);
      if store.Some? {
        store := Some(AmendStored(store.value, e));
      }
      editModalOpen := false;
      editingUser := None;
    }

    /** deleteUser: once confirmed, the id leaves the table and an existing store. */
    method DeleteUser(id: string, confirmed: bool, ghost table: seq<Credential>)
      modifies this
      ensures !confirmed ==> users == old(users) && store == old(store)
      ensures confirmed ==>
        users == RemoveId(old(users), UserId, id) && store == StoreWithout(old(store), id)
      ensures NotStatic(table, id) && old(ShowsStore(table)) ==> ShowsStore(table)
      ensures showPasswords == old(showPasswords) && editingUser == old(editingUser)
      ensures addModalOpen == old(addModalOpen) && editModalOpen == old(editModalOpen)
      ensures newUsername == old(newUsername) && newPassword == old(newPassword) && newRole == old(newRole)
    {
      if confirmed {
        if NotStatic(table, id) {
          LoadAfterDelete(table, store, id);
        }
        users := RemoveId(users, UserId, id);
        if store.Some? {
          store := Some(RemoveId(store.value, StoredId, id));
        }
      }
    }

    /** togglePasswordVisibility. */
    method TogglePasswordVisibility(id: string)
      modifies this
      ensures showPasswords == Toggled(old(showPasswords), id)
      ensures Visible(showPasswords, id) == !Visible(old(showPasswords), id)
      ensures users == old(users) && store == old(store) && editingUser == old(editingUser)
      ensures addModalOpen == old(addModalOpen) && editModalOpen == old(editModalOpen)
      ensures newUsername == old(newUsername) && newPassword == old(newPassword) && newRole == old(newRole)
    {
      showPasswords := Toggled(showPasswords, id);
    }
  }
}
