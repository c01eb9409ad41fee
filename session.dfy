/**
 * The session of App.tsx: logging in against the static credential table
 * followed by the persisted custom users, and logging out.
 *
 * The `custom_users` store is `None` when nothing is saved. The random id
 * for a matched entry without one and the login time are inputs.
 */
module Session {
  import opened Wrappers
  import opened Types

  const LoginFailed: string := "Username atau Password salah. Silakan coba lagi."

  /** A static credential as a login candidate: it has no id. */
  function FromCredential(c: Credential): StoredUser
  {
    StoredUser("", c.username, c.password, c.role)
  }

  /** The stored custom users; a missing store holds none. */
  function CustomUsers(store: Option<seq<StoredUser>>): seq<StoredUser>
  {
    if store.Some? then store.value else []
  }

  /** The credentials a login is checked against: the static table, then the custom users. */
  function Candidates(table: seq<Credential>, store: Option<seq<StoredUser>>): (c: seq<StoredUser>)
    ensures |c| == |table| + |CustomUsers(store)|
    ensures forall i :: 0 <= i < |table| ==> c[i] == FromCredential(table[i])
    ensures forall j :: 0 <= j < |CustomUsers(store)| ==> c[|table| + j] == CustomUsers(store)[j]
  {
    seq(|table|, i requires 0 <= i < |table| => FromCredential(table[i])) + CustomUsers(store)
  }

  predicate Matches(c: StoredUser, username: string, password: string)
  {
    c.username == username && c.password == password
  }

  /** The index of the first candidate at or after k whose username and password both match exactly. */
  function FirstMatchFrom(cands: seq<StoredUser>, username: string, password: string, k: nat): (m: Option<nat>)
    requires k <= |cands|
    ensures m.Some? ==> (k <= m.value < |cands| && Matches(cands[m.value], username, password)
      && forall j :: k <= j < m.value ==> !Matches(cands[j], username, password))
    ensures m.None? ==> forall j :: k <= j < |cands| ==> !Matches(cands[j], username, password)
    decreases |cands| - k
  {
    if k == |cands| then None
    else if Matches(cands[k], username, password) then Some(k)
    else FirstMatchFrom(cands, username, password, k + 1)
  }

  /** `find`: the first matching candidate, if any. */
  function FirstMatch(cands: seq<StoredUser>, username: string, password: string): (m: Option<nat>)
    ensures m.Some? ==> (m.value < |cands| && Matches(cands[m.value], username, password)
      && forall j :: 0 <= j < m.value ==> !Matches(cands[j], username, password))
    ensures m.None? ==> forall j :: 0 <= j < |cands| ==> !Matches(cands[j], username, password)
  {
    FirstMatchFrom(cands, username, password, 0)
  }

  /** The session user made from a matched candidate: its id if it has one, else the fresh id. */
  function SessionUser(c: StoredUser, freshId: string, now: string): (u: User)
    ensures u.username == c.username && u.role == c.role && u.lastLogin == now
    ensures u.id == (if c.id != "" then c.id else freshId)
  {
    User(if c.id != "" then c.id else freshId, c.username, c.role, now, "")
  }

  /**
   * A login succeeds exactly when a static credential or a stored custom
   * user has both the username and the password typed in.
   */
  lemma LoginSucceedsIff(table: seq<Credential>, store: Option<seq<StoredUser>>, username: string, password: string)
    ensures FirstMatch(Candidates(table, store), username, password).Some? <==>
      ((exists i :: 0 <= i < |table| && table[i].username == username && table[i].password == password)
       || (exists j :: 0 <= j < |CustomUsers(store)| && Matches(CustomUsers(store)[j], username, password)))
  {
    var cands := Candidates(table, store);
    var m := FirstMatch(cands, username, password);
    if m.Some? {
      var i := m.value;
      if i < |table| {
        assert table[i].username == username && table[i].password == password;
      } else {
        assert Matches(CustomUsers(store)[i - |table|], username, password);
      }
    }
    forall i | 0 <= i < |table| && table[i].username == username && table[i].password == password
      ensures m.Some?
    {
      assert Matches(cands[i], username, password);
    }
    forall j | 0 <= j < |CustomUsers(store)| && Matches(CustomUsers(store)[j], username, password)
      ensures m.Some?
    {
      assert Matches(cands[|table| + j], username, password);
    }
  }

  /**
   * The static table shadows the store: when a static credential matches,
   * the login takes the first such one, whatever the store holds.
   */
  lemma StaticShadowsCustom(table: seq<Credential>, store: Option<seq<StoredUser>>, username: string, password: string, i: nat)
    requires i < |table| && table[i].username == username && table[i].password == password
    ensures var m := FirstMatch(Candidates(table, store), username, password);
      && m.Some? && m.value <= i
      && Candidates(table, store)[m.value] == FromCredential(table[m.value])
      && FirstMatch(Candidates(table, store), username, password) == FirstMatch(Candidates(table, None), username, password)
  {
    var cands := Candidates(table, store);
    var bare := Candidates(table, None);
    assert Matches(cands[i], username, password);
    assert Matches(bare[i], username, password);
    var m := FirstMatch(cands, username, password);
    var n := FirstMatch(bare, username, password);
    assert m.value < |table| && n.value < |table|;
    assert cands[n.value] == bare[n.value];
    assert cands[m.value] == bare[m.value];
  }

  /** The login screen's state. */
  class App {
    var view: AppView
    var user: Option<User>
    var formUsername: string
    var formPassword: string
    var loginError: string

    constructor ()
      ensures view == LoginView && user == None && formUsername == "" && formPassword == "" && loginError == ""
    {
      view := LoginView;
      user := None;
      formUsername := "";
      formPassword := "";
      loginError := "";
    }

    /**
     * handleLogin: the first candidate matching the form logs in and the
     * dashboard opens; with no match only the error message is set.
     */
    method HandleLogin(table: seq<Credential>, store: Option<seq<StoredUser>>, freshId: string, now: string)
      modifies this
      ensures var cands := Candidates(table, store);
        var m := FirstMatch(cands, old(formUsername), old(formPassword));
        && (m.Some? ==> user == Some(SessionUser(cands[m.value], freshId, now)) && view == DashboardView && loginError == "")
        && (m.None? ==> user == old(user) && view == old(view) && loginError == LoginFailed)
      ensures formUsername == old(formUsername) && formPassword == old(formPassword)
    {
      var allValidCredentials := Candidates(table, store);
      var matchedUser := FirstMatch(allValidCredentials, formUsername, formPassword);
      if matchedUser.Some? {
        user := Some(SessionUser(allValidCredentials[matchedUser.value], freshId, now));
        view := DashboardView;
        loginError := "";
      } else {
        loginError := LoginFailed;
      }
    }

    /** handleLogout: no user, the login view and an empty form. */
    method HandleLogout()
      modifies this
      ensures user == None && view == LoginView && formUsername == "" && formPassword == ""
      ensures loginError == old(loginError)
    {
      user := None;
      view := LoginView;
      formUsername := "";
      formPassword := "";
    }
  }
}
