/** The provisioning script that adds the account 'anwarhossain'. */
module AnwarhossainScript {
  import opened UserList
  import opened UserManagement

  /** addNewUser: refuses a username already present (and writes nothing);
      otherwise appends the account with the username as its e-mail.
      `isAdmin` defaults to false. */
  method AddNewUser(store: UserStore, username: string, password: string, isAdmin: bool := false)
    returns (added: bool)
    modifies store
    ensures added <==> !HasUsername(old(store.Users()), username)
    ensures !added ==> store.users == old(store.users)
    ensures added ==> store.users == Some(old(store.Users()) + [User(username, password, isAdmin, username)])
    ensures UniqueUsernames(old(store.Users())) ==> UniqueUsernames(store.Users())
    ensures store.currentUser == old(store.currentUser)
  {
    added := store.PushIfAbsent(username, password, isAdmin, username);
  }

  /** The record the script's single call adds (the omitted isAdmin is false). */
  const Anwarhossain: User := User("anwarhossain", "1234", false, "anwarhossain")

  /** The list the script leaves behind: 'anwarhossain' is present, earlier
      entries are unchanged, and when it was missing exactly the non-admin
      record with the username as e-mail is appended. */
  function AfterScript(users: seq<User>): (r: seq<User>)
    ensures HasUsername(r, "anwarhossain")
    ensures |users| <= |r| && r[..|users|] == users
    ensures HasUsername(users, "anwarhossain") ==> r == users
    ensures !HasUsername(users, "anwarhossain") ==>
      |r| == |users| + 1 && r[|users|] == User("anwarhossain", "1234", false, "anwarhossain")
  {
    AddIfAbsent(users, Anwarhossain)
  }

  /** The script body: one call with the default isAdmin. */
  method RunScript(store: UserStore)
    modifies store
    ensures store.Users() == AfterScript(old(store.Users()))
    ensures store.currentUser == old(store.currentUser)
  {
    var _ := AddNewUser(store, "anwarhossain", "1234");
  }

  /** Usernames stay unique through the script. */
  lemma ScriptKeepsUnique(users: seq<User>)
    requires UniqueUsernames(users)
    ensures UniqueUsernames(AfterScript(users))
  {
  }

  /** Running the script twice leaves the same list as running it once. */
  lemma ScriptIdempotent(users: seq<User>)
    ensures AfterScript(AfterScript(users)) == AfterScript(users)
  {
  }
}
