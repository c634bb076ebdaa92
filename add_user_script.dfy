/** The provisioning script that adds 'faruk.khan@bga-bd.com' and then
    'anwarhossain' with two sequential calls on the same stored list. */
module AddUserScript {
  import opened UserList
  import opened UserManagement
  import AnwarhossainScript

  /** addNewUser, as this script defines it: the same add-if-absent with the
      username as e-mail, `isAdmin` defaulting to false. */
  method AddNewUser(store: UserStore, username: string, password: string, isAdmin: bool := false)
    returns (added: bool)
    modifies store
    ensures added <==> !HasUsername(old(store.Users()), username)
    ensures !added ==> store.users == old(store.users)
    ensures added ==> store.users == Some(old(store.Users()) + [User(username, password, isAdmin, username)])
    ensures UniqueUsernames(old(store.Users())) ==> UniqueUsernames(store.Users())
    ensures store.currentUser == old(store.currentUser)
  {
    added := store.PushIfAbsent(username, password, isAdmin, username);
  }

  const Faruk: User := User("faruk.khan@bga-bd.com", "1234", false, "faruk.khan@bga-bd.com")
  /** The second call adds the same record as the other script. */
  const Anwar: User := AnwarhossainScript.Anwarhossain

  /** The list the script leaves behind, the first call's result feeding the
      second: both accounts are present, the earlier entries are a prefix, and
      the missing ones are appended, `Faruk` before `Anwar`. */
  function AfterScript(users: seq<User>): (r: seq<User>)
    ensures HasUsername(r, Faruk.username) && HasUsername(r, Anwar.username)
    ensures |users| <= |r| && r[..|users|] == users
    ensures |r| == |users| + (if HasUsername(users, Faruk.username) then 0 else 1)
                          + (if HasUsername(users, Anwar.username) then 0 else 1)
    ensures r[|users|..] == (if HasUsername(users, Faruk.username) then [] else [Faruk])
                          + (if HasUsername(users, Anwar.username) then [] else [Anwar])
  {
    var mid := AddIfAbsent(users, Faruk);
    var r := AddIfAbsent(mid, Anwar);
    AddIfAbsentNames(users, Faruk);
    AddIfAbsentNames(mid, Anwar);
    assert r[..|mid|][..|users|] == r[..|users|];
    r
  }

  /** The script body: the two calls, in order. */
  method RunScript(store: UserStore)
    modifies store
    ensures store.Users() == AfterScript(old(store.Users()))
    ensures store.currentUser == old(store.currentUser)
  {
    var _ := AddNewUser(store, "faruk.khan@bga-bd.com", "1234");
    var _ := AddNewUser(store, "anwarhossain", "1234");
  }

  /** Usernames stay unique through both calls. */
  lemma ScriptKeepsUnique(users: seq<User>)
    requires UniqueUsernames(users)
    ensures UniqueUsernames(AfterScript(users))
  {
  }

  /** Swapping the two calls gives the same set of usernames. */
  lemma CallsCommute(users: seq<User>)
    ensures UsernameSet(AfterScript(users)) == UsernameSet(AddIfAbsent(AddIfAbsent(users, Anwar), Faruk))
  {
  }

  /** Running the script again changes nothing. */
  lemma ScriptRerunNoOp(users: seq<User>)
    ensures AfterScript(AfterScript(users)) == AfterScript(users)
  {
  }
}
