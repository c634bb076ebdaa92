/** The provisioning script that adds the hard-coded account
    'Faruk.khan@bga-bd.com' (capital F). */
module NewUserScript {
  import opened UserList
  import opened UserManagement
  import AddUserScript

  /** The hard-coded account, its username doubling as e-mail. */
  const NewUser: User := User("Faruk.khan@bga-bd.com", "1234", false, "Faruk.khan@bga-bd.com")

  /** The list the script leaves behind: earlier entries are unchanged, the
      name is present, and when it was missing the list grows by exactly the
      hard-coded record. */
  function AfterScript(users: seq<User>): (r: seq<User>)
    ensures |users| <= |r| && r[..|users|] == users
    ensures HasUsername(r, "Faruk.khan@bga-bd.com")
    ensures HasUsername(users, "Faruk.khan@bga-bd.com") ==> r == users
    ensures !HasUsername(users, "Faruk.khan@bga-bd.com") ==>
      |r| == |users| + 1 && r[|users|] == User("Faruk.khan@bga-bd.com", "1234", false, "Faruk.khan@bga-bd.com")
  {
    AddIfAbsent(users, NewUser)
  }

  /** addNewUser(): an existing 'Faruk.khan@bga-bd.com' leaves the store
      untouched; otherwise exactly the hard-coded record is appended. */
  method AddNewUser(store: UserStore)
    modifies store
    ensures HasUsername(old(store.Users()), NewUser.username) ==> store.users == old(store.users)
    ensures !HasUsername(old(store.Users()), NewUser.username) ==> store.users == Some(old(store.Users()) + [NewUser])
    ensures store.Users() == AfterScript(old(store.Users()))
    ensures store.currentUser == old(store.currentUser)
  {
    var _ := store.PushIfAbsent("Faruk.khan@bga-bd.com", "1234", false, "Faruk.khan@bga-bd.com");
  }

  /** Usernames stay unique through the script. */
  lemma ScriptKeepsUnique(users: seq<User>)
    requires UniqueUsernames(users)
    ensures UniqueUsernames(AfterScript(users))
  {
  }

  /** Running the script twice is the same as running it once. */
  lemma ScriptIdempotent(users: seq<User>)
    ensures AfterScript(AfterScript(users)) == AfterScript(users)
  {
  }

  /** The duplicate check is case-sensitive: after the other script has added
      'faruk.khan@bga-bd.com' to an empty store, this one still appends
      'Faruk.khan@bga-bd.com', leaving two accounts for the same address. */
  lemma CaseSensitiveDuplicate()
    ensures var r := AfterScript(AddUserScript.AfterScript([]));
      && |r| == 3
      && HasUsername(r, "faruk.khan@bga-bd.com")
      && HasUsername(r, "Faruk.khan@bga-bd.com")
  {
  }
}
