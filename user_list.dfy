/** The account list kept in the browser's localStorage under the key 'users',
    and the pure list operations that the user-management page and the
    provisioning scripts run on it. Usernames are compared exactly
    (JavaScript `===` on strings: case-sensitive, no trimming). */
module UserList {

  datatype Option<T> = None | Some(value: T)

  /** One stored account. Passwords are kept in plain text. */
  datatype User = User(username: string, password: string, isAdmin: bool, email: string)

  /** The password that a reset assigns. */
  const ResetPasswordValue: string := "1234"

  /** The set of usernames present in the list. */
  function UsernameSet(users: seq<User>): set<string>
  {
    set i | 0 <= i < |users| :: users[i].username
  }

  /** `users.some(u => u.username === name)`: the duplicate check holds exactly
      when the name is one of the stored usernames. */
  predicate HasUsername(users: seq<User>, name: string)
    ensures HasUsername(users, name) <==> name in UsernameSet(users)
  {
    exists i :: 0 <= i < |users| && users[i].username == name
  }

  /** No two entries share a username. */
  ghost predicate UniqueUsernames(users: seq<User>)
  {
    forall i, j :: 0 <= i < j < |users| ==> users[i].username != users[j].username
  }

  /** Two lists hold the same accounts except, possibly, for their passwords. */
  ghost predicate SameAccounts(a: seq<User>, b: seq<User>)
  {
    && |a| == |b|
    && forall j :: 0 <= j < |a| ==>
         a[j].username == b[j].username && a[j].isAdmin == b[j].isAdmin && a[j].email == b[j].email
  }

  /** `users.findIndex(u => u.username === name)`: the first matching position, or -1. */
  function FindIndex(users: seq<User>, name: string): (r: int)
    ensures -1 <= r < |users|
    ensures r == -1 <==> !HasUsername(users, name)
    ensures r != -1 ==> users[r].username == name
    ensures r != -1 ==> forall j :: 0 <= j < r ==> users[j].username != name
  {
    if |users| == 0 then -1
    else if users[0].username == name then 0
    else
      var k := FindIndex(users[1..], name);
      assert forall j :: 1 <= j < |users| ==> users[j] == users[1..][j - 1];
      if k == -1 then -1 else k + 1
  }

  /** The lookup depends on usernames only, so changing passwords does not move it. */
  lemma FindIndexIgnoresPasswords(a: seq<User>, b: seq<User>, name: string)
    requires SameAccounts(a, b)
    ensures FindIndex(a, name) == FindIndex(b, name)
  {
  }

  // ---------------------------------------------------------------------------
  // Add-if-absent: the duplicate check followed by `users.push(...)`

  /** The list after adding `u` unless an entry with its username already exists:
      the name is present afterwards, earlier entries keep their values and order,
      and the list grows by one, with `u` last, exactly when the name was new. */
  function AddIfAbsent(users: seq<User>, u: User): (r: seq<User>)
    ensures HasUsername(r, u.username)
    ensures |users| <= |r| && r[..|users|] == users
    ensures HasUsername(users, u.username) ==> |r| == |users|
    ensures !HasUsername(users, u.username) ==> |r| == |users| + 1 && r[|users|] == u
  {
    if HasUsername(users, u.username) then users
    else
      assert (users + [u])[|users|] == u;
      users + [u]
  }

  /** Adding changes the set of usernames by exactly the added name. */
  lemma AddIfAbsentNames(users: seq<User>, u: User)
    ensures UsernameSet(AddIfAbsent(users, u)) == UsernameSet(users) + {u.username}
  {
  }

  /** Adding never introduces a second entry for a username. */
  lemma AddIfAbsentKeepsUnique(users: seq<User>, u: User)
    requires UniqueUsernames(users)
    ensures UniqueUsernames(AddIfAbsent(users, u))
  {
  }

  /** A second add of the same username, whatever its other fields, changes nothing. */
  lemma AddIfAbsentIdempotent(users: seq<User>, u: User, again: User)
    requires again.username == u.username
    ensures AddIfAbsent(AddIfAbsent(users, u), again) == AddIfAbsent(users, u)
  {
  }

  /** Adding two accounts in either order yields the same set of usernames. */
  lemma AddIfAbsentCommutesOnNames(users: seq<User>, a: User, b: User)
    ensures UsernameSet(AddIfAbsent(AddIfAbsent(users, a), b))
         == UsernameSet(AddIfAbsent(AddIfAbsent(users, b), a))
  {
  }

  // ---------------------------------------------------------------------------
  // Password updates: `users[userIndex].password = ...`

  /** The list with only the password of entry `i` replaced. */
  function SetPassword(users: seq<User>, i: int, password: string): (r: seq<User>)
    requires 0 <= i < |users|
    ensures SameAccounts(r, users)
    ensures r[i].password == password
    ensures forall j :: 0 <= j < |r| && j != i ==> r[j] == users[j]
  {
    users[i := users[i].(password := password)]
  }

  /** Changing passwords keeps the usernames, hence their uniqueness. */
  lemma SameAccountsKeepsUnique(a: seq<User>, b: seq<User>)
    requires SameAccounts(a, b)
    ensures UniqueUsernames(a) <==> UniqueUsernames(b)
    ensures UsernameSet(a) == UsernameSet(b)
  {
  }

  /** resetUserPassword on the list: the first entry named `name` gets the
      password "1234"; every other entry and field is kept; no match, no change. */
  function ResetPassword(users: seq<User>, name: string): (r: seq<User>)
    ensures SameAccounts(r, users)
    ensures !HasUsername(users, name) ==> r == users
    ensures HasUsername(users, name) ==>
      var k := FindIndex(users, name);
      && users[k].username == name
      && r[k].password == ResetPasswordValue
      && forall j :: 0 <= j < |r| && j != k ==> r[j] == users[j]
  {
    var k := FindIndex(users, name);
    if k == -1 then users else SetPassword(users, k, ResetPasswordValue)
  }

  /** Resetting the same account twice is the same as resetting it once. */
  lemma ResetPasswordIdempotent(users: seq<User>, name: string)
    ensures ResetPassword(ResetPassword(users, name), name) == ResetPassword(users, name)
  {
  }

  // ---------------------------------------------------------------------------
  // Deletion: `users.filter(u => u.username !== name)`

  /** The entries whose username differs from `name`. The membership clause says
      which entries are kept; `WithoutConcat` adds that order and repetitions are kept. */
  function Without(users: seq<User>, name: string): (r: seq<User>)
    ensures |r| <= |users|
    ensures forall u :: u in r <==> u in users && u.username != name
    ensures !HasUsername(r, name)
  {
    if |users| == 0 then []
    else if users[0].username == name then Without(users[1..], name)
    else [users[0]] + Without(users[1..], name)
  }

  /** The filter works element by element, so it keeps the relative order:
      filtering a concatenation is the concatenation of the filtered parts. */
  lemma {:induction false} WithoutConcat(a: seq<User>, b: seq<User>, name: string)
    ensures Without(a + b, name) == Without(a, name) + Without(b, name)
  {
    if |a| == 0 {
      assert a + b == b;
    } else {
      assert (a + b)[0] == a[0];
      assert (a + b)[1..] == a[1..] + b;
      WithoutConcat(a[1..], b, name);
    }
  }

  /** Deleting a name that is absent rewrites the same list. */
  lemma {:induction false} WithoutAbsent(users: seq<User>, name: string)
    requires !HasUsername(users, name)
    ensures Without(users, name) == users
  {
    if |users| > 0 {
      assert users[0].username != name;
      assert forall j :: 0 <= j < |users| - 1 ==> users[1..][j] == users[j + 1];
      WithoutAbsent(users[1..], name);
      assert [users[0]] + users[1..] == users;
    }
  }

  /** With unique usernames, deleting a present name removes exactly one entry. */
  lemma {:induction false} WithoutRemovesOne(users: seq<User>, name: string)
    requires UniqueUsernames(users)
    requires HasUsername(users, name)
    ensures |Without(users, name)| == |users| - 1
  {
    assert forall j :: 0 <= j < |users| - 1 ==> users[1..][j] == users[j + 1];
    if users[0].username == name {
      assert !HasUsername(users[1..], name);
      WithoutAbsent(users[1..], name);
    } else {
      WithoutRemovesOne(users[1..], name);
    }
  }

  /** Deletion keeps usernames unique. */
  lemma {:induction false} WithoutKeepsUnique(users: seq<User>, name: string)
    requires UniqueUsernames(users)
    ensures UniqueUsernames(Without(users, name))
  {
    if |users| > 0 {
      var rest := users[1..];
      assert forall j :: 0 <= j < |rest| ==> rest[j] == users[j + 1];
      WithoutKeepsUnique(rest, name);
      if users[0].username != name {
        var w := Without(rest, name);
        var r := [users[0]] + w;
        forall i, j | 0 <= i < j < |r| ensures r[i].username != r[j].username {
          if i == 0 {
            assert r[j] == w[j - 1] && w[j - 1] in rest;
          } else {
            assert r[i] == w[i - 1] && r[j] == w[j - 1];
          }
        }
      }
    }
  }

  // ---------------------------------------------------------------------------
  // changePassword: the ordered chain of checks

  /** What changePassword reports; each rejection has its own message on the page. */
  datatype PasswordOutcome =
    | Changed        // 'Password changed successfully!'
    | MissingField   // 'All fields are required!'
    | Mismatch       // 'New password and confirm password do not match!'
    | NotLoggedIn    // 'You are not logged in!'
    | UserNotFound   // 'User not found!'
    | WrongPassword  // 'Current password is incorrect!'

  /** All three password fields of the form are filled in. */
  predicate AllFilled(currentPassword: string, newPassword: string, confirmPassword: string)
  {
    currentPassword != "" && newPassword != "" && confirmPassword != ""
  }

  /** The checks in the order the page makes them: each outcome is reported
      exactly when every earlier check passed and its own check decides it;
      `Changed` exactly when all five pass. */
  function CheckPasswordChange(users: seq<User>, current: Option<User>,
                               currentPassword: string, newPassword: string,
                               confirmPassword: string): (r: PasswordOutcome)
    ensures r == MissingField <==> !AllFilled(currentPassword, newPassword, confirmPassword)
    ensures r == Mismatch <==>
      AllFilled(currentPassword, newPassword, confirmPassword) && newPassword != confirmPassword
    ensures r == NotLoggedIn <==>
      AllFilled(currentPassword, newPassword, confirmPassword) && newPassword == confirmPassword
      && current.None?
    ensures r == UserNotFound <==>
      AllFilled(currentPassword, newPassword, confirmPassword) && newPassword == confirmPassword
      && current.Some? && !HasUsername(users, current.value.username)
    ensures r == WrongPassword <==>
      AllFilled(currentPassword, newPassword, confirmPassword) && newPassword == confirmPassword
      && current.Some? && HasUsername(users, current.value.username)
      && users[FindIndex(users, current.value.username)].password != currentPassword
    ensures r == Changed <==>
      AllFilled(currentPassword, newPassword, confirmPassword) && newPassword == confirmPassword
      && current.Some? && HasUsername(users, current.value.username)
      && users[FindIndex(users, current.value.username)].password == currentPassword
  {
    if currentPassword == "" || newPassword == "" || confirmPassword == "" then MissingField
    else if newPassword != confirmPassword then Mismatch
    else if current.None? then NotLoggedIn
    else
      var k := FindIndex(users, current.value.username);
      if k == -1 then UserNotFound
      else if users[k].password != currentPassword then WrongPassword
      else Changed
  }

  /** A successful change from `a` to `b` can be undone by a change from `b` back
      to `a`, which succeeds and restores the stored list exactly. */
  lemma ChangePasswordReverts(users: seq<User>, me: User, a: string, b: string)
    requires CheckPasswordChange(users, Some(me), a, b, b) == Changed
    ensures var k := FindIndex(users, me.username);
      var changed := SetPassword(users, k, b);
      && CheckPasswordChange(changed, Some(me.(password := b)), b, a, a) == Changed
      && FindIndex(changed, me.username) == k
      && SetPassword(changed, k, a) == users
  {
  }

  /** After a successful change to a different password, the old one no longer
      authenticates a further change. */
  lemma OldPasswordRejected(users: seq<User>, me: User, a: string, b: string, c: string)
    requires CheckPasswordChange(users, Some(me), a, b, b) == Changed
    requires a != b && c != ""
    ensures var changed := SetPassword(users, FindIndex(users, me.username), b);
      CheckPasswordChange(changed, Some(me.(password := b)), a, c, c) == WrongPassword
  {
  }
}
