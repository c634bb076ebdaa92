/** The user-management page: the browser state it works on (the localStorage
    keys 'users' and 'currentUser') and its four store operations. Form fields
    become parameters and the `confirm(...)` dialog becomes a boolean. */
module UserManagement {
  import opened UserList

  /** The e-mail address the page gives a new account: the username followed
      by the domain, so distinct usernames get distinct addresses. */
  function DefaultEmail(username: string): (e: string)
    ensures |e| == |username| + |"@example.com"|
    ensures e[..|username|] == username && e[|username|..] == "@example.com"
  {
    username + "@example.com"
  }

  /** Two accounts get the same default address only when their usernames agree. */
  lemma DefaultEmailInjective(a: string, b: string)
    requires DefaultEmail(a) == DefaultEmail(b)
    ensures a == b
  {
  }

  class UserStore {
    /** The list under the key 'users'; None while the key has never been written. */
    var users: Option<seq<User>>
    /** The record under the key 'currentUser'; None when nobody is logged in. */
    var currentUser: Option<User>

    constructor (users: Option<seq<User>>, currentUser: Option<User>)
      ensures this.users == users && this.currentUser == currentUser
    {
      this.users := users;
      this.currentUser := currentUser;
    }

    /** `JSON.parse(localStorage.getItem('users')) || []`: a missing key reads
        as the empty list, a present key as the list stored under it. */
    function Users(): (s: seq<User>)
      reads this
      ensures users.None? ==> s == []
      ensures users.Some? ==> s == users.value
    {
      if users.Some? then users.value else []
    }

    /** The add-if-absent step every add operation shares: the duplicate check,
        then `users.push(...)` and `setItem`. A duplicate writes nothing. */
    method PushIfAbsent(username: string, password: string, isAdmin: bool, email: string)
      returns (added: bool)
      modifies this
      ensures added <==> !HasUsername(old(Users()), username)
      ensures !added ==> users == old(users)
      ensures added ==> users == Some(old(Users()) + [User(username, password, isAdmin, email)])
      ensures Users() == AddIfAbsent(old(Users()), User(username, password, isAdmin, email))
      ensures UniqueUsernames(old(Users())) ==> UniqueUsernames(Users())
      ensures currentUser == old(currentUser)
    {
      var stored := Users();
      if HasUsername(stored, username) {
        added := false;
        return;
      }
      users := Some(stored + [User(username, password, isAdmin, email)]);
      added := true;
      if UniqueUsernames(stored) {
        AddIfAbsentKeepsUnique(stored, User(username, password, isAdmin, email));
      }
    }

    /** addUser: both fields are required, the username must be new, and the
        account gets the e-mail `<username>@example.com`. */
    method AddUser(username: string, password: string, isAdmin: bool)
      modifies this
      ensures username == "" || password == "" ==> users == old(users)
      ensures HasUsername(old(Users()), username) ==> users == old(users)
      ensures username != "" && password != "" && !HasUsername(old(Users()), username) ==>
        users == Some(old(Users()) + [User(username, password, isAdmin, DefaultEmail(username))])
      ensures UniqueUsernames(old(Users())) ==> UniqueUsernames(Users())
      ensures currentUser == old(currentUser)
    {
      if username == "" || password == "" {
        return;
      }
      var _ := PushIfAbsent(username, password, isAdmin, DefaultEmail(username));
    }

    /** resetUserPassword: the first account with this username gets the password
        "1234"; with no such account nothing is written. The logged-in record
        is not touched, even when it is the account being reset. */
    method ResetUserPassword(username: string)
      modifies this
      ensures !HasUsername(old(Users()), username) ==> users == old(users)
      ensures HasUsername(old(Users()), username) ==> users == Some(ResetPassword(old(Users()), username))
      ensures UniqueUsernames(old(Users())) ==> UniqueUsernames(Users())
      ensures currentUser == old(currentUser)
    {
      var stored := Users();
      var userIndex := FindIndex(stored, username);
      if userIndex != -1 {
        users := Some(SetPassword(stored, userIndex, ResetPasswordValue));
        SameAccountsKeepsUnique(Users(), stored);
      }
    }

    /** deleteUser: when confirmed, every account with this username is removed
        and the rest keep their order; the filtered list is written even when
        nothing matched. Nothing here protects the 'admin' account. */
    method DeleteUser(username: string, confirmed: bool)
      modifies this
      ensures !confirmed ==> users == old(users)
      ensures confirmed ==> users == Some(Without(old(Users()), username))
      ensures confirmed ==> !HasUsername(Users(), username)
      ensures UniqueUsernames(old(Users())) ==> UniqueUsernames(Users())
      ensures currentUser == old(currentUser)
    {
      if confirmed {
        var stored := Users();
        users := Some(Without(stored, username));
        if UniqueUsernames(stored) {
          WithoutKeepsUnique(stored, username);
        }
      }
    }

    /** changePassword: the checks run in a fixed order and any rejection leaves
        both keys as they were; on success the matched account's password and
        the logged-in record's password become the new one. The 'users' key is
        read without a fallback, so it must exist once the first three checks
        have passed. */
    method ChangePassword(currentPassword: string, newPassword: string, confirmPassword: string)
      returns (outcome: PasswordOutcome)
      requires (currentPassword != "" && newPassword != "" && confirmPassword != ""
                && newPassword == confirmPassword && currentUser.Some?) ==> users.Some?
      modifies this
      ensures outcome == CheckPasswordChange(old(Users()), old(currentUser),
                                             currentPassword, newPassword, confirmPassword)
      ensures outcome != Changed ==> users == old(users) && currentUser == old(currentUser)
      ensures outcome == Changed ==>
        && old(currentUser).Some?
        && users == Some(SetPassword(old(Users()), FindIndex(old(Users()), old(currentUser).value.username), newPassword))
        && currentUser == Some(old(currentUser).value.(password := newPassword))
      ensures UniqueUsernames(old(Users())) ==> UniqueUsernames(Users())
    {
      if currentPassword == "" || newPassword == "" || confirmPassword == "" {
        return MissingField;
      }
      if newPassword != confirmPassword {
        return Mismatch;
      }
      if currentUser.None? {
        return NotLoggedIn;
      }
      var me := currentUser.value;
      var stored := users.value;
      var userIndex := FindIndex(stored, me.username);
      if userIndex == -1 {
        return UserNotFound;
      }
      if stored[userIndex].password != currentPassword {
        return WrongPassword;
      }
      users := Some(SetPassword(stored, userIndex, newPassword));
      currentUser := Some(me.(password := newPassword));
      SameAccountsKeepsUnique(Users(), stored);
      outcome := Changed;
    }
  }
}
