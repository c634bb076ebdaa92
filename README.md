# Fleet management: user store and dashboard tally

This project models two parts of a small fleet-management web application.

The first is the browser-side account store. It is a list of
`{username, password, isAdmin, email}` records under the localStorage key
`users`, next to a `currentUser` record for whoever is logged in. The store has
these operations:

- the user-management page can add an account, reset a password to `"1234"`,
  delete an account and change the logged-in user's password;
- three provisioning scripts each add a hard-coded account if its username is
  not yet taken.

The second part is the vehicle status tally that the admin dashboard shows.

Modules:

- `UserList` (`user_list.dfy`) is the pure list logic the store operations share.
  It covers the `some`, `findIndex` and `filter` lookups, add-if-absent,
  password replacement and the ordered password-change checks, with their lemmas.
- `UserManagement` (`user_management.dfy`) holds the class `UserStore`. Its
  fields `users: Option<seq<User>>` and `currentUser: Option<User>` are the two
  localStorage keys, and `None` means the key is absent. `Users()` is the read
  `JSON.parse(...) || []`. A `setItem` is an assignment of `Some(list)`. The
  methods model `addUser`, `resetUserPassword`, `deleteUser` and `changePassword`
  of add-user-management.js. They also include `PushIfAbsent`, the add-if-absent
  step that all four add operations share.
- `AnwarhossainScript`, `AddUserScript` and `NewUserScript` model
  add-anwarhossain-user.js, add-user.js and add-new-user.js. Each has its
  `addNewUser` as a method on the store, its top-level calls as `RunScript` (or
  the method itself), and the resulting list as the function `AfterScript`, which
  the lemmas discuss.
- `DashboardStats` (`dashboard_stats.dfy`) is the `stats` object built by the
  `/admin/dashboard` handler of index.js.

Usernames and statuses are compared exactly (JavaScript `===` on strings).
Form inputs become method parameters. The `confirm(...)` dialog of `deleteUser`
becomes a boolean parameter.

## Model

| member | source | states |
|---|---|---|
| `UserList.FindIndex` | add-user-management.js:108 | the result is -1 exactly when no entry has the username; otherwise it is the first entry with that username |
| `UserList.FindIndexIgnoresPasswords` | add-user-management.js:154 | the lookup depends only on usernames, so a password change does not move it |
| `UserList.HasUsername` | add-user-management.js:85 | the duplicate check `users.some(...)` holds exactly when the name is in the set of stored usernames |
| `UserList.AddIfAbsent` | add-anwarhossain-user.js:10-27 | the duplicate check followed by `push`: afterwards the name is present, earlier entries are an unchanged prefix, and the list grows by one, with the new record last, exactly when the name was new; uniqueness, idempotence and commutation are in the lemma rows below |
| `UserList.AddIfAbsentNames` | add-user.js:9-26 | add-if-absent adds exactly the new username to the set of usernames |
| `UserList.AddIfAbsentKeepsUnique` | add-user-management.js:85-95 | add-if-absent never creates a second entry with the same username |
| `UserList.AddIfAbsentIdempotent` | add-new-user.js:12-26 | a second add of the same username, whatever its other fields, changes nothing |
| `UserList.AddIfAbsentCommutesOnNames` | add-user.js:33-34 | adding two accounts in either order gives the same set of usernames |
| `UserList.SetPassword` | add-user-management.js:111 | replacing one entry's password changes only that entry's password; usernames, admin flags, e-mails and other entries stay |
| `UserList.SameAccountsKeepsUnique` | add-user-management.js:169 | a password-only change keeps the set of usernames and their uniqueness |
| `UserList.ResetPassword` | add-user-management.js:107-111 | the first entry with the username gets password "1234" and everything else is kept; with no match the list is unchanged |
| `UserList.ResetPasswordIdempotent` | add-user-management.js:106-115 | resetting the same user twice equals resetting once |
| `UserList.Without` | add-user-management.js:120 | the filtered list holds exactly the entries whose username differs, so the name is gone |
| `UserList.WithoutConcat` | add-user-management.js:120 | the filter keeps relative order: filtering a concatenation concatenates the filtered parts |
| `UserList.WithoutAbsent` | add-user-management.js:119-121 | deleting a name that is not stored rewrites the same list |
| `UserList.WithoutRemovesOne` | add-user-management.js:120 | with unique usernames, deleting a stored name removes exactly one entry |
| `UserList.WithoutKeepsUnique` | add-user-management.js:120 | deletion keeps usernames unique |
| `UserList.CheckPasswordChange` | add-user-management.js:132-166 | one if-and-only-if per outcome, in the page's order: MissingField exactly when a field is empty; Mismatch, NotLoggedIn, UserNotFound and WrongPassword each exactly when every earlier check passed and its own fails; Changed exactly when all five pass |
| `UserList.ChangePasswordReverts` | add-user-management.js:153-174 | a successful change from a to b can be undone by a change from b to a, which passes every check and restores the stored list exactly |
| `UserList.OldPasswordRejected` | add-user-management.js:162-169 | after a successful change to a different password, the old password is rejected as WrongPassword |
| `UserManagement.DefaultEmail` | add-user-management.js:94 | the default address is the username followed by "@example.com" |
| `UserManagement.DefaultEmailInjective` | add-user-management.js:94 | two usernames get the same default address only when they are equal |
| `UserManagement.UserStore.Users` | add-user-management.js:83 | the read of the 'users' key with the empty list as fallback: a missing key reads as the empty list, a present key as its stored list |
| `UserManagement.UserStore.PushIfAbsent` | add-anwarhossain-user.js:7-30 | returns whether the username was new; a duplicate writes nothing; otherwise exactly the given record is appended; uniqueness and currentUser are kept |
| `UserManagement.UserStore.AddUser` | add-user-management.js:73-97 | an empty username or password, or a taken username, leaves the store as it was; otherwise exactly `{username, password, isAdmin, username@example.com}` is appended to the old list; uniqueness is kept |
| `UserManagement.UserStore.ResetUserPassword` | add-user-management.js:106-115 | no match leaves the store untouched (nothing written); otherwise the stored list becomes ResetPassword of the old one; currentUser is not changed |
| `UserManagement.UserStore.DeleteUser` | add-user-management.js:117-124 | unconfirmed: nothing changes; confirmed: the stored list becomes the filtered old list (written even when nothing matched) and the name is absent; uniqueness is kept |
| `UserManagement.UserStore.ChangePassword` | add-user-management.js:126-174 | the outcome follows the ordered checks; any rejection leaves `users` and `currentUser` unchanged; success sets only the matched entry's password and currentUser's password to the new one |
| `AnwarhossainScript.AddNewUser` | add-anwarhossain-user.js:5-31 | returns false and changes nothing for a taken username; otherwise returns true and appends `{username, password, isAdmin, email: username}`, isAdmin defaulting to false |
| `AnwarhossainScript.RunScript` | add-anwarhossain-user.js:34 | the single call with the default isAdmin leaves AfterScript of the old list |
| `AnwarhossainScript.AfterScript` | add-anwarhossain-user.js:10-34 | the script's result: 'anwarhossain' is present, earlier entries are unchanged, and when it was missing exactly the non-admin record with the username as e-mail is appended |
| `AnwarhossainScript.ScriptKeepsUnique` | add-anwarhossain-user.js:10-24 | the script keeps usernames unique |
| `AnwarhossainScript.ScriptIdempotent` | add-anwarhossain-user.js:34 | running the script twice gives the same list as running it once |
| `AddUserScript.AddNewUser` | add-user.js:4-30 | the same contract as in the other script: false with no change for a taken username, otherwise true and exactly one record appended |
| `AddUserScript.RunScript` | add-user.js:33-34 | the two sequential calls leave AfterScript of the old list |
| `AddUserScript.AfterScript` | add-user.js:33-34 | the script's result: both 'faruk.khan@bga-bd.com' and 'anwarhossain' are present, earlier entries are a prefix, and the absent ones are appended in call order, the non-admin record `Faruk` then `Anwar`, each with password "1234" and the username as e-mail |
| `AddUserScript.ScriptKeepsUnique` | add-user.js:9-26 | both calls together keep usernames unique |
| `AddUserScript.CallsCommute` | add-user.js:33-34 | swapping the two calls gives the same set of usernames |
| `AddUserScript.ScriptRerunNoOp` | add-user.js:33-34 | running the script again leaves the list unchanged |
| `NewUserScript.AddNewUser` | add-new-user.js:2-34 | an existing 'Faruk.khan@bga-bd.com' leaves the store untouched; otherwise exactly the hard-coded non-admin record, with password "1234" and the username as e-mail, is appended |
| `NewUserScript.AfterScript` | add-new-user.js:12-26 | the script's result: earlier entries are unchanged, the name is present, and when it was missing the list grows by exactly the hard-coded record |
| `NewUserScript.ScriptKeepsUnique` | add-new-user.js:12-26 | the script keeps usernames unique |
| `NewUserScript.ScriptIdempotent` | add-new-user.js:12-37 | running the script twice gives the same list as running it once |
| `NewUserScript.CaseSensitiveDuplicate` | add-new-user.js:4-12 | the check is case-sensitive: after add-user.js has run on an empty store, this script still appends, giving three accounts, two of them for the same address in different case |
| `DashboardStats.WithStatus` | index.js:113-117 | the filter keeps exactly the vehicles whose status equals the given string and is no longer than the list |
| `DashboardStats.CountStatus` | index.js:113 | `filter(...).length` is at most the number of vehicles; its value is characterised by CountIsMultiplicity and CountZeroIff |
| `DashboardStats.CountZeroIff` | index.js:113-117 | a count is zero exactly when no vehicle has that status |
| `DashboardStats.TallyCounts` | index.js:113-128 | each of pending, ready, out, active and maintenance in `stats` equals the number of occurrences of that status among the vehicles |
| `DashboardStats.Tally` | index.js:113-129 | total is the number of vehicles and each of the five counts is at most total |
| `DashboardStats.CountIsMultiplicity` | index.js:113-117 | each count equals the number of occurrences of that status in the list of statuses |
| `DashboardStats.WithStatusConcat` | index.js:113-117 | filtering a concatenation concatenates the filtered parts |
| `DashboardStats.CountIgnoresOrder` | index.js:113-117 | a count is the same for any permutation of the vehicle list |
| `DashboardStats.TallyIgnoresOrder` | index.js:113-129 | the whole tally is the same for any permutation of the vehicle list |
| `DashboardStats.TallySum` | index.js:113-129 | the five counts add up to at most total, and to exactly total when and only when every status is one of pending, ready, out, active and maintenance |

## Left out

- Everything in the DOM is left out: the user-management link, showing and closing the modals, the HTML table that `refreshUserList` builds, clearing the form fields, `alert`, the message texts and colours, and the delayed close by `setTimeout`. The messages are the constructors of `PasswordOutcome`.
- The page renders no Delete button for `admin` (add-user-management.js:65). That is UI only. `DeleteUser` itself removes `admin` like any other name, and the model states no protection.
- JSON and localStorage are not modelled as text. A stored key is a value, and records are assumed to hold strings and booleans. Records with missing or non-string fields, and a stored `null`, are not modelled.
- `UserManagement.UserStore.ChangePassword` requires the `users` key to exist once the first three checks pass. The source reads that key without a `|| []` fallback, so a missing key raises a TypeError there, and the model does not invent a behaviour for it.
- Console logging in every script is left out.
- index.js is modelled only for the status tally. Express setup, sessions, the authentication middleware, EJS rendering, multer uploads, the uploads directory and server start are framework glue and I/O.
- The vehicle repository (`Vehicle.getAllVehicles` and the rest of models/Vehicle.js) is not part of this model. The tally takes the vehicle list as a parameter. The fields of `Vehicle` other than `status` are present only for shape; the tally reads nothing else. A status that is not a string is not modelled, and such a vehicle counts as any status outside the five.
- diagnostics.js is not part of this model. It is filesystem checks and console output around the vehicle repository.
