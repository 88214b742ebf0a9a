/** The update-user command of the administration screens: its validator, and the handler that
    changes a user's full name and role. The administrator account cannot be changed. */
module UpdateUser {
  import opened Wrappers
  import opened Text
  import opened Validation
  import opened Domain
  import opened Database

  // ----- validator -----

  /** `UserId` and `RoleId`: present and not blank; `Fullname`: present, not blank, 2 to 50
      characters. */
  function UpdateUserChecks(userId: Option<string>, roleId: Option<string>, fullname: Option<string>): seq<Check>
  {
    RequiredChecks("UserId", userId) + RequiredChecks("RoleId", roleId)
    + RequiredChecks("Fullname", fullname) + LengthChecks("Fullname", fullname, 2, 50)
  }

  /** The request is accepted exactly when all three values are present and non-blank and the
      full name has 2 to 50 characters. */
  lemma UpdateUserValidatorAccepts(userId: Option<string>, roleId: Option<string>, fullname: Option<string>)
    ensures Failures(UpdateUserChecks(userId, roleId, fullname)) == [] <==>
      && userId.Some? && !IsBlank(userId.value)
      && roleId.Some? && !IsBlank(roleId.value)
      && fullname.Some? && !IsBlank(fullname.value) && 2 <= |fullname.value| <= 50
  {
    var a := RequiredChecks("UserId", userId);
    var b := RequiredChecks("RoleId", roleId);
    var c := RequiredChecks("Fullname", fullname);
    var d := LengthChecks("Fullname", fullname, 2, 50);
    NoFailures4(a, b, c, d);
  }

  // ----- handler -----

  const AdminUnmodifiable := "The admin user cannot be modified."

  function UserNotFound(userId: string): string
  {
    "The User with the Id " + userId + " was not found."
  }

  function RoleNotFound(roleId: string): string
  {
    "The Role with the Id " + roleId + " was not found."
  }

  /** The three failure messages are distinct. */
  lemma MessagesDistinct(userId: string, roleId: string)
    ensures UserNotFound(userId) != RoleNotFound(roleId)
    ensures UserNotFound(userId) != AdminUnmodifiable && RoleNotFound(roleId) != AdminUnmodifiable
  {
    assert UserNotFound(userId)[4] == 'U' && RoleNotFound(roleId)[4] == 'R' && AdminUnmodifiable[4] == 'a';
  }

  /** The handler as written: it reads the e-mail address of the looked-up user before testing
      whether the lookup found anyone, so an unknown user id ends in a null dereference and the
      not-found branch after it can never be reached. `adminEmail` is the administrator's
      address; the user store's answer to `UpdateAsync` is ignored by the handler. */
  function UpdateUser(users: seq<User>, roles: seq<Role>, adminEmail: string, userId: string, roleId: string,
                      fullname: string): (r: Result<seq<User>, Failure>)
    ensures FindUser(users, userId).None? <==> r == Failure(NullReferenceException)
    ensures r != Failure(NotFoundException(UserNotFound(userId)))
  {
    var k := UserIndex(users, userId);
    MessagesDistinct(userId, roleId);
    if k < 0 then Failure(NullReferenceException)
    else if users[k].email == adminEmail then Failure(IdentityException(AdminUnmodifiable))
    else if FindRole(roles, roleId).None? then Failure(NotFoundException(RoleNotFound(roleId)))
    else Success(users[k := users[k].(fullname := fullname, roleId := roleId)])
  }

  /** The handler with the null test first: an unknown user, the administrator, and an unknown
      role fail in that order; otherwise only the user's full name and role change. */
  function UpdateUserIntended(users: seq<User>, roles: seq<Role>, adminEmail: string, userId: string, roleId: string,
                              fullname: string): (r: Result<seq<User>, Failure>)
    ensures FindUser(users, userId).None? <==> r == Failure(NotFoundException(UserNotFound(userId)))
    ensures FindUser(users, userId).Some? && FindUser(users, userId).value.email == adminEmail <==>
      r == Failure(IdentityException(AdminUnmodifiable))
    ensures FindUser(users, userId).Some? && FindUser(users, userId).value.email != adminEmail && FindRole(roles, roleId).None? <==>
      r == Failure(NotFoundException(RoleNotFound(roleId)))
    ensures r.Success? <==>
      FindUser(users, userId).Some? && FindUser(users, userId).value.email != adminEmail && FindRole(roles, roleId).Some?
    ensures r.Success? ==>
      && |r.value| == |users|
      && FindUser(r.value, userId) == Some(FindUser(users, userId).value.(fullname := fullname, roleId := roleId))
      && forall i :: 0 <= i < |users| && users[i].id != userId ==> r.value[i] == users[i]
  {
    var k := UserIndex(users, userId);
    MessagesDistinct(userId, roleId);
    if k < 0 then Failure(NotFoundException(UserNotFound(userId)))
    else if users[k].email == adminEmail then Failure(IdentityException(AdminUnmodifiable))
    else if FindRole(roles, roleId).None? then Failure(NotFoundException(RoleNotFound(roleId)))
    else
      var after := users[k := users[k].(fullname := fullname, roleId := roleId)];
      assert after[k].id == userId && forall j :: 0 <= j < k ==> after[j] == users[j];
      Success(after)
  }

  /** The two handlers differ only for an unknown user: the one as written crashes where the
      intended one reports the missing user. */
  lemma UnknownUserCrashes(users: seq<User>, roles: seq<Role>, adminEmail: string, userId: string, roleId: string, fullname: string)
    ensures FindUser(users, userId).None? ==>
      && UpdateUser(users, roles, adminEmail, userId, roleId, fullname) == Failure(NullReferenceException)
      && UpdateUserIntended(users, roles, adminEmail, userId, roleId, fullname) == Failure(NotFoundException(UserNotFound(userId)))
    ensures FindUser(users, userId).Some? ==>
      UpdateUser(users, roles, adminEmail, userId, roleId, fullname) == UpdateUserIntended(users, roles, adminEmail, userId, roleId, fullname)
  {
  }

  /** A concrete request that shows it: with no users at all, the handler as written dereferences
      null instead of answering "not found". */
  lemma UnknownUserExample()
    ensures UpdateUser([], [], "admin@example.com", "u1", "r1", "Ann") == Failure(NullReferenceException)
    ensures UpdateUserIntended([], [], "admin@example.com", "u1", "r1", "Ann") == Failure(NotFoundException(UserNotFound("u1")))
  {
  }

  /** A successful update keeps user ids and e-mail addresses unique and leaves the user findable
      by its unchanged e-mail address, now with the new role. */
  lemma UpdateUserKeepsIntegrity(users: seq<User>, roles: seq<Role>, adminEmail: string, userId: string, roleId: string,
                                 fullname: string)
    requires UniqueUserIds(users) && UniqueUserEmails(users)
    requires UpdateUserIntended(users, roles, adminEmail, userId, roleId, fullname).Success?
    ensures var after := UpdateUserIntended(users, roles, adminEmail, userId, roleId, fullname).value;
      var u := FindUser(users, userId).value;
      && UniqueUserIds(after) && UniqueUserEmails(after)
      && FindUserByEmail(after, u.email) == Some(u.(fullname := fullname, roleId := roleId))
  {
    var k := UserIndex(users, userId);
    ReplaceKeepsUsersUnique(users, k, users[k].(fullname := fullname, roleId := roleId));
  }

  /** The handler on the store (with the null test first). */
  method HandleUpdateUser(store: Store, adminEmail: string, userId: string, roleId: string, fullname: string)
    returns (r: Result<string, Failure>)
    modifies store
    ensures store.roles == old(store.roles) && store.rolePermissions == old(store.rolePermissions)
    ensures match UpdateUserIntended(old(store.users), old(store.roles), adminEmail, userId, roleId, fullname)
      case Failure(e) => r == Failure(e) && store.users == old(store.users)
      case Success(after) => r == Success(userId) && store.users == after
    ensures old(store.Valid()) ==> store.Valid()
  {
    var k := UserIndex(store.users, userId);
    if k < 0 {
      return Failure(NotFoundException(UserNotFound(userId)));
    }
    var user := store.users[k];
    if user.email == adminEmail {
      return Failure(IdentityException(AdminUnmodifiable));
    }
    if FindRole(store.roles, roleId).None? {
      return Failure(NotFoundException(RoleNotFound(roleId)));
    }
    ghost var before := store.users;
    store.users := store.users[k := user.(fullname := fullname, roleId := roleId)];
    if old(store.Valid()) {
      UpdateUserKeepsIntegrity(before, store.roles, adminEmail, userId, roleId, fullname);
    }
    return Success(user.id);
  }
}
