/** The update-profile command: the signed-in user changes their own full name, e-mail address
    and, optionally, password. */
module UpdateProfile {
  import opened Wrappers
  import opened Text
  import opened Validation
  import opened Domain
  import opened Database
  import CreateUser

  // ----- validator -----

  /** `Email`: present, not blank, an e-mail address, at most 50 characters; `Fullname`: present,
      not blank, 2 to 50 characters; `CurrentPassword` and `NewPassword`: optional, 6 to 30
      characters when given. */
  function UpdateProfileChecks(fullname: Option<string>, email: Option<string>, currentPassword: Option<string>,
                               newPassword: Option<string>): seq<Check>
  {
    RequiredChecks("Email", email) + AddressChecks("Email", email, 50)
    + RequiredChecks("Fullname", fullname) + LengthChecks("Fullname", fullname, 2, 50)
    + LengthChecks("CurrentPassword", currentPassword, 6, 30) + LengthChecks("NewPassword", newPassword, 6, 30)
  }

  /** The request is accepted exactly when the e-mail address and full name are present and
      valid and each password that is given has 6 to 30 characters. */
  lemma UpdateProfileValidatorAccepts(fullname: Option<string>, email: Option<string>, currentPassword: Option<string>,
                                      newPassword: Option<string>)
    ensures Failures(UpdateProfileChecks(fullname, email, currentPassword, newPassword)) == [] <==>
      && email.Some? && !IsBlank(email.value) && IsEmailAddress(email.value) && |email.value| <= 50
      && fullname.Some? && !IsBlank(fullname.value) && 2 <= |fullname.value| <= 50
      && (currentPassword.None? || 6 <= |currentPassword.value| <= 30)
      && (newPassword.None? || 6 <= |newPassword.value| <= 30)
  {
    var a := RequiredChecks("Email", email);
    var b := AddressChecks("Email", email, 50);
    var c := RequiredChecks("Fullname", fullname);
    var d := LengthChecks("Fullname", fullname, 2, 50);
    var e := LengthChecks("CurrentPassword", currentPassword, 6, 30);
    var f := LengthChecks("NewPassword", newPassword, 6, 30);
    NoFailures6(a, b, c, d, e, f);
  }

  // ----- handler -----

  /** The password is changed only when both the current and the new password are given and
      not blank. */
  predicate ChangesPassword(currentPassword: Option<string>, newPassword: Option<string>)
  {
    !IsNullOrWhiteSpace(currentPassword) && !IsNullOrWhiteSpace(newPassword)
  }

  /** The handler on the user list. `signedIn` is the id of the authenticated user (absent when
      the request carries none); `changed` is the user store's answer to `ChangePasswordAsync`
      (consulted only when the password changes) and `updated` its answer to `UpdateAsync`.
      A missing or unknown signed-in user ends in a null dereference; a new e-mail address that
      another account holds, a failed password change and a failed update are reported in that
      order. On success the user's full name is overwritten, a new e-mail address becomes both the
      address and the user name, and the password is replaced when it changes. */
  function UpdateProfile(users: seq<User>, signedIn: Option<string>, fullname: string, email: string,
                         currentPassword: Option<string>, newPassword: Option<string>,
                         changed: IdentityResult, updated: IdentityResult): (r: Result<seq<User>, Failure>)
    ensures signedIn.None? || FindUser(users, signedIn.value).None? <==> r == Failure(NullReferenceException)
    ensures signedIn.Some? && FindUser(users, signedIn.value).Some? ==>
      var u := FindUser(users, signedIn.value).value;
      var emailFree := u.email == email || !EmailTaken(users, email);
      var passwordOk := !ChangesPassword(currentPassword, newPassword) || changed.Succeeded?;
      && (!emailFree <==> r == Failure(IdentityException(CreateUser.EmailRegistered(email))))
      && (emailFree && !passwordOk ==> r == Failure(IdentityErrorsException(changed.errors)))
      && (emailFree && passwordOk && updated.Failed? ==> r == Failure(IdentityErrorsException(updated.errors)))
      && (r.Success? <==> emailFree && passwordOk && updated.Succeeded?)
      && (r.Success? ==>
            && |r.value| == |users|
            && (forall i :: 0 <= i < |users| && users[i].id != u.id ==> r.value[i] == users[i])
            && FindUser(r.value, u.id).Some?
            && var v := FindUser(r.value, u.id).value;
            && v.fullname == fullname && v.email == email
            && v.userName == (if u.email == email then u.userName else email)
            && v.password == (if ChangesPassword(currentPassword, newPassword) then newPassword.value else u.password)
            && v.roleId == u.roleId && v.active == u.active
            && v.emailConfirmed == u.emailConfirmed && v.phoneNumberConfirmed == u.phoneNumberConfirmed)
  {
    if signedIn.None? then Failure(NullReferenceException)
    else
      var k := UserIndex(users, signedIn.value);
      if k < 0 then Failure(NullReferenceException)
      else
        var u := users[k];
        if u.email != email && EmailTaken(users, email) then Failure(IdentityException(CreateUser.EmailRegistered(email)))
        else
          var renamed := if u.email != email then u.(email := email, userName := email) else u;
          var edited := renamed.(fullname := fullname);
          if ChangesPassword(currentPassword, newPassword) && changed.Failed? then Failure(IdentityErrorsException(changed.errors))
          else
            var saved := if ChangesPassword(currentPassword, newPassword) then edited.(password := newPassword.value) else edited;
            if updated.Failed? then Failure(IdentityErrorsException(updated.errors))
            else
              var after := users[k := saved];
              FindUserAfterReplace(users, k, saved);
              Success(after)
  }

  /** A successful profile update keeps user ids and e-mail addresses unique, and the user is
      then found by the new e-mail address. */
  lemma UpdateProfileKeepsIntegrity(users: seq<User>, signedIn: Option<string>, fullname: string, email: string,
                                    currentPassword: Option<string>, newPassword: Option<string>,
                                    changed: IdentityResult, updated: IdentityResult)
    requires UniqueUserIds(users) && UniqueUserEmails(users)
    requires UpdateProfile(users, signedIn, fullname, email, currentPassword, newPassword, changed, updated).Success?
    ensures var after := UpdateProfile(users, signedIn, fullname, email, currentPassword, newPassword, changed, updated).value;
      && UniqueUserIds(after) && UniqueUserEmails(after)
      && FindUserByEmail(after, email) == FindUser(after, signedIn.value)
  {
    var k := UserIndex(users, signedIn.value);
    var after := UpdateProfile(users, signedIn, fullname, email, currentPassword, newPassword, changed, updated).value;
    ReplaceKeepsUsersUnique(users, k, after[k]);
    FindUserAfterReplace(users, k, after[k]);
  }

  /** Sending back the profile as it is, without a password change, changes nothing. */
  lemma ResubmittedProfileChangesNothing(users: seq<User>, signedIn: string, currentPassword: Option<string>,
                                         newPassword: Option<string>, changed: IdentityResult)
    requires FindUser(users, signedIn).Some?
    requires !ChangesPassword(currentPassword, newPassword)
    ensures var u := FindUser(users, signedIn).value;
      UpdateProfile(users, Some(signedIn), u.fullname, u.email, currentPassword, newPassword, changed, Succeeded) == Success(users)
  {
    var k := UserIndex(users, signedIn);
    assert users[k := users[k]] == users;
  }

  /** The handler on the store. */
  method HandleUpdateProfile(store: Store, signedIn: Option<string>, fullname: string, email: string,
                             currentPassword: Option<string>, newPassword: Option<string>,
                             changed: IdentityResult, updated: IdentityResult) returns (r: Result<string, Failure>)
    modifies store
    ensures store.roles == old(store.roles) && store.rolePermissions == old(store.rolePermissions)
    ensures match UpdateProfile(old(store.users), signedIn, fullname, email, currentPassword, newPassword, changed, updated)
      case Failure(e) => r == Failure(e) && store.users == old(store.users)
      case Success(after) => r == Success(signedIn.value) && store.users == after
    ensures old(store.Valid()) ==> store.Valid()
  {
    if signedIn.None? {
      return Failure(NullReferenceException);
    }
    var k := UserIndex(store.users, signedIn.value);
    if k < 0 {
      return Failure(NullReferenceException);
    }
    var user := store.users[k];
    if user.email != email {
      if EmailTaken(store.users, email) {
        return Failure(IdentityException(CreateUser.EmailRegistered(email)));
      }
      user := user.(email := email, userName := email);
    }
    user := user.(fullname := fullname);
    if ChangesPassword(currentPassword, newPassword) {
      if changed.Failed? {
        return Failure(IdentityErrorsException(changed.errors));
      }
      user := user.(password := newPassword.value);
    }
    if updated.Failed? {
      return Failure(IdentityErrorsException(updated.errors));
    }
    ghost var before := store.users;
    store.users := store.users[k := user];
    if old(store.Valid()) {
      UpdateProfileKeepsIntegrity(before, signedIn, fullname, email, currentPassword, newPassword, changed, updated);
    }
    return Success(user.id);
  }
}
