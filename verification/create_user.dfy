/** The create-user command: its validator, and the handler that checks the role and the e-mail
    address before asking the user store to create an active, confirmed account. */
module CreateUser {
  import opened Wrappers
  import opened Text
  import opened Validation
  import opened Domain
  import opened Database
  import opened AuthToken

  // ----- validator -----

  /** `RoleId`: present and not blank; `Email`: present, not blank, an e-mail address, at most 50
      characters; `Fullname`: present, not blank, 2 to 50 characters; `Password`: present, not
      blank, 6 to 30 characters. */
  function CreateUserChecks(roleId: Option<string>, email: Option<string>, fullname: Option<string>, password: Option<string>)
    : seq<Check>
  {
    RequiredChecks("RoleId", roleId)
    + RequiredChecks("Email", email) + AddressChecks("Email", email, 50)
    + RequiredChecks("Fullname", fullname) + LengthChecks("Fullname", fullname, 2, 50)
    + RequiredChecks("Password", password) + LengthChecks("Password", password, 6, 30)
  }

  /** The request is accepted exactly when every value is present and non-blank, the e-mail
      address is well formed and at most 50 characters, the full name has 2 to 50 characters and
      the password 6 to 30. */
  lemma CreateUserValidatorAccepts(roleId: Option<string>, email: Option<string>, fullname: Option<string>, password: Option<string>)
    ensures Failures(CreateUserChecks(roleId, email, fullname, password)) == [] <==>
      && roleId.Some? && !IsBlank(roleId.value)
      && email.Some? && !IsBlank(email.value) && IsEmailAddress(email.value) && |email.value| <= 50
      && fullname.Some? && !IsBlank(fullname.value) && 2 <= |fullname.value| <= 50
      && password.Some? && !IsBlank(password.value) && 6 <= |password.value| <= 30
  {
    var a := RequiredChecks("RoleId", roleId);
    var b := RequiredChecks("Email", email);
    var c := AddressChecks("Email", email, 50);
    var d := RequiredChecks("Fullname", fullname);
    var e := LengthChecks("Fullname", fullname, 2, 50);
    var f := RequiredChecks("Password", password);
    var g := LengthChecks("Password", password, 6, 30);
    NoFailures7(a, b, c, d, e, f, g);
  }

  // ----- handler -----

  function RoleDoesNotExist(roleId: string): string
  {
    "The Role with the Id " + roleId + " does not exists."
  }

  function EmailRegistered(email: string): string
  {
    "Email " + email + " is already registered."
  }

  /** The account the handler builds: the e-mail address is also the user name, and the account is
      active with its e-mail address and phone number confirmed. */
  function NewAccount(id: string, roleId: string, fullname: string, email: string, password: string): User
  {
    User(id, email, email, fullname, roleId, true, true, true, password)
  }

  /** The handler on the user list. `newId` is the id the new account receives and `created` the
      user store's answer to `CreateAsync` (its password policy and other validators are not
      modelled). An unknown role, then an e-mail address already registered, then a failed
      creation, are reported in that order; on success the new account is appended. */
  function CreateUser(users: seq<User>, roles: seq<Role>, newId: string, roleId: string, fullname: string,
                      email: string, password: string, created: IdentityResult): (r: Result<seq<User>, Failure>)
    ensures FindRole(roles, roleId).None? <==> r == Failure(IdentityException(RoleDoesNotExist(roleId)))
    ensures FindRole(roles, roleId).Some? && EmailTaken(users, email) <==> r == Failure(IdentityException(EmailRegistered(email)))
    ensures FindRole(roles, roleId).Some? && !EmailTaken(users, email) && created.Failed? ==>
      r == Failure(IdentityErrorsException(created.errors))
    ensures r.Success? <==> FindRole(roles, roleId).Some? && !EmailTaken(users, email) && created == Succeeded
    ensures r.Success? ==> r.value == users + [NewAccount(newId, roleId, fullname, email, password)]
  {
    assert RoleDoesNotExist(roleId)[0] != EmailRegistered(email)[0];
    if FindRole(roles, roleId).None? then Failure(IdentityException(RoleDoesNotExist(roleId)))
    else if EmailTaken(users, email) then Failure(IdentityException(EmailRegistered(email)))
    else if created.Failed? then Failure(IdentityErrorsException(created.errors))
    else Success(users + [NewAccount(newId, roleId, fullname, email, password)])
  }

  /** An account appended under an unused e-mail address is the one found by that address. */
  lemma FindAppendedByEmail(users: seq<User>, u: User)
    requires !EmailTaken(users, u.email)
    ensures FindUserByEmail(users + [u], u.email) == Some(u)
  {
    var s := users + [u];
    var k := UserEmailIndex(s, u.email);
    assert s[|users|].email == u.email;
    assert forall j :: 0 <= j < |users| ==> s[j] == users[j];
    assert k == |users|;
  }

  /** Creating an account under a fresh id keeps user ids and e-mail addresses unique, and the
      new account is the one found by its id and by its e-mail address. */
  lemma CreateUserKeepsIntegrity(users: seq<User>, roles: seq<Role>, newId: string, roleId: string, fullname: string,
                                 email: string, password: string, created: IdentityResult)
    requires UniqueUserIds(users) && UniqueUserEmails(users)
    requires FindUser(users, newId).None?
    requires CreateUser(users, roles, newId, roleId, fullname, email, password, created).Success?
    ensures var after := CreateUser(users, roles, newId, roleId, fullname, email, password, created).value;
      && UniqueUserIds(after) && UniqueUserEmails(after)
      && FindUser(after, newId) == Some(NewAccount(newId, roleId, fullname, email, password))
      && FindUserByEmail(after, email) == Some(NewAccount(newId, roleId, fullname, email, password))
  {
    var u := NewAccount(newId, roleId, fullname, email, password);
    var after := users + [u];
    FindAppendedByEmail(users, u);
    assert after[|users|] == u;
    assert forall j :: 0 <= j < |users| ==> after[j] == users[j];
  }

  /** A created account can sign in at once: with a password the sign-in check accepts, the token
      answer names the new account and carries the permissions of its role. */
  lemma CreatedUserCanSignIn(users: seq<User>, roles: seq<Role>, rows: seq<RolePermission>, newId: string, roleId: string,
                             fullname: string, email: string, password: string, jti: string, signIn: (string, string) -> bool)
    requires CreateUser(users, roles, newId, roleId, fullname, email, password, Succeeded).Success?
    requires signIn(email, password)
    ensures var token := GetToken(CreateUser(users, roles, newId, roleId, fullname, email, password, Succeeded).value,
                                  roles, rows, email, password, jti, signIn);
      && token.Success? && token.value.userId == newId && token.value.isVerified
      && forall p :: p in token.value.permissions <==> RolePermission(roleId, p) in rows
  {
    FindAppendedByEmail(users, NewAccount(newId, roleId, fullname, email, password));
  }

  /** The handler on the store: the checks, then `CreateAsync`. */
  method HandleCreateUser(store: Store, newId: string, roleId: string, fullname: string, email: string, password: string,
                          created: IdentityResult) returns (r: Result<string, Failure>)
    modifies store
    ensures store.roles == old(store.roles) && store.rolePermissions == old(store.rolePermissions)
    ensures match CreateUser(old(store.users), old(store.roles), newId, roleId, fullname, email, password, created)
      case Failure(e) => r == Failure(e) && store.users == old(store.users)
      case Success(after) => r == Success(newId) && store.users == after
    ensures old(store.Valid()) && FindUser(old(store.users), newId).None? ==> store.Valid()
  {
    if FindRole(store.roles, roleId).None? {
      return Failure(IdentityException(RoleDoesNotExist(roleId)));
    }
    if EmailTaken(store.users, email) {
      return Failure(IdentityException(EmailRegistered(email)));
    }
    if created.Failed? {
      return Failure(IdentityErrorsException(created.errors));
    }
    ghost var before := store.users;
    var user := NewAccount(newId, roleId, fullname, email, password);
    store.users := store.users + [user];
    if old(store.Valid()) && FindUser(before, newId).None? {
      CreateUserKeepsIntegrity(before, store.roles, newId, roleId, fullname, email, password, created);
    }
    return Success(user.id);
  }
}
