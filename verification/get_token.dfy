/** Sign-in: the get-token command's validator and handler. The handler looks the account up by
    e-mail, reports an inactive account before a failed password check, and answers with the
    user's details, the permission ids of the user's role and the claims of the issued token. */
module AuthToken {
  import opened Wrappers
  import opened Text
  import opened Validation
  import opened Domain

  // ----- validator -----

  /** `Email`: not empty, an e-mail address, at most 50 characters; `Password`: not empty, at most
      30 characters, at least 6. */
  function GetTokenChecks(email: Option<string>, password: Option<string>): seq<Check>
  {
    [Check("Email", NotEmpty, email), Check("Email", EmailAddress, email), Check("Email", MaximumLength(50), email),
     Check("Password", NotEmpty, password), Check("Password", MaximumLength(30), password),
     Check("Password", MinimumLength(6), password)]
  }

  /** The request is accepted exactly when both values are present and the e-mail address is a
      non-blank address of at most 50 characters and the password a non-blank string of 6 to 30. */
  lemma GetTokenValidatorAccepts(email: Option<string>, password: Option<string>)
    ensures Failures(GetTokenChecks(email, password)) == [] <==>
      && email.Some? && !IsBlank(email.value) && IsEmailAddress(email.value) && |email.value| <= 50
      && password.Some? && !IsBlank(password.value) && 6 <= |password.value| <= 30
  {
    var checks := GetTokenChecks(email, password);
    assert Passes(checks[0]) && Passes(checks[1]) && Passes(checks[2]) && Passes(checks[3]) && Passes(checks[4]) && Passes(checks[5])
      <==> forall i :: 0 <= i < |checks| ==> Passes(checks[i]);
  }

  // ----- handler -----

  datatype TokenResponse = TokenResponse(
    userId: string,
    role: string,
    email: string,
    fullname: string,
    permissions: seq<string>,
    isVerified: bool,
    claims: seq<Claim>)

  function NoAccount(email: string): string
  {
    "No Accounts Registered with " + email + "."
  }

  function NotActive(email: string): string
  {
    "Account for '" + email + "' is not active. Please contact the Administrator."
  }

  function InvalidCredentials(email: string): string
  {
    "Invalid Credentials for '" + email + "'."
  }

  /** The claim types of an issued token, in order: the registered JWT claims `sub`, `jti` and
      `email`, then `uid`, `full_name` and `role_id`. */
  const TokenClaimTypes: seq<string> := ["sub", "jti", "email", "uid", "full_name", "role_id"]

  /** The claims written into the token: one claim of each type of `TokenClaimTypes`, in that
      order, carrying the user name, the token id, the e-mail address, the user id, the full name
      and the role id. */
  function TokenClaims(user: User, jti: string): (claims: seq<Claim>)
    ensures |claims| == |TokenClaimTypes| == 6
    ensures forall i :: 0 <= i < |claims| ==> claims[i].claimType == TokenClaimTypes[i]
    ensures forall i, j :: 0 <= i < j < |claims| ==> claims[i].claimType != claims[j].claimType
    ensures FindFirstValue(claims, "sub") == Some(user.userName)
    ensures FindFirstValue(claims, "jti") == Some(jti)
    ensures FindFirstValue(claims, "email") == Some(user.email)
    ensures FindFirstValue(claims, "uid") == Some(user.id)
    ensures FindFirstValue(claims, "full_name") == Some(user.fullname)
    ensures FindFirstValue(claims, "role_id") == Some(user.roleId)
  {
    var claims := [Claim("sub", user.userName), Claim("jti", jti), Claim("email", user.email), Claim("uid", user.id),
                   Claim("full_name", user.fullname), Claim("role_id", user.roleId)];
    assert forall i :: 0 <= i < |claims| ==> claims[i].claimType == TokenClaimTypes[i];
    TokenClaimTypesDistinct();
    FirstValueOfDistinctTypes(claims, 0);
    FirstValueOfDistinctTypes(claims, 1);
    FirstValueOfDistinctTypes(claims, 2);
    FirstValueOfDistinctTypes(claims, 3);
    FirstValueOfDistinctTypes(claims, 4);
    FirstValueOfDistinctTypes(claims, 5);
    claims
  }

  /** No claim type is written twice. */
  lemma TokenClaimTypesDistinct()
    ensures forall i, j :: 0 <= i < j < |TokenClaimTypes| ==> TokenClaimTypes[i] != TokenClaimTypes[j]
  {
    // The claim types differ in their first character.
    var firsts := ['s', 'j', 'e', 'u', 'f', 'r'];
    assert forall i :: 0 <= i < |TokenClaimTypes| ==> TokenClaimTypes[i][0] == firsts[i];
  }

  /** The handler. `signIn(userName, password)` stands for the sign-in manager's password check,
      `jti` for the fresh token id. */
  function GetToken(users: seq<User>, roles: seq<Role>, rows: seq<RolePermission>, email: string, password: string,
                    jti: string, signIn: (string, string) -> bool): (r: Result<TokenResponse, Failure>)
    ensures FindUserByEmail(users, email).None? <==> r == Failure(IdentityException(NoAccount(email)))
    ensures var u := FindUserByEmail(users, email);
      u.Some? && !u.value.active ==> r == Failure(IdentityException(NotActive(email)))
    ensures var u := FindUserByEmail(users, email);
      u.Some? && u.value.active && !signIn(u.value.userName, password) ==> r == Failure(IdentityException(InvalidCredentials(email)))
    ensures var u := FindUserByEmail(users, email);
      u.Some? && u.value.active && signIn(u.value.userName, password) && FindRole(roles, u.value.roleId).None? ==>
      r == Failure(NullReferenceException)
    ensures var u := FindUserByEmail(users, email);
      r.Success? <==> u.Some? && u.value.active && signIn(u.value.userName, password) && FindRole(roles, u.value.roleId).Some?
    ensures r.Success? ==>
      var u := FindUserByEmail(users, email).value;
      && u.email == email
      && r.value.userId == u.id && r.value.email == u.email && r.value.fullname == u.fullname
      && r.value.isVerified == u.emailConfirmed
      && r.value.role == FindRole(roles, u.roleId).value.name
      && (forall p :: p in r.value.permissions <==> RolePermission(u.roleId, p) in rows)
      && r.value.claims == TokenClaims(u, jti)
      && FindFirstValue(r.value.claims, "uid") == Some(u.id)
      && FindFirstValue(r.value.claims, "role_id") == Some(u.roleId)
  {
    var k := UserEmailIndex(users, email);
    if k < 0 then Failure(IdentityException(NoAccount(email)))
    else
      var user := users[k];
      var signedIn := signIn(user.userName, password);
      assert NoAccount(email)[0] == 'N' && NotActive(email)[0] == 'A' && InvalidCredentials(email)[0] == 'I';
      if !user.active then Failure(IdentityException(NotActive(email)))
      else if !signedIn then Failure(IdentityException(InvalidCredentials(email)))
      else
        var j := RoleIndex(roles, user.roleId);
        if j < 0 then Failure(NullReferenceException)
        else
          var role := roles[j];
          Success(TokenResponse(user.id, role.name, user.email, user.fullname, PermissionIdsOf(rows, role.id),
                                user.emailConfirmed, TokenClaims(user, jti)))
  }
}
