/** The permission requirement check run for every protected endpoint: it identifies the user by
    the `uid` claim, requires the user and the user's role to exist, and then looks for the
    required permission id in the role/permission join table. */
module Authorization {
  import opened Wrappers
  import opened Domain
  import opened Seqs
  import opened AuthToken

  /** The chain of lookups both versions of the check share: the principal, its `uid` claim, the
      user with that id and the user's role. */
  function PrincipalRole(principal: Option<seq<Claim>>, users: seq<User>, roles: seq<Role>): (role: Option<Role>)
    ensures role.Some? <==>
      && principal.Some? && FindFirstValue(principal.value, "uid").Some?
      && FindUser(users, FindFirstValue(principal.value, "uid").value).Some?
      && FindRole(roles, FindUser(users, FindFirstValue(principal.value, "uid").value).value.roleId).Some?
    ensures role.Some? ==>
      role.value.id == FindUser(users, FindFirstValue(principal.value, "uid").value).value.roleId && role.value in roles
  {
    if principal.None? then None
    else match FindFirstValue(principal.value, "uid")
      case None => None
      case Some(userId) =>
        match FindUser(users, userId)
        case None => None
        case Some(user) => FindRole(roles, user.roleId)
  }

  /** The check as written: once the user's role is found, the requirement succeeds when ANY row
      of the join table, whatever its role, carries the permission id. */
  function HandleRequirement(principal: Option<seq<Claim>>, users: seq<User>, roles: seq<Role>, rows: seq<RolePermission>,
                             permission: string): (granted: bool)
    ensures granted <==> PrincipalRole(principal, users, roles).Some? && exists x :: x in rows && x.permissionId == permission
  {
    PrincipalRole(principal, users, roles).Some? && IndexWhere(rows, (x: RolePermission) => x.permissionId == permission) >= 0
  }

  /** The check as intended: the permission must be granted to the user's own role. */
  function HandleRequirementIntended(principal: Option<seq<Claim>>, users: seq<User>, roles: seq<Role>, rows: seq<RolePermission>,
                                     permission: string): (granted: bool)
    ensures granted <==>
      PrincipalRole(principal, users, roles).Some? && RolePermission(PrincipalRole(principal, users, roles).value.id, permission) in rows
  {
    match PrincipalRole(principal, users, roles)
    case None => false
    case Some(role) => permission in PermissionIdsOf(rows, role.id)
  }

  /** The check as written grants whatever the intended check grants, and more. */
  lemma IntendedGrantIsGranted(principal: Option<seq<Claim>>, users: seq<User>, roles: seq<Role>, rows: seq<RolePermission>,
                               permission: string)
    requires HandleRequirementIntended(principal, users, roles, rows, permission)
    ensures HandleRequirement(principal, users, roles, rows, permission)
  {
    var role := PrincipalRole(principal, users, roles).value;
    assert RolePermission(role.id, permission) in rows;
  }

  /** A user whose role holds no permission at all is granted a permission some other role holds. */
  lemma GrantIgnoresTheUsersRole()
    ensures var user := User("u1", "clerk", "clerk@example.com", "Clerk", "r1", true, true, false, "secret");
      var roles := [Role("r1", "Clerk", "Clerk", true), Role("r2", "Admin", "Admin", true)];
      var rows := [RolePermission("r2", "Permissions.Users.Delete")];
      var principal := Some([Claim("uid", "u1")]);
      && HandleRequirement(principal, [user], roles, rows, "Permissions.Users.Delete")
      && !HandleRequirementIntended(principal, [user], roles, rows, "Permissions.Users.Delete")
  {
    var user := User("u1", "clerk", "clerk@example.com", "Clerk", "r1", true, true, false, "secret");
    var roles := [Role("r1", "Clerk", "Clerk", true), Role("r2", "Admin", "Admin", true)];
    var rows := [RolePermission("r2", "Permissions.Users.Delete")];
    var principal := Some([Claim("uid", "u1")]);
    assert FindFirstValue(principal.value, "uid") == Some("u1");
    assert FindUser([user], "u1") == Some(user);
    assert FindRole(roles, "r1") == Some(roles[0]);
    assert rows[0] in rows;
  }

  /** For the bearer of a token issued against the same stores, with user ids unique, the intended
      check grants exactly the permissions listed in the sign-in response. */
  lemma IntendedGrantMatchesToken(users: seq<User>, roles: seq<Role>, rows: seq<RolePermission>, email: string,
                                  password: string, jti: string, signIn: (string, string) -> bool, permission: string)
    requires UniqueUserIds(users)
    requires GetToken(users, roles, rows, email, password, jti, signIn).Success?
    ensures var token := GetToken(users, roles, rows, email, password, jti, signIn).value;
      HandleRequirementIntended(Some(token.claims), users, roles, rows, permission) <==> permission in token.permissions
  {
    var token := GetToken(users, roles, rows, email, password, jti, signIn).value;
    var u := FindUserByEmail(users, email).value;
    var i :| 0 <= i < |users| && users[i] == u;
    FindUserOfUnique(users, i);
    assert FindFirstValue(token.claims, "uid") == Some(u.id);
    assert PrincipalRole(Some(token.claims), users, roles) == FindRole(roles, u.roleId);
  }
}
