/** The entities of the identity and permission subsystem and the queries over them. */
module Domain {
  import opened Wrappers
  import opened Seqs

  /** A catalog permission; `required` means it must be granted whenever any permission of its
      module is. */
  datatype Permission = Permission(id: string, moduleId: string, name: string, order: int, required: bool)

  /** A catalog module with its permissions. */
  datatype Module = Module(id: string, name: string, order: int, permissions: seq<Permission>)

  /** One entry of a role request: a module id and the permission ids chosen in it. */
  datatype ModuleSelection = ModuleSelection(id: string, permissionsIds: seq<string>)

  /** A row of the role/permission join table (its surrogate key is not modelled). */
  datatype RolePermission = RolePermission(roleId: string, permissionId: string)

  datatype Role = Role(id: string, name: string, description: string, active: bool)

  /** An identity user; `password` stands for the stored credential. */
  datatype User = User(
    id: string,
    userName: string,
    email: string,
    fullname: string,
    roleId: string,
    active: bool,
    emailConfirmed: bool,
    phoneNumberConfirmed: bool,
    password: string)

  /** An error returned by an identity store operation. */
  datatype IdentityError = IdentityError(code: string, description: string)

  /** The outcome of a `UserManager` operation. */
  datatype IdentityResult = Succeeded | Failed(errors: seq<IdentityError>)

  /** The exceptions the handlers throw. */
  datatype Failure =
    | NotFoundException(message: string)
    | IdentityException(message: string)
    | IdentityErrorsException(errors: seq<IdentityError>)
    | DomainException(message: string)
    | NullReferenceException

  /** A claim of an authenticated principal or of an issued token. */
  datatype Claim = Claim(claimType: string, value: string)

  /** `FindFirstValue`: the value of the first claim of type `claimType`, if any. */
  function FindFirstValue(claims: seq<Claim>, claimType: string): (v: Option<string>)
    ensures v.None? <==> forall i :: 0 <= i < |claims| ==> claims[i].claimType != claimType
    ensures v.Some? ==>
      exists i :: 0 <= i < |claims| && claims[i] == Claim(claimType, v.value) && forall j :: 0 <= j < i ==> claims[j].claimType != claimType
  {
    var k := IndexWhere(claims, (c: Claim) => c.claimType == claimType);
    if k < 0 then None else Some(claims[k].value)
  }

  /** When no claim type repeats, every claim is the first of its type. */
  lemma FirstValueOfDistinctTypes(claims: seq<Claim>, k: int)
    requires forall i, j :: 0 <= i < j < |claims| ==> claims[i].claimType != claims[j].claimType
    requires 0 <= k < |claims|
    ensures FindFirstValue(claims, claims[k].claimType) == Some(claims[k].value)
  {
  }

  /** Permission ids are keys of the permission table. */
  predicate UniquePermissionIds(table: seq<Permission>)
  {
    forall i, j :: 0 <= i < j < |table| ==> table[i].id != table[j].id
  }

  /** `SelectMany(m => m.PermissionsIds)`: every listed permission id, module by module. */
  function Flatten(sel: seq<ModuleSelection>): (ids: seq<string>)
    ensures forall p :: p in ids <==> exists m :: m in sel && p in m.permissionsIds
  {
    if sel == [] then []
    else
      assert forall m :: m in sel[1..] ==> m in sel;
      assert forall m :: m in sel ==> m == sel[0] || m in sel[1..];
      sel[0].permissionsIds + Flatten(sel[1..])
  }

  /** `Sum(m => m.PermissionsIds.Count)`. */
  function TotalCount(sel: seq<ModuleSelection>): (n: nat)
    ensures n == |Flatten(sel)|
  {
    if sel == [] then 0 else |sel[0].permissionsIds| + TotalCount(sel[1..])
  }

  /** The permission ids of the rows belonging to `roleId`, in table order
      (`Where(r => r.RoleId == roleId).Select(r => r.PermissionId)`). */
  function PermissionIdsOf(rows: seq<RolePermission>, roleId: string): (ids: seq<string>)
    ensures |ids| <= |rows|
    ensures forall p :: p in ids <==> RolePermission(roleId, p) in rows
  {
    if rows == [] then []
    else
      assert forall r :: r in rows ==> r == rows[0] || r in rows[1..];
      var rest := PermissionIdsOf(rows[1..], roleId);
      if rows[0].roleId == roleId then [rows[0].permissionId] + rest else rest
  }

  lemma {:induction false} PermissionIdsOfAppend(a: seq<RolePermission>, b: seq<RolePermission>, roleId: string)
    ensures PermissionIdsOf(a + b, roleId) == PermissionIdsOf(a, roleId) + PermissionIdsOf(b, roleId)
  {
    if a == [] {
      assert a + b == b;
    } else {
      assert (a + b)[0] == a[0];
      assert (a + b)[1..] == a[1..] + b;
      PermissionIdsOfAppend(a[1..], b, roleId);
    }
  }

  /** One row per id, all for `roleId`. */
  function RowsFor(roleId: string, ids: seq<string>): (rows: seq<RolePermission>)
    ensures |rows| == |ids|
    ensures forall i :: 0 <= i < |ids| ==> rows[i] == RolePermission(roleId, ids[i])
  {
    if ids == [] then [] else [RolePermission(roleId, ids[0])] + RowsFor(roleId, ids[1..])
  }

  /** The rows of `RowsFor(roleId, ids)` give back exactly `ids` for that role and nothing for
      any other role. */
  lemma {:induction false} PermissionIdsOfRowsFor(roleId: string, ids: seq<string>, other: string)
    ensures PermissionIdsOf(RowsFor(roleId, ids), roleId) == ids
    ensures other != roleId ==> PermissionIdsOf(RowsFor(roleId, ids), other) == []
  {
    if ids != [] {
      PermissionIdsOfRowsFor(roleId, ids[1..], other);
      var rows := RowsFor(roleId, ids);
      assert rows[1..] == RowsFor(roleId, ids[1..]);
    }
  }

  /** The table without the rows of `roleId` (`RemoveRange` of that role's rows). */
  function WithoutRole(rows: seq<RolePermission>, roleId: string): (r: seq<RolePermission>)
    ensures forall x :: x in r <==> x in rows && x.roleId != roleId
  {
    Filter(rows, (x: RolePermission) => x.roleId != roleId)
  }

  /** Removing a role's rows empties that role and leaves every other role as it was. */
  lemma {:induction false} PermissionIdsOfWithoutRole(rows: seq<RolePermission>, roleId: string, other: string)
    ensures PermissionIdsOf(WithoutRole(rows, roleId), roleId) == []
    ensures other != roleId ==> PermissionIdsOf(WithoutRole(rows, roleId), other) == PermissionIdsOf(rows, other)
  {
    var p := (x: RolePermission) => x.roleId != roleId;
    if rows != [] {
      PermissionIdsOfWithoutRole(rows[1..], roleId, other);
      assert rows == [rows[0]] + rows[1..];
      FilterAppend([rows[0]], rows[1..], p);
      PermissionIdsOfAppend([rows[0]], rows[1..], other);
      var head := Filter([rows[0]], p);
      PermissionIdsOfAppend(head, Filter(rows[1..], p), roleId);
      PermissionIdsOfAppend(head, Filter(rows[1..], p), other);
    }
  }

  /** `FindByIdAsync` on the role store. */
  function RoleIndex(roles: seq<Role>, id: string): int
  {
    IndexWhere(roles, (r: Role) => r.id == id)
  }

  /** `FindByNameAsync` on the role store (exact comparison; name normalisation is not modelled). */
  function RoleNameIndex(roles: seq<Role>, name: string): int
  {
    IndexWhere(roles, (r: Role) => r.name == name)
  }

  /** `FindByIdAsync` on the user store. */
  function UserIndex(users: seq<User>, id: string): int
  {
    IndexWhere(users, (u: User) => u.id == id)
  }

  /** `FindByEmailAsync` on the user store (exact comparison; e-mail normalisation is not modelled). */
  function UserEmailIndex(users: seq<User>, email: string): int
  {
    IndexWhere(users, (u: User) => u.email == email)
  }

  function FindRole(roles: seq<Role>, id: string): (r: Option<Role>)
    ensures r.Some? <==> exists i :: 0 <= i < |roles| && roles[i].id == id
    ensures r.Some? ==> r.value in roles && r.value.id == id
  {
    var k := RoleIndex(roles, id);
    if k < 0 then None else Some(roles[k])
  }

  function FindUser(users: seq<User>, id: string): (r: Option<User>)
    ensures r.Some? <==> exists i :: 0 <= i < |users| && users[i].id == id
    ensures r.Some? ==> r.value in users && r.value.id == id
  {
    var k := UserIndex(users, id);
    if k < 0 then None else Some(users[k])
  }

  /** Replacing the first user with a given id by a record with the same id keeps that record the
      one found by the id. */
  lemma FindUserAfterReplace(users: seq<User>, k: int, v: User)
    requires 0 <= k < |users| && k == UserIndex(users, v.id)
    ensures FindUser(users[k := v], v.id) == Some(v)
  {
    var after := users[k := v];
    var e := UserIndex(after, v.id);
    assert after[k].id == v.id;
    assert forall j :: 0 <= j < k ==> after[j] == users[j];
    assert e == k;
  }

  function FindUserByEmail(users: seq<User>, email: string): (r: Option<User>)
    ensures r.Some? <==> exists i :: 0 <= i < |users| && users[i].email == email
    ensures r.Some? ==> r.value in users && r.value.email == email
  {
    var k := UserEmailIndex(users, email);
    if k < 0 then None else Some(users[k])
  }

  function RoleNameTaken(roles: seq<Role>, name: string): (taken: bool)
    ensures taken <==> exists i :: 0 <= i < |roles| && roles[i].name == name
  {
    RoleNameIndex(roles, name) >= 0
  }

  function EmailTaken(users: seq<User>, email: string): (taken: bool)
    ensures taken <==> exists i :: 0 <= i < |users| && users[i].email == email
  {
    UserEmailIndex(users, email) >= 0
  }

  /** A role id names at most one role. */
  predicate UniqueRoleIds(roles: seq<Role>)
  {
    forall i, j :: 0 <= i < j < |roles| ==> roles[i].id != roles[j].id
  }

  /** A role name names at most one role (the store's unique name index). */
  predicate UniqueRoleNames(roles: seq<Role>)
  {
    forall i, j :: 0 <= i < j < |roles| ==> roles[i].name != roles[j].name
  }

  /** Every join-table row belongs to a stored role. */
  predicate RowsReferenceRoles(roles: seq<Role>, rows: seq<RolePermission>)
  {
    forall x :: x in rows ==> FindRole(roles, x.roleId).Some?
  }

  /** A user id names at most one user. */
  predicate UniqueUserIds(users: seq<User>)
  {
    forall i, j :: 0 <= i < j < |users| ==> users[i].id != users[j].id
  }

  /** An e-mail address names at most one user. The identity store does not enforce this; the
      handlers keep it by looking the address up before they create or change an account. */
  predicate UniqueUserEmails(users: seq<User>)
  {
    forall i, j :: 0 <= i < j < |users| ==> users[i].email != users[j].email
  }

  /** With unique user ids, looking a stored user up by id finds that user. */
  lemma FindUserOfUnique(users: seq<User>, i: int)
    requires UniqueUserIds(users) && 0 <= i < |users|
    ensures FindUser(users, users[i].id) == Some(users[i])
  {
    var f := FindUser(users, users[i].id);
    var j :| 0 <= j < |users| && users[j] == f.value;
    assert i == j;
  }

  /** Replacing a user by a record with the same id and an e-mail address that is its own or
      unused keeps ids and e-mail addresses unique, and the record is found by its address. */
  lemma ReplaceKeepsUsersUnique(users: seq<User>, k: int, v: User)
    requires UniqueUserIds(users) && UniqueUserEmails(users)
    requires 0 <= k < |users| && v.id == users[k].id
    requires v.email == users[k].email || !EmailTaken(users, v.email)
    ensures UniqueUserIds(users[k := v]) && UniqueUserEmails(users[k := v])
    ensures FindUserByEmail(users[k := v], v.email) == Some(v)
  {
    var after := users[k := v];
    forall i, j | 0 <= i < j < |after| ensures after[i].id != after[j].id && after[i].email != after[j].email {
      if i != k && j != k {
        assert after[i] == users[i] && after[j] == users[j];
      } else if i == k {
        assert after[j] == users[j];
      } else {
        assert after[i] == users[i];
      }
    }
    var e := UserEmailIndex(after, v.email);
    assert after[k].email == v.email;
    assert e == k;
  }

  /** A role without rows has no permissions. */
  lemma {:induction false} PermissionIdsOfNoRows(rows: seq<RolePermission>, roleId: string)
    requires forall x :: x in rows ==> x.roleId != roleId
    ensures PermissionIdsOf(rows, roleId) == []
  {
    if rows != [] {
      assert forall x :: x in rows[1..] ==> x in rows;
      PermissionIdsOfNoRows(rows[1..], roleId);
    }
  }
}
