/** The update-role and create-role command handlers: the checks they make against the role
    store, and the rewrite of the role's rows in the role/permission join table. */
module RoleHandlers {
  import opened Wrappers
  import opened Seqs
  import opened Domain
  import opened Database
  import opened RoleValidator
  import opened RoleValidatorProperties

  /** The role store and the join table, the part of the store the role handlers touch. */
  datatype RoleTables = RoleTables(roles: seq<Role>, rows: seq<RolePermission>)

  function RoleNotFound(roleId: string): string
  {
    "Role with the Id : '" + roleId + "' was not found."
  }

  function RoleDisabled(roleId: string): string
  {
    "Role with the Id : '" + roleId + "' it's disabled."
  }

  function RoleNameExists(name: string): string
  {
    "The role with the Name " + name + " already exists."
  }

  // ----- update -----

  /** Updating role `roleId`: an unknown role, a disabled role, or a new name already used by a
      role fail in that order; otherwise the role's rows become exactly the selected permission
      ids and its name and description are overwritten. */
  function UpdateRole(t: RoleTables, roleId: string, name: string, description: string, sel: seq<ModuleSelection>)
    : (r: Result<RoleTables, Failure>)
    ensures FindRole(t.roles, roleId).None? <==> r == Failure(NotFoundException(RoleNotFound(roleId)))
    ensures FindRole(t.roles, roleId).Some? && !FindRole(t.roles, roleId).value.active <==>
      r == Failure(IdentityException(RoleDisabled(roleId)))
    ensures && FindRole(t.roles, roleId).Some? && FindRole(t.roles, roleId).value.active
            && FindRole(t.roles, roleId).value.name != name && RoleNameTaken(t.roles, name)
      <==> r == Failure(IdentityException(RoleNameExists(name)))
    ensures r.Success? <==>
      && FindRole(t.roles, roleId).Some? && FindRole(t.roles, roleId).value.active
      && (FindRole(t.roles, roleId).value.name != name ==> !RoleNameTaken(t.roles, name))
    ensures r.Success? ==>
      && |r.value.roles| == |t.roles|
      && FindRole(r.value.roles, roleId) == Some(FindRole(t.roles, roleId).value.(name := name, description := description))
      && (forall i :: 0 <= i < |t.roles| && t.roles[i].id != roleId ==> r.value.roles[i] == t.roles[i])
      && PermissionIdsOf(r.value.rows, roleId) == Flatten(sel)
      && forall other :: other != roleId ==> PermissionIdsOf(r.value.rows, other) == PermissionIdsOf(t.rows, other)
  {
    var k := RoleIndex(t.roles, roleId);
    if k < 0 then Failure(NotFoundException(RoleNotFound(roleId)))
    else
      var role := t.roles[k];
      assert RoleDisabled(roleId)[0] != RoleNameExists(name)[0];
      if !role.active then Failure(IdentityException(RoleDisabled(roleId)))
      else if role.name != name && RoleNameTaken(t.roles, name) then
        Failure(IdentityException(RoleNameExists(name)))
      else
        var rows := WithoutRole(t.rows, roleId) + RowsFor(roleId, Flatten(sel));
        var roles := t.roles[k := role.(name := name, description := description)];
        RewrittenRows(t.rows, roleId, Flatten(sel));
        assert roles[k].id == roleId;
        Success(RoleTables(roles, rows))
  }

  /** Replacing a role's rows by rows for `ids` gives that role exactly `ids` and leaves every
      other role as it was. */
  lemma RewrittenRows(rows: seq<RolePermission>, roleId: string, ids: seq<string>)
    ensures PermissionIdsOf(WithoutRole(rows, roleId) + RowsFor(roleId, ids), roleId) == ids
    ensures forall other :: other != roleId ==>
      PermissionIdsOf(WithoutRole(rows, roleId) + RowsFor(roleId, ids), other) == PermissionIdsOf(rows, other)
  {
    RewrittenRowsOf(rows, roleId, ids, roleId);
    forall other | other != roleId
      ensures PermissionIdsOf(WithoutRole(rows, roleId) + RowsFor(roleId, ids), other) == PermissionIdsOf(rows, other)
    {
      RewrittenRowsOf(rows, roleId, ids, other);
    }
  }

  /** `RewrittenRows` for one role. */
  lemma RewrittenRowsOf(rows: seq<RolePermission>, roleId: string, ids: seq<string>, other: string)
    ensures PermissionIdsOf(WithoutRole(rows, roleId) + RowsFor(roleId, ids), other)
      == if other == roleId then ids else PermissionIdsOf(rows, other)
  {
    var kept, added := WithoutRole(rows, roleId), RowsFor(roleId, ids);
    PermissionIdsOfAppend(kept, added, other);
    PermissionIdsOfWithoutRole(rows, roleId, other);
    PermissionIdsOfRowsFor(roleId, ids, other);
    if other == roleId {
      assert PermissionIdsOf(kept, other) + ids == [] + ids == ids;
    } else {
      assert PermissionIdsOf(kept, other) + [] == PermissionIdsOf(kept, other);
    }
  }

  /** A successful update keeps role ids and names unique and every row pointing at a role. */
  lemma UpdateRoleKeepsIntegrity(t: RoleTables, roleId: string, name: string, description: string, sel: seq<ModuleSelection>)
    requires UniqueRoleIds(t.roles) && UniqueRoleNames(t.roles) && RowsReferenceRoles(t.roles, t.rows)
    requires UpdateRole(t, roleId, name, description, sel).Success?
    ensures var u := UpdateRole(t, roleId, name, description, sel).value;
      UniqueRoleIds(u.roles) && UniqueRoleNames(u.roles) && RowsReferenceRoles(u.roles, u.rows)
  {
    var k := RoleIndex(t.roles, roleId);
    var added := RowsFor(roleId, Flatten(sel));
    assert forall x :: x in added ==> x.roleId == roleId;
    ReplacedRoleKeepsIntegrity(t.roles, t.rows, k, t.roles[k].(name := name, description := description), added);
  }

  /** Overwriting a role in place under the same id, with its own name or an unused one, and
      replacing its rows by rows that all belong to it, keeps role ids and names unique and every
      row pointing at a role. */
  lemma ReplacedRoleKeepsIntegrity(roles: seq<Role>, rows: seq<RolePermission>, k: int, v: Role, added: seq<RolePermission>)
    requires UniqueRoleIds(roles) && UniqueRoleNames(roles) && RowsReferenceRoles(roles, rows)
    requires 0 <= k < |roles| && v.id == roles[k].id
    requires v.name == roles[k].name || !RoleNameTaken(roles, v.name)
    requires forall x :: x in added ==> x.roleId == v.id
    ensures UniqueRoleIds(roles[k := v]) && UniqueRoleNames(roles[k := v])
    ensures RowsReferenceRoles(roles[k := v], WithoutRole(rows, v.id) + added)
  {
    var after := roles[k := v];
    assert after[k].id == v.id;
    forall x | x in WithoutRole(rows, v.id) + added ensures FindRole(after, x.roleId).Some? {
      if x in WithoutRole(rows, v.id) {
        var i :| 0 <= i < |roles| && roles[i].id == x.roleId;
        assert after[i].id == x.roleId;
      }
    }
  }

  /** With the corrected validator in front, the updated role holds, together with any permission
      of a module, every required permission of that module. */
  lemma UpdatedRoleGrantsRequired(t: RoleTables, modules: seq<Module>, permissions: seq<Permission>,
                                  roleId: string, name: string, description: string, sel: seq<ModuleSelection>)
    requires UniquePermissionIds(permissions)
    requires ModulesErrorIntended(modules, permissions, sel) == None
    requires UpdateRole(t, roleId, name, description, sel).Success?
    ensures GrantsRequired(permissions, PermissionIdsOf(UpdateRole(t, roleId, name, description, sel).value.rows, roleId))
  {
    IntendedChainGrantsRequired(modules, permissions, sel);
  }

  /** The handler: the checks, then `RemoveRange` of the role's rows, one `Add` per selected
      permission id, and the role's new name and description. */
  method HandleUpdateRole(store: Store, roleId: string, name: string, description: string, sel: seq<ModuleSelection>)
    returns (r: Result<string, Failure>)
    modifies store
    ensures store.users == old(store.users)
    ensures match UpdateRole(RoleTables(old(store.roles), old(store.rolePermissions)), roleId, name, description, sel)
      case Failure(e) => r == Failure(e) && store.roles == old(store.roles) && store.rolePermissions == old(store.rolePermissions)
      case Success(u) => r == Success(roleId) && store.roles == u.roles && store.rolePermissions == u.rows
    ensures old(store.Valid()) ==> store.Valid()
  {
    var k := RoleIndex(store.roles, roleId);
    if k < 0 {
      return Failure(NotFoundException(RoleNotFound(roleId)));
    }
    var role := store.roles[k];
    if !role.active {
      return Failure(IdentityException(RoleDisabled(roleId)));
    }
    if role.name != name && RoleNameTaken(store.roles, name) {
      return Failure(IdentityException(RoleNameExists(name)));
    }
    ghost var before := RoleTables(store.roles, store.rolePermissions);
    store.rolePermissions := WithoutRole(store.rolePermissions, roleId);
    AddRows(store, roleId, Flatten(sel));
    store.roles := store.roles[k := role.(name := name, description := description)];
    if old(store.Valid()) {
      UpdateRoleKeepsIntegrity(before, roleId, name, description, sel);
    }
    return Success(role.id);
  }

  /** One `RolePermissions.Add` per id, in order. */
  method AddRows(store: Store, roleId: string, ids: seq<string>)
    modifies store
    ensures store.rolePermissions == old(store.rolePermissions) + RowsFor(roleId, ids)
    ensures store.roles == old(store.roles) && store.users == old(store.users)
  {
    for i := 0 to |ids|
      invariant store.rolePermissions == old(store.rolePermissions) + RowsFor(roleId, ids[..i])
      invariant store.roles == old(store.roles) && store.users == old(store.users)
    {
      assert RowsFor(roleId, ids[..i + 1]) == RowsFor(roleId, ids[..i]) + [RolePermission(roleId, ids[i])];
      store.rolePermissions := store.rolePermissions + [RolePermission(roleId, ids[i])];
    }
    assert ids[..|ids|] == ids;
  }

  // ----- create -----

  /** Creating a role: a name already used by a role fails; otherwise an active role with the new
      id is appended and one row per selected permission id is added. */
  function CreateRole(t: RoleTables, newId: string, name: string, description: string, sel: seq<ModuleSelection>)
    : (r: Result<RoleTables, Failure>)
    ensures RoleNameTaken(t.roles, name) <==> r == Failure(DomainException(RoleNameExists(name)))
    ensures r.Failure? ==> RoleNameTaken(t.roles, name)
    ensures r.Success? ==>
      && r.value.roles == t.roles + [Role(newId, name, description, true)]
      && PermissionIdsOf(r.value.rows, newId) == PermissionIdsOf(t.rows, newId) + Flatten(sel)
      && forall other :: other != newId ==> PermissionIdsOf(r.value.rows, other) == PermissionIdsOf(t.rows, other)
  {
    if RoleNameTaken(t.roles, name) then Failure(DomainException(RoleNameExists(name)))
    else
      var rows := t.rows + RowsFor(newId, Flatten(sel));
      PermissionIdsOfAppend(t.rows, RowsFor(newId, Flatten(sel)), newId);
      PermissionIdsOfRowsFor(newId, Flatten(sel), newId);
      assert forall other :: other != newId ==> PermissionIdsOf(rows, other) == PermissionIdsOf(t.rows, other) by {
        forall other | other != newId ensures PermissionIdsOf(rows, other) == PermissionIdsOf(t.rows, other) {
          PermissionIdsOfAppend(t.rows, RowsFor(newId, Flatten(sel)), other);
          PermissionIdsOfRowsFor(newId, Flatten(sel), other);
        }
      }
      Success(RoleTables(t.roles + [Role(newId, name, description, true)], rows))
  }

  /** With a fresh id, the created role is found by its id, is active, holds exactly the selected
      permission ids, and the store keeps its integrity. */
  lemma CreateRoleWithFreshId(t: RoleTables, newId: string, name: string, description: string, sel: seq<ModuleSelection>)
    requires UniqueRoleIds(t.roles) && UniqueRoleNames(t.roles) && RowsReferenceRoles(t.roles, t.rows)
    requires FindRole(t.roles, newId).None?
    requires CreateRole(t, newId, name, description, sel).Success?
    ensures var c := CreateRole(t, newId, name, description, sel).value;
      && FindRole(c.roles, newId) == Some(Role(newId, name, description, true))
      && PermissionIdsOf(c.rows, newId) == Flatten(sel)
      && UniqueRoleIds(c.roles) && UniqueRoleNames(c.roles) && RowsReferenceRoles(c.roles, c.rows)
  {
    var role := Role(newId, name, description, true);
    var added := RowsFor(newId, Flatten(sel));
    assert forall x :: x in t.rows ==> x.roleId != newId;
    PermissionIdsOfNoRows(t.rows, newId);
    AppendedRoleKeepsIntegrity(t.roles, t.rows, role, added);
  }

  /** Appending a role under a fresh id and an unused name, with rows that all belong to it, keeps
      role ids and names unique and every row pointing at a role; the role is found by its id. */
  lemma AppendedRoleKeepsIntegrity(roles: seq<Role>, rows: seq<RolePermission>, role: Role, added: seq<RolePermission>)
    requires UniqueRoleIds(roles) && UniqueRoleNames(roles) && RowsReferenceRoles(roles, rows)
    requires FindRole(roles, role.id).None? && !RoleNameTaken(roles, role.name)
    requires forall x :: x in added ==> x.roleId == role.id
    ensures FindRole(roles + [role], role.id) == Some(role)
    ensures UniqueRoleIds(roles + [role]) && UniqueRoleNames(roles + [role])
    ensures RowsReferenceRoles(roles + [role], rows + added)
  {
    var after := roles + [role];
    assert after[|roles|] == role;
    assert forall i :: 0 <= i < |roles| ==> after[i] == roles[i];
    forall x | x in rows + added ensures FindRole(after, x.roleId).Some? {
      if x in rows {
        var i :| 0 <= i < |roles| && roles[i].id == x.roleId;
        assert after[i].id == x.roleId;
      }
    }
  }

  /** With the corrected validator in front and a fresh id, the created role holds, together with
      any permission of a module, every required permission of that module. */
  lemma CreatedRoleGrantsRequired(t: RoleTables, modules: seq<Module>, permissions: seq<Permission>,
                                  newId: string, name: string, description: string, sel: seq<ModuleSelection>)
    requires UniquePermissionIds(permissions)
    requires ModulesErrorIntended(modules, permissions, sel) == None
    requires RowsReferenceRoles(t.roles, t.rows) && FindRole(t.roles, newId).None?
    requires CreateRole(t, newId, name, description, sel).Success?
    ensures GrantsRequired(permissions, PermissionIdsOf(CreateRole(t, newId, name, description, sel).value.rows, newId))
  {
    assert forall x :: x in t.rows ==> x.roleId != newId;
    PermissionIdsOfNoRows(t.rows, newId);
    IntendedChainGrantsRequired(modules, permissions, sel);
  }

  /** The handler: the name check, the new role, then one `Add` per selected permission id. */
  method HandleCreateRole(store: Store, newId: string, name: string, description: string, sel: seq<ModuleSelection>)
    returns (r: Result<string, Failure>)
    modifies store
    ensures store.users == old(store.users)
    ensures match CreateRole(RoleTables(old(store.roles), old(store.rolePermissions)), newId, name, description, sel)
      case Failure(e) => r == Failure(e) && store.roles == old(store.roles) && store.rolePermissions == old(store.rolePermissions)
      case Success(c) => r == Success(newId) && store.roles == c.roles && store.rolePermissions == c.rows
    ensures old(store.Valid()) && FindRole(old(store.roles), newId).None? ==> store.Valid()
  {
    if RoleNameTaken(store.roles, name) {
      return Failure(DomainException(RoleNameExists(name)));
    }
    ghost var before := RoleTables(store.roles, store.rolePermissions);
    var newRole := Role(newId, name, description, true);
    store.roles := store.roles + [newRole];
    AddRows(store, newId, Flatten(sel));
    if old(store.Valid()) && FindRole(before.roles, newId).None? {
      CreateRoleWithFreshId(before, newId, name, description, sel);
    }
    return Success(newRole.id);
  }
}
