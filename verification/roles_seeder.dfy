/** Seeding of the administrator role: on an empty role store, an active "Admin" role is created
    and granted every permission of the catalog. */
module RolesSeeder {
  import opened Seqs
  import opened Domain
  import opened Database
  import opened PermissionsFactory
  import opened RoleValidator
  import opened RoleValidatorProperties
  import opened RoleHandlers

  function AdminRole(adminRoleId: string): Role
  {
    Role(adminRoleId, "Admin", "Admin Role", true)
  }

  /** The seeded tables: unchanged when any role exists; otherwise the admin role and one row per
      catalog permission, module by module. */
  function SeedRoles(t: RoleTables, adminRoleId: string, catalog: seq<Module>): (s: RoleTables)
    ensures t.roles != [] ==> s == t
    ensures t.roles == [] ==> s.roles == [AdminRole(adminRoleId)]
    ensures t.roles == [] ==>
      PermissionIdsOf(s.rows, adminRoleId) == PermissionIdsOf(t.rows, adminRoleId) + PermissionIdsOfTable(PermissionTable(catalog))
  {
    if t.roles != [] then t
    else
      var ids := PermissionIdsOfTable(PermissionTable(catalog));
      PermissionIdsOfAppend(t.rows, RowsFor(adminRoleId, ids), adminRoleId);
      PermissionIdsOfRowsFor(adminRoleId, ids, adminRoleId);
      RoleTables([AdminRole(adminRoleId)], t.rows + RowsFor(adminRoleId, ids))
  }

  /** Seeding twice is seeding once. */
  lemma SeedRolesIdempotent(t: RoleTables, adminRoleId: string, catalog: seq<Module>)
    ensures SeedRoles(SeedRoles(t, adminRoleId, catalog), adminRoleId, catalog) == SeedRoles(t, adminRoleId, catalog)
  {
  }

  /** Seeding an empty store whose rows all point at stored roles gives the admin exactly the
      catalog's permission ids, in catalog order, and keeps the store's integrity. */
  lemma SeededAdminHoldsCatalog(t: RoleTables, adminRoleId: string, ids: PermissionIds)
    requires t.roles == [] && RowsReferenceRoles(t.roles, t.rows)
    ensures var s := SeedRoles(t, adminRoleId, CreateModulesWithPermissions(ids));
      && PermissionIdsOf(s.rows, adminRoleId) == ids.All()
      && UniqueRoleIds(s.roles) && UniqueRoleNames(s.roles) && RowsReferenceRoles(s.roles, s.rows)
  {
    var s := SeedRoles(t, adminRoleId, CreateModulesWithPermissions(ids));
    PermissionIdsOfNoRows(t.rows, adminRoleId);
    CatalogPermissionIds(ids);
    forall x | x in s.rows ensures FindRole(s.roles, x.roleId).Some? {
      assert s.roles[0].id == adminRoleId;
    }
  }

  /** A role holding every permission id of the table, without repeats, passes the required-
      permission rule for any module and respects every required flag. */
  lemma FullGrantSatisfiesRequiredRule(table: seq<Permission>, granted: seq<string>, moduleId: string)
    requires UniquePermissionIds(table) && NoDuplicates(granted)
    requires forall i :: 0 <= i < |table| ==> table[i].id in granted
    ensures RequiredCountMatches(table, ModuleSelection(moduleId, granted))
    ensures GrantsRequired(table, granted)
  {
    RequiredRuleIffCovered(table, ModuleSelection(moduleId, granted));
    forall q | q in table ensures q.id in granted {
      var i :| 0 <= i < |table| && table[i] == q;
    }
  }

  /** When the permission ids are distinct, the seeded admin passes the required-permission rule
      of every catalog module and respects every required flag. */
  lemma SeededAdminSatisfiesRequiredRule(t: RoleTables, adminRoleId: string, ids: PermissionIds, moduleId: string)
    requires t.roles == [] && RowsReferenceRoles(t.roles, t.rows) && ids.Distinct()
    ensures var catalog := CreateModulesWithPermissions(ids);
      var s := SeedRoles(t, adminRoleId, catalog);
      && RequiredCountMatches(PermissionTable(catalog), ModuleSelection(moduleId, PermissionIdsOf(s.rows, adminRoleId)))
      && GrantsRequired(PermissionTable(catalog), PermissionIdsOf(s.rows, adminRoleId))
  {
    var catalog := CreateModulesWithPermissions(ids);
    var table := PermissionTable(catalog);
    SeededAdminHoldsCatalog(t, adminRoleId, ids);
    CatalogPermissionIds(ids);
    assert forall i :: 0 <= i < |table| ==> table[i].id == PermissionIdsOfTable(table)[i];
    FullGrantSatisfiesRequiredRule(table, ids.All(), moduleId);
  }

  lemma {:induction false} PermissionTableAppend(a: seq<Module>, m: Module)
    ensures PermissionTable(a + [m]) == PermissionTable(a) + m.permissions
  {
    if a == [] {
      assert [m][1..] == [];
    } else {
      assert (a + [m])[1..] == a[1..] + [m];
      PermissionTableAppend(a[1..], m);
    }
  }

  lemma IdsAppend(a: seq<Permission>, b: seq<Permission>)
    ensures PermissionIdsOfTable(a + b) == PermissionIdsOfTable(a) + PermissionIdsOfTable(b)
  {
  }

  lemma RowsForConcat(roleId: string, a: seq<string>, b: seq<string>)
    ensures RowsFor(roleId, a + b) == RowsFor(roleId, a) + RowsFor(roleId, b)
  {
    var l, r := RowsFor(roleId, a + b), RowsFor(roleId, a) + RowsFor(roleId, b);
    assert |l| == |r|;
    forall i | 0 <= i < |l| ensures l[i] == r[i] {
      if i >= |a| {
        assert (a + b)[i] == b[i - |a|];
      }
    }
  }


  /** The rows the loops of `CreateRoles` add, module by module. */
  function SeedRows(roleId: string, catalog: seq<Module>): seq<RolePermission>
  {
    if catalog == [] then []
    else SeedRows(roleId, catalog[..|catalog| - 1]) + RowsFor(roleId, PermissionIdsOfTable(catalog[|catalog| - 1].permissions))
  }

  /** Module by module, the rows are one per permission of the catalog's table, in order. */
  lemma {:induction false} SeedRowsAreTableRows(roleId: string, catalog: seq<Module>)
    ensures SeedRows(roleId, catalog) == RowsFor(roleId, PermissionIdsOfTable(PermissionTable(catalog)))
  {
    if catalog != [] {
      var init, last := catalog[..|catalog| - 1], catalog[|catalog| - 1];
      SeedRowsAreTableRows(roleId, init);
      assert catalog == init + [last];
      PermissionTableAppend(init, last);
      IdsAppend(PermissionTable(init), last.permissions);
      RowsForConcat(roleId, PermissionIdsOfTable(PermissionTable(init)), PermissionIdsOfTable(last.permissions));
    }
  }


  /** The inner loop of `CreateRoles`: one row per permission of a module, in order. */
  method AddModuleRows(store: Store, roleId: string, permissions: seq<Permission>)
    modifies store
    ensures store.rolePermissions == old(store.rolePermissions) + RowsFor(roleId, PermissionIdsOfTable(permissions))
    ensures store.roles == old(store.roles) && store.users == old(store.users)
  {
    for i := 0 to |permissions|
      invariant store.rolePermissions == old(store.rolePermissions) + RowsFor(roleId, PermissionIdsOfTable(permissions[..i]))
      invariant store.roles == old(store.roles) && store.users == old(store.users)
    {
      var permission := permissions[i];
      assert permissions[..i + 1] == permissions[..i] + [permission];
      IdsAppend(permissions[..i], [permission]);
      RowsForConcat(roleId, PermissionIdsOfTable(permissions[..i]), [permission.id]);
      store.rolePermissions := store.rolePermissions + [RolePermission(roleId, permission.id)];
    }
    assert permissions[..|permissions|] == permissions;
  }

  /** `CreateRoles`: the guard, the admin role, then one row per permission of each catalog
      module, module by module (the catalog is `CreateModulesWithPermissions`). */
  method CreateRoles(store: Store, adminRoleId: string, catalog: seq<Module>)
    modifies store
    ensures var s := SeedRoles(RoleTables(old(store.roles), old(store.rolePermissions)), adminRoleId, catalog);
      store.roles == s.roles && store.rolePermissions == s.rows
    ensures store.users == old(store.users)
  {
    if store.roles != [] {
      return;
    }
    var adminRole := AdminRole(adminRoleId);
    store.roles := store.roles + [adminRole];
    assert catalog[..0] == [];
    assert old(store.rolePermissions) + [] == old(store.rolePermissions);
    for moduleIndex := 0 to |catalog|
      invariant store.rolePermissions == old(store.rolePermissions) + SeedRows(adminRoleId, catalog[..moduleIndex])
      invariant store.roles == [adminRole] && store.users == old(store.users)
    {
      var current := catalog[moduleIndex];
      ghost var done := SeedRows(adminRoleId, catalog[..moduleIndex]);
      ghost var more := RowsFor(adminRoleId, PermissionIdsOfTable(current.permissions));
      AddModuleRows(store, adminRoleId, current.permissions);
      assert catalog[..moduleIndex + 1][..moduleIndex] == catalog[..moduleIndex];
      assert SeedRows(adminRoleId, catalog[..moduleIndex + 1]) == done + more;
      AppendAssoc(old(store.rolePermissions), done, more);
    }
    assert catalog[..|catalog|] == catalog;
    SeedRowsAreTableRows(adminRoleId, catalog);
  }

}
