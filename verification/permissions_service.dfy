/** The permission catalog as the role screens read it: every module with its permissions, both
    in catalog order, and the same listing with the permissions of one role marked as selected. */
module PermissionsService {
  import opened Seqs
  import opened Domain
  import opened PermissionsFactory

  datatype PermissionResponse = PermissionResponse(id: string, name: string, order: int, required: bool, selected: bool)

  datatype ModuleWithPermissions = ModuleWithPermissions(id: string, name: string, order: int, permissions: seq<PermissionResponse>)

  function ToResponse(p: Permission): PermissionResponse
  {
    PermissionResponse(p.id, p.name, p.order, p.required, false)
  }

  /** The permissions of module `moduleId` as responses, ordered by `Order`. */
  function PermissionsOfModule(table: seq<Permission>, moduleId: string): (r: seq<PermissionResponse>)
    ensures SortedBy(r, (x: PermissionResponse) => x.order)
    ensures multiset(r) == multiset(MapSeq(Filter(table, (p: Permission) => p.moduleId == moduleId), ToResponse))
    ensures forall i :: 0 <= i < |r| ==> !r[i].selected
  {
    var responses := MapSeq(Filter(table, (p: Permission) => p.moduleId == moduleId), ToResponse);
    var sorted := SortBy(responses, (x: PermissionResponse) => x.order);
    assert forall i :: 0 <= i < |sorted| ==> sorted[i] in multiset(responses);
    sorted
  }

  function MapSeq<A, B>(s: seq<A>, f: A -> B): (r: seq<B>)
    ensures |r| == |s| && forall i :: 0 <= i < |s| ==> r[i] == f(s[i])
  {
    seq(|s|, i requires 0 <= i < |s| => f(s[i]))
  }

  /** A module with its permissions, none selected. */
  function Entry(table: seq<Permission>, m: Module): ModuleWithPermissions
  {
    ModuleWithPermissions(m.id, m.name, m.order, PermissionsOfModule(table, m.id))
  }

  /** Every module, ordered by `Order`, each with its permissions ordered by `Order`. */
  function GetModulesWithPermissions(modules: seq<Module>, table: seq<Permission>): (r: seq<ModuleWithPermissions>)
    ensures SortedBy(r, (x: ModuleWithPermissions) => x.order)
    ensures multiset(r) == multiset(MapSeq(modules, (m: Module) => Entry(table, m)))
  {
    SortBy(MapSeq(modules, (m: Module) => Entry(table, m)), (x: ModuleWithPermissions) => x.order)
  }

  /** The entries of `GetModulesWithPermissions` are exactly the modules' entries: one per module,
      and every permission of a listed entry belongs to that module and is unselected. */
  lemma ModulesListingShape(modules: seq<Module>, table: seq<Permission>)
    ensures var r := GetModulesWithPermissions(modules, table);
      && |r| == |modules|
      && (forall m :: m in modules ==> Entry(table, m) in r)
      && (forall i :: 0 <= i < |r| ==> exists m :: m in modules && r[i] == Entry(table, m))
  {
    var r := GetModulesWithPermissions(modules, table);
    var entries := MapSeq(modules, (m: Module) => Entry(table, m));
    assert |r| == |multiset(r)| == |multiset(entries)| == |entries|;
    forall m | m in modules ensures Entry(table, m) in r {
      var i :| 0 <= i < |modules| && modules[i] == m;
      assert entries[i] in multiset(entries);
    }
    forall i | 0 <= i < |r| ensures exists m :: m in modules && r[i] == Entry(table, m) {
      assert r[i] in multiset(entries);
      var k :| 0 <= k < |entries| && entries[k] == r[i];
      assert modules[k] in modules;
    }
  }

  /** A permission response belongs to `PermissionsOfModule(table, moduleId)` exactly when it is
      the response of a permission of that module. */
  lemma PermissionsOfModuleMembers(table: seq<Permission>, moduleId: string, x: PermissionResponse)
    ensures x in PermissionsOfModule(table, moduleId) <==>
      exists p :: p in table && p.moduleId == moduleId && ToResponse(p) == x
  {
    var filtered := Filter(table, (p: Permission) => p.moduleId == moduleId);
    var responses := MapSeq(filtered, ToResponse);
    assert x in PermissionsOfModule(table, moduleId) <==> x in multiset(responses);
    if x in responses {
      var i :| 0 <= i < |responses| && responses[i] == x;
      assert filtered[i] in filtered;
    }
    if exists p :: p in table && p.moduleId == moduleId && ToResponse(p) == x {
      var p :| p in table && p.moduleId == moduleId && ToResponse(p) == x;
      assert p in filtered;
      var i :| 0 <= i < |filtered| && filtered[i] == p;
      assert responses[i] == x;
    }
  }

  /** The listing of `GetModulesWithPermissions` with a permission marked selected exactly when
      the role has a row for it; the loops overwrite `Selected` in place. */
  method GetModulesWithPermissionsByRole(modules: seq<Module>, table: seq<Permission>, rows: seq<RolePermission>, roleId: string)
    returns (r: seq<ModuleWithPermissions>)
    ensures var listing := GetModulesWithPermissions(modules, table);
      && |r| == |listing|
      && forall i :: 0 <= i < |r| ==>
        && r[i].id == listing[i].id && r[i].name == listing[i].name && r[i].order == listing[i].order
        && |r[i].permissions| == |listing[i].permissions|
        && forall j :: 0 <= j < |r[i].permissions| ==>
          r[i].permissions[j] == listing[i].permissions[j].(selected := RolePermission(roleId, listing[i].permissions[j].id) in rows)
  {
    r := GetModulesWithPermissions(modules, table);
    ghost var listing := r;
    var granted := PermissionIdsOf(rows, roleId);
    for moduleIndex := 0 to |r|
      invariant |r| == |listing|
      invariant forall i :: moduleIndex <= i < |r| ==> r[i] == listing[i]
      invariant forall i :: 0 <= i < moduleIndex ==>
        && r[i].id == listing[i].id && r[i].name == listing[i].name && r[i].order == listing[i].order
        && |r[i].permissions| == |listing[i].permissions|
        && forall j :: 0 <= j < |r[i].permissions| ==>
          r[i].permissions[j] == listing[i].permissions[j].(selected := RolePermission(roleId, listing[i].permissions[j].id) in rows)
    {
      var entry := r[moduleIndex];
      var permissions := entry.permissions;
      for permissionIndex := 0 to |permissions|
        invariant |permissions| == |entry.permissions|
        invariant forall j :: permissionIndex <= j < |permissions| ==> permissions[j] == entry.permissions[j]
        invariant forall j :: 0 <= j < permissionIndex ==>
          permissions[j] == entry.permissions[j].(selected := RolePermission(roleId, entry.permissions[j].id) in rows)
      {
        var permission := permissions[permissionIndex];
        permissions := permissions[permissionIndex := permission.(selected := permission.id in granted)];
      }
      r := r[moduleIndex := entry.(permissions := permissions)];
    }
  }

  /** Modules already in `Order` order are listed in their own order. */
  lemma ListingOfOrderedModules(modules: seq<Module>, table: seq<Permission>)
    requires SortedBy(modules, (m: Module) => m.order)
    ensures GetModulesWithPermissions(modules, table) == MapSeq(modules, (m: Module) => Entry(table, m))
  {
    var entries := MapSeq(modules, (m: Module) => Entry(table, m));
    assert forall i :: 0 <= i < |entries| ==> entries[i].order == modules[i].order;
    SortBySorted(entries, (x: ModuleWithPermissions) => x.order);
  }

  /** On the catalog, whatever the permission table, the listing is the four modules in catalog
      order: Dashboard, Users, Roles, Products. */
  lemma CatalogListingInOrder(ids: PermissionIds, table: seq<Permission>)
    ensures var listing := GetModulesWithPermissions(CreateModulesWithPermissions(ids), table);
      && |listing| == 4
      && listing[0].id == DashboardModule && listing[1].id == UsersModule
      && listing[2].id == RolesModule && listing[3].id == ProductsModule
  {
    var catalog := CreateModulesWithPermissions(ids);
    CatalogModules(ids);
    ListingOfOrderedModules(catalog, table);
  }
}
