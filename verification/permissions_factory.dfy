/** The constant permission catalog: four modules, each with its ordered permissions.
    The permission id constants are not part of this model, so the catalog is built from a
    record of opaque ids. */
module PermissionsFactory {
  import opened Seqs
  import opened Domain

  const DashboardModule := "Modules.Dashboard"
  const UsersModule := "Modules.Users"
  const RolesModule := "Modules.Roles"
  const ProductsModule := "Modules.Products"

  /** The permission id constants, one per catalog permission. */
  datatype PermissionIds = PermissionIds(
    dashboardView: string,
    usersView: string, usersCreate: string, usersEdit: string, usersDelete: string,
    rolesView: string, rolesCreate: string, rolesEdit: string, rolesDelete: string,
    productsView: string, productsCreate: string, productsEdit: string, productsDelete: string)
  {
    function All(): seq<string>
    {
      [dashboardView,
       usersView, usersCreate, usersEdit, usersDelete,
       rolesView, rolesCreate, rolesEdit, rolesDelete,
       productsView, productsCreate, productsEdit, productsDelete]
    }

    /** The constants are pairwise different. */
    predicate Distinct()
    {
      NoDuplicates(All())
    }
  }

  /** The View/Create/Edit/Delete permissions of a module, View being the required one. */
  function Crud(moduleId: string, view: string, create: string, edit: string, delete: string): seq<Permission>
  {
    [Permission(view, moduleId, "View", 1, true),
     Permission(create, moduleId, "Create", 2, false),
     Permission(edit, moduleId, "Edit", 3, false),
     Permission(delete, moduleId, "Delete", 4, false)]
  }

  function Dashboard(ids: PermissionIds): Module
  {
    Module(DashboardModule, "Dashboard", 1, [Permission(ids.dashboardView, DashboardModule, "Dashboard", 1, false)])
  }

  function Users(ids: PermissionIds): Module
  {
    Module(UsersModule, "Users", 2, Crud(UsersModule, ids.usersView, ids.usersCreate, ids.usersEdit, ids.usersDelete))
  }

  function Roles(ids: PermissionIds): Module
  {
    Module(RolesModule, "Roles", 3, Crud(RolesModule, ids.rolesView, ids.rolesCreate, ids.rolesEdit, ids.rolesDelete))
  }

  function Products(ids: PermissionIds): Module
  {
    Module(ProductsModule, "Products", 4,
      Crud(ProductsModule, ids.productsView, ids.productsCreate, ids.productsEdit, ids.productsDelete))
  }

  function CreateModulesWithPermissions(ids: PermissionIds): seq<Module>
  {
    [Dashboard(ids), Users(ids), Roles(ids), Products(ids)]
  }

  /** The permission table the catalog is stored as: every permission, module by module. */
  function PermissionTable(catalog: seq<Module>): (table: seq<Permission>)
    ensures forall p :: p in table <==> exists m :: m in catalog && p in m.permissions
  {
    if catalog == [] then []
    else
      assert forall m :: m in catalog ==> m == catalog[0] || m in catalog[1..];
      catalog[0].permissions + PermissionTable(catalog[1..])
  }

  function PermissionIdsOfTable(table: seq<Permission>): (ids: seq<string>)
    ensures |ids| == |table|
    ensures forall i :: 0 <= i < |table| ==> ids[i] == table[i].id
  {
    seq(|table|, i requires 0 <= i < |table| => table[i].id)
  }

  /** The catalog is four modules, Dashboard, Users, Roles, Products, with orders 1 to 4. */
  lemma CatalogModules(ids: PermissionIds)
    ensures var c := CreateModulesWithPermissions(ids);
      && |c| == 4
      && c[0].id == DashboardModule && c[1].id == UsersModule && c[2].id == RolesModule && c[3].id == ProductsModule
      && c[0].name == "Dashboard" && c[1].name == "Users" && c[2].name == "Roles" && c[3].name == "Products"
      && forall i :: 0 <= i < 4 ==> c[i].order == i + 1
  {
  }

  /** Module ids are unique. */
  lemma ModuleIdsDistinct(ids: PermissionIds)
    ensures var c := CreateModulesWithPermissions(ids);
      forall i, j :: 0 <= i < j < |c| ==> c[i].id != c[j].id
  {
  }

  /** Every permission names the module that contains it, and permission orders run 1, 2, 3, ... */
  lemma PermissionsBelongToTheirModule(ids: PermissionIds)
    ensures forall m :: m in CreateModulesWithPermissions(ids) ==>
      forall i :: 0 <= i < |m.permissions| ==> m.permissions[i].moduleId == m.id && m.permissions[i].order == i + 1
  {
  }

  /** Dashboard has no required permission; Users, Roles and Products each have exactly one,
      their order-1 "View". */
  lemma RequiredPermissionsOfCatalog(ids: PermissionIds)
    ensures forall p :: p in Dashboard(ids).permissions ==> !p.required
    ensures forall m :: m in [Users(ids), Roles(ids), Products(ids)] ==>
      && m.permissions[0].required && m.permissions[0].name == "View" && m.permissions[0].order == 1
      && forall i :: 1 <= i < |m.permissions| ==> !m.permissions[i].required
  {
  }

  /** The permission table lists exactly the thirteen id constants, in declaration order; so its
      ids are unique whenever the constants are. */
  lemma {:induction false} CatalogPermissionIds(ids: PermissionIds)
    ensures PermissionIdsOfTable(PermissionTable(CreateModulesWithPermissions(ids))) == ids.All()
    ensures ids.Distinct() ==> UniquePermissionIds(PermissionTable(CreateModulesWithPermissions(ids)))
  {
    CatalogTable(ids);
    var t := PermissionTable(CreateModulesWithPermissions(ids));
    assert forall i :: 0 <= i < |t| ==> t[i].id == ids.All()[i];
  }

  /** The four module ids differ (at their ninth character). */
  lemma ModuleConstantsDistinct()
    ensures DashboardModule != UsersModule && DashboardModule != RolesModule && DashboardModule != ProductsModule
    ensures UsersModule != RolesModule && UsersModule != ProductsModule && RolesModule != ProductsModule
  {
    assert DashboardModule[8] == 'D' && UsersModule[8] == 'U' && RolesModule[8] == 'R' && ProductsModule[8] == 'P';
  }

  /** The catalog's table is the four modules' permissions one after the other. */
  lemma CatalogTable(ids: PermissionIds)
    ensures PermissionTable(CreateModulesWithPermissions(ids)) ==
      Dashboard(ids).permissions + Users(ids).permissions + Roles(ids).permissions + Products(ids).permissions
  {
    var c := CreateModulesWithPermissions(ids);
    assert c[1..][1..][1..][1..] == [];
    assert PermissionTable(c[1..][1..][1..]) == Products(ids).permissions;
    assert PermissionTable(c[1..][1..]) == Roles(ids).permissions + Products(ids).permissions;
    assert PermissionTable(c[1..]) == Users(ids).permissions + Roles(ids).permissions + Products(ids).permissions;
  }

}
