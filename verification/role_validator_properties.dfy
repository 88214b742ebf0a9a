/** What the role validator's rules mean, the gap in its last rule, and the validator the rules
    evidently intend. */
module RoleValidatorProperties {
  import opened Wrappers
  import opened Seqs
  import opened Domain
  import opened PermissionsFactory
  import opened RoleValidator

  // ----- the meaning of the individual rules -----

  /** The module-uniqueness count test holds exactly when no two entries name the same module. */
  lemma ModulesUniqueIff(sel: seq<ModuleSelection>)
    ensures AllModulesAreUnique(sel) <==> forall i, j :: 0 <= i < j < |sel| ==> sel[i].id != sel[j].id
  {
    DistinctCount(ModuleIds(sel));
  }

  /** The permission-uniqueness count test is global: it holds exactly when the flattened
      selection has no repeated id, even across modules. */
  lemma PermissionsUniqueIff(sel: seq<ModuleSelection>)
    ensures AllPermissionsAreUnique(sel) <==> NoDuplicates(Flatten(sel))
  {
    DistinctCount(Flatten(sel));
  }

  /** At least one module is selected exactly when some permission is listed at all. */
  lemma AtLeastOneSelectedIff(sel: seq<ModuleSelection>)
    ensures AtLeastOneModuleSelected(sel) <==> Flatten(sel) != []
  {
    if Flatten(sel) != [] {
      assert Flatten(sel)[0] in Flatten(sel);
    }
    if AtLeastOneModuleSelected(sel) {
      var m :| m in sel && |m.permissionsIds| > 0;
      assert m.permissionsIds[0] in Flatten(sel);
    }
  }

  lemma {:induction false} CountListedRequiredIsIntersection(listed: seq<string>, required: seq<string>)
    requires NoDuplicates(listed)
    ensures CountListedRequired(listed, required) == |Elements(listed) * Elements(required)|
  {
    if listed != [] {
      var init, x := listed[..|listed| - 1], listed[|listed| - 1];
      assert listed == init + [x];
      LastNotInInit(listed);
      CountListedRequiredIsIntersection(init, required);
      ElementsSnoc(init, x);
      assert x in required <==> x in Elements(required);
      IntersectionAddOne(Elements(init), Elements(required), x);
    }
  }


  lemma SubsetOfSameSize<T>(a: set<T>, b: set<T>)
    requires a <= b && |a| == |b|
    ensures a == b
  {
    assert b == a + (b - a);
    assert a * (b - a) == {};
    assert |b - a| == 0;
    forall x | x in b ensures x in a {
      assert x !in b - a;
    }
  }

  /** Given a duplicate-free listing and duplicate-free required ids, the count of listed ids that
      are required equals the number of required ids exactly when every required id is listed. */
  lemma RequiredCountIffCovered(listed: seq<string>, required: seq<string>)
    requires NoDuplicates(listed) && NoDuplicates(required)
    ensures CountListedRequired(listed, required) == |required| <==> forall q :: q in required ==> q in listed
  {
    CountListedRequiredIsIntersection(listed, required);
    DistinctCount(required);
    var both, req := Elements(listed) * Elements(required), Elements(required);
    if CountListedRequired(listed, required) == |required| {
      SubsetOfSameSize(both, req);
      forall q | q in required ensures q in listed {
        assert q in req;
        assert q in both;
      }
    }
    if forall q :: q in required ==> q in listed {
      forall q | q in req ensures q in both {
        assert q in required;
        assert q in listed;
      }
      assert both == req;
      assert |both| == |required|;
    }
  }

  lemma {:induction false} RequiredPermissionsNoDuplicates(permissions: seq<Permission>, moduleId: string)
    requires UniquePermissionIds(permissions)
    ensures NoDuplicates(RequiredPermissions(permissions, moduleId))
  {
    if permissions != [] {
      var rest := permissions[1..];
      assert UniquePermissionIds(rest) by {
        forall i, j | 0 <= i < j < |rest| ensures rest[i].id != rest[j].id {
          assert rest[i] == permissions[i + 1] && rest[j] == permissions[j + 1];
        }
      }
      RequiredPermissionsNoDuplicates(rest, moduleId);
      var p := permissions[0];
      var restIds := RequiredPermissions(rest, moduleId);
      assert p.id !in restIds by {
        forall r | r in rest ensures r.id != p.id {
          var i :| 0 <= i < |rest| && rest[i] == r;
          assert rest[i] == permissions[i + 1];
        }
      }
      if p.moduleId == moduleId && p.required {
        var s := [p.id] + restIds;
        forall i, j | 0 <= i < j < |s| ensures s[i] != s[j] {
          assert s[j] == restIds[j - 1];
          if i > 0 {
            assert s[i] == restIds[i - 1];
          }
        }
      }
    }
  }

  /** With unique permission ids and a duplicate-free listing, a module passes the required-
      permission test exactly when every required permission of that module is listed. */
  lemma RequiredRuleIffCovered(permissions: seq<Permission>, m: ModuleSelection)
    requires UniquePermissionIds(permissions) && NoDuplicates(m.permissionsIds)
    ensures RequiredCountMatches(permissions, m) <==>
      forall q :: q in permissions && q.moduleId == m.id && q.required ==> q.id in m.permissionsIds
  {
    var required := RequiredPermissions(permissions, m.id);
    RequiredPermissionsNoDuplicates(permissions, m.id);
    RequiredCountIffCovered(m.permissionsIds, required);
  }

  /** The count of valid modules reaches the number of modules exactly when all are valid. */
  lemma {:induction false} ValidModuleCountIsFull(permissions: seq<Permission>, sel: seq<ModuleSelection>)
    ensures ValidModuleCount(permissions, sel) <= |sel|
    ensures ValidModuleCount(permissions, sel) == |sel| <==>
      forall k :: 0 <= k < |sel| ==> RequiredCountMatches(permissions, sel[k])
  {
    if sel != [] {
      var init := sel[..|sel| - 1];
      ValidModuleCountIsFull(permissions, init);
      assert forall k :: 0 <= k < |init| ==> init[k] == sel[k];
    }
  }

  // ----- the last rule as written -----

  /** When no submitted module is empty, the last rule holds exactly when every module lists all
      of its required permissions. */
  lemma CountRuleWithoutEmptyModules(permissions: seq<Permission>, sel: seq<ModuleSelection>)
    requires forall k :: 0 <= k < |sel| ==> IsSelected(sel[k])
    ensures SelectedModulesValid(permissions, sel) <==>
      forall k :: 0 <= k < |sel| ==> RequiredCountMatches(permissions, sel[k])
  {
    FilterAll(sel, IsSelected);
    ValidModuleCountIsFull(permissions, sel);
  }

  /** A set of granted permission ids respects the required flags: whoever holds any permission
      of a module holds every required permission of that module. */
  predicate GrantsRequired(permissions: seq<Permission>, granted: seq<string>)
  {
    forall p, q :: p in permissions && q in permissions && p.id in granted && q.moduleId == p.moduleId && q.required
      ==> q.id in granted
  }

  /** In the catalog table, the Dashboard module has no required permission. */
  lemma DashboardRequiresNothing(ids: PermissionIds)
    ensures RequiredPermissions(PermissionTable(CreateModulesWithPermissions(ids)), DashboardModule) == []
  {
    var table := PermissionTable(CreateModulesWithPermissions(ids));
    CatalogTable(ids);
    ModuleConstantsDistinct();
    forall p | p in table && p.moduleId == DashboardModule ensures !p.required {
      if p !in Dashboard(ids).permissions {
        assert p in Users(ids).permissions || p in Roles(ids).permissions || p in Products(ids).permissions;
      }
    }
    NothingRequired(table, DashboardModule);
  }



  lemma {:induction false} NothingRequired(permissions: seq<Permission>, moduleId: string)
    requires forall p :: p in permissions && p.moduleId == moduleId ==> !p.required
    ensures RequiredPermissions(permissions, moduleId) == []
  {
    if permissions != [] {
      NothingRequired(permissions[1..], moduleId);
    }
  }

  /** Facts about the Users permissions of the catalog table. */
  lemma UsersPermissionsInTable(ids: PermissionIds)
    requires ids.Distinct()
    ensures var table := PermissionTable(CreateModulesWithPermissions(ids));
      && UniquePermissionIds(table)
      && Permission(ids.usersView, UsersModule, "View", 1, true) in table
      && Permission(ids.usersCreate, UsersModule, "Create", 2, false) in table
      && ids.usersView != ids.usersCreate
  {
    CatalogPermissionIds(ids);
    assert ids.All()[1] == ids.usersView && ids.All()[2] == ids.usersCreate;
    assert Users(ids) in CreateModulesWithPermissions(ids);
    assert Users(ids).permissions[0] == Permission(ids.usersView, UsersModule, "View", 1, true);
    assert Users(ids).permissions[1] == Permission(ids.usersCreate, UsersModule, "Create", 2, false);
  }

  /** Facts about the Roles permissions of the catalog table. */
  lemma RolesPermissionsInTable(ids: PermissionIds)
    requires ids.Distinct()
    ensures var table := PermissionTable(CreateModulesWithPermissions(ids));
      && Permission(ids.rolesView, RolesModule, "View", 1, true) in table
      && Permission(ids.rolesCreate, RolesModule, "Create", 2, false) in table
      && ids.usersView != ids.rolesCreate && ids.rolesView != ids.usersView && ids.rolesView != ids.rolesCreate
  {
    CatalogPermissionIds(ids);
    assert ids.All()[1] == ids.usersView && ids.All()[5] == ids.rolesView && ids.All()[6] == ids.rolesCreate;
    assert Roles(ids) in CreateModulesWithPermissions(ids);
    assert Roles(ids).permissions[0] == Permission(ids.rolesView, RolesModule, "View", 1, true);
    assert Roles(ids).permissions[1] == Permission(ids.rolesCreate, RolesModule, "Create", 2, false);
  }

  /** The corrected chain's prefix: every rule but the last holds for a selection of known,
      distinct modules listing distinct permissions of their own, one of them non-empty. */
  lemma IntendedChainPrefixHolds(catalog: seq<Module>, table: seq<Permission>, sel: seq<ModuleSelection>)
    requires |sel| > 0 && ModulesKnown(catalog, sel) && PermissionsKnownInModule(table, sel)
    requires forall i, j :: 0 <= i < j < |sel| ==> sel[i].id != sel[j].id
    requires NoDuplicates(Flatten(sel)) && Flatten(sel) != []
    ensures ModulesErrorIntended(catalog, table, sel) ==
      if SelectedModulesValidIntended(table, sel) then None else Some(RequiredPermissionsSelected)
  {
    ModulesUniqueIff(sel);
    PermissionsUniqueIff(sel);
    AtLeastOneSelectedIff(sel);
  }

  /** Every rule of the chain but the last holds for a selection of known, distinct modules listing
      known, distinct permissions, one of them non-empty. */
  lemma ChainPrefixHolds(catalog: seq<Module>, table: seq<Permission>, sel: seq<ModuleSelection>)
    requires |sel| > 0 && ModulesKnown(catalog, sel) && PermissionsKnown(table, sel)
    requires forall i, j :: 0 <= i < j < |sel| ==> sel[i].id != sel[j].id
    requires NoDuplicates(Flatten(sel)) && Flatten(sel) != []
    ensures ModulesError(catalog, table, sel) ==
      if SelectedModulesValid(table, sel) then None else Some(RequiredPermissionsSelected)
  {
    ModulesUniqueIff(sel);
    PermissionsUniqueIff(sel);
    AtLeastOneSelectedIff(sel);
  }

  /** An empty entry for a module without required permissions, next to an entry that lists a
      non-required permission of a module but not its required one, passes the whole chain. */
  lemma EmptyEntryMasksInvalidOne(catalog: seq<Module>, table: seq<Permission>, free: string, view: Permission, create: Permission)
    requires UniquePermissionIds(table)
    requires view in table && create in table && view.id != create.id
    requires view.moduleId == create.moduleId && view.required && free != view.moduleId
    requires RequiredPermissions(table, free) == []
    requires ModuleKnown(catalog, free) && ModuleKnown(catalog, view.moduleId)
    ensures var sel := [ModuleSelection(free, []), ModuleSelection(view.moduleId, [create.id])];
      && ModulesError(catalog, table, sel) == None
      && !GrantsRequired(table, Flatten(sel))
      && ModulesErrorIntended(catalog, table, sel) == Some(RequiredPermissionsSelected)
  {
    var empty, invalid := ModuleSelection(free, []), ModuleSelection(view.moduleId, [create.id]);
    var sel := [empty, invalid];
    MaskedPairFacts(table, free, view, create);
    assert ModulesError(catalog, table, sel) == None by {
      ChainPrefixHolds(catalog, table, sel);
    }
    assert ModulesErrorIntended(catalog, table, sel) == Some(RequiredPermissionsSelected) by {
      IntendedChainPrefixHolds(catalog, table, sel);
    }
  }

  /** The step facts for an empty entry followed by an entry that lists a non-required permission
      of a module whose required one it leaves out. */
  lemma MaskedPairFacts(table: seq<Permission>, free: string, view: Permission, create: Permission)
    requires UniquePermissionIds(table)
    requires view in table && create in table && view.id != create.id
    requires view.moduleId == create.moduleId && view.required
    requires RequiredPermissions(table, free) == []
    ensures var invalid := ModuleSelection(view.moduleId, [create.id]);
      var sel := [ModuleSelection(free, []), invalid];
      && Flatten(sel) == [create.id]
      && !RequiredCountMatches(table, invalid)
      && SelectedModulesValid(table, sel)
      && !SelectedModulesValidIntended(table, sel)
      && PermissionsKnown(table, sel) && PermissionsKnownInModule(table, sel)
      && !GrantsRequired(table, Flatten(sel))
  {
    var empty, invalid := ModuleSelection(free, []), ModuleSelection(view.moduleId, [create.id]);
    var sel := [empty, invalid];
    PairCounts(table, empty, invalid);
    assert !RequiredCountMatches(table, invalid) by {
      RequiredRuleIffCovered(table, invalid);
      assert view.id !in invalid.permissionsIds;
    }
    assert PermissionKnown(table, create.id);
    assert sel[1].permissionsIds[0] == create.id;
    assert [invalid][..0] == [];
    assert ValidModuleCount(table, [invalid]) == 0;
    assert create.id in Flatten(sel) && view.id !in Flatten(sel);
  }


  lemma PairCounts(table: seq<Permission>, a: ModuleSelection, b: ModuleSelection)
    requires a.permissionsIds == [] && b.permissionsIds != []
    requires RequiredCountMatches(table, a) || RequiredPermissions(table, a.id) == []
    ensures Flatten([a, b]) == b.permissionsIds
    ensures ValidModuleCount(table, [a, b]) == 1 + (if RequiredCountMatches(table, b) then 1 else 0)
    ensures SelectedModules([a, b]) == [b]
  {
    var sel := [a, b];
    assert sel[1..] == [b] && [b][1..] == [];
    assert Flatten([b]) == b.permissionsIds + Flatten([]);
    assert Flatten(sel) == a.permissionsIds + Flatten([b]);
    assert sel[..1] == [a] && [a][..0] == [];
    assert ValidModuleCount(table, [a]) == ValidModuleCount(table, []) + 1;
    FilterAppend([a], [b], IsSelected);
    assert sel == [a] + [b];
    assert [a][1..] == [] && [b][1..] == [];
  }

  /** An entry that lists its own module's required permission and a non-required permission of
      another module passes the whole chain. */
  lemma ForeignPermissionPasses(catalog: seq<Module>, table: seq<Permission>, own: Permission,
                                foreignView: Permission, foreign: Permission)
    requires UniquePermissionIds(table)
    requires own in table && foreignView in table && foreign in table
    requires own.id != foreign.id && foreignView.id != own.id && foreignView.id != foreign.id
    requires own.required && foreignView.required && foreignView.moduleId == foreign.moduleId
    requires forall q :: q in table && q.moduleId == own.moduleId && q.required ==> q.id == own.id
    requires own.moduleId != foreign.moduleId
    requires ModuleKnown(catalog, own.moduleId)
    ensures var sel := [ModuleSelection(own.moduleId, [own.id, foreign.id])];
      && ModulesError(catalog, table, sel) == None
      && !GrantsRequired(table, Flatten(sel))
      && ModulesErrorIntended(catalog, table, sel) == Some(PermissionsExist)
  {
    var sel := [ModuleSelection(own.moduleId, [own.id, foreign.id])];
    assert Flatten(sel) == [own.id, foreign.id] by {
      assert sel[1..] == [];
    }
    assert RequiredCountMatches(table, sel[0]) by {
      RequiredRuleIffCovered(table, sel[0]);
    }
    assert ValidModuleCount(table, sel) == 1 by {
      assert sel[..0] == [];
    }
    assert SelectedModules(sel) == sel by {
      assert sel[1..] == [];
    }
    assert PermissionKnown(table, own.id) && PermissionKnown(table, foreign.id);
    ChainPrefixHolds(catalog, table, sel);
    assert foreign.id in Flatten(sel) && foreignView.id !in Flatten(sel);
    assert !PermissionsKnownInModule(table, sel) by {
      forall p | p in table && p.id == sel[0].permissionsIds[1] ensures p.moduleId != sel[0].id {
        SameIdSamePermission(table, p, foreign);
      }
    }
  }

  /** On the catalog: an empty Dashboard entry (Dashboard has no required permission) makes up for
      a Users entry that lists "Create" without the required "View"; the whole chain passes. */
  lemma CountRuleAdmitsMissingRequired(ids: PermissionIds)
    requires ids.Distinct()
    ensures var catalog := CreateModulesWithPermissions(ids);
      var table := PermissionTable(catalog);
      var sel := [ModuleSelection(DashboardModule, []), ModuleSelection(UsersModule, [ids.usersCreate])];
      && ModulesError(catalog, table, sel) == None
      && !GrantsRequired(table, Flatten(sel))
      && ModulesErrorIntended(catalog, table, sel) == Some(RequiredPermissionsSelected)
  {
    var catalog := CreateModulesWithPermissions(ids);
    UsersPermissionsInTable(ids);
    DashboardRequiresNothing(ids);
    assert ModuleKnown(catalog, DashboardModule) && ModuleKnown(catalog, UsersModule) by {
      assert catalog[0].id == DashboardModule && catalog[1].id == UsersModule;
    }
    EmptyEntryMasksInvalidOne(catalog, PermissionTable(catalog), DashboardModule,
      Permission(ids.usersView, UsersModule, "View", 1, true),
      Permission(ids.usersCreate, UsersModule, "Create", 2, false));
  }

  /** In the catalog table, Users "View" is the only required permission of the Users module. */
  lemma UsersRequiresOnlyView(ids: PermissionIds)
    ensures forall q :: q in PermissionTable(CreateModulesWithPermissions(ids)) && q.moduleId == UsersModule && q.required ==>
      q.id == ids.usersView
  {
    var table := PermissionTable(CreateModulesWithPermissions(ids));
    CatalogTable(ids);
    ModuleConstantsDistinct();
    forall q | q in table && q.moduleId == UsersModule && q.required ensures q.id == ids.usersView {
      assert q in Users(ids).permissions;
    }
  }



  /** On the catalog: a Users entry listing Users "View" and Roles "Create" passes the whole chain,
      because the existence rule looks the id up in the whole table; the role then holds Roles
      "Create" without the required Roles "View". */
  lemma PermissionFromAnotherModuleAccepted(ids: PermissionIds)
    requires ids.Distinct()
    ensures var catalog := CreateModulesWithPermissions(ids);
      var table := PermissionTable(catalog);
      var sel := [ModuleSelection(UsersModule, [ids.usersView, ids.rolesCreate])];
      && ModulesError(catalog, table, sel) == None
      && !GrantsRequired(table, Flatten(sel))
      && ModulesErrorIntended(catalog, table, sel) == Some(PermissionsExist)
  {
    var catalog := CreateModulesWithPermissions(ids);
    UsersPermissionsInTable(ids);
    RolesPermissionsInTable(ids);
    UsersRequiresOnlyView(ids);
    assert ModuleKnown(catalog, UsersModule) by {
      assert catalog[1].id == UsersModule;
    }
    ForeignPermissionPasses(catalog, PermissionTable(catalog),
      Permission(ids.usersView, UsersModule, "View", 1, true),
      Permission(ids.rolesView, RolesModule, "View", 1, true),
      Permission(ids.rolesCreate, RolesModule, "Create", 2, false));
  }

  // ----- the corrected chain -----

  lemma SameIdSamePermission(table: seq<Permission>, p: Permission, q: Permission)
    requires UniquePermissionIds(table) && p in table && q in table && p.id == q.id
    ensures p == q
  {
    var i :| 0 <= i < |table| && table[i] == p;
    var j :| 0 <= j < |table| && table[j] == q;
    assert !(i < j) && !(j < i);
  }

  /** The corrected last rule holds exactly when every non-empty entry lists all the required
      permissions of its module. */
  lemma SelectedModulesValidIntendedIff(permissions: seq<Permission>, sel: seq<ModuleSelection>)
    ensures SelectedModulesValidIntended(permissions, sel) <==>
      forall k :: 0 <= k < |sel| && IsSelected(sel[k]) ==> RequiredCountMatches(permissions, sel[k])
  {
    var selected := SelectedModules(sel);
    ValidModuleCountIsFull(permissions, selected);
    if SelectedModulesValidIntended(permissions, sel) {
      forall k | 0 <= k < |sel| && IsSelected(sel[k]) ensures RequiredCountMatches(permissions, sel[k]) {
        assert sel[k] in selected;
        var i :| 0 <= i < |selected| && selected[i] == sel[k];
      }
    }
    if forall k :: 0 <= k < |sel| && IsSelected(sel[k]) ==> RequiredCountMatches(permissions, sel[k]) {
      forall i | 0 <= i < |selected| ensures RequiredCountMatches(permissions, selected[i]) {
        assert selected[i] in sel;
        var k :| 0 <= k < |sel| && sel[k] == selected[i];
      }
    }
  }

  lemma {:induction false} FlattenNoDuplicatesPerModule(sel: seq<ModuleSelection>, k: nat)
    requires k < |sel| && NoDuplicates(Flatten(sel))
    ensures NoDuplicates(sel[k].permissionsIds)
  {
    var head := sel[0].permissionsIds;
    assert Flatten(sel) == head + Flatten(sel[1..]);
    if k == 0 {
      forall i, j | 0 <= i < j < |head| ensures head[i] != head[j] {
        assert Flatten(sel)[i] == head[i] && Flatten(sel)[j] == head[j];
      }
    } else {
      var tail := Flatten(sel[1..]);
      forall i, j | 0 <= i < j < |tail| ensures tail[i] != tail[j] {
        assert Flatten(sel)[|head| + i] == tail[i] && Flatten(sel)[|head| + j] == tail[j];
      }
      FlattenNoDuplicatesPerModule(sel[1..], k - 1);
    }
  }

  /** What the corrected chain guarantees: a selection it accepts grants, together with any
      permission of a module, every required permission of that module. */
  lemma IntendedChainGrantsRequired(modules: seq<Module>, permissions: seq<Permission>, sel: seq<ModuleSelection>)
    requires UniquePermissionIds(permissions)
    requires ModulesErrorIntended(modules, permissions, sel) == None
    ensures GrantsRequired(permissions, Flatten(sel))
  {
    PermissionsUniqueIff(sel);
    SelectedModulesValidIntendedIff(permissions, sel);
    forall p, q | p in permissions && q in permissions && p.id in Flatten(sel) && q.moduleId == p.moduleId && q.required
      ensures q.id in Flatten(sel)
    {
      var m :| m in sel && p.id in m.permissionsIds;
      var k :| 0 <= k < |sel| && sel[k] == m;
      var j :| 0 <= j < |m.permissionsIds| && m.permissionsIds[j] == p.id;
      var r :| r in permissions && r.id == sel[k].permissionsIds[j] && r.moduleId == sel[k].id;
      SameIdSamePermission(permissions, p, r);
      FlattenNoDuplicatesPerModule(sel, k);
      RequiredRuleIffCovered(permissions, m);
      assert q.id in m.permissionsIds;
    }
  }

  /** When no entry is empty and every listed permission belongs to the listing module, the chain
      as written and the corrected chain agree. */
  lemma ChainsAgreeOnWellFormedSelections(modules: seq<Module>, permissions: seq<Permission>, sel: seq<ModuleSelection>)
    requires forall k :: 0 <= k < |sel| ==> IsSelected(sel[k])
    requires PermissionsKnownInModule(permissions, sel)
    ensures ModulesError(modules, permissions, sel) == ModulesErrorIntended(modules, permissions, sel)
  {
    FilterAll(sel, IsSelected);
    forall k, j | 0 <= k < |sel| && 0 <= j < |sel[k].permissionsIds| ensures PermissionKnown(permissions, sel[k].permissionsIds[j]) {
      var p :| p in permissions && p.id == sel[k].permissionsIds[j] && p.moduleId == sel[k].id;
    }
  }
}
