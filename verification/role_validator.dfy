/** The validator shared by the create-role and update-role commands: `Name` and `Description`
    must not be blank, and the `Modules` selection goes through a chain of seven rules that stops
    at the first one that fails. The catalog is read as the two tables it is stored in: the
    modules and the permissions. */
module RoleValidator {
  import opened Wrappers
  import opened Seqs
  import opened Text
  import opened Domain

  /** The rules of the `Modules` chain. */
  datatype ModulesRule =
    | ModulesRequired
    | ModulesExist
    | ModulesUnique
    | PermissionsExist
    | PermissionsUnique
    | AtLeastOneSelected
    | RequiredPermissionsSelected

  /** The order in which the chain runs them. */
  const ModulesChain: seq<ModulesRule> :=
    [ModulesRequired, ModulesExist, ModulesUnique, PermissionsExist, PermissionsUnique,
     AtLeastOneSelected, RequiredPermissionsSelected]

  datatype RoleError = NameRequired | DescriptionRequired | InvalidModules(rule: ModulesRule)

  // ----- the rules, as predicates over the catalog tables and the selection -----

  /** `Modules.AnyAsync(x => x.Id == id)`. */
  predicate ModuleKnown(modules: seq<Module>, id: string)
  {
    exists m :: m in modules && m.id == id
  }

  predicate ModulesKnown(modules: seq<Module>, sel: seq<ModuleSelection>)
  {
    forall k :: 0 <= k < |sel| ==> ModuleKnown(modules, sel[k].id)
  }

  /** `Permissions.AnyAsync(x => x.Id == id)`: searched in the whole table, whatever module lists it. */
  predicate PermissionKnown(permissions: seq<Permission>, id: string)
  {
    exists p :: p in permissions && p.id == id
  }

  predicate PermissionsKnown(permissions: seq<Permission>, sel: seq<ModuleSelection>)
  {
    forall k, j :: 0 <= k < |sel| && 0 <= j < |sel[k].permissionsIds| ==>
      PermissionKnown(permissions, sel[k].permissionsIds[j])
  }

  /** `modules.Select(m => m.Id)`: the submitted module ids, in order (the request side, where
      `PermissionIdsOfTable` is the table side). */
  function ModuleIds(sel: seq<ModuleSelection>): (ids: seq<string>)
    ensures |ids| == |sel|
    ensures forall i :: 0 <= i < |sel| ==> ids[i] == sel[i].id
  {
    seq(|sel|, i requires 0 <= i < |sel| => sel[i].id)
  }

  /** `modules.Count == modulesIds.Distinct().Count()`. */
  predicate AllModulesAreUnique(sel: seq<ModuleSelection>)
  {
    |sel| == |Elements(ModuleIds(sel))|
  }

  /** `permissionsCount == permissions.Distinct().Count()` over the flattened selection. */
  predicate AllPermissionsAreUnique(sel: seq<ModuleSelection>)
  {
    TotalCount(sel) == |Elements(Flatten(sel))|
  }

  /** `modules.Any(m => m.PermissionsIds.Count > 0)`. */
  predicate AtLeastOneModuleSelected(sel: seq<ModuleSelection>)
  {
    exists m :: m in sel && |m.permissionsIds| > 0
  }

  /** The ids of the required permissions of module `moduleId`, in table order. */
  function RequiredPermissions(permissions: seq<Permission>, moduleId: string): (ids: seq<string>)
    ensures forall q :: q in ids <==> exists p :: p in permissions && p.id == q && p.moduleId == moduleId && p.required
  {
    if permissions == [] then []
    else
      var p := permissions[0];
      var rest := RequiredPermissions(permissions[1..], moduleId);
      assert forall x :: x in permissions ==> x == p || x in permissions[1..];
      if p.moduleId == moduleId && p.required then [p.id] + rest else rest
  }

  /** How many of the `listed` ids occur in `required` (the counter of the source's loop). */
  function CountListedRequired(listed: seq<string>, required: seq<string>): nat
  {
    if listed == [] then 0
    else
      CountListedRequired(listed[..|listed| - 1], required)
        + (if listed[|listed| - 1] in required then 1 else 0)
  }

  /** A module with no required permission is valid; otherwise the number of its listed ids that
      are required must equal the number of required permissions. */
  predicate RequiredCountMatches(permissions: seq<Permission>, m: ModuleSelection)
  {
    var required := RequiredPermissions(permissions, m.id);
    |required| == 0 || CountListedRequired(m.permissionsIds, required) == |required|
  }

  /** The number of valid modules among all submitted ones, empty ones included. */
  function ValidModuleCount(permissions: seq<Permission>, sel: seq<ModuleSelection>): nat
  {
    if sel == [] then 0
    else
      ValidModuleCount(permissions, sel[..|sel| - 1])
        + (if RequiredCountMatches(permissions, sel[|sel| - 1]) then 1 else 0)
  }

  predicate IsSelected(m: ModuleSelection)
  {
    |m.permissionsIds| > 0
  }

  /** The modules with at least one listed permission. */
  function SelectedModules(sel: seq<ModuleSelection>): seq<ModuleSelection>
  {
    Filter(sel, IsSelected)
  }

  /** The last rule as the source states it: the count of valid modules over ALL submitted
      modules must equal the number of selected (non-empty) modules. */
  predicate SelectedModulesValid(permissions: seq<Permission>, sel: seq<ModuleSelection>)
  {
    ValidModuleCount(permissions, sel) == |SelectedModules(sel)|
  }

  predicate Holds(rule: ModulesRule, modules: seq<Module>, permissions: seq<Permission>, sel: seq<ModuleSelection>)
  {
    match rule
    case ModulesRequired => |sel| > 0
    case ModulesExist => ModulesKnown(modules, sel)
    case ModulesUnique => AllModulesAreUnique(sel)
    case PermissionsExist => PermissionsKnown(permissions, sel)
    case PermissionsUnique => AllPermissionsAreUnique(sel)
    case AtLeastOneSelected => AtLeastOneModuleSelected(sel)
    case RequiredPermissionsSelected => SelectedModulesValid(permissions, sel)
  }

  /** The single error of the `Modules` chain: its first failing rule (`CascadeMode.Stop`). */
  function ModulesError(modules: seq<Module>, permissions: seq<Permission>, sel: seq<ModuleSelection>): Option<ModulesRule>
  {
    if |sel| == 0 then Some(ModulesRequired)
    else if !ModulesKnown(modules, sel) then Some(ModulesExist)
    else if !AllModulesAreUnique(sel) then Some(ModulesUnique)
    else if !PermissionsKnown(permissions, sel) then Some(PermissionsExist)
    else if !AllPermissionsAreUnique(sel) then Some(PermissionsUnique)
    else if !AtLeastOneModuleSelected(sel) then Some(AtLeastOneSelected)
    else if !SelectedModulesValid(permissions, sel) then Some(RequiredPermissionsSelected)
    else None
  }

  // ----- the chain as its rule messages intend it -----

  /** Each listed permission exists and belongs to the module that lists it. */
  predicate PermissionsKnownInModule(permissions: seq<Permission>, sel: seq<ModuleSelection>)
  {
    forall k, j :: 0 <= k < |sel| && 0 <= j < |sel[k].permissionsIds| ==>
      exists p :: p in permissions && p.id == sel[k].permissionsIds[j] && p.moduleId == sel[k].id
  }

  /** The last rule with the valid modules counted among the selected (non-empty) ones only. */
  predicate SelectedModulesValidIntended(permissions: seq<Permission>, sel: seq<ModuleSelection>)
  {
    ValidModuleCount(permissions, SelectedModules(sel)) == |SelectedModules(sel)|
  }

  /** The corrected chain: same order and messages, with the permission-existence rule scoped to
      the listing module and the last rule counted over the selected modules. */
  function ModulesErrorIntended(modules: seq<Module>, permissions: seq<Permission>, sel: seq<ModuleSelection>): Option<ModulesRule>
  {
    if |sel| == 0 then Some(ModulesRequired)
    else if !ModulesKnown(modules, sel) then Some(ModulesExist)
    else if !AllModulesAreUnique(sel) then Some(ModulesUnique)
    else if !PermissionsKnownInModule(permissions, sel) then Some(PermissionsExist)
    else if !AllPermissionsAreUnique(sel) then Some(PermissionsUnique)
    else if !AtLeastOneModuleSelected(sel) then Some(AtLeastOneSelected)
    else if !SelectedModulesValidIntended(permissions, sel) then Some(RequiredPermissionsSelected)
    else None
  }

  /** The chain reports rule number `k` exactly when every earlier rule holds and rule `k` fails,
      and reports nothing exactly when all seven hold. */
  lemma ModulesErrorIsFirstFailingRule(modules: seq<Module>, permissions: seq<Permission>, sel: seq<ModuleSelection>, k: nat)
    requires k < |ModulesChain|
    ensures ModulesError(modules, permissions, sel) == Some(ModulesChain[k]) <==>
      && (forall j :: 0 <= j < k ==> Holds(ModulesChain[j], modules, permissions, sel))
      && !Holds(ModulesChain[k], modules, permissions, sel)
    ensures ModulesError(modules, permissions, sel) == None <==>
      forall j :: 0 <= j < |ModulesChain| ==> Holds(ModulesChain[j], modules, permissions, sel)
  {
    assert Holds(ModulesChain[0], modules, permissions, sel) == (|sel| > 0);
    assert Holds(ModulesChain[1], modules, permissions, sel) == ModulesKnown(modules, sel);
    assert Holds(ModulesChain[2], modules, permissions, sel) == AllModulesAreUnique(sel);
    assert Holds(ModulesChain[3], modules, permissions, sel) == PermissionsKnown(permissions, sel);
    assert Holds(ModulesChain[4], modules, permissions, sel) == AllPermissionsAreUnique(sel);
    assert Holds(ModulesChain[5], modules, permissions, sel) == AtLeastOneModuleSelected(sel);
    assert Holds(ModulesChain[6], modules, permissions, sel) == SelectedModulesValid(permissions, sel);
  }

  /** The whole validator: the `Name` and `Description` rules and the `Modules` chain all run;
      the result lists every error, in rule order. */
  function Validate(modules: seq<Module>, permissions: seq<Permission>, name: string, description: string,
                    sel: seq<ModuleSelection>): (errors: seq<RoleError>)
    ensures |errors| <= 3
    ensures errors == [] <==>
      && !IsBlank(name) && !IsBlank(description)
      && forall j :: 0 <= j < |ModulesChain| ==> Holds(ModulesChain[j], modules, permissions, sel)
    ensures IsBlank(name) <==> NameRequired in errors
    ensures IsBlank(description) <==> DescriptionRequired in errors
    ensures forall e :: e in errors ==> e == NameRequired || e == DescriptionRequired || e.InvalidModules?
    ensures forall r :: InvalidModules(r) in errors <==> ModulesError(modules, permissions, sel) == Some(r)
  {
    ModulesErrorIsFirstFailingRule(modules, permissions, sel, 0);
    (if IsBlank(name) then [NameRequired] else [])
      + (if IsBlank(description) then [DescriptionRequired] else [])
      + match ModulesError(modules, permissions, sel)
        case None => []
        case Some(r) => [InvalidModules(r)]
  }

  // ----- the source's loops -----

  method AllModulesExists(modules: seq<Module>, sel: seq<ModuleSelection>) returns (ok: bool)
    ensures ok == ModulesKnown(modules, sel)
  {
    for k := 0 to |sel|
      invariant forall i :: 0 <= i < k ==> ModuleKnown(modules, sel[i].id)
    {
      var found := ModuleKnown(modules, sel[k].id);
      if !found {
        return false;
      }
    }
    return true;
  }

  method AllPermissionsExists(permissions: seq<Permission>, sel: seq<ModuleSelection>) returns (ok: bool)
    ensures ok == PermissionsKnown(permissions, sel)
  {
    for k := 0 to |sel|
      invariant forall i, j :: 0 <= i < k && 0 <= j < |sel[i].permissionsIds| ==>
        PermissionKnown(permissions, sel[i].permissionsIds[j])
    {
      var ids := sel[k].permissionsIds;
      for j := 0 to |ids|
        invariant forall i, l :: 0 <= i < k && 0 <= l < |sel[i].permissionsIds| ==>
          PermissionKnown(permissions, sel[i].permissionsIds[l])
        invariant forall l :: 0 <= l < j ==> PermissionKnown(permissions, ids[l])
      {
        var found := PermissionKnown(permissions, ids[j]);
        if !found {
          return false;
        }
      }
    }
    return true;
  }

  method AreRequiredPermissionsSelected(permissions: seq<Permission>, m: ModuleSelection) returns (ok: bool)
    ensures ok == RequiredCountMatches(permissions, m)
  {
    var required := RequiredPermissions(permissions, m.id);
    if |required| == 0 {
      return true;
    }
    var count := 0;
    var listed := m.permissionsIds;
    for i := 0 to |listed|
      invariant count == CountListedRequired(listed[..i], required)
    {
      assert listed[..i + 1][..i] == listed[..i];
      if listed[i] in required {
        count := count + 1;
      }
    }
    assert listed[..|listed|] == listed;
    return count == |required|;
  }

  method GetNumberOfValidModules(permissions: seq<Permission>, sel: seq<ModuleSelection>) returns (count: nat)
    ensures count == ValidModuleCount(permissions, sel)
  {
    count := 0;
    for k := 0 to |sel|
      invariant count == ValidModuleCount(permissions, sel[..k])
    {
      assert sel[..k + 1][..k] == sel[..k];
      var valid := AreRequiredPermissionsSelected(permissions, sel[k]);
      if valid {
        count := count + 1;
      }
    }
    assert sel[..|sel|] == sel;
  }

  method AreSelectedModulesValid(permissions: seq<Permission>, sel: seq<ModuleSelection>) returns (ok: bool)
    ensures ok == SelectedModulesValid(permissions, sel)
  {
    var selected := SelectedModules(sel);
    var n := GetNumberOfValidModules(permissions, sel);
    ok := n == |selected|;
  }

  /** The `Modules` chain as the validator runs it, each rule only when the earlier ones passed. */
  method ValidateModules(modules: seq<Module>, permissions: seq<Permission>, sel: seq<ModuleSelection>)
    returns (error: Option<ModulesRule>)
    ensures error == ModulesError(modules, permissions, sel)
  {
    if |sel| == 0 {
      return Some(ModulesRequired);
    }
    var ok := AllModulesExists(modules, sel);
    if !ok {
      return Some(ModulesExist);
    }
    if !AllModulesAreUnique(sel) {
      return Some(ModulesUnique);
    }
    ok := AllPermissionsExists(permissions, sel);
    if !ok {
      return Some(PermissionsExist);
    }
    if !AllPermissionsAreUnique(sel) {
      return Some(PermissionsUnique);
    }
    if !AtLeastOneModuleSelected(sel) {
      return Some(AtLeastOneSelected);
    }
    ok := AreSelectedModulesValid(permissions, sel);
    if !ok {
      return Some(RequiredPermissionsSelected);
    }
    return None;
  }
}
