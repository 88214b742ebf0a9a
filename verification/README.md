# Role and permission authorisation engine

This project models the identity core of an inventory and products back end:

- a fixed catalog of modules and permissions;
- roles and the role-permission join table;
- the validators and handlers that create and update roles;
- sign-in, which issues a token carrying the user's permission ids;
- the policy check that grants a permission requirement to an authenticated user;
- the seeder that creates the administrator role;
- the user commands (create, update, update own profile);
- the company-settings command;
- the role and user list queries;
- the unit of work's repository cache;
- the audit stamping done on save.

Each handler has two parts:

- a pure function over the stored tables, returning a `Result` with the failure the handler throws;
- a method that applies that function to the `Database.Store` class in place.

The methods are proved against the functions. The properties are proved about the functions.

Modules:

| Module | Models |
|---|---|
| `Domain` | Entities, lookups and integrity predicates |
| `Validation` | The FluentValidation rules used (`NotEmpty` rejects null and blank strings; length rules pass null) |
| `PermissionsFactory` | The catalog |
| `RoleValidator`, `RoleValidatorProperties` | The role command validator, which `CreateRole` and `UpdateRole` share |
| `RoleHandlers` | The two role handlers |
| `PermissionsService` | The module listing |
| `AuthToken` | Sign-in |
| `Authorization` | The requirement handler |
| `RolesSeeder` | The seeder |
| `GenericRepository` | The unit of work |
| `CreateUser`, `UpdateUser`, `UpdateProfile` | The user commands |
| `CompanySettings` | The company-settings command |
| `ListQueries` | The two paged queries |
| `AuditStamping` | `SaveChangesAsync` |

Two modules state both the code as written and the corrected behaviour:

- **`RoleValidator`.** Its Modules chain has an as-written version and a corrected version. `RoleHandlers` uses the corrected one for the grant lemmas.
- **`Authorization`.** The grant has an as-written version and a role-scoped version.

See "## Findings".

## Model

| member | source | states |
|---|---|---|
| RoleValidator.RequiredPermissions | src/Services/Inventory/Inventory.Application/Features/Identity/Roles/Commands/UpdateRole.cs:100-104 | an id is listed exactly when a permission of the table with that id belongs to the module and is required |
| RoleValidator.AllModulesExists | src/Services/Inventory/Inventory.Application/Features/Identity/Roles/Commands/UpdateRole.cs:64-75 | the loop answers true exactly when every selected module id is a catalog module |
| RoleValidator.AllPermissionsExists | src/Services/Inventory/Inventory.Application/Features/Identity/Roles/Commands/UpdateRole.cs:77-91 | the nested loops answer true exactly when every selected permission id is in the permission table (of any module) |
| RoleValidator.AreRequiredPermissionsSelected | src/Services/Inventory/Inventory.Application/Features/Identity/Roles/Commands/UpdateRole.cs:98-121 | the loop answers true exactly when the module's listed required ids number as many as its required permissions |
| RoleValidator.GetNumberOfValidModules | src/Services/Inventory/Inventory.Application/Features/Identity/Roles/Commands/UpdateRole.cs:124-135 | the loop counts the submitted modules that pass the required-permission rule |
| RoleValidator.AreSelectedModulesValid | src/Services/Inventory/Inventory.Application/Features/Identity/Roles/Commands/UpdateRole.cs:137-142 | true exactly when the count over all submitted modules equals the number of modules with a permission selected |
| RoleValidator.ValidateModules | src/Services/Inventory/Inventory.Application/Features/Identity/Roles/Commands/UpdateRole.cs:38-47 | the cascading chain stops at the first failing rule and reports it |
| RoleValidator.ModulesErrorIsFirstFailingRule | src/Services/Inventory/Inventory.Application/Features/Identity/Roles/Commands/UpdateRole.cs:38-47 | rule k is reported exactly when all earlier rules hold and rule k fails; nothing is reported exactly when all seven hold |
| RoleValidator.Validate | src/Services/Inventory/Inventory.Application/Features/Identity/Roles/Commands/UpdateRole.cs:28-47 | no error exactly when name and description are not blank and every Modules rule holds; a blank name is reported exactly as NameRequired and a blank description exactly as DescriptionRequired; no other error appears besides the Modules error, which is the chain's first failure |
| RoleValidatorProperties.ModulesUniqueIff | src/Services/Inventory/Inventory.Application/Features/Identity/Roles/Commands/UpdateRole.cs:50-54 | the distinct-count rule holds exactly when no two submitted modules share an id |
| RoleValidatorProperties.PermissionsUniqueIff | src/Services/Inventory/Inventory.Application/Features/Identity/Roles/Commands/UpdateRole.cs:56-61 | the distinct-count rule holds exactly when the flattened permission ids have no duplicate |
| RoleValidatorProperties.AtLeastOneSelectedIff | src/Services/Inventory/Inventory.Application/Features/Identity/Roles/Commands/UpdateRole.cs:93-96 | the rule holds exactly when at least one permission id is selected across all modules |
| RoleValidatorProperties.CountListedRequiredIsIntersection | src/Services/Inventory/Inventory.Application/Features/Identity/Roles/Commands/UpdateRole.cs:106-120 | with no repeats, the counter equals the size of the intersection of listed and required ids |
| RoleValidatorProperties.RequiredCountIffCovered | src/Services/Inventory/Inventory.Application/Features/Identity/Roles/Commands/UpdateRole.cs:106-120 | the count equals the number of required ids exactly when every required id is listed |
| RoleValidatorProperties.RequiredRuleIffCovered | src/Services/Inventory/Inventory.Application/Features/Identity/Roles/Commands/UpdateRole.cs:98-121 | a module passes the required rule exactly when every required permission of that module is among its ids |
| RoleValidatorProperties.ValidModuleCountIsFull | src/Services/Inventory/Inventory.Application/Features/Identity/Roles/Commands/UpdateRole.cs:124-135 | the count never exceeds the number of submitted modules, and reaches it exactly when every module passes |
| RoleValidatorProperties.CountRuleWithoutEmptyModules | src/Services/Inventory/Inventory.Application/Features/Identity/Roles/Commands/UpdateRole.cs:137-142 | when every submitted module has a selection, the count rule holds exactly when every module passes the required rule |
| RoleValidatorProperties.ChainPrefixHolds | src/Services/Inventory/Inventory.Application/Features/Identity/Roles/Commands/UpdateRole.cs:38-47 | once the first six rules hold, the chain's answer is decided by the count rule alone |
| RoleValidatorProperties.CountRuleAdmitsMissingRequired | src/Services/Inventory/Inventory.Application/Features/Identity/Roles/Commands/UpdateRole.cs:137-142 | on the real catalog, an empty Dashboard entry plus Users with only Create passes, though Users' required View is missing; the corrected chain rejects it |
| RoleValidatorProperties.EmptyEntryMasksInvalidOne | src/Services/Inventory/Inventory.Application/Features/Identity/Roles/Commands/UpdateRole.cs:124-142 | in general, an empty entry for a module with nothing required masks a selected module that misses its required permission |
| RoleValidatorProperties.PermissionFromAnotherModuleAccepted | src/Services/Inventory/Inventory.Application/Features/Identity/Roles/Commands/UpdateRole.cs:77-91 | on the real catalog, Users listing Roles' Create passes while Roles' required View is not granted; the corrected chain reports it |
| RoleValidatorProperties.ForeignPermissionPasses | src/Services/Inventory/Inventory.Application/Features/Identity/Roles/Commands/UpdateRole.cs:77-91 | in general, a module may list a permission of another module, escaping that module's required rule |
| RoleValidatorProperties.SelectedModulesValidIntendedIff | src/Services/Inventory/Inventory.Application/Features/Identity/Roles/Commands/UpdateRole.cs:137-142 | the corrected count rule holds exactly when every module with a selection passes the required rule |
| RoleValidatorProperties.IntendedChainGrantsRequired | src/Services/Inventory/Inventory.Application/Features/Identity/Roles/Commands/UpdateRole.cs:38-47 | a selection the corrected chain accepts grants, for every permission it holds, every required permission of that permission's module |
| RoleValidatorProperties.ChainsAgreeOnWellFormedSelections | src/Services/Inventory/Inventory.Application/Features/Identity/Roles/Commands/UpdateRole.cs:38-47 | when no entry is empty and every id belongs to its own module, both chains give the same answer |
| RoleValidatorProperties.DashboardRequiresNothing | src/Services/Inventory/Inventory.Application/Shared/Permissions/PermissionsFactory.cs:11-28 | Dashboard has no required permission |
| RoleValidatorProperties.UsersRequiresOnlyView | src/Services/Inventory/Inventory.Application/Shared/Permissions/PermissionsFactory.cs:35-80 | Users' only required permission is its View |
| PermissionsFactory.PermissionTable | src/Services/Inventory/Inventory.Application/Shared/Permissions/PermissionsFactory.cs:176-185 | the table holds exactly the permissions of the catalog's modules |
| PermissionsFactory.CatalogModules | src/Services/Inventory/Inventory.Application/Shared/Permissions/PermissionsFactory.cs:176-185 | the catalog is Dashboard, Users, Roles, Products with orders 1 to 4 |
| PermissionsFactory.ModuleIdsDistinct | src/Services/Inventory/Inventory.Application/Shared/Permissions/PermissionsFactory.cs:11-185 | the module ids are pairwise distinct |
| PermissionsFactory.PermissionsBelongToTheirModule | src/Services/Inventory/Inventory.Application/Shared/Permissions/PermissionsFactory.cs:11-172 | every permission names its own module, and the orders run 1, 2, 3, ... |
| PermissionsFactory.RequiredPermissionsOfCatalog | src/Services/Inventory/Inventory.Application/Shared/Permissions/PermissionsFactory.cs:11-172 | Dashboard requires nothing; Users, Roles and Products each require exactly their order-1 View |
| PermissionsFactory.CatalogPermissionIds | src/Services/Inventory/Inventory.Application/Shared/Permissions/PermissionsFactory.cs:11-185 | the table's ids are the thirteen constants in declaration order, so they are unique when the constants are |
| PermissionsService.PermissionsOfModule | src/Services/Inventory/Inventory.Application/Infrastructure/Service/PermissionsService.cs:25-35 | a module's permissions are listed sorted by order, each unselected, and are exactly that module's rows of the table |
| PermissionsService.PermissionsOfModuleMembers | src/Services/Inventory/Inventory.Application/Infrastructure/Service/PermissionsService.cs:25-35 | a response is listed exactly when it is an unselected copy of a permission of that module |
| PermissionsService.GetModulesWithPermissions | src/Services/Inventory/Inventory.Application/Infrastructure/Service/PermissionsService.cs:16-39 | the listing is sorted by module order and is a permutation of one entry per module |
| PermissionsService.ModulesListingShape | src/Services/Inventory/Inventory.Application/Infrastructure/Service/PermissionsService.cs:16-39 | every module has its entry in the listing and every entry comes from a module |
| PermissionsService.ListingOfOrderedModules | src/Services/Inventory/Inventory.Application/Infrastructure/Service/PermissionsService.cs:18-19 | modules already in order are listed in their own order |
| PermissionsService.CatalogListingInOrder | src/Services/Inventory/Inventory.Application/Infrastructure/Service/PermissionsService.cs:16-39 | the catalog is listed as Dashboard, Users, Roles, Products |
| PermissionsService.GetModulesWithPermissionsByRole | src/Services/Inventory/Inventory.Application/Infrastructure/Service/PermissionsService.cs:41-55 | the listing is unchanged except that each permission is marked selected exactly when the role has a row for it |
| RoleHandlers.UpdateRole | src/Services/Inventory/Inventory.Application/Features/Identity/Roles/Commands/UpdateRole.cs:157-203 | unknown role, disabled role and taken new name fail in that order; on success only that role's name and description change, its rows become exactly the selected ids, and no other role's rows change |
| RoleHandlers.UpdateRoleKeepsIntegrity | src/Services/Inventory/Inventory.Application/Features/Identity/Roles/Commands/UpdateRole.cs:157-203 | a successful update keeps role ids and names unique and every row pointing at a role |
| RoleHandlers.UpdatedRoleGrantsRequired | src/Services/Inventory/Inventory.Application/Features/Identity/Roles/Commands/UpdateRole.cs:181-193 | behind the corrected validator, the updated role holds every required permission of each module it has a permission of |
| RoleHandlers.HandleUpdateRole | src/Services/Inventory/Inventory.Application/Features/Identity/Roles/Commands/UpdateRole.cs:157-203 | the store becomes the tables `UpdateRole` gives (unchanged on failure), users untouched, integrity kept |
| RoleHandlers.AddRows | src/Services/Inventory/Inventory.Application/Features/Identity/Roles/Commands/UpdateRole.cs:181-193 | the loop appends one row per id, in order, and changes nothing else |
| RoleHandlers.CreateRole | src/Services/Products/Products.Application/Features/Identity/Roles/Commands/CreateRole.cs:157-179 | a taken name is exactly the failure; on success an active role is appended and gains exactly the selected ids, other roles' rows unchanged |
| RoleHandlers.CreateRoleWithFreshId | src/Services/Products/Products.Application/Features/Identity/Roles/Commands/CreateRole.cs:157-179 | with a fresh id, the new role is found, active, holds exactly the selected ids, and integrity is kept |
| RoleHandlers.CreatedRoleGrantsRequired | src/Services/Products/Products.Application/Features/Identity/Roles/Commands/CreateRole.cs:167-178 | behind the corrected validator, the created role holds every required permission of each module it has a permission of |
| RoleHandlers.HandleCreateRole | src/Services/Products/Products.Application/Features/Identity/Roles/Commands/CreateRole.cs:157-179 | the store becomes the tables `CreateRole` gives (unchanged on failure), users untouched, integrity kept for a fresh id |
| AuthToken.GetTokenValidatorAccepts | src/Services/Inventory/Inventory.Application/Features/Identity/Auth/Commands/GetToken.cs:126-139 | the request is accepted exactly when the e-mail is a non-blank address of at most 50 characters and the password non-blank with 6 to 30 |
| AuthToken.TokenClaims | src/Services/Inventory/Inventory.Application/Features/Identity/Auth/Commands/GetToken.cs:89-97 | exactly six claims, one of each type, in the order `sub`, `jti`, `email`, `uid`, `full_name`, `role_id`; each type's first value is the user name, the token id, the e-mail address, the user id, the full name and the role id |
| AuthToken.GetToken | src/Services/Inventory/Inventory.Application/Features/Identity/Auth/Commands/GetToken.cs:43-97 | no account, inactive account, failed password and missing role fail in that order; on success the answer names the user, its role name, exactly the role's permission ids, and the claims of `TokenClaims` for the user |
| Authorization.PrincipalRole | src/Services/Products/Products.Application/Infrastructure/Authentication/Requirements/PermissionRequirementHandler.cs:24-42 | a role is found exactly when there is a principal with a `uid` claim naming a stored user whose role is stored, and it is that user's role |
| Authorization.HandleRequirement | src/Services/Products/Products.Application/Infrastructure/Authentication/Requirements/PermissionRequirementHandler.cs:22-52 | as written: granted exactly when the user's role is found and ANY row carries the permission |
| Authorization.HandleRequirementIntended | src/Services/Products/Products.Application/Infrastructure/Authentication/Requirements/PermissionRequirementHandler.cs:22-52 | corrected: granted exactly when the user's own role has a row for the permission |
| Authorization.IntendedGrantIsGranted | src/Services/Products/Products.Application/Infrastructure/Authentication/Requirements/PermissionRequirementHandler.cs:44-50 | the check as written grants everything the corrected one grants |
| Authorization.GrantIgnoresTheUsersRole | src/Services/Products/Products.Application/Infrastructure/Authentication/Requirements/PermissionRequirementHandler.cs:44-50 | a user whose role has no permission is granted one another role holds |
| Authorization.IntendedGrantMatchesToken | src/Services/Products/Products.Application/Infrastructure/Authentication/Requirements/PermissionRequirementHandler.cs:22-52 | for a token's bearer, the corrected check grants exactly the permissions listed at sign-in |
| RolesSeeder.SeedRoles | src/Services/Inventory/Inventory.Application/Infrastructure/Persistence/Seeders/RolesSeeder.cs:10-34 | nothing changes when a role exists; otherwise the only role is the admin, which gains every catalog permission id |
| RolesSeeder.SeedRolesIdempotent | src/Services/Inventory/Inventory.Application/Infrastructure/Persistence/Seeders/RolesSeeder.cs:12-13 | seeding twice is seeding once |
| RolesSeeder.SeededAdminHoldsCatalog | src/Services/Inventory/Inventory.Application/Infrastructure/Persistence/Seeders/RolesSeeder.cs:15-32 | the seeded admin holds exactly the catalog's ids, in order, and integrity holds |
| RolesSeeder.SeededAdminSatisfiesRequiredRule | src/Services/Inventory/Inventory.Application/Infrastructure/Persistence/Seeders/RolesSeeder.cs:25-32 | the seeded admin passes the required rule of every module and holds every required permission |
| RolesSeeder.SeedRowsAreTableRows | src/Services/Inventory/Inventory.Application/Infrastructure/Persistence/Seeders/RolesSeeder.cs:25-32 | the rows added module by module are one admin row per permission id of the catalog's table, in table order |
| RolesSeeder.AddModuleRows | src/Services/Inventory/Inventory.Application/Infrastructure/Persistence/Seeders/RolesSeeder.cs:27-31 | the inner loop appends one admin row per permission of the module, in order, and changes nothing else |
| RolesSeeder.CreateRoles | src/Services/Inventory/Inventory.Application/Infrastructure/Persistence/Seeders/RolesSeeder.cs:10-34 | the guard, the admin role and the outer loop leave the store equal to `SeedRoles` of the old tables, users untouched |
| GenericRepository.UnitOfWork.GetRepository | src/BuildingBlocks/Persistence.GenericRepository/UnitOfWork/UnitOfWork.cs:18-28 | a cached repository is returned unchanged; otherwise a fresh one is cached under the type; other entries are kept |
| GenericRepository.SameRepositoryTwice | src/BuildingBlocks/Persistence.GenericRepository/UnitOfWork/UnitOfWork.cs:18-28 | asking twice for the same type gives the same repository |
| CreateUser.CreateUserValidatorAccepts | src/Services/Inventory/Inventory.Application/Features/Identity/Users/Commands/CreateUser.cs:68-116 | accepted exactly when every value is non-blank, the e-mail a valid address of at most 50, the full name 2 to 50 and the password 6 to 30 characters |
| CreateUser.CreateUser | src/Services/Inventory/Inventory.Application/Features/Identity/Users/Commands/CreateUser.cs:21-57 | unknown role, registered e-mail and failed creation fail in that order; success exactly otherwise, appending an active confirmed account |
| CreateUser.CreateUserKeepsIntegrity | src/Services/Inventory/Inventory.Application/Features/Identity/Users/Commands/CreateUser.cs:29-44 | with a fresh id, ids and e-mails stay unique and the new account is found by id and by e-mail |
| CreateUser.CreatedUserCanSignIn | src/Services/Inventory/Inventory.Application/Features/Identity/Users/Commands/CreateUser.cs:35-44 | a created account signs in at once, verified, with exactly its role's permissions |
| CreateUser.HandleCreateUser | src/Services/Inventory/Inventory.Application/Features/Identity/Users/Commands/CreateUser.cs:21-57 | the store's users become what `CreateUser` gives (unchanged on failure), roles untouched, integrity kept |
| UpdateUser.UpdateUserValidatorAccepts | src/Services/Products/Products.Application/Features/Identity/Users/Commands/UpdateUser.cs:56-83 | accepted exactly when user id, role id and full name are non-blank and the full name has 2 to 50 characters |
| UpdateUser.MessagesDistinct | src/Services/Products/Products.Application/Features/Identity/Users/Commands/UpdateUser.cs:26-39 | the three failure messages differ |
| UpdateUser.UpdateUser | src/Services/Products/Products.Application/Features/Identity/Users/Commands/UpdateUser.cs:21-46 | as written: an unknown user is exactly a null dereference, and "user not found" is never reported |
| UpdateUser.UpdateUserIntended | src/Services/Products/Products.Application/Features/Identity/Users/Commands/UpdateUser.cs:21-46 | corrected: unknown user, administrator and unknown role fail in that order; on success only the user's full name and role change |
| UpdateUser.UnknownUserCrashes | src/Services/Products/Products.Application/Features/Identity/Users/Commands/UpdateUser.cs:23-34 | the two versions differ exactly for an unknown user |
| UpdateUser.UnknownUserExample | src/Services/Products/Products.Application/Features/Identity/Users/Commands/UpdateUser.cs:23-34 | with no users, id "u1" crashes as written and is reported not found when corrected |
| UpdateUser.UpdateUserKeepsIntegrity | src/Services/Products/Products.Application/Features/Identity/Users/Commands/UpdateUser.cs:41-45 | ids and e-mails stay unique, and the user is found by its e-mail with the new role |
| UpdateUser.HandleUpdateUser | src/Services/Products/Products.Application/Features/Identity/Users/Commands/UpdateUser.cs:21-46 | the store's users become what the corrected handler gives, roles untouched, integrity kept |
| UpdateProfile.UpdateProfileValidatorAccepts | src/Services/Inventory/Inventory.Application/Features/Identity/Auth/Commands/UpdateProfile.cs:13-63 | accepted exactly when e-mail and full name are valid and each given password has 6 to 30 characters |
| UpdateProfile.UpdateProfile | src/Services/Inventory/Inventory.Application/Features/Identity/Auth/Commands/UpdateProfile.cs:76-118 | missing user, taken e-mail, failed password change and failed update fail in that order; on success only the signed-in user changes: full name, e-mail (and user name when it changed), password when changed |
| UpdateProfile.UpdateProfileKeepsIntegrity | src/Services/Inventory/Inventory.Application/Features/Identity/Auth/Commands/UpdateProfile.cs:97-118 | ids and e-mails stay unique and the user is found by the new e-mail |
| UpdateProfile.ResubmittedProfileChangesNothing | src/Services/Inventory/Inventory.Application/Features/Identity/Auth/Commands/UpdateProfile.cs:97-118 | resubmitting the stored profile without a password change leaves the users as they were |
| UpdateProfile.HandleUpdateProfile | src/Services/Inventory/Inventory.Application/Features/Identity/Auth/Commands/UpdateProfile.cs:76-118 | the store's users become what `UpdateProfile` gives, roles untouched, integrity kept |
| CompanySettings.CompanyInfoValidatorAccepts | src/Services/Products/Products.Application/Features/Settings/Commands/UpdateCompanyInfo.cs:25-64 | accepted exactly when the required fields are non-blank within their limits, Line2 is absent or at most 50, and a photo is a JPEG or PNG of at most 2 MiB |
| CompanySettings.OverwriteForgetsStored | src/Services/Products/Products.Application/Features/Settings/Commands/UpdateCompanyInfo.cs:78-91 | after an update only an absent Line2 keeps a stored value |
| CompanySettings.OverwriteIdempotent | src/Services/Products/Products.Application/Features/Settings/Commands/UpdateCompanyInfo.cs:78-91 | applying the same command twice is applying it once |
| CompanySettings.AcceptedCommandKeepsLimits | src/Services/Products/Products.Application/Features/Settings/Commands/UpdateCompanyInfo.cs:25-91 | an accepted command keeps stored details within the validator's limits |
| CompanySettings.CompanyInfo.UpdateInfo | src/Services/Products/Products.Application/Features/Settings/Commands/UpdateCompanyInfo.cs:78-91 | the fields become the overwrite of the old ones; the logo reference is kept |
| CompanySettings.HandleUpdateCompanyInfo | src/Services/Products/Products.Application/Features/Settings/Commands/UpdateCompanyInfo.cs:93-109 | a missing row or a photo without a logo crash; otherwise the details are overwritten and a photo's name and type replace the logo's, which are JPEG or PNG for an accepted command |
| ListQueries.IsAscending | src/Services/Inventory/Inventory.Application/Features/Identity/Roles/Queries/GetRoles.cs:80 | descending exactly for "desc" |
| ListQueries.OrderedWhere | src/Services/Inventory/Inventory.Application/Features/Identity/Roles/Queries/GetRoles.cs:84-97 | the result is in the requested direction, a permutation of the rows that pass the filter, and holds exactly those rows |
| ListQueries.RoleOrderField | src/Services/Inventory/Inventory.Application/Features/Identity/Roles/Queries/GetRoles.cs:63-76 | "id" and "active" select those keys exactly; any other key sorts by name |
| ListQueries.GetRoles | src/Services/Inventory/Inventory.Application/Features/Identity/Roles/Queries/GetRoles.cs:78-101 | the roles are in the requested order and are exactly the roles passing the name and active filters |
| ListQueries.RoleKeyCaseMismatch | src/Services/Inventory/Inventory.Application/Features/Identity/Roles/Queries/GetRoles.cs:36-76 | "ID" is accepted yet sorts by name |
| ListQueries.RoleOrderFieldIntended | src/Services/Inventory/Inventory.Application/Features/Identity/Roles/Queries/GetRoles.cs:63-76 | corrected: the key is matched ignoring case |
| ListQueries.RoleOrderFieldIntendedIgnoresCase | src/Services/Inventory/Inventory.Application/Features/Identity/Roles/Queries/GetRoles.cs:63-76 | the corrected selection ignores case and agrees with the original on lower-case keys |
| ListQueries.JoinUsers | src/Services/Products/Products.Application/Features/Identity/Users/Queries/GetAllUsers.cs:93-103 | a row is listed exactly when it pairs a user with its stored role's name |
| ListQueries.UserOrderField | src/Services/Products/Products.Application/Features/Identity/Users/Queries/GetAllUsers.cs:70-85 | "id", "role" and "active" select those keys exactly; anything else sorts by full name |
| ListQueries.GetAllUsers | src/Services/Products/Products.Application/Features/Identity/Users/Queries/GetAllUsers.cs:88-130 | the rows are in the requested order and are a permutation of the joined rows that pass the request's filters |
| ListQueries.ListedUsers | src/Services/Products/Products.Application/Features/Identity/Users/Queries/GetAllUsers.cs:105-125 | a row is listed exactly when it is a joined row, is not the signed-in user's, and passes each name, role and active filter the request gives |
| ListQueries.SignedInUserNotListed | src/Services/Products/Products.Application/Features/Identity/Users/Queries/GetAllUsers.cs:108-111 | the signed-in user is never listed; every other user passing the filters is |
| ListQueries.UserKeyCaseMismatch | src/Services/Products/Products.Application/Features/Identity/Users/Queries/GetAllUsers.cs:39-85 | "Role" is accepted yet sorts by full name |
| ListQueries.UserOrderFieldIntended | src/Services/Products/Products.Application/Features/Identity/Users/Queries/GetAllUsers.cs:70-85 | corrected: the key is matched ignoring case |
| ListQueries.UserOrderFieldIntendedIgnoresCase | src/Services/Products/Products.Application/Features/Identity/Users/Queries/GetAllUsers.cs:70-85 | the corrected selection ignores case and agrees with the original on lower-case keys |
| AuditStamping.Stamped | src/Services/Products/Products.Application/Infrastructure/Persistence/ApplicationDbContext.cs:41-51 | an added auditable entity gets its creation stamp, a modified one its update stamp; nothing else changes |
| AuditStamping.StampedIdempotent | src/Services/Products/Products.Application/Infrastructure/Persistence/ApplicationDbContext.cs:41-51 | stamping twice with the same clock reading and user is stamping once |
| AuditStamping.Entry.Stamp | src/Services/Products/Products.Application/Infrastructure/Persistence/ApplicationDbContext.cs:41-51 | the entry's audit fields become the stamped ones; its state is kept |
| AuditStamping.StampEntries | src/Services/Products/Products.Application/Infrastructure/Persistence/ApplicationDbContext.cs:37-55 | the loop stamps every tracked entry for its state and changes no state |

## Left out

- Identity's normalised user names, e-mail addresses and role names: lookups compare exact strings. RoleHandlers.UpdateRole and RoleHandlers.CreateRole therefore treat "admin" as a name distinct from an existing "Admin", where `FindByNameAsync` would find the existing role and the handler would report that the name already exists.
- `ToLower` covers ASCII letters only.
- SQL `LIKE` is the parameter `like`.
- String collation in `ORDER BY` is the parameter `rank`.
- RoleValidator.AllModulesExists, RoleValidator.AllPermissionsExists, RoleValidator.RequiredPermissions, AuthToken.GetToken, Authorization.HandleRequirement, Authorization.PrincipalRole and ListQueries.GetAllUsers compare ids exactly; the source runs these equality tests (`AnyAsync`, `Where`, `FindByIdAsync`) in SQL Server, where they follow the database collation, usually case-insensitive, while the in-memory `Distinct()` of the uniqueness rules stays exact, so ids differing only in case can pass existence there and fail it here.
- Paging (`ToPagedListAsync`) is not modelled. The queries return the whole ordered list.
- Ties in ordering: the model's sort is a stable insertion sort; the database's order of ties is unspecified.
- JWT signing, lifetime and encoding are not modelled. The claims are a sequence and the token id is the parameter `jti`.
- Password hashing and checking are the parameter `signIn`.
- The user manager's answers are oracle parameters: `CreateAsync` is `created`, `ChangePasswordAsync` is `changed`, `UpdateAsync` is `updated`.
- UpdateProfile.UpdateProfile: a failed update after a successful password change is modelled as leaving the store unchanged. In the source, `ChangePasswordAsync` saves the whole user object, so the new password, e-mail address, user name and full name have all been stored by then.
- UpdateUser.UpdateUser: the handler ignores the result of `UpdateAsync`; the model assumes the update always happens.
- UpdateUser.HandleUpdateUser: the in-place handler applies the corrected order of checks (`UpdateUserIntended`), so an unknown user id is reported as not found. The source dereferences null there; `UpdateUser.UpdateUser` models that behaviour.
- RoleHandlers.CreateRole and RoleHandlers.UpdateRole: the role manager's `CreateAsync` (create) and `UpdateAsync` (create and update) are assumed to succeed; the handlers ignore their results.
- The logo file write in `CreateLogo` (file I/O) is not modelled. CompanySettings.HandleUpdateCompanyInfo stores the uploaded file name as given; the source's `Path.GetFileName` step, which drops any directory part, is not modelled.
- Async execution, cancellation and the separate commits of each handler are not modelled.
- AuditStamping.StampEntries: one clock reading `now` serves the whole save. The source reads the clock once per entry.
- The surrogate id of a role-permission row is not modelled; a row is its role id and permission id.
- The handlers assume that request strings are non-null. The user and sign-in validators model a null value as `None`.
- RoleValidator.Validate takes Name and Description as plain strings, and CompanySettings.CompanyInfoChecks wraps every required company field in `Some`. Neither can express a null value, so the source's failures for a null role Name (`NotNull` and `NotEmpty`), a null Description, or a null required company field are not modelled.
- RoleValidator.Validate and RoleValidator.ValidateModules assume a non-null `Modules` list and non-null `PermissionsIds` lists, since both are sequences. The source's NotNull rule on `Modules`, and the null dereference in `AllPermissionsExists` when a module's `PermissionsIds` is null, are not modelled.
- String lengths: a model string is a sequence of Unicode scalar values, while .NET's `Length` counts UTF-16 code units. A character outside the Basic Multilingual Plane counts once in the model and twice in the source, so every `MinimumLength`/`MaximumLength` rule (in the role, user, profile, sign-in and company validators) may answer differently on such strings. Strings made only of BMP characters have the same length in both.
- The repository's binding to the database context is not modelled. The entity type is a string key.
- RolesSeeder.CreateRoles takes the catalog as a parameter, which is `CreateModulesWithPermissions` in the source.
- The `Permissions.*` id constants are the `PermissionIds` parameter. Their distinctness is a stated hypothesis where needed.
- A request with no authenticated user id is modelled as the null dereference the handler would meet.
- The user list joins each user with its first matching role; with unique role ids this is the source's inner join. Users whose role is missing are dropped.
- `Zip` has no validator rule in the source, and none in the model.

## Findings

| source | as written | input that shows it | evidently intended | confidence | as-written member | corrected member |
|---|---|---|---|---|---|---|
| src/Services/Inventory/Inventory.Application/Features/Identity/Roles/Commands/UpdateRole.cs:124-142 | `AreSelectedModulesValid` counts passing modules over all submitted modules but compares with the number of modules with a selection, so an empty entry for a module with nothing required offsets a selected module that misses its required permission | modules `[(Dashboard, []), (Users, [Users.Create])]` | every module with a selection includes its required permissions | not executed | RoleValidatorProperties.CountRuleAdmitsMissingRequired | RoleValidatorProperties.IntendedChainGrantsRequired |
| src/Services/Inventory/Inventory.Application/Features/Identity/Roles/Commands/UpdateRole.cs:77-91 | `AllPermissionsExists` checks each id against every module's permissions, so a module may list another module's permission and that module's required rule is never applied | modules `[(Users, [Users.View, Roles.Create])]` | each permission id belongs to the module that lists it | not executed | RoleValidatorProperties.PermissionFromAnotherModuleAccepted | RoleValidatorProperties.ChainsAgreeOnWellFormedSelections |
| src/Services/Products/Products.Application/Infrastructure/Authentication/Requirements/PermissionRequirementHandler.cs:44-50 | the requirement succeeds when any role-permission row carries the permission, whatever its role | user u1 of role r1 with no rows; one row (r2, Users.Delete) | the permission must belong to the user's own role | not executed | Authorization.GrantIgnoresTheUsersRole | Authorization.IntendedGrantMatchesToken |
| src/Services/Products/Products.Application/Features/Identity/Users/Commands/UpdateUser.cs:23-34 | the user's e-mail address is read before the null test, so an unknown id dereferences null and "not found" is unreachable | no users, user id "u1" | report the user as not found | not executed | UpdateUser.UnknownUserExample | UpdateUser.UpdateUserIntended |
| src/Services/Inventory/Inventory.Application/Features/Identity/Roles/Queries/GetRoles.cs:36-76 | the validator accepts sort keys in any case but the field selection compares exactly, so a key in another case silently sorts by the default field | "ID" for roles; "Role" in GetAllUsers.cs:39-85 | sort by the key the validator accepted | not executed | ListQueries.RoleKeyCaseMismatch | ListQueries.RoleOrderFieldIntendedIgnoresCase |

`ListQueries.GetRoles` and `ListQueries.GetAllUsers` keep the field selection as written; the corrected selections are stated beside them. `UpdateUser.HandleUpdateUser` uses the corrected order of checks.
