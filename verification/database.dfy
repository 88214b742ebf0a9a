/** The tables the handlers read and write, held as one mutable store: the role store, the user
    store and the role/permission join table of the application's database context. */
module Database {
  import opened Domain

  class Store {
    var roles: seq<Role>
    var users: seq<User>
    var rolePermissions: seq<RolePermission>

    /** The integrity the stores keep: unique role ids and names, unique user ids and e-mail
        addresses, and join rows that point at stored roles. */
    ghost predicate Valid()
      reads this
    {
      && UniqueRoleIds(roles) && UniqueRoleNames(roles)
      && UniqueUserIds(users) && UniqueUserEmails(users)
      && RowsReferenceRoles(roles, rolePermissions)
    }
  }
}
