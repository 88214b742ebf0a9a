/** The two listing queries of the administration screens, for roles and for users: their
    validators (a whitelisted sort key and positive page values), the choice of the sort field and
    direction, and the filters applied to the listing. The sort runs in the database; its
    collation is a parameter `rank` that maps a text to its position, and a boolean column sorts
    false before true. The `LIKE '%name%'` test is the parameter `like`. Paging is not part of
    this model. */
module ListQueries {
  import opened Wrappers
  import opened Seqs
  import opened Text
  import opened Domain

  // ----- shared -----

  /** `MustBeNullOrExistsInSet`: a key is accepted when it is absent, empty, or names an allowed
      key in any letter case (its lower-case form is in the set). */
  predicate KeyAllowed(sortBy: Option<string>, allowed: set<string>)
  {
    IsNullOrEmpty(sortBy) || ToLower(sortBy.value) in allowed
  }

  /** The validator of either query: an allowed sort key, and page number and page size above 0. */
  predicate QueryAccepted(orderBy: Option<string>, allowed: set<string>, pageNumber: int, pageSize: int)
  {
    KeyAllowed(orderBy, allowed) && pageNumber > 0 && pageSize > 0
  }

  /** Ascending unless the sort order is exactly "desc". */
  function IsAscending(sortOrder: Option<string>): (ascending: bool)
    ensures !ascending <==> sortOrder == Some("desc")
  {
    sortOrder != Some("desc")
  }

  function BoolRank(b: bool): int
  {
    if b then 1 else 0
  }

  /** `q` is in the requested direction of `key`. */
  predicate InDirection<T>(q: seq<T>, key: T -> int, ascending: bool)
  {
    forall i, j :: 0 <= i < j < |q| ==> if ascending then key(q[i]) <= key(q[j]) else key(q[j]) <= key(q[i])
  }

  /** The order-then-filter pipeline of both queries: sort by `key` in the requested direction,
      keep the rows satisfying `keep`. */
  function OrderedWhere<T(!new)>(rows: seq<T>, key: T -> int, ascending: bool, keep: T -> bool): (q: seq<T>)
    ensures InDirection(q, key, ascending)
    ensures multiset(q) == multiset(Filter(rows, keep))
    ensures forall x :: x in q <==> x in rows && keep(x)
  {
    var signed := (x: T) => if ascending then key(x) else -key(x);
    var sorted := SortBy(rows, signed);
    FilterKeepsSorted(sorted, keep, signed);
    FilterOfPermutation(sorted, rows, keep);
    var q := Filter(sorted, keep);
    assert forall x :: x in q <==> x in rows && keep(x) by {
      forall x ensures x in q <==> x in rows && keep(x) {
        assert x in q <==> x in multiset(q);
        assert x in Filter(rows, keep) <==> x in multiset(Filter(rows, keep));
      }
    }
    q
  }

  // ----- roles -----

  datatype RoleField = RoleId | RoleName | RoleActive

  const RoleSortKeys: set<string> := {"id", "name", "active"}

  /** `GetOrderByField` of the role query: an exact, case-sensitive match of the key; any other
      key sorts by name. */
  function RoleOrderField(orderBy: string): (field: RoleField)
    ensures field == RoleId <==> orderBy == "id"
    ensures field == RoleActive <==> orderBy == "active"
    ensures field == RoleName <==> orderBy != "id" && orderBy != "active"
  {
    if orderBy == "id" then RoleId
    else if orderBy == "active" then RoleActive
    else RoleName
  }

  function RoleKey(field: RoleField, rank: string -> int): Role -> int
  {
    match field
    case RoleId => (r: Role) => rank(r.id)
    case RoleName => (r: Role) => rank(r.name)
    case RoleActive => (r: Role) => BoolRank(r.active)
  }

  datatype RolesQuery = RolesQuery(
    pageNumber: int,
    pageSize: int,
    orderBy: Option<string>,
    sortOrder: Option<string>,
    name: Option<string>,
    active: Option<bool>)

  /** The roles listed for a query, before paging: the roles whose name matches a non-blank name
      filter and whose active flag equals a given one, sorted by the selected field in the selected
      direction. */
  function GetRoles(roles: seq<Role>, q: RolesQuery, rank: string -> int, like: (string, string) -> bool): (r: seq<Role>)
    ensures InDirection(r, RoleKey(RoleOrderField(if q.orderBy.None? then "" else q.orderBy.value), rank), IsAscending(q.sortOrder))
    ensures forall x :: x in r <==>
      && x in roles
      && (!IsNullOrWhiteSpace(q.name) ==> like(x.name, q.name.value))
      && (q.active.Some? ==> x.active == q.active.value)
    ensures multiset(r) == multiset(Filter(roles, RoleFilter(q, like)))
  {
    var field := RoleOrderField(if q.orderBy.None? then "" else q.orderBy.value);
    var keep := RoleFilter(q, like);
    OrderedWhere(roles, RoleKey(field, rank), IsAscending(q.sortOrder), keep)
  }

  /** The role query's `Where` clauses. */
  function RoleFilter(q: RolesQuery, like: (string, string) -> bool): Role -> bool
  {
    (x: Role) =>
      && (!IsNullOrWhiteSpace(q.name) ==> like(x.name, q.name.value))
      && (q.active.Some? ==> x.active == q.active.value)
  }

  /** The role validator accepts "ID", yet the handler, which compares keys case-sensitively,
      sorts by name for it. */
  lemma RoleKeyCaseMismatch()
    ensures QueryAccepted(Some("ID"), RoleSortKeys, 1, 10)
    ensures RoleOrderField("ID") == RoleName
  {
    assert ToLower("ID") == "id";
  }

  /** The selection evidently meant: the key the validator accepted, lower-cased. */
  function RoleOrderFieldIntended(orderBy: string): (field: RoleField)
    ensures field == RoleId <==> ToLower(orderBy) == "id"
    ensures field == RoleActive <==> ToLower(orderBy) == "active"
  {
    RoleOrderField(ToLower(orderBy))
  }

  /** The intended selection ignores case, and agrees with the one as written on lower-case keys. */
  lemma RoleOrderFieldIntendedIgnoresCase(orderBy: string)
    ensures RoleOrderFieldIntended(orderBy) == RoleOrderFieldIntended(ToLower(orderBy))
    ensures ToLower(orderBy) == orderBy ==> RoleOrderFieldIntended(orderBy) == RoleOrderField(orderBy)
  {
    ToLowerIdempotent(orderBy);
  }

  // ----- users -----

  /** A row of the user listing: the user joined with their role. */
  datatype UserRow = UserRow(id: string, fullname: string, roleId: string, role: string, active: bool)

  /** The join of users with their roles; a user whose role is not stored is not listed. */
  function JoinUsers(users: seq<User>, roles: seq<Role>): (rows: seq<UserRow>)
    ensures forall x :: x in rows <==>
      exists u :: u in users && FindRole(roles, u.roleId).Some? &&
        x == UserRow(u.id, u.fullname, u.roleId, FindRole(roles, u.roleId).value.name, u.active)
  {
    if users == [] then []
    else
      var u := users[0];
      var rest := JoinUsers(users[1..], roles);
      assert forall v :: v in users <==> v == u || v in users[1..];
      var role := FindRole(roles, u.roleId);
      if role.None? then rest else [UserRow(u.id, u.fullname, u.roleId, role.value.name, u.active)] + rest
  }

  datatype UserField = UserId | UserFullname | UserRole | UserActive

  const UserSortKeys: set<string> := {"id", "name", "fullname", "role", "active"}

  /** `GetOrderByField` of the user query: "name" and every unmatched key (including "fullname")
      sort by full name; the match is case-sensitive. */
  function UserOrderField(orderBy: string): (field: UserField)
    ensures field == UserId <==> orderBy == "id"
    ensures field == UserRole <==> orderBy == "role"
    ensures field == UserActive <==> orderBy == "active"
    ensures field == UserFullname <==> orderBy !in {"id", "role", "active"}
  {
    if orderBy == "id" then UserId
    else if orderBy == "role" then UserRole
    else if orderBy == "active" then UserActive
    else UserFullname
  }

  function UserKey(field: UserField, rank: string -> int): UserRow -> int
  {
    match field
    case UserId => (x: UserRow) => rank(x.id)
    case UserFullname => (x: UserRow) => rank(x.fullname)
    case UserRole => (x: UserRow) => rank(x.role)
    case UserActive => (x: UserRow) => BoolRank(x.active)
  }

  datatype UsersQuery = UsersQuery(
    pageNumber: int,
    pageSize: int,
    orderBy: Option<string>,
    sortOrder: Option<string>,
    name: Option<string>,
    roleId: Option<string>,
    active: Option<bool>)

  /** The user query's `Where` clauses; `signedIn` is the id of the authenticated user. */
  function UserFilter(q: UsersQuery, signedIn: Option<string>, like: (string, string) -> bool): UserRow -> bool
  {
    (x: UserRow) =>
      && (!IsNullOrWhiteSpace(signedIn) ==> x.id != signedIn.value)
      && (!IsNullOrWhiteSpace(q.name) ==> like(x.fullname, q.name.value))
      && (!IsNullOrWhiteSpace(q.roleId) ==> x.roleId == q.roleId.value)
      && (q.active.Some? ==> x.active == q.active.value)
  }

  /** The users listed for a query, before paging: the joined rows other than the signed-in
      user's, filtered by name, role and active flag when those are given, sorted by the selected
      field in the selected direction. */
  function GetAllUsers(users: seq<User>, roles: seq<Role>, q: UsersQuery, signedIn: Option<string>,
                       rank: string -> int, like: (string, string) -> bool): (r: seq<UserRow>)
    ensures InDirection(r, UserKey(UserOrderField(if q.orderBy.None? then "" else q.orderBy.value), rank), IsAscending(q.sortOrder))
    ensures forall x :: x in r <==> x in JoinUsers(users, roles) && UserFilter(q, signedIn, like)(x)
    ensures multiset(r) == multiset(Filter(JoinUsers(users, roles), UserFilter(q, signedIn, like)))
  {
    var field := UserOrderField(if q.orderBy.None? then "" else q.orderBy.value);
    var keep := UserFilter(q, signedIn, like);
    var joined := JoinUsers(users, roles);
    OrderedWhere(joined, UserKey(field, rank), IsAscending(q.sortOrder), keep)
  }

  /** A row is listed exactly when it is a joined row, is not the signed-in user's, and passes
      each of the name, role and active filters that the request gives. */
  lemma ListedUsers(users: seq<User>, roles: seq<Role>, q: UsersQuery, signedIn: Option<string>,
                    rank: string -> int, like: (string, string) -> bool, x: UserRow)
    ensures x in GetAllUsers(users, roles, q, signedIn, rank, like) <==>
      && x in JoinUsers(users, roles)
      && (!IsNullOrWhiteSpace(signedIn) ==> x.id != signedIn.value)
      && (!IsNullOrWhiteSpace(q.name) ==> like(x.fullname, q.name.value))
      && (!IsNullOrWhiteSpace(q.roleId) ==> x.roleId == q.roleId.value)
      && (q.active.Some? ==> x.active == q.active.value)
  {
  }

  /** The signed-in user never sees their own account, and every other user of a stored role
      whose row passes the request's filters is listed. */
  lemma SignedInUserNotListed(users: seq<User>, roles: seq<Role>, q: UsersQuery, signedIn: string,
                              rank: string -> int, like: (string, string) -> bool, u: User)
    requires !IsBlank(signedIn)
    requires u in users && FindRole(roles, u.roleId).Some?
    ensures var listed := GetAllUsers(users, roles, q, Some(signedIn), rank, like);
      var row := UserRow(u.id, u.fullname, u.roleId, FindRole(roles, u.roleId).value.name, u.active);
      && (u.id == signedIn ==> row !in listed)
      && (u.id != signedIn && UserFilter(q, None, like)(row) ==> row in listed)
  {
    var row := UserRow(u.id, u.fullname, u.roleId, FindRole(roles, u.roleId).value.name, u.active);
    ListedUsers(users, roles, q, Some(signedIn), rank, like, row);
  }

  /** The user validator accepts "Role", yet the handler sorts by full name for it. */
  lemma UserKeyCaseMismatch()
    ensures QueryAccepted(Some("Role"), UserSortKeys, 1, 10)
    ensures UserOrderField("Role") == UserFullname
  {
    assert ToLower("Role") == "role";
  }

  /** The selection evidently meant: the key the validator accepted, lower-cased. */
  function UserOrderFieldIntended(orderBy: string): (field: UserField)
    ensures field == UserId <==> ToLower(orderBy) == "id"
    ensures field == UserRole <==> ToLower(orderBy) == "role"
    ensures field == UserActive <==> ToLower(orderBy) == "active"
  {
    UserOrderField(ToLower(orderBy))
  }

  /** The intended selection ignores case, and agrees with the one as written on lower-case keys. */
  lemma UserOrderFieldIntendedIgnoresCase(orderBy: string)
    ensures UserOrderFieldIntended(orderBy) == UserOrderFieldIntended(ToLower(orderBy))
    ensures ToLower(orderBy) == orderBy ==> UserOrderFieldIntended(orderBy) == UserOrderField(orderBy)
  {
    ToLowerIdempotent(orderBy);
  }
}
