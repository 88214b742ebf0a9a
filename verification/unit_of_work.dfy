/** The generic unit of work: it hands out one repository per entity type, creating each on first
    request and caching it in a dictionary keyed by the type. Entity types are identified by
    name. */
module GenericRepository {

  /** A repository over the entities of one type, bound to the unit of work's database context. */
  class Repository {
    const entityType: string

    constructor (entityType: string)
      ensures this.entityType == entityType
    {
      this.entityType := entityType;
    }
  }

  class UnitOfWork {
    var repositories: map<string, Repository>

    /** Every cached repository serves the entity type it is filed under. */
    ghost predicate Valid()
      reads this, repositories.Values
    {
      forall t :: t in repositories ==> repositories[t].entityType == t
    }

    constructor ()
      ensures repositories == map[] && Valid()
    {
      repositories := map[];
    }

    /** `GetRepository`: the cached repository when the type is known, otherwise a new one that is
        filed under the type. */
    method GetRepository(entityType: string) returns (r: Repository)
      modifies this
      ensures entityType in old(repositories) ==> r == old(repositories)[entityType] && repositories == old(repositories)
      ensures entityType !in old(repositories) ==> fresh(r) && repositories == old(repositories)[entityType := r]
      ensures old(Valid()) ==> Valid() && r.entityType == entityType
      ensures repositories.Keys == old(repositories.Keys) + {entityType}
      ensures forall t :: t in old(repositories) ==> t in repositories && repositories[t] == old(repositories)[t]
    {
      if entityType in repositories {
        return repositories[entityType];
      }
      r := new Repository(entityType);
      repositories := repositories[entityType := r];
    }
  }

  /** Two requests for the same entity type return the same repository instance. */
  method SameRepositoryTwice(uow: UnitOfWork, entityType: string) returns (first: Repository, second: Repository)
    modifies uow
    ensures first == second
    ensures entityType in uow.repositories && uow.repositories[entityType] == first
  {
    first := uow.GetRepository(entityType);
    second := uow.GetRepository(entityType);
  }
}
