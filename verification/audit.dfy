/** The audit stamping done on every save of the application's database context: each tracked
    auditable entity that is being added gets its creation time and author, each one being
    modified gets its update time and author. */
module AuditStamping {
  import opened Wrappers

  /** The state of a tracked entity in the change tracker. */
  datatype EntityState = Detached | Unchanged | Deleted | Modified | Added

  /** The audit columns of an entity; times are abstract clock readings and an author is the id
      of the authenticated user, absent when there is none. */
  datatype AuditFields = AuditFields(createdAt: int, createdBy: Option<string>, updatedAt: int, updatedBy: Option<string>)

  /** The stamp one entry receives. An added entry gets `CreatedAt`/`CreatedBy`, a modified one
      `UpdatedAt`/`UpdatedBy`; any other state, and any entity that is not auditable, is left as
      it is. */
  function Stamped(a: AuditFields, state: EntityState, auditable: bool, now: int, userId: Option<string>): (b: AuditFields)
    ensures auditable && state == Added ==> b.createdAt == now && b.createdBy == userId
    ensures auditable && state == Modified ==> b.updatedAt == now && b.updatedBy == userId
    ensures !(auditable && state == Added) ==> b.createdAt == a.createdAt && b.createdBy == a.createdBy
    ensures !(auditable && state == Modified) ==> b.updatedAt == a.updatedAt && b.updatedBy == a.updatedBy
  {
    if !auditable then a
    else match state
      case Added => a.(createdAt := now, createdBy := userId)
      case Modified => a.(updatedAt := now, updatedBy := userId)
      case _ => a
  }

  /** Saving twice at the same time by the same user stamps the same values as saving once. */
  lemma StampedIdempotent(a: AuditFields, state: EntityState, auditable: bool, now: int, userId: Option<string>)
    ensures Stamped(Stamped(a, state, auditable, now, userId), state, auditable, now, userId) == Stamped(a, state, auditable, now, userId)
  {
  }

  /** A tracked entity: its state, whether it is auditable, and its audit columns. */
  class Entry {
    var state: EntityState
    const auditable: bool
    var createdAt: int
    var createdBy: Option<string>
    var updatedAt: int
    var updatedBy: Option<string>

    constructor (state: EntityState, auditable: bool, a: AuditFields)
      ensures this.state == state && this.auditable == auditable && Fields() == a
    {
      this.state := state;
      this.auditable := auditable;
      createdAt, createdBy, updatedAt, updatedBy := a.createdAt, a.createdBy, a.updatedAt, a.updatedBy;
    }

    function Fields(): AuditFields
      reads this
    {
      AuditFields(createdAt, createdBy, updatedAt, updatedBy)
    }

    /** The stamp of one entry, in place. */
    method Stamp(now: int, userId: Option<string>)
      modifies this
      ensures Fields() == Stamped(old(Fields()), state, auditable, now, userId)
      ensures state == old(state)
    {
      if auditable {
        match state
        case Added =>
          createdAt := now;
          createdBy := userId;
        case Modified =>
          updatedAt := now;
          updatedBy := userId;
        case _ =>
      }
    }
  }

  /** The loop of `SaveChangesAsync` over the tracked entries (each entry once): every entry ends
      up stamped for its state, and no entry changes state. `now` is the clock's reading and
      `userId` the authenticated user's id. */
  method StampEntries(entries: seq<Entry>, now: int, userId: Option<string>)
    requires forall i, j :: 0 <= i < j < |entries| ==> entries[i] != entries[j]
    modifies set e | e in entries
    ensures forall i :: 0 <= i < |entries| ==>
      entries[i].state == old(entries[i].state) &&
      entries[i].Fields() == Stamped(old(entries[i].Fields()), entries[i].state, entries[i].auditable, now, userId)
  {
    for n := 0 to |entries|
      invariant forall i :: 0 <= i < n ==>
        entries[i].state == old(entries[i].state) &&
        entries[i].Fields() == Stamped(old(entries[i].Fields()), entries[i].state, entries[i].auditable, now, userId)
      invariant forall i :: n <= i < |entries| ==>
        entries[i].state == old(entries[i].state) && entries[i].Fields() == old(entries[i].Fields())
    {
      entries[n].Stamp(now, userId);
    }
  }
}
