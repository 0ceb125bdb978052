/**
 * org.canoegame.entity.Entity: the lifecycle and flags state machine of a
 * cached entity. An entity records which of its fields changed, and
 * commit turns that record into the payload of a Commitment.
 *
 * The EntityManager's task-local copy lookup is not part of this model.
 * Whether getLocalCopy(getKey()) is this entity comes in as the parameter
 * isLocalCopy. The abstract createCommitment is represented by the
 * FieldSet it would be handed, and incrementRevision by a counter.
 */
module Entities {
  import opened Wrappers
  import opened FieldSets

  datatype Lifecycle = Unavailable | NEW | NORMAL | DELETED

  datatype EntityFlag = WRITABLE | DIRTY | COMMITTING

  /** What an entity sees of its EntityManager: the isAccessValidation switch. */
  datatype Manager = Manager(accessValidation: bool)

  /** commit's second switch: a new entity becomes normal, a deleted one unavailable. */
  function CommittedLifecycle(l: Lifecycle): (r: Lifecycle)
    ensures r == NORMAL || r == Unavailable
    ensures l == NORMAL || l == Unavailable ==> r == l
    ensures r == NORMAL <==> l == NEW || l == NORMAL
  {
    match l
    case NEW => NORMAL
    case DELETED => Unavailable
    case _ => l
  }

  /**
   * delete's switch: the lifecycle it moves to, or None when it returns
   * false. A deleted entity is unavailable once committed.
   */
  function DeletedLifecycle(l: Lifecycle): (r: Option<Lifecycle>)
    ensures r.Some? <==> l == NEW || l == NORMAL
    ensures r.Some? ==> r.value != l && CommittedLifecycle(r.value) == Unavailable
  {
    match l
    case NEW => Some(Unavailable)
    case NORMAL => Some(DELETED)
    case _ => None
  }

  /** Committing twice moves the lifecycle no further than committing once. */
  lemma CommitSettles(l: Lifecycle)
    ensures CommittedLifecycle(CommittedLifecycle(l)) == CommittedLifecycle(l)
  {
  }

  class Entity {
    var manager: Option<Manager>
    var lifecycle: Lifecycle
    var flags: set<EntityFlag>
    /** The counter incrementRevision advances. */
    var revision: nat
    /** getFieldClass(). */
    const fieldType: ElementType
    const changes: FieldSet

    /** changes is a FieldSet over the entity's field class. */
    ghost predicate Valid()
      reads this, changes
    {
      changes.Valid() && changes.elementType == fieldType
    }

    /**
     * Recorded changes are pending work: they exist only while the entity
     * is dirty and is normal or deleted.
     */
    ghost predicate Consistent()
      reads this, changes
    {
      changes.Fields() != {} ==> DIRTY in flags && (lifecycle == NORMAL || lifecycle == DELETED)
    }

    /** new Entity(): unavailable, no flags, an empty change set, no manager. */
    constructor (fieldType: ElementType)
      ensures this.fieldType == fieldType && lifecycle == Unavailable && flags == {}
      ensures manager == None && revision == 0
      ensures fresh(changes) && changes.Fields() == {}
      ensures Valid() && Consistent()
    {
      this.fieldType := fieldType;
      lifecycle := Unavailable;
      flags := {};
      manager := None;
      revision := 0;
      changes := new FieldSet(fieldType);
    }

    /** setEntityManager: succeeds only while no manager is set. */
    method SetEntityManager(m: Option<Manager>) returns (r: Outcome)
      modifies this
      ensures old(manager).Some? ==> r == Fail(IllegalState) && unchanged(this)
      ensures old(manager).None? ==>
        && r == Pass && manager == m
        && lifecycle == old(lifecycle) && flags == old(flags) && revision == old(revision)
    {
      if manager.Some? {
        return Fail(IllegalState);
      }
      manager := m;
      r := Pass;
    }

    /**
     * validateRead: with access validation on, only the task's local copy
     * may be read. Without a manager it throws NullPointerException.
     */
    function ValidateRead(isLocalCopy: bool): (r: Outcome)
      reads this
      ensures r == Pass <==> manager.Some? && (!manager.value.accessValidation || isLocalCopy)
      ensures r != Pass ==> r == Fail(if manager.None? then NullPointer else IllegalState)
    {
      if manager.None? then Fail(NullPointer)
      else if !manager.value.accessValidation then Pass
      else if !isLocalCopy then Fail(IllegalState)
      else Pass
    }

    /**
     * validateWrite: the entity must be writable; after that it behaves
     * like validateRead.
     */
    function ValidateWrite(isLocalCopy: bool): (r: Outcome)
      reads this
      ensures r == Pass <==>
        WRITABLE in flags && manager.Some? && (!manager.value.accessValidation || isLocalCopy)
      ensures WRITABLE !in flags ==> r == Fail(IllegalState)
      ensures WRITABLE in flags ==> r == ValidateRead(isLocalCopy)
    {
      if !HasFlag(WRITABLE) then Fail(IllegalState) else ValidateRead(isLocalCopy)
    }

    /** hasFlag: whether the flag is set. */
    function HasFlag(flag: EntityFlag): (r: bool)
      reads this
      ensures r <==> flag in flags
    {
      flag in flags
    }

    method SetFlag(flag: EntityFlag)
      modifies this
      ensures flags == old(flags) + {flag}
      ensures lifecycle == old(lifecycle) && manager == old(manager) && revision == old(revision)
    {
      flags := flags + {flag};
    }

    method ClearFlag(flag: EntityFlag)
      modifies this
      ensures flags == old(flags) - {flag}
      ensures lifecycle == old(lifecycle) && manager == old(manager) && revision == old(revision)
    {
      flags := flags - {flag};
    }

    /**
     * Change(field): records that field changed. This happens only for a
     * normal entity, and marks it dirty. A new entity records nothing, and
     * a deleted or unavailable one throws. The generic type F guarantees a
     * field of the entity's field class, or null.
     */
    method Change(field: Option<Field>, isLocalCopy: bool) returns (r: Outcome)
      requires Valid()
      requires field.None? || field.value.kind == fieldType.name
      modifies this, changes
      ensures Valid()
      ensures old(Consistent()) ==> Consistent()
      ensures old(ValidateWrite(isLocalCopy)) != Pass ==>
        r == old(ValidateWrite(isLocalCopy)) && unchanged(this, changes)
      ensures old(ValidateWrite(isLocalCopy)) == Pass && old(lifecycle) == NEW ==>
        r == Pass && unchanged(this, changes)
      ensures old(ValidateWrite(isLocalCopy)) == Pass && (old(lifecycle) == DELETED || old(lifecycle) == Unavailable) ==>
        r == Fail(IllegalState) && unchanged(this, changes)
      ensures old(ValidateWrite(isLocalCopy)) == Pass && old(lifecycle) == NORMAL && field.None? ==>
        r == Fail(NullPointer) && unchanged(this, changes)
      ensures old(ValidateWrite(isLocalCopy)) == Pass && old(lifecycle) == NORMAL && field.Some? ==>
        && r == Pass
        && changes.Fields() == old(changes.Fields()) + {field.value}
        && flags == old(flags) + {DIRTY}
        && lifecycle == old(lifecycle) && manager == old(manager) && revision == old(revision)
    {
      r := ValidateWrite(isLocalCopy);
      if r != Pass {
        return;
      }
      match lifecycle {
        case NEW => return;
        case DELETED => return Fail(IllegalState);
        case Unavailable => return Fail(IllegalState);
        case NORMAL =>
      }
      var added := changes.Add(field);
      if added.Err? {
        return Fail(added.fault);
      }
      SetFlag(DIRTY);
    }

    /**
     * delete: a new entity becomes unavailable, and a normal one becomes
     * deleted. Both are marked dirty and get true. Otherwise delete returns
     * false and changes nothing.
     */
    method Delete(isLocalCopy: bool) returns (r: Result<bool>)
      modifies this
      ensures old(Consistent()) ==> Consistent()
      ensures old(ValidateWrite(isLocalCopy)) != Pass ==>
        r == Err(old(ValidateWrite(isLocalCopy)).fault) && unchanged(this)
      ensures old(ValidateWrite(isLocalCopy)) == Pass && (old(lifecycle) == NEW || old(lifecycle) == NORMAL) ==>
        && r == Ok(true)
        && lifecycle == (if old(lifecycle) == NEW then Unavailable else DELETED)
        && flags == old(flags) + {DIRTY}
        && manager == old(manager) && revision == old(revision)
      ensures old(ValidateWrite(isLocalCopy)) == Pass && (old(lifecycle) == DELETED || old(lifecycle) == Unavailable) ==>
        r == Ok(false) && unchanged(this)
    {
      var v := ValidateWrite(isLocalCopy);
      if v != Pass {
        return Err(v.fault);
      }
      var next := DeletedLifecycle(lifecycle);
      if next.None? {
        return Ok(false);
      }
      lifecycle := next.value;
      SetFlag(DIRTY);
      r := Ok(true);
    }

    /**
     * commit: hands createCommitment the FieldSet to persist. For a new
     * entity that is all of its fields. For a normal one it is a snapshot
     * of the changes, taken after one revision increment. For a deleted
     * one it is an empty set, and an unavailable entity gets null. The
     * lifecycle then moves by CommittedLifecycle, the changes are cleared,
     * and DIRTY and COMMITTING are cleared.
     */
    method Commit(isLocalCopy: bool) returns (r: Result<Option<FieldSet>>)
      requires Valid()
      modifies this, changes
      ensures Valid()
      ensures old(Consistent()) ==> Consistent()
      ensures old(ValidateWrite(isLocalCopy)) != Pass ==>
        r == Err(old(ValidateWrite(isLocalCopy)).fault) && unchanged(this, changes)
      ensures old(ValidateWrite(isLocalCopy)) == Pass ==>
        && r.Ok?
        && lifecycle == CommittedLifecycle(old(lifecycle))
        && changes.Fields() == {}
        && flags == old(flags) - {DIRTY, COMMITTING}
        && manager == old(manager)
        && revision == old(revision) + (if old(lifecycle) == NORMAL then 1 else 0)
        && (r.value.None? <==> old(lifecycle) == Unavailable)
      ensures r.Ok? && r.value.Some? ==>
        var p := r.value.value;
        && fresh(p) && p.Valid() && p.elementType == fieldType
        && p.Fields() == match old(lifecycle)
          case NEW => FieldsOf(fieldType.name, set n | n in fieldType.numbers)
          case NORMAL => old(changes.Fields())
          case _ => {}
    {
      var v := ValidateWrite(isLocalCopy);
      if v != Pass {
        return Err(v.fault);
      }
      SetFlag(COMMITTING);
      var payload: Option<FieldSet>;
      match lifecycle {
        case NEW =>
          var p := new FieldSet(fieldType);
          p := p.AddAllConstants();
          payload := Some(p);
        case NORMAL =>
          revision := revision + 1;
          var p := changes.Clone();
          payload := Some(p);
        case DELETED =>
          var p := new FieldSet(fieldType);
          payload := Some(p);
        case Unavailable =>
          payload := None;
      }
      lifecycle := CommittedLifecycle(lifecycle);
      changes.Clear();
      ClearFlag(DIRTY);
      ClearFlag(COMMITTING);
      r := Ok(payload);
    }
  }
}
