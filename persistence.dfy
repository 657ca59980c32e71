/** The user table behind `UserRepository`, with the four CRUD calls the
    service uses: exists, find, save and delete by id. */
module Persistence {
  import opened Wrappers
  import opened Entity

  /** One call made on the repository, in the form a test double records it. */
  datatype Call =
    | ExistsByIdCall(id: string)
    | FindByIdCall(id: string)
    | SaveCall(entity: UserEntity)
    | DeleteByIdCall(id: string)

  /** Every row is stored under its own id and has been stamped with its
      creation time. */
  ghost predicate WellFormed(rows: map<string, UserEntity>)
  {
    forall id :: id in rows ==> rows[id].id == id && rows[id].createdAt.Some?
  }

  /** The row `save(e)` writes: `e` itself, except that the creation time
      is assigned by the store on insert and never updated afterwards. */
  function Persisted(rows: map<string, UserEntity>, e: UserEntity, insertStamp: Timestamp): (saved: UserEntity)
    ensures WellFormed(rows) ==> WellFormed(rows[e.id := saved])
    ensures saved.(createdAt := e.createdAt) == e
    ensures e.id in rows ==> saved.createdAt == rows[e.id].createdAt
  {
    if e.id in rows then e.(createdAt := rows[e.id].createdAt)
    else e.(createdAt := Some(insertStamp))
  }

  /** The store. `rows` is the table; `calls` records, oldest first, every
      call made on it, including calls that threw. Each method takes the
      exception the call throws, if it throws, as its `fault` parameter. */
  class UserRepository {
    var rows: map<string, UserEntity>
    ghost var calls: seq<Call>

    ghost predicate Valid()
      reads this
    {
      WellFormed(rows)
    }

    constructor (rows: map<string, UserEntity>)
      requires WellFormed(rows)
      ensures Valid() && this.rows == rows && calls == []
    {
      this.rows := rows;
      calls := [];
    }

    method ExistsById(id: string, fault: Option<string>) returns (r: Result<bool>)
      modifies this`calls
      ensures calls == old(calls) + [ExistsByIdCall(id)]
      ensures r == if fault.Some? then Failure(fault.value) else Success(id in rows)
    {
      calls := calls + [ExistsByIdCall(id)];
      if fault.Some? {
        return Failure(fault.value);
      }
      r := Success(id in rows);
    }

    method FindById(id: string, fault: Option<string>) returns (r: Result<Option<UserEntity>>)
      modifies this`calls
      ensures calls == old(calls) + [FindByIdCall(id)]
      ensures fault.Some? ==> r == Failure(fault.value)
      ensures fault.None? ==> r.Success? && (r.value.Some? <==> id in rows)
      ensures fault.None? && id in rows ==> r.value.value == rows[id]
    {
      calls := calls + [FindByIdCall(id)];
      if fault.Some? {
        return Failure(fault.value);
      }
      r := if id in rows then Success(Some(rows[id])) else Success(None);
    }

    /** Inserts `e`, or updates the row with `e`'s id, and returns the row
        as stored. */
    method Save(e: UserEntity, insertStamp: Timestamp, fault: Option<string>) returns (r: Result<UserEntity>)
      requires Valid()
      modifies this
      ensures Valid()
      ensures calls == old(calls) + [SaveCall(e)]
      ensures fault.Some? ==> r == Failure(fault.value) && rows == old(rows)
      ensures fault.None? ==> r == Success(Persisted(old(rows), e, insertStamp))
      ensures fault.None? ==> rows == old(rows)[e.id := r.value]
    {
      calls := calls + [SaveCall(e)];
      if fault.Some? {
        return Failure(fault.value);
      }
      var saved := Persisted(rows, e, insertStamp);
      rows := rows[e.id := saved];
      r := Success(saved);
    }

    /** Removes the row with key `id`; a missing key is ignored. */
    method DeleteById(id: string, fault: Option<string>) returns (o: Outcome)
      requires Valid()
      modifies this
      ensures Valid()
      ensures calls == old(calls) + [DeleteByIdCall(id)]
      ensures fault.Some? ==> o == Fail(fault.value) && rows == old(rows)
      ensures fault.None? ==> o == Pass && rows == old(rows) - {id}
    {
      calls := calls + [DeleteByIdCall(id)];
      if fault.Some? {
        return Fail(fault.value);
      }
      rows := rows - {id};
      o := Pass;
    }
  }
}
