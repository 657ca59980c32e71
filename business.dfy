/** The account service: registration as an upsert, and deletion as
    existence check, then local delete, then a published deletion event. */
module Business {
  import opened Wrappers
  import opened Entity
  import opened Dto
  import opened Persistence
  import opened Messaging

  /** Message of the exception thrown when the account to delete is absent. */
  const USER_NOT_FOUND: string := "User not found"
  /** Message of the exception thrown when the deletion event is refused. */
  const PUBLISH_FAILED: string := "Failed to publish deletion event"

  /** Which collaborator calls throw during one service call, and with what
      message (`None`: the call returns normally). */
  datatype Faults = Faults(
    existsById: Option<string>,
    findById: Option<string>,
    save: Option<string>,
    deleteById: Option<string>,
    convertAndSend: Option<string>)

  /** Every collaborator behaves. */
  const NO_FAULTS: Faults := Faults(None, None, None, None, None)

  /** How `deleteAccount` ends: it returns, or it throws one of three
      exceptions. */
  datatype DeleteOutcome =
    | Deleted
    | NotFound
    | PublishFailure
    | StoreFailure(cause: string)
  {
    /** The message of the exception thrown. A store failure is rethrown
        unchanged; a broker failure is replaced by a fixed message. */
    function Message(): (m: string)
      requires !Deleted?
      ensures NotFound? ==> m == "User not found"
      ensures PublishFailure? ==> m == "Failed to publish deletion event"
      ensures StoreFailure? ==> m == cause
      ensures !StoreFailure? ==> (m == "User not found" <==> NotFound?)
    {
      if NotFound? then USER_NOT_FOUND
      else if PublishFailure? then PUBLISH_FAILED
      else cause
    }
  }

  /** The four setters applied to a loaded record on the update path; the
      request's values replace the old ones even when null or empty. */
  function Overwrite(user: UserEntity, request: UserRequestDto): (updated: UserEntity)
    ensures updated.id == user.id && updated.createdAt == user.createdAt
    ensures HasProfile(updated, request)
  {
    user.(email := request.email, firstName := request.firstName,
          lastName := request.lastName, username := request.username)
  }

  /** The record the builder makes on the create path: no creation time yet. */
  function Build(request: UserRequestDto): (user: UserEntity)
    ensures user.id == request.userId && HasProfile(user, request)
    ensures user.createdAt == None
  {
    UserEntity(request.userId, request.email, request.firstName,
               request.lastName, request.username, None)
  }

  /** The view returned for a saved record. */
  function ToResponse(user: UserEntity): (view: UserResponseDto)
    ensures view.id == user.id && view.createdAt == user.createdAt
    ensures view.email == user.email && view.username == user.username
    ensures view.firstName == user.firstName && view.lastName == user.lastName
  {
    UserResponseDto(user.id, user.email, user.username, user.firstName,
                    user.lastName, user.createdAt)
  }

  /** `user` holds exactly the four profile values of `request`. */
  predicate HasProfile(user: UserEntity, request: UserRequestDto)
  {
    && user.email == request.email
    && user.firstName == request.firstName
    && user.lastName == request.lastName
    && user.username == request.username
  }

  /** The records handed to `save`, in call order. */
  function Saves(calls: seq<Call>): seq<UserEntity>
  {
    if calls == [] then []
    else (if calls[0].SaveCall? then [calls[0].entity] else []) + Saves(calls[1..])
  }

  /** The effect of one `registerUser` call on a table `rows`: its result,
      the table afterwards, and the repository calls it made. */
  datatype Registration = Registration(
    result: Result<UserResponseDto>,
    rows: map<string, UserEntity>,
    calls: seq<Call>)

  function Register(rows: map<string, UserEntity>, request: UserRequestDto,
                    insertStamp: Timestamp, faults: Faults): (g: Registration)
    requires WellFormed(rows)
    ensures WellFormed(g.rows)
    // it fails exactly when a collaborator call it reaches throws, and then
    // the table is as it was
    ensures g.result.Success? <==>
              && faults.existsById.None?
              && (request.userId in rows ==> faults.findById.None?)
              && faults.save.None?
    ensures g.result.Failure? ==> g.rows == rows
    // a failing collaborator's exception is rethrown unchanged
    ensures g.result.Failure? ==>
              g.result.message == if faults.existsById.Some? then faults.existsById.value
                                  else if request.userId in rows && faults.findById.Some? then faults.findById.value
                                  else faults.save.value
    // upsert: at most the one key is added, and no other row is touched
    ensures g.rows.Keys == if g.result.Success? then rows.Keys + {request.userId} else rows.Keys
    ensures forall id :: id in rows && id != request.userId ==> g.rows[id] == rows[id]
    // the saved row carries the request's key and profile, keeps the old
    // creation time on update, and the view mirrors it
    ensures g.result.Success? ==>
              var user := g.rows[request.userId];
              && user.id == request.userId
              && HasProfile(user, request)
              && user.createdAt == (if request.userId in rows then rows[request.userId].createdAt
                                    else Some(insertStamp))
              && g.result.value == ToResponse(user)
    // existence is checked first, nothing is deleted, and save is called
    // exactly once, with the request's values, once existence is settled
    ensures |g.calls| > 0 && g.calls[0] == ExistsByIdCall(request.userId)
    ensures forall c :: c in g.calls ==> !c.DeleteByIdCall?
    // the record is loaded only on the update path
    ensures FindByIdCall(request.userId) in g.calls <==> faults.existsById.None? && request.userId in rows
    ensures |Saves(g.calls)| <= 1
    ensures |Saves(g.calls)| == 1 <==>
              faults.existsById.None? && (request.userId in rows ==> faults.findById.None?)
    ensures |Saves(g.calls)| == 1 ==>
              var user := Saves(g.calls)[0];
              && user.id == request.userId
              && HasProfile(user, request)
              && user.createdAt == (if request.userId in rows then rows[request.userId].createdAt
                                    else None)
  {
    var id := request.userId;
    var checked := [ExistsByIdCall(id)];
    if faults.existsById.Some? then
      Registration(Failure(faults.existsById.value), rows, checked)
    else if id in rows && faults.findById.Some? then
      NoSaves(checked + [FindByIdCall(id)]);
      Registration(Failure(faults.findById.value), rows, checked + [FindByIdCall(id)])
    else
      var user := if id in rows then Overwrite(rows[id], request) else Build(request);
      var loaded := if id in rows then checked + [FindByIdCall(id)] else checked;
      var calls := loaded + [SaveCall(user)];
      NoSaves(loaded);
      assert [SaveCall(user)][1..] == [];
      SavesAppend(loaded, [SaveCall(user)]);
      if faults.save.Some? then
        Registration(Failure(faults.save.value), rows, calls)
      else
        var saved := Persisted(rows, user, insertStamp);
        Registration(Success(ToResponse(saved)), rows[id := saved], calls)
  }

  lemma {:induction false} NoSaves(calls: seq<Call>)
    requires forall c :: c in calls ==> !c.SaveCall?
    ensures Saves(calls) == []
  {
    if calls != [] {
      assert calls[0] in calls;
      NoSaves(calls[1..]);
    }
  }

  lemma {:induction false} SavesAppend(a: seq<Call>, b: seq<Call>)
    ensures Saves(a + b) == Saves(a) + Saves(b)
  {
    if a == [] {
      assert a + b == b;
    } else {
      assert (a + b)[1..] == a[1..] + b;
      SavesAppend(a[1..], b);
    }
  }

  /** The effect of one `deleteAccount` call: its outcome, the table and
      the broker's accepted messages afterwards, and the repository calls
      it made. */
  datatype Deletion = Deletion(
    outcome: DeleteOutcome,
    rows: map<string, UserEntity>,
    sent: seq<Message>,
    calls: seq<Call>)

  function Delete(rows: map<string, UserEntity>, sent: seq<Message>, userId: string,
                  faults: Faults): (d: Deletion)
    requires WellFormed(rows)
    ensures WellFormed(d.rows)
    // the four outcomes, and when each happens
    ensures d.outcome.NotFound? <==> faults.existsById.None? && userId !in rows
    ensures d.outcome.Deleted? <==>
              faults.existsById.None? && userId in rows && faults.deleteById.None? && faults.convertAndSend.None?
    ensures d.outcome.PublishFailure? <==>
              faults.existsById.None? && userId in rows && faults.deleteById.None? && faults.convertAndSend.Some?
    ensures d.outcome.StoreFailure? ==>
              d.outcome.cause == if faults.existsById.Some? then faults.existsById.value else faults.deleteById.value
    // a missing id or a store failure changes nothing and publishes nothing
    ensures d.outcome.NotFound? || d.outcome.StoreFailure? ==> d.rows == rows && d.sent == sent
    // the row is gone before publishing is attempted, so a publish failure
    // still leaves it deleted
    ensures d.outcome.Deleted? || d.outcome.PublishFailure? ==> userId in rows && d.rows == rows - {userId}
    // exactly one deletion event, and only on success
    ensures d.sent == if d.outcome.Deleted? then sent + [DeletionEvent(userId)] else sent
    // no other row is touched
    ensures forall id :: id != userId ==> (id in d.rows <==> id in rows)
    ensures forall id :: id in d.rows ==> d.rows[id] == rows[id]
    // existence is checked first; the delete is attempted only for a present id
    ensures |d.calls| > 0 && d.calls[0] == ExistsByIdCall(userId)
    ensures DeleteByIdCall(userId) in d.calls <==> faults.existsById.None? && userId in rows
    ensures forall c :: c in d.calls ==> !c.SaveCall?
  {
    var checked := [ExistsByIdCall(userId)];
    if faults.existsById.Some? then
      Deletion(StoreFailure(faults.existsById.value), rows, sent, checked)
    else if userId !in rows then
      Deletion(NotFound, rows, sent, checked)
    else if faults.deleteById.Some? then
      Deletion(StoreFailure(faults.deleteById.value), rows, sent, checked + [DeleteByIdCall(userId)])
    else if faults.convertAndSend.Some? then
      Deletion(PublishFailure, rows - {userId}, sent, checked + [DeleteByIdCall(userId)])
    else
      Deletion(Deleted, rows - {userId}, sent + [DeletionEvent(userId)], checked + [DeleteByIdCall(userId)])
  }

  /** Registering the same request twice leaves the table and the view as
      one registration did, and the second call still saves. */
  lemma RegisterIdempotent(rows: map<string, UserEntity>, request: UserRequestDto,
                           firstStamp: Timestamp, secondStamp: Timestamp)
    requires WellFormed(rows)
    ensures var once := Register(rows, request, firstStamp, NO_FAULTS);
            var twice := Register(once.rows, request, secondStamp, NO_FAULTS);
            && twice.rows == once.rows
            && twice.result == once.result
            && |Saves(twice.calls)| == 1
  {
  }

  /** A second registration of the same id replaces the whole profile with
      the new request's values (a field the new request leaves null becomes
      null) while the id and the first creation time stay. */
  lemma RegisterFullReplace(rows: map<string, UserEntity>, first: UserRequestDto, second: UserRequestDto,
                            firstStamp: Timestamp, secondStamp: Timestamp)
    requires WellFormed(rows)
    requires first.userId == second.userId
    ensures var once := Register(rows, first, firstStamp, NO_FAULTS);
            var twice := Register(once.rows, second, secondStamp, NO_FAULTS);
            && twice.result.Success?
            && twice.rows.Keys == once.rows.Keys
            && twice.rows[second.userId] == once.rows[first.userId].(
                 email := second.email, firstName := second.firstName,
                 lastName := second.lastName, username := second.username)
  {
  }

  /** Deleting an account that was just deleted reports NotFound and
      changes nothing: one deletion, one event. */
  lemma DeleteTwice(rows: map<string, UserEntity>, sent: seq<Message>, userId: string,
                    firstFaults: Faults, secondFaults: Faults)
    requires WellFormed(rows)
    requires Delete(rows, sent, userId, firstFaults).outcome.Deleted?
    requires secondFaults.existsById.None?
    ensures var once := Delete(rows, sent, userId, firstFaults);
            var twice := Delete(once.rows, once.sent, userId, secondFaults);
            && twice.outcome == NotFound
            && twice.rows == once.rows
            && twice.sent == sent + [DeletionEvent(userId)]
  {
  }

  /** Registering an account and then deleting it leaves the rest of the
      table as it was, with the key gone, and publishes one event. */
  lemma RegisterThenDelete(rows: map<string, UserEntity>, sent: seq<Message>,
                           request: UserRequestDto, insertStamp: Timestamp)
    requires WellFormed(rows)
    ensures var g := Register(rows, request, insertStamp, NO_FAULTS);
            var d := Delete(g.rows, sent, request.userId, NO_FAULTS);
            && d.outcome == Deleted
            && d.rows == rows - {request.userId}
            && d.sent == sent + [Message("user.exchange", "user.deleted", request.userId)]
  {
  }

  /** The service over its two collaborators. */
  class UserServiceImpl {
    const userRepository: UserRepository
    const rabbitTemplate: RabbitTemplate

    constructor (userRepository: UserRepository, rabbitTemplate: RabbitTemplate)
      ensures this.userRepository == userRepository && this.rabbitTemplate == rabbitTemplate
    {
      this.userRepository := userRepository;
      this.rabbitTemplate := rabbitTemplate;
    }

    /** Creates the account `requestDto.userId`, or replaces the four
        profile fields of the existing one, and returns the stored view.
        Publishes nothing. */
    method RegisterUser(requestDto: UserRequestDto, insertStamp: Timestamp, faults: Faults)
      returns (r: Result<UserResponseDto>)
      requires userRepository.Valid()
      modifies userRepository
      ensures userRepository.Valid()
      ensures var g := Register(old(userRepository.rows), requestDto, insertStamp, faults);
              && r == g.result
              && userRepository.rows == g.rows
              && userRepository.calls == old(userRepository.calls) + g.calls
      ensures rabbitTemplate.sent == old(rabbitTemplate.sent)
    {
      var present := userRepository.ExistsById(requestDto.userId, faults.existsById);
      if present.Failure? {
        return Failure(present.message);
      }
      var user: UserEntity;
      if present.value {
        var found := userRepository.FindById(requestDto.userId, faults.findById);
        if found.Failure? {
          return Failure(found.message);
        }
        user := found.value.value;
        user := Overwrite(user, requestDto);
      } else {
        user := Build(requestDto);
      }
      var saved := userRepository.Save(user, insertStamp, faults.save);
      if saved.Failure? {
        return Failure(saved.message);
      }
      user := saved.value;
      r := Success(ToResponse(user));
    }

    /** Deletes account `userId`, then announces the deletion on the broker. */
    method DeleteAccount(userId: string, faults: Faults) returns (outcome: DeleteOutcome)
      requires userRepository.Valid()
      modifies userRepository, rabbitTemplate
      ensures userRepository.Valid()
      ensures var d := Delete(old(userRepository.rows), old(rabbitTemplate.sent), userId, faults);
              && outcome == d.outcome
              && userRepository.rows == d.rows
              && rabbitTemplate.sent == d.sent
              && userRepository.calls == old(userRepository.calls) + d.calls
    {
      var present := userRepository.ExistsById(userId, faults.existsById);
      if present.Failure? {
        return StoreFailure(present.message);
      }
      if !present.value {
        return NotFound;
      }
      var deleted := userRepository.DeleteById(userId, faults.deleteById);
      if deleted.Fail? {
        return StoreFailure(deleted.message);
      }
      var published := rabbitTemplate.ConvertAndSend(USER_EXCHANGE, USER_DELETED_ROUTING_KEY, userId, faults.convertAndSend);
      if published.Fail? {
        return PublishFailure;
      }
      outcome := Deleted;
    }
  }
}
