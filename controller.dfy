/** The HTTP endpoints in front of the account service: how a register
    request is built from the gateway's headers, and how the outcome of a
    deletion becomes a status code. */
module Controller {
  import opened Wrappers
  import opened Entity
  import opened Dto
  import opened Persistence
  import opened Messaging
  import opened Business

  const OK: int := 200
  const NO_CONTENT: int := 204
  const NOT_FOUND: int := 404
  const INTERNAL_SERVER_ERROR: int := 500

  /** An HTTP response: a status code and an optional body. */
  datatype ResponseEntity<T> = ResponseEntity(status: int, body: Option<T>)

  /** Java's `String.contains`: `part` occurs in `s` as a contiguous,
      case-sensitive substring. */
  predicate Contains(s: string, part: string)
    decreases |s|
    ensures part == [] ==> Contains(s, part)
    ensures Contains(s, part) ==> |part| <= |s|
  {
    part <= s || (|s| > 0 && Contains(s[1..], part))
  }

  /** `part` occurs in `s` starting at index `i`. */
  predicate OccursAt(s: string, part: string, i: int)
  {
    0 <= i <= |s| - |part| && s[i..i + |part|] == part
  }

  /** `Contains` agrees with the definition by position. */
  lemma {:induction false} ContainsIffOccurs(s: string, part: string)
    ensures Contains(s, part) <==> exists i :: OccursAt(s, part, i)
  {
    if part <= s {
      assert OccursAt(s, part, 0);
    } else if |s| > 0 {
      ContainsIffOccurs(s[1..], part);
      forall i | OccursAt(s, part, i)
        ensures OccursAt(s[1..], part, i - 1)
      {
        assert s[1..][i - 1..i - 1 + |part|] == s[i..i + |part|];
      }
      forall j | OccursAt(s[1..], part, j)
        ensures OccursAt(s, part, j + 1)
      {
        assert s[j + 1..j + 1 + |part|] == s[1..][j..j + |part|];
      }
    }
  }

  /** A string that lacks one of the characters of `part` does not contain it. */
  lemma MissingCharNotContained(s: string, part: string, k: nat)
    requires k < |part| && part[k] !in s
    ensures !Contains(s, part)
  {
    ContainsIffOccurs(s, part);
  }

  /** The register endpoint's request: every value comes from a header. The
      roles header and the optional body are not used, because the request
      type has no field for them. */
  function RegisterRequest(userId: string, email: string, firstName: string, lastName: string,
                           username: string, roles: string,
                           additionalInfo: Option<UserRequestDto>): (request: UserRequestDto)
    ensures request.userId == userId
    ensures request.email == Some(email) && request.firstName == Some(firstName)
    ensures request.lastName == Some(lastName) && request.username == Some(username)
  {
    UserRequestDto(userId, Some(email), Some(firstName), Some(lastName), Some(username))
  }

  /** The register endpoint's reply to what the service did: 200 with the
      service's view as body; an exception is not caught here. */
  function RegisterResponse(served: Result<UserResponseDto>): (response: Result<ResponseEntity<UserResponseDto>>)
    ensures response.Success? <==> served.Success?
    ensures served.Success? ==> response.value.status == OK && response.value.body == Some(served.value)
    ensures served.Failure? ==> response.message == served.message
  {
    match served
    case Success(view) => Success(ResponseEntity(OK, Some(view)))
    case Failure(message) => Failure(message)
  }

  /** The delete endpoint's status for an outcome of the service: 204 on
      success; on an exception, 404 when its message mentions "not found",
      500 otherwise. */
  function DeleteResponse(outcome: DeleteOutcome): (response: ResponseEntity<()>)
    ensures response.body == None
    ensures response.status == NO_CONTENT <==> outcome.Deleted?
    ensures response.status == NOT_FOUND <==> !outcome.Deleted? && Contains(outcome.Message(), "not found")
    ensures response.status in {NO_CONTENT, NOT_FOUND, INTERNAL_SERVER_ERROR}
  {
    if outcome.Deleted? then ResponseEntity(NO_CONTENT, None)
    else if Contains(outcome.Message(), "not found") then ResponseEntity(NOT_FOUND, None)
    else ResponseEntity(INTERNAL_SERVER_ERROR, None)
  }

  /** The service's two fixed messages land on different statuses: a
      missing account is 404, a refused event is 500. */
  lemma FixedMessagesStatus()
    ensures DeleteResponse(NotFound).status == NOT_FOUND
    ensures DeleteResponse(PublishFailure).status == INTERNAL_SERVER_ERROR
  {
    assert OccursAt("User not found", "not found", 5);
    ContainsIffOccurs("User not found", "not found");
    assert "not found"[4] == 'f';
    MissingCharNotContained("Failed to publish deletion event", "not found", 4);
  }

  /** The delete endpoint composed with the service: success is 204, a
      missing account 404, a refused event 500, and a store exception 404
      or 500 according to its own message. */
  lemma DeleteEndpointStatus(rows: map<string, UserEntity>, sent: seq<Message>, userId: string,
                             faults: Faults)
    requires WellFormed(rows)
    ensures var status := DeleteResponse(Delete(rows, sent, userId, faults).outcome).status;
            && (status == NO_CONTENT <==>
                  faults.existsById.None? && userId in rows && faults.deleteById.None? && faults.convertAndSend.None?)
            && (faults.existsById.None? && userId !in rows ==> status == NOT_FOUND)
            && (faults.existsById.None? && userId in rows && faults.deleteById.None? && faults.convertAndSend.Some? ==>
                  status == INTERNAL_SERVER_ERROR)
            && (faults.existsById.Some? ==> (status == NOT_FOUND <==> Contains(faults.existsById.value, "not found")))
  {
    FixedMessagesStatus();
  }
}
