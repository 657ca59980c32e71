/** The request and response objects of the account service. */
module Dto {
  import opened Wrappers
  import opened Entity

  /** What a caller asks to register: the key and four profile fields. */
  datatype UserRequestDto = UserRequestDto(
    userId: string,
    email: JString,
    firstName: JString,
    lastName: JString,
    username: JString)

  /** The view of a stored record handed back to the caller. */
  datatype UserResponseDto = UserResponseDto(
    id: string,
    email: JString,
    username: JString,
    firstName: JString,
    lastName: JString,
    createdAt: Option<Timestamp>)
}
