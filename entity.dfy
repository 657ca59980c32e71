/** The persisted account record (`UserEntity`). */
module Entity {
  import opened Wrappers

  /** A `LocalDateTime`; the model only copies and compares it. */
  type Timestamp = int

  /** A Java `String` field, which may be null. */
  type JString = Option<string>

  /** One row of the user table. `id` is the caller-supplied primary key;
      `createdAt` is null until the store first inserts the row. */
  datatype UserEntity = UserEntity(
    id: string,
    email: JString,
    firstName: JString,
    lastName: JString,
    username: JString,
    createdAt: Option<Timestamp>)
}
