/** The values the member service works with: the Member entity, its requests and its errors. */
module Model {

  import opened Wrappers

  /** A Java `int`. */
  newtype int32 = x: int | -0x8000_0000 <= x < 0x8000_0000

  /** A java.sql.Date, identified by its milliseconds since the epoch. */
  datatype Date = Date(millis: int)

  /**
   * A member record. Every nullable string field is an Option; the id is
   * always set by the service before a record reaches the repository, so it
   * is a plain string here.
   */
  datatype Member = Member(
    id: string,
    email: Option<string>,
    fullName: Option<string>,
    password: Option<string>,
    experienceMonths: int32,
    registrationDate: Option<Date>)

  /**
   * The record registration starts from. Its id is a placeholder: `setId`
   * overwrites it before anything reads it. The other fields are the Java
   * defaults (null references, 0).
   */
  const EmptyMember := Member("", None, None, None, 0, None)

  /** The registration form's fields, each as the caller supplied it. */
  datatype NewRegistrationRequest = NewRegistrationRequest(
    email: Option<string>,
    fullName: Option<string>,
    password: Option<string>,
    experienceMonths: int32)

  /** The edit form: the id of the record to change and the fields to patch. */
  datatype EditMemberRequest = EditMemberRequest(
    id: string,
    email: Option<string>,
    fullName: Option<string>,
    password: Option<string>)

  /**
   * The response DTO. Its own fields are not part of this model, so a
   * response is identified with the member it was built from.
   */
  datatype MemberResponse = MemberResponse(member: Member)

  /** The three exceptions the service throws. */
  datatype ServiceError =
    | InvalidUserInput      // InvalidUserInputException
    | ResourcePersistance   // ResourcePersistanceException: the email is taken
    | ResourceNotFound      // ResourceNotFoundException

  /** A return value, or the exception thrown instead of it. */
  datatype Result<+T> = Ok(value: T) | Err(error: ServiceError)
}
