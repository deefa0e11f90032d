/** The error kinds the directory reports, with the texts it reports them by. */
module ErrorMessages {

  datatype ErrorCode =
    | UserNotFound
    | DuplicateEmail
    | InvalidEmailFormat
    | InvalidEmailDomain
    | NoAlphanumericCharacters

  /** The message string each error kind is reported with. */
  function Message(e: ErrorCode): (m: string)
    ensures |m| > 0
  {
    match e
    case UserNotFound => "User not found"
    case DuplicateEmail => "Email already exists"
    case InvalidEmailFormat => "Invalid email format"
    case InvalidEmailDomain => "Email domain must be one of the following: .com, .net, .org, .co, .pk"
    case NoAlphanumericCharacters => "Email must contain at least one alphanumeric character before @"
  }

  /** The text of a successful delete. */
  const UserDeleted: string := "User deleted successfully"

  /** A caller can tell every error kind from its message alone. */
  lemma MessagesDistinct(a: ErrorCode, b: ErrorCode)
    ensures Message(a) == Message(b) ==> a == b
  {
  }
}
