/** The error resources the library reports to its callers and the length
    limits the validator checks. */
module Resources {
  import opened Wrappers

  /** An `ErrorResource`: one reportable failure. The Rust code represents
      each as a (code, message) pair of string constants; here each
      constant is a constructor. */
  datatype ErrorResource =
    | InvalidEmail
    | InvalidPhoneNumber
    | InvalidUsername
    | InvalidName
    | InvalidPassword
    | UserAlreadyExists
    | UserDoesNotExist
    | PasswordIncorrect
    | InvalidToken
    | IncorrectToken
    | MissingToken
    | ExpiredToken
    | CreatingToken
    | TooManyCredentials
    | TokenNotCreated
    | DatabaseError
    | JoinError
  {
    /** The (code, message) pair. The constants `ERROR_TOO_MANY_CREDENTIALS`
        and `ERROR_TOKEN_NOT_CREATED` are used by the service but their
        text is not part of this model, hence `None`. */
    function Pair(): (r: Option<(string, string)>)
    {
      match this
      case InvalidEmail => Some(("ERROR.INVALID_EMAIL", "Invalid email. Needs to be at least 4 characters, at most 254 and correctly formatted."))
      case InvalidPhoneNumber => Some(("ERROR.INVALID_PHONE_NUMBER", "Invalid Phone number. Needs to be 10 characters."))
      case InvalidUsername => Some(("ERROR.INVALID_USERNAME", "Invalid Username. "))
      case InvalidName => Some(("ERROR.INVALID_NAME", "Invalid name. Names should have at least 4 characters in length and at most 254."))
      case InvalidPassword => Some(("ERROR.INVALID_PASSWORD", "Invalid password. Password should have at least 8 characters and at most 128."))
      case UserAlreadyExists => Some(("ERROR.USER_ALREADY_EXISTS", "A user with that email already exists."))
      case UserDoesNotExist => Some(("ERROR.USER_DOES_NOT_EXIST", "User with this email does not exist."))
      case PasswordIncorrect => Some(("ERROR.PASSWORD_INCORRECT", "The password you have entered is incorrect."))
      case InvalidToken => Some(("ERROR.INVALID_TOKEN", "The token you have supplied is not formattable."))
      case IncorrectToken => Some(("ERROR.INCORRECT_TOKEN", "The token you have supplied does not belong to this user."))
      case MissingToken => Some(("ERROR.MISSING_TOKEN", "No token supplied."))
      case ExpiredToken => Some(("ERROR.EXPIRED_TOKEN", "The token you have supplied is expired."))
      case CreatingToken => Some(("ERROR.CREATING_TOKEN", "The server had an error creating the auth tokens."))
      case TooManyCredentials => None
      case TokenNotCreated => None
      case DatabaseError => Some(("ERROR.DATABASE_ERROR", ""))
      case JoinError => Some(("ERROR.JOIN_ERROR", ""))
    }
  }

  // Length limits, in bytes.
  const MIN_EMAIL_LENGTH: nat := 4
  const MAX_EMAIL_LENGTH: nat := 254
  const MIN_NAME_LENGTH: nat := 4
  const MAX_NAME_LENGTH: nat := 254
  const MIN_PASSWORD_LENGTH: nat := 8
  const MAX_PASSWORD_LENGTH: nat := 128
}
