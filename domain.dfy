/** The records of the identity library: the persisted entities, the
    payloads the service receives, and the hasher's result. */
module Domain {

  /** A `DateTime<Utc>`, as its `timestamp_millis()`. */
  type Timestamp = int

  /** The kind of a credential; `Email` is the `#[default]` variant. */
  datatype CredentialType = PhoneNumber | Email | Username

  /** A stored credential row. At most one per user and credential type. */
  datatype Credential = Credential(
    user_id: int,
    credential_type: CredentialType,
    credential: string,
    time_created: Timestamp,
    last_updated: Timestamp)

  /** A stored user row; `password` holds the Base64 PBKDF2 hash and `salt`
      the Base64 salt. */
  datatype User = User(
    id: int,
    name: string,
    password: string,
    salt: string,
    time_created: Timestamp,
    last_updated: Timestamp)

  /** A stored token row: one session of a user. */
  datatype Token = Token(
    id: int,
    user_id: int,
    auth_token: string,
    refresh_token: string,
    time_created: Timestamp,
    last_updated: Timestamp)

  /** One credential as a client supplies it. */
  datatype CredentialDto = CredentialDto(credential: string, credential_type: CredentialType)

  /** The registration payload: display name, clear-text password and the
      credentials to create. */
  datatype UserRegisterPayload = UserRegisterPayload(
    name: string,
    password: string,
    credentials: seq<CredentialDto>)

  /** The password-login payload: one credential and the password. */
  datatype UserLoginPayload = UserLoginPayload(
    credential: string,
    credential_type: CredentialType,
    password: string)

  /** What a caller presents to be authenticated. */
  datatype AuthenticateUserDto = AuthenticateUserDto(id: int, auth_token: string)

  /** The hasher's output: Base64 salt and Base64 hash. */
  datatype HashResult = HashResult(salt: string, hash: string)
}
