# user-lib-rs, modelled in Dafny

A model of the core of `user-lib-rs`, a small identity library. It registers
users with one or more credentials (email, phone number, username), stores
a salted PBKDF2 hash of their password, and hands out random
authentication tokens that it later checks. The model has four parts:

- **Payload validator** (`user_validator.dfy`). The length and format
  predicates, and the two routines that append one error resource per
  failed check to the caller's vector without stopping early. Rust's
  `String::len` is a byte count, so strings are measured through an
  explicit UTF-8 encoding (`utf8.dfy`).
- **`CredentialType` text codec** (`credential_codec.dfy`). `FromStr`,
  `Display` and the database column `Encode`/`Decode` that delegate to
  them.
- **Hasher** (`hasher.dfy`).
  - `hash_password` and `hash_password_with_existing_salt`, over PBKDF2 as
    section 5.2 of RFC 8018 defines it (`pbkdf2.dfy`) and padded Base64 as
    section 4 of RFC 4648 defines it (`base64.dfy`). The Base64 decoder
    checks each four-character group on its own, so a padded group may be
    followed by more groups. This follows the padded decoding of the
    `data_encoding` crate's `BASE64`. The generator is the
    `SystemRandom` class, an entropy stream that `Fill` consumes with each
    draw.
  - `generate_multiple_random_token_with_rng`, whose spawned tasks become a
    sequential loop.
- **User service** (`user_service.dfy`). `register_user` and
  `authenticate_user`, run over an in-memory `Store` class (`store.dfy`).
  The store holds users by id, credentials by value and tokens by id, with
  `serial` id counters. Every store call can fail. The service reads the
  failures from a plan `faults`: store call `k` of a flow fails exactly when
  `faults[k]` is true.

Records and payloads are datatypes in `domain.dfy`. Error resources and
length limits are in `resources.dfy`. `Option`/`Result` are in
`wrappers.dfy`, and bytes and their XOR are in `bytes.dfy`.

Some things outside the program become parameters:

- HMAC-SHA-512 is a parameter `prf` of type `HmacSha512`: any function from
  key and message to 64 bytes.
- `CredentialType::get_min_length` and `get_max_length` are not part of this
  model. The validator takes them as a `LengthTable`.
- The clock is `now` and the token lifetime `AUTH_TOKEN_EXPIRATION_TIME_MILLIS`
  is `ttl`. Both are parameters.
- The operating system's randomness is the initial contents of
  `SystemRandom.entropy`.

A Rust routine that pushes onto a `&mut Vec<ErrorResource>` becomes a method
with two parameters: `errors`, the vector before the call, and `errors'`, the
vector after it. A Rust `panic!` or `unwrap` becomes a precondition, except inside a
spawned token task, where the panic becomes the task's `Panicked` outcome.

Quirks of the code are modelled as written:

- The phone-number check takes `get_max_length(PhoneNumber)` as its lower
  bound and `get_min_length(PhoneNumber)` as its upper bound.
- The username check reuses the phone-number bounds.
- Token generation reverses the joined results, so the auth token is the
  second draw and the refresh token the first.
- A panicked token task yields `""`, and the generator itself never fails.
- `hash_password_with_existing_salt` returns the decoded salt encoded
  again, not the text it was given. The two differ when the given salt has
  padding before its last group, such as `"AA==AA=="`.
- Once writing has begun, `register_user` does not undo its earlier
  inserts.

Where the system's design description and the code disagree, the model
follows the code:

- The description presents registration as all-or-nothing. The code
  returns on the first failed insert and leaves the rows it already wrote.
  `RegisterUser` states which rows remain after each possible failure: none
  after a failed user insert; the user row and the credential rows before
  the failed one after a failed credential insert; the user row and every
  credential row after a failed token insert.
- The description lets token generation fail. The code always returns
  `Ok`, so `JOIN_ERROR` and `TOKEN_NOT_CREATED` cannot be reached from
  `register_user`. `CreateToken` still reads the tokens through
  `TokenPair`, which models the two `tokens.get` calls.

## Model

| member | source | states |
|---|---|---|
| UserValidator.ValidEmail | src/validation/user_validator.rs:14-19 | an email passes iff its UTF-8 byte length is within [4, 254] and it contains both '@' and '.'; so a passing email has 2 to 254 characters |
| UserValidator.ValidPhoneNumber | src/validation/user_validator.rs:20-23 | a phone number passes iff its byte length is at least get_max_length(PhoneNumber) and at most get_min_length(PhoneNumber); so it can pass only when that maximum does not exceed that minimum, and then has at most get_min_length(PhoneNumber) characters |
| UserValidator.ValidUsername | src/validation/user_validator.rs:25-28 | a username is judged by the phone-number limits in the same swapped order; so it can pass only when get_max_length(PhoneNumber) <= get_min_length(PhoneNumber) |
| UserValidator.ValidName | src/validation/user_validator.rs:29-31 | a name passes iff its byte length is within [4, 254]; so a passing name has 1 to 254 characters |
| UserValidator.ValidPassword | src/validation/user_validator.rs:32-34 | a password passes iff its byte length is within [8, 128]; so a passing password has 2 to 128 characters |
| UserValidator.EmailRuleForAscii | src/validation/user_validator.rs:14-19 | for ASCII text, an email is accepted iff it has 4 to 254 characters and contains both '@' and '.' |
| UserValidator.NameAndPasswordRulesForAscii | src/validation/user_validator.rs:29-34 | for ASCII text, a name is accepted iff it has 4 to 254 characters, and a password iff it has 8 to 128 |
| UserValidator.PhoneAndUsernameShareBounds | src/validation/user_validator.rs:20-28 | the phone and username predicates agree, and accept exactly the byte lengths from get_max_length(PhoneNumber) to get_min_length(PhoneNumber) |
| UserValidator.InvertedBoundsRejectAll | src/validation/user_validator.rs:20-28 | when max > min, no phone number and no username is accepted |
| UserValidator.ValidateUserForCreation | src/validation/user_validator.rs:36-66 | the vector after the call is the vector before it followed by CreationErrors, so it only appends |
| UserValidator.CredentialErrorsPerInvalidCredential | src/validation/user_validator.rs:40-58 | the credential loop appends one error per invalid credential, in credential order, each being the error of that credential's type (Email→INVALID_EMAIL, PhoneNumber→INVALID_PHONE_NUMBER, Username→INVALID_USERNAME) |
| UserValidator.CreationErrorsBound | src/validation/user_validator.rs:40-65 | the appended count is the number of invalid credentials plus one each for an invalid name and an invalid password, hence at most the number of credentials plus 2 |
| UserValidator.CreationErrorsEmpty | src/validation/user_validator.rs:36-66 | creation validation appends nothing iff every credential, the name and the password pass |
| UserValidator.ValidateUserForPasswordAuthentication | src/validation/user_validator.rs:67-91 | the vector after the call is the old one plus at most two errors; nothing is appended iff both checks pass; the credential error appears iff the credential fails, INVALID_PASSWORD iff the password fails, and the credential's error comes first when both are present |
| Utf8.AsciiLen | src/validation/user_validator.rs:15-16 | for ASCII text, the byte length `len()` equals the number of characters |
| Utf8.LenAtLeastChars | src/validation/user_validator.rs:15-16 | the byte length is never less than the number of characters, which gives the character upper bounds of the validator predicates |
| Utf8.LenAtMostFourPerChar | src/validation/user_validator.rs:29-34 | the byte length is at most four times the number of characters, which gives the character lower bounds of ValidName and ValidPassword |
| CredentialCodec.ParseDisplay | src/domain/impls/credential.rs:15-31 | from_str(to_string(t)) == Ok(t) for every variant |
| CredentialCodec.DisplayParse | src/domain/impls/credential.rs:15-31 | whenever from_str(s) succeeds, to_string of the result is s |
| CredentialCodec.DisplayNames | src/domain/impls/credential.rs:26-30 | Display yields exactly "PhoneNumber", "Email" and "Username", and different variants get different names |
| CredentialCodec.FromStr | src/domain/impls/credential.rs:15-22 | from_str is an exact match of "PhoneNumber", "Email" or "Username"; it succeeds iff the text is one of the three names, and otherwise returns Err(FromStrError) |
| CredentialCodec.ToString | src/domain/impls/credential.rs:24-31 | Display writes each variant's own name, so the text is always one of the three names |
| CredentialCodec.EncodeColumn | src/domain/impls/credential.rs:38-43 | the column holds to_string of the value, a text that from_str parses back to that value |
| CredentialCodec.DecodeColumn | src/domain/impls/credential.rs:45-53 | the column is read as text and parsed with from_str; it succeeds only on a column holding exactly what EncodeColumn writes for the result |
| CredentialCodec.ParseIsCaseSensitive | src/domain/impls/credential.rs:16-21 | other spellings of the names ("email", "EMAIL", "phonenumber", "username") are rejected |
| CredentialCodec.DecodeColumnFails | src/domain/impls/credential.rs:45-53 | column decoding fails iff the column is not text or its text is not a variant name |
| CredentialCodec.DecodeEncodeColumn | src/domain/impls/credential.rs:38-53 | decoding what Encode wrote gives back the original variant |
| Base64.Encode | src/utils/hasher.rs:98 | `BASE64.encode`: the text always comes in whole groups of four characters |
| Base64.Decode | src/utils/hasher.rs:50 | `BASE64.decode`: text that decodes has a length that is a multiple of four, and each group of four gives one to three bytes (the accepted group forms are under "## Left out") |
| Base64.DecodeEncode | src/utils/hasher.rs:50 | decoding the Base64 encoding of any byte string gives that byte string back |
| Base64.EncodeDecode | src/utils/hasher.rs:50-65 | for a text that decodes, re-encoding the bytes gives the same text back iff padding occurs only in its last group |
| Base64.EncodeCanonical | src/utils/hasher.rs:98 | the encoder puts padding only in the last group |
| Base64.DecodeConcatenated | src/utils/hasher.rs:50 | two encodings written one after the other decode to the two byte strings joined, padded groups in the middle included |
| Base64.EncodedLength | src/utils/hasher.rs:98 | an n-byte input encodes to 4·⌈n/3⌉ characters |
| Base64.EncodeSixtyFour | src/utils/hasher.rs:98 | 64 bytes encode to 88 characters that decode back to them |
| Pbkdf2.DerivedKey | src/utils/hasher.rs:89-95 | the derived key has exactly the requested length |
| Pbkdf2.OneBlockKey | src/utils/hasher.rs:86-95 | with a 64-byte output the key is the single block F(P, S, c, 1) |
| Pbkdf2.Derive | src/utils/hasher.rs:56-62 | `pbkdf2::derive` fills the output array with the RFC 8018 derived key of its length |
| Hasher.SystemRandom.Fill | src/utils/hasher.rs:78-83 | the fill succeeds iff the stream has enough bytes; then it copies them and consumes them, otherwise nothing changes |
| Hasher.HashPassword | src/utils/hasher.rs:68-99 | consumes the first 64 bytes of the generator as the salt, and returns HashWith of that salt: Base64 salt plus Base64 of PBKDF2-HMAC-SHA512 with 1000 iterations over the password's UTF-8 bytes |
| Hasher.HashPasswordWithExistingSalt | src/utils/hasher.rs:45-66 | requires a salt that decodes (otherwise unwrap panics); returns HashWith of the decoded salt: a salt that decodes to the same bytes as the input and equals the input text iff that text is canonical, and a hash that decodes to 64 bytes |
| Hasher.ConcatenatedSaltComesBackReencoded | src/utils/hasher.rs:45-66 | a salt written as two encodings, the first padded (such as "AA==AA=="), decodes without panicking, and the salt returned for it differs from the input |
| Hasher.HashedParts | src/utils/hasher.rs:68-99 | the stored salt and hash decode to the 64-byte salt and the 64-byte PBKDF2 block F(P, S, 1000, 1), and each is 88 characters long |
| Hasher.RehashReproducesHash | src/utils/hasher.rs:45-99 | re-hashing a password with the salt a hash of it carries reproduces that hash |
| Hasher.RehashMatchesFreshHash | src/utils/hasher.rs:45-99 | hash_password_with_existing_salt(p, hash_password(p).salt) equals hash_password(p) |
| Hasher.Collect | src/utils/hasher.rs:33-40 | the map/rev/collect keeps the length, and entry k is the token of the k-th task from the end, where a panicked task gives "" |
| Hasher.GenerateMultipleRandomTokens | src/utils/hasher.rs:12-43 | always Ok; the tokens are the reversed outcomes of tasks 0..amount-1, task k drawing the k-th 64 bytes of the stream; the stream loses exactly the bytes drawn |
| Hasher.TokensShape | src/utils/hasher.rs:20-42 | exactly `amount` tokens, each "" or an 88-character Base64 encoding of 64 bytes: it decodes to 64 bytes and is exactly their encoding |
| Hasher.TokensWhenEntropySuffices | src/utils/hasher.rs:18-40 | with enough entropy no token is "", and token k encodes the bytes of task amount-1-k |
| Store.Store.InsertUser | src/dao/user.rs:4-17 | a failed call changes nothing; otherwise the row gets the next id and last_updated = time_created, and only the user table and the counter change |
| Store.Store.GetUserWithId | src/dao/user.rs:19-31 | the row with that id, if any, or the failure |
| Store.Store.InsertCredential | src/dao/credential.rs:6-22 | a failed call or an already stored value changes nothing; otherwise one row keyed by its value, stamped now |
| Store.Store.GetCredential | src/dao/credential.rs:31-36 | the row holding that value, if any, or the failure |
| Store.Store.InsertToken | src/dao/token.rs:5-10 | a failed call changes nothing; otherwise the row gets the next id and last_updated = time_created |
| Store.Store.ValidateUserToken | src/service/user.rs:156 | the first token row, by id, of that user carrying that auth token, or the failure |
| Store.FirstMatchSound | src/service/user.rs:156-161 | a found row belongs to the user and carries the token; none is found iff no row in range matches |
| Store.FirstMatchCoversAll | src/service/user.rs:156-161 | when every token id lies in the searched range, the search finds nothing iff no stored row matches the user and auth token |
| Store.FirstMatchAfterInsert | src/service/user.rs:156-171 | after a token row is inserted for a user who had none, the search for its auth token finds it |
| UserService.CheckCredentialsUnused | src/service/user.rs:25-46 | the lookup loop appends LookupErrors: for each credential in order, DATABASE_ERROR on a failed lookup, USER_ALREADY_EXISTS on a stored value, nothing otherwise |
| UserService.LookupErrorsShape | src/service/user.rs:32-44 | at most one error per credential, each USER_ALREADY_EXISTS or DATABASE_ERROR |
| UserService.LookupErrorsEmpty | src/service/user.rs:25-46 | the lookups report nothing iff every lookup succeeds and finds the value free |
| UserService.TooManyCredentialsReported | src/service/user.rs:22-24 | TOO_MANY_CREDENTIALS is in the collected errors iff there are more than 3 credentials, and it comes right after the validator's errors |
| UserService.RegistrationErrorsEmpty | src/service/user.rs:20-50 | no error is collected iff validation passes, there are at most 3 credentials, and every lookup succeeds and finds the value free |
| UserService.CollectRegistrationErrors | src/service/user.rs:18-46 | the errors are the validator's, then TOO_MANY_CREDENTIALS if needed, then the lookup errors, and nothing is written |
| UserService.AddRowsKeys | src/service/user.rs:76-85 | after the credential inserts, the stored values are the old ones and the supplied ones |
| UserService.AddRowsKeepsOld | src/service/user.rs:76-85 | inserting values that are not stored keeps every old credential row |
| UserService.InsertCredentials | src/service/user.rs:76-85 | on success, one row per supplied credential bound to the user id; on failure, exactly the rows of the credentials before the first insert that failed (its call failing or its value already stored) stay written; no old row changes; it succeeds iff the values are new and pairwise different and no insert fails |
| UserService.StoppedAtFirst | src/service/user.rs:76-85 | the insert loop's stopping point is the first failing insert: no longer prefix of the credentials is new with every call succeeding |
| UserService.StoppedKeepsEarlier | src/service/user.rs:76-85 | when the loop stops, every credential before the failed insert keeps the row binding it, with its type, to the user: nothing is rolled back |
| UserService.AddRowsBinds | src/service/user.rs:76-85 | a supplied value that is not repeated later is stored with the row binding it, with its type, to the user id, stamped now |
| UserService.TokenPair | src/service/user.rs:95-117 | Ok((tokens[0], tokens[1])) iff there are at least two tokens, otherwise the errors followed by TOKEN_NOT_CREATED |
| UserService.InsertHashedUser | src/service/user.rs:52-73 | draws the 64-byte salt; the insert fails iff told to, writing nothing; otherwise the row holds the hash_password result under the next id, with created = updated = now, and nothing else changes |
| UserService.CreateUser | src/service/user.rs:52-85 | UserCreated: consumes the 64-byte salt; a failed user insert writes nothing; otherwise the user row (hash and salt of hash_password, created = updated = now) stays under the next id, and either every credential row is written and the user returned, or exactly the rows of the credentials before the first failed credential insert stay and the result is [DATABASE_ERROR]; no token is written |
| UserService.CreateToken | src/service/user.rs:87-129 | TokenCreated: draws two tokens; fails iff the insert fails, giving [DATABASE_ERROR] and no token row; otherwise inserts Token(next id, user, second draw, first draw, now, now) and nothing else |
| UserService.RegisterUser | src/service/user.rs:17-130 | collected errors are returned in full with nothing written and no randomness drawn; otherwise RegistrationWritten: every later failure gives [DATABASE_ERROR] and no token row, a failed user insert leaves the tables as they were, a failed credential insert leaves the user row and exactly the credential rows before the first failed insert, a failed token insert leaves the user row and all credential rows; success iff no write fails and the values are new and pairwise different, and then the returned token row of the new user holds the two tokens drawn |
| UserService.RegisteredRows | src/service/user.rs:52-122 | after a successful registration the token belongs to the new user, the user and token rows are stored, and every supplied credential value holds the row binding it, with its type, to the new user |
| UserService.Expired | src/service/user.rs:164 | the expiry test is strict: a token exactly `ttl` old is not expired, and an expired one is at least `ttl + 1` old |
| UserService.AuthenticateUser | src/service/user.rs:131-181 | writes nothing; every Err has one element: DATABASE_ERROR on a failed call, USER_DOES_NOT_EXIST for a missing user, INCORRECT_TOKEN iff no stored token row has that user and auth token, EXPIRED_TOKEN when now − last_updated > ttl (a token exactly ttl old is accepted), otherwise Ok with the stored user |
| UserService.AuthenticateWithIssuedToken | src/service/user.rs:156-171 | a token row just written under the next id, for a user no older row belongs to and stamped now, authenticates that user when no call fails and ttl >= 0 |
| UserService.RegisterThenAuthenticate | src/service/user.rs:17-181 | a user registered without store failures authenticates at once with the auth token it received |

## Left out

- HMAC-SHA-512 is a parameter, not implemented. The PBKDF2 construction around it is modelled in full.
- The operating system's randomness is the given contents of `SystemRandom.entropy`. Each `SystemRandom::new()` and each clone draws from that one stream.
- `Utc::now()` and `AUTH_TOKEN_EXPIRATION_TIME_MILLIS` are the parameters `now` and `ttl`. One `now` stamps the user, credential and token rows of a registration, though `insert_credential` reads the clock again.
- The text of `ERROR_TOO_MANY_CREDENTIALS` and `ERROR_TOKEN_NOT_CREATED` is not part of this model; `ErrorResource.Pair` returns `None` for them.
- `get_min_length` and `get_max_length` are not part of this model. They are the `LengthTable` parameter.
- Concurrency: the tokio tasks of the token generator run as a sequential loop, and concurrent registrations are not modelled.
- Transactions: commit and rollback belong to Postgres and are not modelled. A failed registration keeps the rows it already wrote.
- Pool acquisition and logging: acquiring a connection is only a possible failure (store call 0 of `AuthenticateUser`), and logging is omitted.
- The `validated` column of the credential table, which `insert_credential` sets to false, is not a field of the `Credential` record and not modelled.
- The sqlx `Type` impl of `CredentialType` is type metadata and not modelled; neither is the SQL text of the DAO functions.
- `update_token`: its SQL is malformed, and it is not modelled.
- `refresh_auth_token`, `reset_password` and `password_login` have empty bodies and are not modelled.
- The three single-credential login payload structs are unused and not modelled.
- Store.Store.ValidateUserToken: the DAO function is not part of the source. It is modelled as a lookup by (user id, auth token) that returns the lowest-id match.
- Store.Store.InsertCredential: a second row with a stored value fails, as a uniqueness constraint on the value would make it.
- The `data_encoding` crate is not part of this model. `Base64.Decode` accepts what the model states: whole groups of four, each alphabet-only or ending in one or two padding characters with zero unused bits. Error kinds and positions are not modelled.
- Ids and `amount` are unbounded integers; `i32` overflow of the `serial` counters is not modelled. Hasher.GenerateMultipleRandomTokens requires `amount < 256` to mirror the `u8` parameter.
- UserService.CreateToken: the `JOIN_ERROR` exit and the two `TOKEN_NOT_CREATED` exits are not written as branches, because the generator's contract makes them unreachable. TokenPair states what they would return.
