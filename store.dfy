/** The persistence boundary: the user, credential and token tables, held
    in memory. Every operation takes `fail`, which says whether the
    database reports an error (lost connection, failed statement) for that
    call. */
module Store {
  import opened Wrappers
  import opened Domain

  /** The error of a failed database call. */
  datatype DbError = DbError

  /** The first token row, searching ids from `lo` up to `hi`, that belongs
      to `userId` and carries `authToken`. */
  function FirstMatch(tokens: map<int, Token>, lo: int, hi: int, userId: int, authToken: string): (r: Option<Token>)
    decreases hi - lo
  {
    if lo >= hi then None
    else if lo in tokens && tokens[lo].user_id == userId && tokens[lo].auth_token == authToken then Some(tokens[lo])
    else FirstMatch(tokens, lo + 1, hi, userId, authToken)
  }

  /** The search finds a matching row in range, and finds none exactly when
      no row in range matches. */
  lemma {:induction false} FirstMatchSound(tokens: map<int, Token>, lo: int, hi: int, userId: int, authToken: string)
    ensures var r := FirstMatch(tokens, lo, hi, userId, authToken);
      && (r.Some? ==> r.value.user_id == userId && r.value.auth_token == authToken
                      && exists id :: lo <= id < hi && id in tokens && tokens[id] == r.value)
      && (r.None? <==> forall id :: lo <= id < hi && id in tokens ==>
                         tokens[id].user_id != userId || tokens[id].auth_token != authToken)
    decreases hi - lo
  {
    if lo < hi {
      FirstMatchSound(tokens, lo + 1, hi, userId, authToken);
    }
  }

  /** When every row's id is in range, the search finds nothing exactly
      when no row at all matches. */
  lemma FirstMatchCoversAll(tokens: map<int, Token>, lo: int, hi: int, userId: int, authToken: string)
    requires forall id :: id in tokens ==> lo <= id < hi
    ensures FirstMatch(tokens, lo, hi, userId, authToken).None? <==>
      forall id :: id in tokens ==> tokens[id].user_id != userId || tokens[id].auth_token != authToken
  {
    FirstMatchSound(tokens, lo, hi, userId, authToken);
  }

  /** After inserting `t` under the next id `hi`, the search finds `t` when
      no earlier row in range belongs to its user. */
  lemma {:induction false} FirstMatchAfterInsert(tokens: map<int, Token>, lo: int, hi: int, t: Token)
    requires lo <= hi
    requires forall id :: lo <= id < hi && id in tokens ==> tokens[id].user_id != t.user_id
    ensures FirstMatch(tokens[hi := t], lo, hi + 1, t.user_id, t.auth_token) == Some(t)
    decreases hi - lo
  {
    if lo < hi {
      FirstMatchAfterInsert(tokens, lo + 1, hi, t);
    }
  }

  /** The contents of the store at one moment, as a value. */
  datatype Tables = Tables(
    users: map<int, User>,
    credentials: map<string, Credential>,
    tokens: map<int, Token>,
    nextUserId: int,
    nextTokenId: int)

  class Store {
    var users: map<int, User>
    /** Credential rows, keyed by their value: values are unique. */
    var credentials: map<string, Credential>
    var tokens: map<int, Token>
    /** The next ids the `serial` columns hand out. */
    var nextUserId: int
    var nextTokenId: int

    function Contents(): (t: Tables)
      reads this
    {
      Tables(users, credentials, tokens, nextUserId, nextTokenId)
    }

    ghost predicate Valid()
      reads this
    {
      && nextUserId >= 1 && nextTokenId >= 1
      && (forall id :: id in users ==> 1 <= id < nextUserId && users[id].id == id)
      && (forall id :: id in tokens ==> 1 <= id < nextTokenId && tokens[id].id == id)
      && (forall id :: id in tokens ==> tokens[id].user_id < nextUserId)
      && (forall v :: v in credentials ==> credentials[v].credential == v)
    }

    constructor ()
      ensures Valid()
      ensures users == map[] && credentials == map[] && tokens == map[]
    {
      users, credentials, tokens := map[], map[], map[];
      nextUserId, nextTokenId := 1, 1;
    }

    /** `insert_user`: the row gets the next id, and `last_updated` is
        bound to the same value as `time_created`. */
    method InsertUser(user: User, fail: bool) returns (r: Result<User, DbError>)
      requires Valid()
      modifies this
      ensures Valid()
      ensures fail ==> r == Err(DbError) && unchanged(this)
      ensures !fail ==>
        && r == Ok(User(old(nextUserId), user.name, user.password, user.salt, user.time_created, user.time_created))
        && users == old(users)[old(nextUserId) := r.value]
        && nextUserId == old(nextUserId) + 1
        && credentials == old(credentials) && tokens == old(tokens) && nextTokenId == old(nextTokenId)
    {
      if fail {
        return Err(DbError);
      }
      var row := User(nextUserId, user.name, user.password, user.salt, user.time_created, user.time_created);
      users := users[nextUserId := row];
      nextUserId := nextUserId + 1;
      r := Ok(row);
    }

    /** `get_user_with_id`. */
    method GetUserWithId(id: int, fail: bool) returns (r: Result<Option<User>, DbError>)
      ensures fail ==> r == Err(DbError)
      ensures !fail ==> r == Ok(if id in users then Some(users[id]) else None)
    {
      if fail {
        return Err(DbError);
      }
      r := Ok(if id in users then Some(users[id]) else None);
    }

    /** `insert_credential`: a new row bound to `userId`, stamped `now`.
        A value already stored violates the uniqueness of values. */
    method InsertCredential(dto: CredentialDto, userId: int, now: Timestamp, fail: bool)
      returns (r: Result<Credential, DbError>)
      requires Valid()
      modifies this
      ensures Valid()
      ensures fail || dto.credential in old(credentials) ==> r == Err(DbError) && unchanged(this)
      ensures !fail && dto.credential !in old(credentials) ==>
        && r == Ok(Credential(userId, dto.credential_type, dto.credential, now, now))
        && credentials == old(credentials)[dto.credential := r.value]
        && users == old(users) && tokens == old(tokens)
        && nextUserId == old(nextUserId) && nextTokenId == old(nextTokenId)
    {
      if fail || dto.credential in credentials {
        return Err(DbError);
      }
      var row := Credential(userId, dto.credential_type, dto.credential, now, now);
      credentials := credentials[dto.credential := row];
      r := Ok(row);
    }

    /** `get_credential`: the row holding `value`, if any. */
    method GetCredential(value: string, fail: bool) returns (r: Result<Option<Credential>, DbError>)
      ensures fail ==> r == Err(DbError)
      ensures !fail ==> r == Ok(if value in credentials then Some(credentials[value]) else None)
    {
      if fail {
        return Err(DbError);
      }
      r := Ok(if value in credentials then Some(credentials[value]) else None);
    }

    /** `insert_token`: the row gets the next id; `last_updated` is bound to
        `time_created`. The row's user is one already issued an id. */
    method InsertToken(token: Token, fail: bool) returns (r: Result<Token, DbError>)
      requires Valid()
      requires token.user_id < nextUserId
      modifies this
      ensures Valid()
      ensures fail ==> r == Err(DbError) && unchanged(this)
      ensures !fail ==>
        && r == Ok(Token(old(nextTokenId), token.user_id, token.auth_token, token.refresh_token,
                         token.time_created, token.time_created))
        && tokens == old(tokens)[old(nextTokenId) := r.value]
        && nextTokenId == old(nextTokenId) + 1
        && users == old(users) && credentials == old(credentials) && nextUserId == old(nextUserId)
    {
      if fail {
        return Err(DbError);
      }
      var row := Token(nextTokenId, token.user_id, token.auth_token, token.refresh_token,
                       token.time_created, token.time_created);
      tokens := tokens[nextTokenId := row];
      nextTokenId := nextTokenId + 1;
      r := Ok(row);
    }

    /** `validate_user_token`: a token row of `userId` with this auth
        token, the one with the smallest id when there are several. */
    method ValidateUserToken(userId: int, authToken: string, fail: bool) returns (r: Result<Option<Token>, DbError>)
      ensures fail ==> r == Err(DbError)
      ensures !fail ==> r == Ok(FirstMatch(tokens, 1, nextTokenId, userId, authToken))
    {
      if fail {
        return Err(DbError);
      }
      r := Ok(FirstMatch(tokens, 1, nextTokenId, userId, authToken));
    }
  }
}
