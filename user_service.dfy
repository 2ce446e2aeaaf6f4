/** Registration and token authentication over the store. Store failures
    come from `faults`: the k-th store call of a flow (counting from 0)
    fails exactly when `Fails(faults, k)`. */
module UserService {
  import opened Wrappers
  import opened Domain
  import opened Resources
  import opened Store
  import opened UserValidator
  import opened Hasher
  import opened Pbkdf2
  import opened Bytes

  /** The most credentials one registration may carry. */
  const MAX_CREDENTIALS: nat := 3

  /** Whether store call number `k` of a flow fails; calls beyond the plan
      succeed. */
  predicate Fails(faults: seq<bool>, k: nat)
  {
    k < |faults| && faults[k]
  }

  // ---------------------------------------------------------------------
  // register_user

  /** What the uniqueness lookup of one credential contributes. */
  function LookupError(c: CredentialDto, stored: map<string, Credential>, failed: bool): (errors: seq<ErrorResource>)
  {
    if failed then [DatabaseError]
    else if c.credential in stored then [UserAlreadyExists]
    else []
  }

  /** The errors of the uniqueness lookups of `cs`, lookup `i` being store
      call `i`. */
  function LookupErrors(cs: seq<CredentialDto>, stored: map<string, Credential>, faults: seq<bool>): (errors: seq<ErrorResource>)
  {
    if cs == [] then []
    else LookupErrors(cs[..|cs| - 1], stored, faults) + LookupError(cs[|cs| - 1], stored, Fails(faults, |cs| - 1))
  }

  /** Everything registration collects before its first write: the
      validator's errors, then TOO_MANY_CREDENTIALS if there are more than
      three credentials, then one error per credential that is taken or
      whose lookup failed. */
  function RegistrationErrors(user: UserRegisterPayload, table: LengthTable,
                              stored: map<string, Credential>, faults: seq<bool>): (errors: seq<ErrorResource>)
  {
    CreationErrors(user, table)
      + (if |user.credentials| > MAX_CREDENTIALS then [TooManyCredentials] else [])
      + LookupErrors(user.credentials, stored, faults)
  }

  /** The credential table after inserting a row for each of `cs`, bound to
      `userId` and stamped `now`. */
  function AddRows(m: map<string, Credential>, cs: seq<CredentialDto>, userId: int, now: Timestamp): (rows: map<string, Credential>)
  {
    if cs == [] then m
    else
      var c := cs[|cs| - 1];
      AddRows(m, cs[..|cs| - 1], userId, now)[c.credential := Credential(userId, c.credential_type, c.credential, now, now)]
  }

  /** The values of `cs` are pairwise different and none is in `m`. */
  predicate AllNew(cs: seq<CredentialDto>, m: map<string, Credential>)
  {
    forall i :: 0 <= i < |cs| ==>
      cs[i].credential !in m && forall j :: 0 <= j < i ==> cs[j].credential != cs[i].credential
  }

  /** Store calls `base` .. `base + n - 1` all succeed. */
  predicate NoFaults(faults: seq<bool>, base: nat, n: nat)
  {
    forall k :: base <= k < base + n ==> !Fails(faults, k)
  }

  /** The insertion loop stops at insertion `j`: the values before it are
      new and pairwise different and their calls succeed, and insertion `j`
      fails, its call failing or its value being already stored. */
  predicate StoppedAt(cs: seq<CredentialDto>, m: map<string, Credential>, userId: int, now: Timestamp,
                      faults: seq<bool>, base: nat, j: nat)
  {
    && j < |cs|
    && AllNew(cs[..j], m) && NoFaults(faults, base, j)
    && (Fails(faults, base + j) || cs[j].credential in AddRows(m, cs[..j], userId, now))
  }

  /** The credential table `m'` after an insertion loop over `cs` that
      failed, starting from `m`: the rows before the failed insertion are
      written, and no others. */
  predicate KeptBeforeFailure(cs: seq<CredentialDto>, m: map<string, Credential>, m': map<string, Credential>,
                              userId: int, now: Timestamp, faults: seq<bool>, base: nat)
  {
    exists j :: 0 <= j < |cs| && StoppedAt(cs, m, userId, now, faults, base, j) && m' == AddRows(m, cs[..j], userId, now)
  }

  /** The keys of `AddRows`: the old keys and the values of `cs`. */
  lemma {:induction false} AddRowsKeys(m: map<string, Credential>, cs: seq<CredentialDto>, userId: int, now: Timestamp)
    ensures forall v :: v in AddRows(m, cs, userId, now) <==>
      v in m || exists j :: 0 <= j < |cs| && cs[j].credential == v
  {
    if cs != [] {
      var init := cs[..|cs| - 1];
      AddRowsKeys(m, init, userId, now);
      forall v | v in AddRows(m, cs, userId, now)
        ensures v in m || exists j :: 0 <= j < |cs| && cs[j].credential == v
      {
        if v != cs[|cs| - 1].credential && v !in m {
          var j :| 0 <= j < |init| && init[j].credential == v;
          assert cs[j] == init[j];
        }
      }
      forall v | v in m || exists j :: 0 <= j < |cs| && cs[j].credential == v
        ensures v in AddRows(m, cs, userId, now)
      {
        if v !in m && v != cs[|cs| - 1].credential {
          var j :| 0 <= j < |cs| && cs[j].credential == v;
          assert j < |init| && init[j] == cs[j];
        }
      }
    }
  }

  /** The uniqueness loop: looks every credential value up and records a
      conflict or a failed lookup. */
  method CheckCredentialsUnused(store: Store, cs: seq<CredentialDto>, faults: seq<bool>, errors: seq<ErrorResource>)
    returns (errors': seq<ErrorResource>)
    ensures errors' == errors + LookupErrors(cs, store.credentials, faults)
  {
    errors' := errors;
    for i := 0 to |cs|
      invariant errors' == errors + LookupErrors(cs[..i], store.credentials, faults)
    {
      var found := store.GetCredential(cs[i].credential, Fails(faults, i));
      match found {
        case Ok(None) =>
        case Ok(Some(_)) =>
          errors' := errors' + [UserAlreadyExists];
        case Err(_) =>
          errors' := errors' + [DatabaseError];
      }
      assert cs[..i + 1][..i] == cs[..i];
    }
    assert cs[..|cs|] == cs;
  }

  /** The insertion loop: one row per credential, insertion `i` being store
      call `base + i`; stops at the first failed insertion, keeping the rows
      already written. Every insertion succeeds exactly when the values are
      new and pairwise different and no call fails. */
  method InsertCredentials(store: Store, cs: seq<CredentialDto>, userId: int, now: Timestamp,
                           faults: seq<bool>, base: nat) returns (ok: bool)
    requires store.Valid()
    modifies store
    ensures store.Valid()
    ensures store.users == old(store.users) && store.tokens == old(store.tokens)
    ensures store.nextUserId == old(store.nextUserId) && store.nextTokenId == old(store.nextTokenId)
    ensures forall v :: v in old(store.credentials) ==>
      v in store.credentials && store.credentials[v] == old(store.credentials)[v]
    ensures ok ==> store.credentials == AddRows(old(store.credentials), cs, userId, now)
    ensures !ok ==> KeptBeforeFailure(cs, old(store.credentials), store.credentials, userId, now, faults, base)
    ensures ok <==> AllNew(cs, old(store.credentials)) && NoFaults(faults, base, |cs|)
  {
    ghost var start := store.credentials;
    for i := 0 to |cs|
      invariant store.Valid()
      invariant store.users == old(store.users) && store.tokens == old(store.tokens)
      invariant store.nextUserId == old(store.nextUserId) && store.nextTokenId == old(store.nextTokenId)
      invariant store.credentials == AddRows(start, cs[..i], userId, now)
      invariant forall v :: v in start ==> v in store.credentials && store.credentials[v] == start[v]
      invariant AllNew(cs[..i], start) && NoFaults(faults, base, i)
    {
      AddRowsKeys(start, cs[..i], userId, now);
      var inserted := store.InsertCredential(cs[i], userId, now, Fails(faults, base + i));
      if inserted.Err? {
        InsertionFailed(cs, i, start, store.credentials, userId, now, faults, base);
        assert StoppedAt(cs, start, userId, now, faults, base, i);
        return false;
      }
      assert cs[..i + 1][..i] == cs[..i];
      AllNewStep(cs, i, start);
    }
    assert cs[..|cs|] == cs;
    ok := true;
  }

  /** A value that `AddRows` has already written, or a failing call, makes
      the whole insertion fail. */
  lemma InsertionFailed(cs: seq<CredentialDto>, i: nat, start: map<string, Credential>,
                        current: map<string, Credential>, userId: int, now: Timestamp,
                        faults: seq<bool>, base: nat)
    requires i < |cs| && current == AddRows(start, cs[..i], userId, now)
    requires Fails(faults, base + i) || cs[i].credential in current
    ensures !(AllNew(cs, start) && NoFaults(faults, base, |cs|))
  {
    AddRowsKeys(start, cs[..i], userId, now);
    if cs[i].credential in current && cs[i].credential !in start {
      var j :| 0 <= j < i && cs[..i][j].credential == cs[i].credential;
      assert cs[j].credential == cs[i].credential;
    }
  }

  /** One more value that was not yet written keeps the values new and
      pairwise different. */
  lemma AllNewStep(cs: seq<CredentialDto>, i: nat, start: map<string, Credential>)
    requires i < |cs| && AllNew(cs[..i], start)
    requires cs[i].credential !in start
    requires forall j :: 0 <= j < i ==> cs[..i][j].credential != cs[i].credential
    ensures AllNew(cs[..i + 1], start)
  {
  }

  /** The insertion loop stops at the first insertion that fails: no
      longer prefix of `cs` is new with all its calls succeeding. */
  lemma StoppedAtFirst(cs: seq<CredentialDto>, m: map<string, Credential>, userId: int, now: Timestamp,
                       faults: seq<bool>, base: nat, j: nat)
    requires StoppedAt(cs, m, userId, now, faults, base, j)
    ensures forall k :: j < k <= |cs| ==> !(AllNew(cs[..k], m) && NoFaults(faults, base, k))
  {
    AddRowsKeys(m, cs[..j], userId, now);
    forall k | j < k <= |cs|
      ensures !(AllNew(cs[..k], m) && NoFaults(faults, base, k))
    {
      assert cs[..k][j] == cs[j];
      if !Fails(faults, base + j) && cs[j].credential !in m {
        var i :| 0 <= i < j && cs[..j][i].credential == cs[j].credential;
        assert cs[..k][i] == cs[i];
      }
    }
  }

  /** When the insertion loop stops at `j`, every credential before it
      stays stored, bound with its type to the user: the earlier inserts
      are not undone. */
  lemma StoppedKeepsEarlier(cs: seq<CredentialDto>, m: map<string, Credential>, userId: int, now: Timestamp,
                            faults: seq<bool>, base: nat, j: nat)
    requires StoppedAt(cs, m, userId, now, faults, base, j)
    ensures forall k :: 0 <= k < j ==>
      && cs[k].credential in AddRows(m, cs[..j], userId, now)
      && AddRows(m, cs[..j], userId, now)[cs[k].credential] ==
           Credential(userId, cs[k].credential_type, cs[k].credential, now, now)
  {
    var prefix := cs[..j];
    forall k | 0 <= k < j
      ensures cs[k].credential in AddRows(m, prefix, userId, now)
      ensures AddRows(m, prefix, userId, now)[cs[k].credential] ==
        Credential(userId, cs[k].credential_type, cs[k].credential, now, now)
    {
      assert prefix[k] == cs[k];
      assert forall i :: k < i < |prefix| ==> prefix[i].credential != prefix[k].credential;
      AddRowsBinds(m, prefix, userId, now, k);
    }
  }

  /** Reading `tokens.get(0)` and `tokens.get(1)`: both must be present,
      otherwise TOKEN_NOT_CREATED is appended to `errors`. */
  function TokenPair(tokens: seq<string>, errors: seq<ErrorResource>): (r: Result<(string, string), seq<ErrorResource>>)
    ensures r.Ok? <==> |tokens| >= 2
    ensures r.Ok? ==> r.value == (tokens[0], tokens[1])
    ensures r.Err? ==> r.error == errors + [TokenNotCreated]
  {
    if |tokens| < 1 then Err(errors + [TokenNotCreated])
    else if |tokens| < 2 then Err(errors + [TokenNotCreated])
    else Ok((tokens[0], tokens[1]))
  }

  /** The lookups of `cs` report nothing exactly when every lookup
      succeeds and finds no row. */
  lemma {:induction false} LookupErrorsEmpty(cs: seq<CredentialDto>, stored: map<string, Credential>, faults: seq<bool>)
    ensures LookupErrors(cs, stored, faults) == [] <==>
      forall i :: 0 <= i < |cs| ==> !Fails(faults, i) && cs[i].credential !in stored
  {
    if cs != [] {
      var init := cs[..|cs| - 1];
      LookupErrorsEmpty(init, stored, faults);
      assert forall i :: 0 <= i < |init| ==> init[i] == cs[i];
    }
  }

  /** Registration collects no error exactly when the payload passes the
      validator, carries at most three credentials, and every lookup
      succeeds and finds the value free. */
  lemma RegistrationErrorsEmpty(user: UserRegisterPayload, table: LengthTable,
                                stored: map<string, Credential>, faults: seq<bool>)
    ensures RegistrationErrors(user, table, stored, faults) == [] <==>
      && CreationErrors(user, table) == []
      && |user.credentials| <= MAX_CREDENTIALS
      && forall i :: 0 <= i < |user.credentials| ==>
           !Fails(faults, i) && user.credentials[i].credential !in stored
  {
    LookupErrorsEmpty(user.credentials, stored, faults);
  }

  /** Each credential's lookup adds at most one error, and that error is
      USER_ALREADY_EXISTS or DATABASE_ERROR. */
  lemma {:induction false} LookupErrorsShape(cs: seq<CredentialDto>, stored: map<string, Credential>, faults: seq<bool>)
    ensures |LookupErrors(cs, stored, faults)| <= |cs|
    ensures forall e :: e in LookupErrors(cs, stored, faults) ==> e == UserAlreadyExists || e == DatabaseError
  {
    if cs != [] {
      LookupErrorsShape(cs[..|cs| - 1], stored, faults);
    }
  }

  /** TOO_MANY_CREDENTIALS is reported exactly when there are more than
      three credentials, and then right after the validator's errors. */
  lemma TooManyCredentialsReported(user: UserRegisterPayload, table: LengthTable,
                                   stored: map<string, Credential>, faults: seq<bool>)
    ensures TooManyCredentials in RegistrationErrors(user, table, stored, faults) <==>
      |user.credentials| > MAX_CREDENTIALS
    ensures |user.credentials| > MAX_CREDENTIALS ==>
      RegistrationErrors(user, table, stored, faults)[|CreationErrors(user, table)|] == TooManyCredentials
  {
    CredentialErrorsPerInvalidCredential(user.credentials, table);
    LookupErrorsShape(user.credentials, stored, faults);
    var ce := CreationErrors(user, table);
    assert TooManyCredentials !in CredentialErrors(user.credentials, table);
    assert TooManyCredentials !in ce;
  }

  /** `AddRows` over values not in `m` keeps every row of `m`. */
  lemma {:induction false} AddRowsKeepsOld(m: map<string, Credential>, cs: seq<CredentialDto>, userId: int, now: Timestamp)
    requires forall i :: 0 <= i < |cs| ==> cs[i].credential !in m
    ensures forall v :: v in m ==> v in AddRows(m, cs, userId, now) && AddRows(m, cs, userId, now)[v] == m[v]
  {
    if cs != [] {
      AddRowsKeepsOld(m, cs[..|cs| - 1], userId, now);
    }
  }

  /** Each supplied value not repeated later in `cs` holds the row binding
      it, with its type, to `userId`, stamped `now`. */
  lemma {:induction false} AddRowsBinds(m: map<string, Credential>, cs: seq<CredentialDto>, userId: int, now: Timestamp, j: nat)
    requires j < |cs|
    requires forall k :: j < k < |cs| ==> cs[k].credential != cs[j].credential
    ensures cs[j].credential in AddRows(m, cs, userId, now)
    ensures AddRows(m, cs, userId, now)[cs[j].credential] ==
      Credential(userId, cs[j].credential_type, cs[j].credential, now, now)
  {
    if j < |cs| - 1 {
      AddRowsBinds(m, cs[..|cs| - 1], userId, now, j);
    }
  }

  /** Registration's checks before any write: validation, the credential
      count, and the uniqueness lookups (store calls 0 .. n - 1). */
  method CollectRegistrationErrors(store: Store, table: LengthTable, user: UserRegisterPayload, faults: seq<bool>)
    returns (errors: seq<ErrorResource>)
    ensures errors == RegistrationErrors(user, table, store.credentials, faults)
  {
    errors := [];
    errors := ValidateUserForCreation(user, table, errors);
    if |user.credentials| > MAX_CREDENTIALS {
      errors := errors + [TooManyCredentials];
    }
    errors := CheckCredentialsUnused(store, user.credentials, faults, errors);
  }

  /** The user row registration writes under `uid`: the name, the hash of
      the password with the salt bytes `salt`, and `now` as both times. */
  function NewUserRow(prf: HmacSha512, uid: int, user: UserRegisterPayload, salt: seq<byte>, now: Timestamp): (row: User)
  {
    var h := HashWith(prf, salt, user.password);
    User(uid, user.name, h.hash, h.salt, now, now)
  }

  /** What registration's first writes leave behind, from the tables `t`
      and the generator's stream `e` before to `t'` and `e'` after: the salt
      is drawn; a failed user insertion (store call n) writes nothing;
      otherwise the user row stays under the next id, and either every
      credential row is written and the user is returned, or the rows before
      the failed credential insertion stay. No token row is written. */
  predicate UserCreated(prf: HmacSha512, user: UserRegisterPayload, faults: seq<bool>, now: Timestamp,
                        t: Tables, e: seq<byte>, t': Tables, e': seq<byte>, r: Result<User, seq<ErrorResource>>)
  {
    var n, uid := |user.credentials|, t.nextUserId;
    && |e| >= SHA512_OUTPUT_LEN
    && e' == e[SHA512_OUTPUT_LEN..]
    && t'.tokens == t.tokens && t'.nextTokenId == t.nextTokenId
    && (r.Err? ==> r.error == [DatabaseError])
    && (Fails(faults, n) ==>
          r.Err? && t'.users == t.users && t'.credentials == t.credentials && t'.nextUserId == uid)
    && (!Fails(faults, n) ==>
          && uid !in t.users
          && t'.users == t.users[uid := NewUserRow(prf, uid, user, e[..SHA512_OUTPUT_LEN], now)]
          && t'.nextUserId == uid + 1
          && (r.Ok? <==> AllNew(user.credentials, t.credentials) && NoFaults(faults, n + 1, n))
          && (r.Ok? ==>
                r.value == t'.users[uid] && t'.credentials == AddRows(t.credentials, user.credentials, uid, now))
          && (r.Err? ==>
                KeptBeforeFailure(user.credentials, t.credentials, t'.credentials, uid, now, faults, n + 1)))
  }

  /** What registration's token write leaves behind: two tokens are drawn;
      the insertion fails exactly when `fail`, writing nothing; otherwise
      the row of `userId` holding the two tokens gets the next id. */
  predicate TokenCreated(userId: int, fail: bool, now: Timestamp,
                         t: Tables, e: seq<byte>, t': Tables, e': seq<byte>, r: Result<Token, seq<ErrorResource>>)
  {
    && e' == e[SHA512_OUTPUT_LEN * Served(|e|, 2)..]
    && t'.users == t.users && t'.credentials == t.credentials && t'.nextUserId == t.nextUserId
    && (fail <==> r.Err?)
    && (r.Err? ==> r.error == [DatabaseError] && t'.tokens == t.tokens && t'.nextTokenId == t.nextTokenId)
    && (r.Ok? ==>
          var drawn := Collect(TaskOutcomes(e, 2));
          && r.value == Token(t.nextTokenId, userId, drawn[0], drawn[1], now, now)
          && t.nextTokenId !in t.tokens
          && t'.tokens == t.tokens[t.nextTokenId := r.value]
          && t'.nextTokenId == t.nextTokenId + 1)
  }

  /** What registration's writes leave behind once nothing was collected:
      the first failure ends the flow with one DATABASE_ERROR and keeps the
      rows already written, and a token row exists only on success. Store
      calls: the user insertion n, the credential insertions n + 1 .. 2n,
      the token insertion 2n + 1. */
  predicate RegistrationWritten(prf: HmacSha512, user: UserRegisterPayload, faults: seq<bool>, now: Timestamp,
                                t: Tables, e: seq<byte>, t': Tables, e': seq<byte>, r: Result<Token, seq<ErrorResource>>)
  {
    var n, uid := |user.credentials|, t.nextUserId;
    && |e| >= SHA512_OUTPUT_LEN
    && var salted := e[SHA512_OUTPUT_LEN..];
    var inserted := AllNew(user.credentials, t.credentials) && NoFaults(faults, n + 1, n);
    && (r.Err? ==> r.error == [DatabaseError] && t'.tokens == t.tokens && t'.nextTokenId == t.nextTokenId)
    // The user insertion fails: nothing is written.
    && (Fails(faults, n) ==>
          && r.Err? && e' == salted
          && t'.users == t.users && t'.credentials == t.credentials && t'.nextUserId == uid)
    // Otherwise the user row stays, whatever happens next.
    && (!Fails(faults, n) ==>
          && uid !in t.users
          && t'.users == t.users[uid := NewUserRow(prf, uid, user, e[..SHA512_OUTPUT_LEN], now)]
          && t'.nextUserId == uid + 1)
    // A credential insertion fails: the rows before it stay, no token is drawn.
    && (!Fails(faults, n) && !inserted ==>
          && r.Err? && e' == salted
          && KeptBeforeFailure(user.credentials, t.credentials, t'.credentials, uid, now, faults, n + 1))
    // Every credential row is written: two tokens are drawn, and the token
    // insertion decides the result.
    && (!Fails(faults, n) && inserted ==>
          && t'.credentials == AddRows(t.credentials, user.credentials, uid, now)
          && e' == salted[SHA512_OUTPUT_LEN * Served(|salted|, 2)..]
          && (r.Ok? <==> !Fails(faults, 2 * n + 1)))
    // On success the token row of the new user holds the two tokens drawn.
    && (r.Ok? ==>
          var drawn := Collect(TaskOutcomes(salted, 2));
          && r.value == Token(t.nextTokenId, uid, drawn[0], drawn[1], now, now)
          && t.nextTokenId !in t.tokens
          && t'.tokens == t.tokens[t.nextTokenId := r.value]
          && t'.nextTokenId == t.nextTokenId + 1)
  }

  /** Registration's writes are the user step followed, when it succeeds,
      by the token step. */
  lemma RegistrationWrittenInSteps(prf: HmacSha512, user: UserRegisterPayload, faults: seq<bool>, now: Timestamp,
                                   t0: Tables, e0: seq<byte>, t1: Tables, e1: seq<byte>, t2: Tables, e2: seq<byte>,
                                   created: Result<User, seq<ErrorResource>>, r: Result<Token, seq<ErrorResource>>)
    requires UserCreated(prf, user, faults, now, t0, e0, t1, e1, created)
    requires created.Err? ==> t2 == t1 && e2 == e1 && r == Err(created.error)
    requires created.Ok? ==>
      TokenCreated(created.value.id, Fails(faults, 2 * |user.credentials| + 1), now, t1, e1, t2, e2, r)
    ensures RegistrationWritten(prf, user, faults, now, t0, e0, t2, e2, r)
  {
  }

  /** After a successful registration the new user's row and token row
      are stored, and every supplied credential value holds the row that
      binds it, with its type, to the new user. */
  lemma RegisteredRows(prf: HmacSha512, user: UserRegisterPayload, faults: seq<bool>, now: Timestamp,
                       t: Tables, e: seq<byte>, t': Tables, e': seq<byte>, r: Result<Token, seq<ErrorResource>>)
    requires RegistrationWritten(prf, user, faults, now, t, e, t', e', r) && r.Ok?
    ensures r.value.user_id == t.nextUserId && t.nextUserId in t'.users && r.value.id in t'.tokens
    ensures forall j :: 0 <= j < |user.credentials| ==>
      && user.credentials[j].credential in t'.credentials
      && t'.credentials[user.credentials[j].credential] ==
           Credential(t.nextUserId, user.credentials[j].credential_type, user.credentials[j].credential, now, now)
  {
    var cs := user.credentials;
    forall j | 0 <= j < |cs|
      ensures cs[j].credential in t'.credentials
      ensures t'.credentials[cs[j].credential] == Credential(t.nextUserId, cs[j].credential_type, cs[j].credential, now, now)
    {
      assert forall k :: j < k < |cs| ==> cs[k].credential != cs[j].credential;
      AddRowsBinds(t.credentials, cs, t.nextUserId, now, j);
    }
  }

  /** Registration's first writes: hashes the password, inserts the user
      (store call n) and its credentials (store calls n + 1 .. 2n). */
  method CreateUser(store: Store, rng: SystemRandom, prf: HmacSha512, user: UserRegisterPayload,
                    faults: seq<bool>, now: Timestamp)
    returns (r: Result<User, seq<ErrorResource>>)
    requires store.Valid()
    requires |rng.entropy| >= SHA512_OUTPUT_LEN
    modifies store, rng
    ensures store.Valid()
    ensures UserCreated(prf, user, faults, now, old(store.Contents()), old(rng.entropy), store.Contents(), rng.entropy, r)
  {
    ghost var t0, e0 := store.Contents(), rng.entropy;
    var n := |user.credentials|;
    var inserted := InsertHashedUser(store, rng, prf, user, Fails(faults, n), now);
    if inserted.Err? {
      r := Err([DatabaseError]);
      UserNotCreated(prf, user, faults, now, t0, e0, store.Contents(), rng.entropy, r);
      return;
    }
    var persistedUser := inserted.value;
    ghost var t1 := store.Contents();
    var credentialsInserted := InsertCredentials(store, user.credentials, persistedUser.id, now, faults, n + 1);
    ghost var t2 := store.Contents();
    r := if credentialsInserted then Ok(persistedUser) else Err([DatabaseError]);
    UserCreatedInSteps(prf, user, faults, now, t0, e0, t1, t2, rng.entropy, credentialsInserted, r);
  }

  /** Hashes the password with a fresh salt and inserts the user row, the
      insertion failing exactly when `fail`. */
  method InsertHashedUser(store: Store, rng: SystemRandom, prf: HmacSha512, user: UserRegisterPayload,
                          fail: bool, now: Timestamp)
    returns (r: Result<User, DbError>)
    requires store.Valid()
    requires |rng.entropy| >= SHA512_OUTPUT_LEN
    modifies store, rng
    ensures store.Valid()
    ensures rng.entropy == old(rng.entropy)[SHA512_OUTPUT_LEN..]
    ensures fail <==> r.Err?
    ensures fail ==> store.Contents() == old(store.Contents())
    ensures !fail ==>
      var t, uid := old(store.Contents()), old(store.nextUserId);
      && uid !in t.users
      && r.value == NewUserRow(prf, uid, user, old(rng.entropy)[..SHA512_OUTPUT_LEN], now)
      && store.Contents() == Tables(t.users[uid := r.value], t.credentials, t.tokens, uid + 1, t.nextTokenId)
  {
    var hashResult := HashPassword(prf, rng, user.password);
    var userToInsert := User(0, user.name, hashResult.hash, hashResult.salt, now, now);
    r := store.InsertUser(userToInsert, fail);
  }

  /** A failed user insertion writes nothing. */
  lemma UserNotCreated(prf: HmacSha512, user: UserRegisterPayload, faults: seq<bool>, now: Timestamp,
                       t0: Tables, e0: seq<byte>, t1: Tables, e1: seq<byte>, r: Result<User, seq<ErrorResource>>)
    requires |e0| >= SHA512_OUTPUT_LEN && e1 == e0[SHA512_OUTPUT_LEN..]
    requires Fails(faults, |user.credentials|) && t1 == t0 && r == Err([DatabaseError])
    ensures UserCreated(prf, user, faults, now, t0, e0, t1, e1, r)
  {
  }

  /** Registration's first writes, once the user row is in: the credential
      loop's outcome decides the result. */
  lemma UserCreatedInSteps(prf: HmacSha512, user: UserRegisterPayload, faults: seq<bool>, now: Timestamp,
                           t0: Tables, e0: seq<byte>, t1: Tables, t2: Tables, e2: seq<byte>,
                           ok: bool, r: Result<User, seq<ErrorResource>>)
    requires |e0| >= SHA512_OUTPUT_LEN && e2 == e0[SHA512_OUTPUT_LEN..]
    requires !Fails(faults, |user.credentials|) && t0.nextUserId !in t0.users
    requires t1 == Tables(t0.users[t0.nextUserId := NewUserRow(prf, t0.nextUserId, user, e0[..SHA512_OUTPUT_LEN], now)],
                          t0.credentials, t0.tokens, t0.nextUserId + 1, t0.nextTokenId)
    requires t2.users == t1.users && t2.tokens == t1.tokens
    requires t2.nextUserId == t1.nextUserId && t2.nextTokenId == t1.nextTokenId
    requires ok ==> t2.credentials == AddRows(t1.credentials, user.credentials, t0.nextUserId, now)
    requires !ok ==> KeptBeforeFailure(user.credentials, t1.credentials, t2.credentials, t0.nextUserId, now,
                                       faults, |user.credentials| + 1)
    requires ok <==> AllNew(user.credentials, t1.credentials) && NoFaults(faults, |user.credentials| + 1, |user.credentials|)
    requires r == if ok then Ok(t1.users[t0.nextUserId]) else Err([DatabaseError])
    ensures UserCreated(prf, user, faults, now, t0, e0, t2, e2, r)
  {
  }

  /** Registration's last write: draws two tokens and inserts the token row
      of `userId`; `fail` says whether that insertion fails. */
  method CreateToken(store: Store, rng: SystemRandom, userId: int, fail: bool, now: Timestamp)
    returns (r: Result<Token, seq<ErrorResource>>)
    requires store.Valid()
    requires userId < store.nextUserId
    modifies store, rng
    ensures store.Valid()
    ensures TokenCreated(userId, fail, now, old(store.Contents()), old(rng.entropy), store.Contents(), rng.entropy, r)
  {
    // The generator always returns Ok with exactly two tokens, so the
    // JOIN_ERROR and TOKEN_NOT_CREATED exits cannot be taken.
    var generated := GenerateMultipleRandomTokens(rng, 2);
    var tokens := generated.value;
    var pair := TokenPair(tokens, []).value;
    var tokenToInsert := Token(0, userId, pair.0, pair.1, now, now);
    var persisted := store.InsertToken(tokenToInsert, fail);
    if persisted.Err? {
      return Err([DatabaseError]);
    }
    r := Ok(persisted.value);
  }

  /** `register_user`: every error found before the first write is
      returned together, with nothing written and no randomness drawn;
      otherwise the writes follow, as `RegistrationWritten` describes. */
  method RegisterUser(store: Store, rng: SystemRandom, prf: HmacSha512, table: LengthTable,
                      user: UserRegisterPayload, faults: seq<bool>, now: Timestamp)
    returns (r: Result<Token, seq<ErrorResource>>)
    requires store.Valid()
    requires RegistrationErrors(user, table, store.credentials, faults) == [] ==> |rng.entropy| >= SHA512_OUTPUT_LEN
    modifies store, rng
    ensures store.Valid()
    ensures var pre := RegistrationErrors(user, table, old(store.credentials), faults);
      && (pre != [] ==> r == Err(pre) && store.Contents() == old(store.Contents()) && rng.entropy == old(rng.entropy))
      && (pre == [] ==>
            RegistrationWritten(prf, user, faults, now, old(store.Contents()), old(rng.entropy),
                                store.Contents(), rng.entropy, r))
  {
    var errors := CollectRegistrationErrors(store, table, user, faults);
    if |errors| > 0 {
      return Err(errors);
    }
    var created := CreateUser(store, rng, prf, user, faults, now);
    ghost var afterUser, streamAfterUser := store.Contents(), rng.entropy;
    if created.Err? {
      r := Err(created.error);
    } else {
      r := CreateToken(store, rng, created.value.id, Fails(faults, 2 * |user.credentials| + 1), now);
    }
    RegistrationWrittenInSteps(prf, user, faults, now, old(store.Contents()), old(rng.entropy),
                               afterUser, streamAfterUser, store.Contents(), rng.entropy, created, r);
  }

  // ---------------------------------------------------------------------
  // authenticate_user

  /** Whether a token last updated at `lastUpdated` has outlived `ttl` at
      `now`; a token exactly `ttl` old is still valid. */
  predicate Expired(now: Timestamp, lastUpdated: Timestamp, ttl: int): (r: bool)
    ensures now - lastUpdated == ttl ==> !r
    ensures r ==> now - lastUpdated >= ttl + 1
  {
    now - lastUpdated > ttl
  }

  /** `authenticate_user`: store call 0 acquires a connection, call 1 reads
      the user, call 2 looks the token up. It writes nothing. */
  method AuthenticateUser(store: Store, dto: AuthenticateUserDto, faults: seq<bool>, now: Timestamp, ttl: int)
    returns (r: Result<User, seq<ErrorResource>>)
    requires store.Valid()
    ensures r.Err? ==> |r.error| == 1
    ensures Fails(faults, 0) || Fails(faults, 1) ==> r == Err([DatabaseError])
    ensures !Fails(faults, 0) && !Fails(faults, 1) && dto.id !in store.users ==> r == Err([UserDoesNotExist])
    ensures !Fails(faults, 0) && !Fails(faults, 1) && dto.id in store.users && Fails(faults, 2) ==>
      r == Err([DatabaseError])
    ensures !Fails(faults, 0) && !Fails(faults, 1) && dto.id in store.users && !Fails(faults, 2) ==>
      match FirstMatch(store.tokens, 1, store.nextTokenId, dto.id, dto.auth_token)
      case None => r == Err([IncorrectToken])
      case Some(t) => r == if Expired(now, t.last_updated, ttl) then Err([ExpiredToken]) else Ok(store.users[dto.id])
    ensures !Fails(faults, 0) && !Fails(faults, 1) && dto.id in store.users && !Fails(faults, 2) ==>
      (r == Err([IncorrectToken]) <==>
         forall id :: id in store.tokens ==> store.tokens[id].user_id != dto.id || store.tokens[id].auth_token != dto.auth_token)
  {
    FirstMatchCoversAll(store.tokens, 1, store.nextTokenId, dto.id, dto.auth_token);
    var errors: seq<ErrorResource> := [];
    if Fails(faults, 0) {
      errors := errors + [DatabaseError];
      assert errors == [DatabaseError];
      return Err(errors);
    }
    var found := store.GetUserWithId(dto.id, Fails(faults, 1));
    if found.Err? {
      errors := errors + [DatabaseError];
      assert errors == [DatabaseError];
      return Err(errors);
    }
    if found.value.None? {
      errors := errors + [UserDoesNotExist];
      assert errors == [UserDoesNotExist];
      return Err(errors);
    }
    var persistedUser: User := found.value.value;
    var token := store.ValidateUserToken(dto.id, dto.auth_token, Fails(faults, 2));
    if token.Err? {
      errors := errors + [DatabaseError];
      assert errors == [DatabaseError];
      return Err(errors);
    }
    if token.value.None? {
      errors := errors + [IncorrectToken];
      assert errors == [IncorrectToken];
      return Err(errors);
    }
    if Expired(now, token.value.value.last_updated, ttl) {
      errors := errors + [ExpiredToken];
      assert errors == [ExpiredToken];
      return Err(errors);
    }
    r := Ok(persistedUser);
  }

  /** A token row just written under the next id, for a user no older
      token row belongs to, authenticates that user when no store call
      fails. */
  method AuthenticateWithIssuedToken(store: Store, ghost oldTokens: map<int, Token>, t: Token, now: Timestamp, ttl: int)
    returns (r: Result<User, seq<ErrorResource>>)
    requires store.Valid()
    requires t.user_id in store.users
    requires 1 <= t.id && store.tokens == oldTokens[t.id := t] && store.nextTokenId == t.id + 1
    requires forall id :: id in oldTokens ==> oldTokens[id].user_id != t.user_id
    requires t.last_updated == now && ttl >= 0
    ensures r == Ok(store.users[t.user_id])
  {
    FirstMatchAfterInsert(oldTokens, 1, t.id, t);
    r := AuthenticateUser(store, AuthenticateUserDto(t.user_id, t.auth_token), [], now, ttl);
  }

  /** A user registered with no store failure authenticates straight away
      with the auth token it was given. */
  method RegisterThenAuthenticate(store: Store, rng: SystemRandom, prf: HmacSha512, table: LengthTable,
                                  user: UserRegisterPayload, now: Timestamp, ttl: int)
    returns (registered: Result<Token, seq<ErrorResource>>, authenticated: Option<Result<User, seq<ErrorResource>>>)
    requires store.Valid()
    requires RegistrationErrors(user, table, store.credentials, []) == [] ==> |rng.entropy| >= SHA512_OUTPUT_LEN
    requires ttl >= 0
    modifies store, rng
    ensures registered.Ok? ==>
      && registered.value.user_id in store.users
      && authenticated == Some(Ok(store.users[registered.value.user_id]))
  {
    ghost var oldTokens := store.tokens;
    assert forall id :: id in oldTokens ==> oldTokens[id].user_id < store.nextUserId;
    registered := RegisterUser(store, rng, prf, table, user, [], now);
    if registered.Err? {
      return registered, None;
    }
    var t := registered.value;
    var outcome := AuthenticateWithIssuedToken(store, oldTokens, t, now, ttl);
    authenticated := Some(outcome);
  }
}
