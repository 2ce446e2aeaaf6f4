/** Shape checks on the registration and login payloads. Each failed check
    appends one error resource to the caller's list; no check stops the
    others. */
module UserValidator {
  import opened Domain
  import opened Resources
  import Utf8

  /** `CredentialType::get_min_length` and `CredentialType::get_max_length`.
      Their definitions are not part of this model, so the validator takes
      them as a parameter. */
  datatype LengthTable = LengthTable(minLength: CredentialType -> nat, maxLength: CredentialType -> nat)

  /** Length in bytes within [4, 254], and both an '@' and a '.' somewhere;
      so at least two characters and at most 254. */
  predicate ValidEmail(email: string): (r: bool)
    ensures r ==> 2 <= |email| <= MAX_EMAIL_LENGTH
  {
    Utf8.LenAtLeastChars(email);
    && MIN_EMAIL_LENGTH <= Utf8.Len(email) <= MAX_EMAIL_LENGTH
    && '@' in email
    && '.' in email
  }

  /** As written: the MAXIMUM phone length is the lower bound and the
      MINIMUM phone length the upper bound, so a phone number can pass only
      when the table's maximum does not exceed its minimum. */
  predicate ValidPhoneNumber(phone: string, table: LengthTable): (r: bool)
    ensures r ==> table.maxLength(PhoneNumber) <= table.minLength(PhoneNumber)
    ensures r ==> |phone| <= table.minLength(PhoneNumber)
  {
    Utf8.LenAtLeastChars(phone);
    table.maxLength(PhoneNumber) <= Utf8.Len(phone) <= table.minLength(PhoneNumber)
  }

  /** As written: the username check uses the phone-number limits, in the
      same swapped order. */
  predicate ValidUsername(username: string, table: LengthTable): (r: bool)
    ensures r ==> table.maxLength(PhoneNumber) <= table.minLength(PhoneNumber)
    ensures r ==> |username| <= table.minLength(PhoneNumber)
  {
    Utf8.LenAtLeastChars(username);
    table.maxLength(PhoneNumber) <= Utf8.Len(username) <= table.minLength(PhoneNumber)
  }

  /** Length in bytes within [4, 254]: one to 254 characters. */
  predicate ValidName(name: string): (r: bool)
    ensures r ==> 1 <= |name| <= MAX_NAME_LENGTH
  {
    Utf8.LenAtLeastChars(name);
    Utf8.LenAtMostFourPerChar(name);
    MIN_NAME_LENGTH <= Utf8.Len(name) <= MAX_NAME_LENGTH
  }

  /** Length in bytes within [8, 128]: two to 128 characters. */
  predicate ValidPassword(password: string): (r: bool)
    ensures r ==> 2 <= |password| <= MAX_PASSWORD_LENGTH
  {
    Utf8.LenAtLeastChars(password);
    Utf8.LenAtMostFourPerChar(password);
    MIN_PASSWORD_LENGTH <= Utf8.Len(password) <= MAX_PASSWORD_LENGTH
  }

  /** The check that applies to a credential of the given type. */
  predicate ValidCredential(value: string, t: CredentialType, table: LengthTable)
  {
    match t
    case Email => ValidEmail(value)
    case PhoneNumber => ValidPhoneNumber(value, table)
    case Username => ValidUsername(value, table)
  }

  /** The error reported for an invalid credential of the given type. */
  function CredentialError(t: CredentialType): (e: ErrorResource)
  {
    match t
    case Email => InvalidEmail
    case PhoneNumber => InvalidPhoneNumber
    case Username => InvalidUsername
  }

  /** The errors the credential loop appends for `cs`, one credential at a
      time from the first. */
  function CredentialErrors(cs: seq<CredentialDto>, table: LengthTable): (errors: seq<ErrorResource>)
  {
    if cs == [] then []
    else
      var c := cs[|cs| - 1];
      CredentialErrors(cs[..|cs| - 1], table)
        + (if ValidCredential(c.credential, c.credential_type, table) then [] else [CredentialError(c.credential_type)])
  }

  /** One more credential appends at most its own error. */
  lemma CredentialErrorsStep(cs: seq<CredentialDto>, i: nat, table: LengthTable)
    requires i < |cs|
    ensures CredentialErrors(cs[..i + 1], table) ==
      CredentialErrors(cs[..i], table)
        + (if ValidCredential(cs[i].credential, cs[i].credential_type, table) then [] else [CredentialError(cs[i].credential_type)])
  {
    assert cs[..i + 1][..i] == cs[..i];
  }

  /** Everything `validate_user_for_creation` appends. */
  function CreationErrors(user: UserRegisterPayload, table: LengthTable): (errors: seq<ErrorResource>)
  {
    CredentialErrors(user.credentials, table)
      + (if ValidName(user.name) then [] else [InvalidName])
      + (if ValidPassword(user.password) then [] else [InvalidPassword])
  }

  /** `validate_user_for_creation`: `errors` is the caller's vector before
      the call and `errors'` the same vector after it. */
  method ValidateUserForCreation(user: UserRegisterPayload, table: LengthTable, errors: seq<ErrorResource>)
    returns (errors': seq<ErrorResource>)
    ensures errors' == errors + CreationErrors(user, table)
  {
    errors' := errors;
    var cs := user.credentials;
    for i := 0 to |cs|
      invariant errors' == errors + CredentialErrors(cs[..i], table)
    {
      CredentialErrorsStep(cs, i, table);
      var c := cs[i];
      match c.credential_type {
        case Email =>
          if !ValidEmail(c.credential) {
            errors' := errors' + [InvalidEmail];
          }
        case PhoneNumber =>
          if !ValidPhoneNumber(c.credential, table) {
            errors' := errors' + [InvalidPhoneNumber];
          }
        case Username =>
          if !ValidUsername(c.credential, table) {
            errors' := errors' + [InvalidUsername];
          }
      }
    }
    assert cs[..|cs|] == cs;
    if !ValidName(user.name) {
      errors' := errors' + [InvalidName];
    }
    if !ValidPassword(user.password) {
      errors' := errors' + [InvalidPassword];
    }
  }

  /** `validate_user_for_password_authentication`: at most two errors, the
      credential's before the password's, and none exactly when both checks
      pass. */
  method ValidateUserForPasswordAuthentication(user: UserLoginPayload, table: LengthTable, errors: seq<ErrorResource>)
    returns (errors': seq<ErrorResource>)
    ensures |errors| <= |errors'| <= |errors| + 2 && errors'[..|errors|] == errors
    ensures errors' == errors <==>
      ValidCredential(user.credential, user.credential_type, table) && ValidPassword(user.password)
    ensures CredentialError(user.credential_type) in errors'[|errors|..] <==>
      !ValidCredential(user.credential, user.credential_type, table)
    ensures InvalidPassword in errors'[|errors|..] <==> !ValidPassword(user.password)
    ensures |errors'| == |errors| + 2 ==>
      errors'[|errors|] == CredentialError(user.credential_type) && errors'[|errors| + 1] == InvalidPassword
  {
    errors' := errors;
    match user.credential_type {
      case Email =>
        if !ValidEmail(user.credential) {
          errors' := errors' + [InvalidEmail];
        }
      case PhoneNumber =>
        if !ValidPhoneNumber(user.credential, table) {
          errors' := errors' + [InvalidPhoneNumber];
        }
      case Username =>
        if !ValidUsername(user.credential, table) {
          errors' := errors' + [InvalidUsername];
        }
    }
    ghost var afterCredential := errors';
    if !ValidPassword(user.password) {
      errors' := errors' + [InvalidPassword];
    }
    ghost var credentialPart :=
      if ValidCredential(user.credential, user.credential_type, table) then [] else [CredentialError(user.credential_type)];
    ghost var passwordPart := if ValidPassword(user.password) then [] else [InvalidPassword];
    assert afterCredential == errors + credentialPart;
    assert errors'[|errors|..] == credentialPart + passwordPart;
  }

  // ---------------------------------------------------------------------
  // Properties of the checks

  /** For ASCII text the email rule is: 4 to 254 characters, with an '@'
      and a '.'. */
  lemma EmailRuleForAscii(email: string)
    requires Utf8.IsAscii(email)
    ensures ValidEmail(email) <==> 4 <= |email| <= 254 && '@' in email && '.' in email
  {
    Utf8.AsciiLen(email);
  }

  /** The name and password rules, for ASCII text, in characters. */
  lemma NameAndPasswordRulesForAscii(s: string)
    requires Utf8.IsAscii(s)
    ensures ValidName(s) <==> 4 <= |s| <= 254
    ensures ValidPassword(s) <==> 8 <= |s| <= 128
  {
    Utf8.AsciiLen(s);
  }

  /** The phone and username rules accept exactly the byte lengths from
      get_max_length(PhoneNumber) up to get_min_length(PhoneNumber). */
  lemma PhoneAndUsernameShareBounds(s: string, table: LengthTable)
    ensures ValidPhoneNumber(s, table) == ValidUsername(s, table)
    ensures ValidUsername(s, table) <==>
      table.maxLength(PhoneNumber) <= Utf8.Len(s) <= table.minLength(PhoneNumber)
  {
  }

  /** When the maximum exceeds the minimum, as any sensible table has it,
      no phone number and no username is ever accepted. */
  lemma InvertedBoundsRejectAll(table: LengthTable)
    requires table.maxLength(PhoneNumber) > table.minLength(PhoneNumber)
    ensures forall s :: !ValidPhoneNumber(s, table) && !ValidUsername(s, table)
  {
  }

  // ---------------------------------------------------------------------
  // Properties of the creation errors

  /** Reference definition: the invalid credentials of `cs`, in order. */
  function InvalidCredentials(cs: seq<CredentialDto>, table: LengthTable): (r: seq<CredentialDto>)
  {
    if cs == [] then []
    else
      (if ValidCredential(cs[0].credential, cs[0].credential_type, table) then [] else [cs[0]])
        + InvalidCredentials(cs[1..], table)
  }

  lemma {:induction false} InvalidCredentialsSnoc(cs: seq<CredentialDto>, c: CredentialDto, table: LengthTable)
    ensures InvalidCredentials(cs + [c], table) ==
      InvalidCredentials(cs, table) + (if ValidCredential(c.credential, c.credential_type, table) then [] else [c])
  {
    if cs != [] {
      assert (cs + [c])[1..] == cs[1..] + [c];
      InvalidCredentialsSnoc(cs[1..], c, table);
    }
  }

  lemma {:induction false} InvalidCredentialsBound(cs: seq<CredentialDto>, table: LengthTable)
    ensures |InvalidCredentials(cs, table)| <= |cs|
    ensures forall c :: c in InvalidCredentials(cs, table) ==>
      c in cs && !ValidCredential(c.credential, c.credential_type, table)
    ensures InvalidCredentials(cs, table) == [] <==>
      forall c :: c in cs ==> ValidCredential(c.credential, c.credential_type, table)
  {
    if cs != [] {
      InvalidCredentialsBound(cs[1..], table);
      assert cs == [cs[0]] + cs[1..];
    }
  }

  /** The credential loop reports exactly one error per invalid credential,
      in credential order, and each error names that credential's type. */
  lemma {:induction false} CredentialErrorsPerInvalidCredential(cs: seq<CredentialDto>, table: LengthTable)
    ensures var bad := InvalidCredentials(cs, table);
      CredentialErrors(cs, table) == seq(|bad|, k requires 0 <= k < |bad| => CredentialError(bad[k].credential_type))
  {
    if cs != [] {
      var init, c := cs[..|cs| - 1], cs[|cs| - 1];
      assert cs == init + [c];
      CredentialErrorsPerInvalidCredential(init, table);
      InvalidCredentialsSnoc(init, c, table);
    }
  }

  /** Creation validation appends the credential errors, then INVALID_NAME
      if needed, then INVALID_PASSWORD if needed: at most two more errors
      than there are credentials. */
  lemma CreationErrorsBound(user: UserRegisterPayload, table: LengthTable)
    ensures |CreationErrors(user, table)| <= |user.credentials| + 2
    ensures var n := |InvalidCredentials(user.credentials, table)|;
      |CreationErrors(user, table)| ==
        n + (if ValidName(user.name) then 0 else 1) + (if ValidPassword(user.password) then 0 else 1)
  {
    CredentialErrorsPerInvalidCredential(user.credentials, table);
    InvalidCredentialsBound(user.credentials, table);
  }

  /** Creation validation appends nothing exactly when every credential,
      the name and the password pass. */
  lemma CreationErrorsEmpty(user: UserRegisterPayload, table: LengthTable)
    ensures CreationErrors(user, table) == [] <==>
      && (forall c :: c in user.credentials ==> ValidCredential(c.credential, c.credential_type, table))
      && ValidName(user.name)
      && ValidPassword(user.password)
  {
    CredentialErrorsPerInvalidCredential(user.credentials, table);
    InvalidCredentialsBound(user.credentials, table);
  }
}
