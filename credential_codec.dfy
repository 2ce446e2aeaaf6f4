/** The text form of `CredentialType`: its `FromStr` and `Display`
    implementations, and the database column encoding that delegates to
    them. */
module CredentialCodec {
  import opened Wrappers
  import opened Domain

  /** The error `from_str` reports. */
  datatype FromStrError = FromStrError

  /** The error column decoding reports: the column is not text, or its
      text is not a variant name. */
  datatype DecodeError = NotText | Parse(cause: FromStrError)

  /** The three variant names. */
  const NAMES: set<string> := {"PhoneNumber", "Email", "Username"}

  /** `CredentialType::from_str`: an exact, case-sensitive match of a
      variant name. */
  function FromStr(s: string): (r: Result<CredentialType, FromStrError>)
    ensures r.Ok? <==> s in NAMES
  {
    if s == "PhoneNumber" then Ok(PhoneNumber)
    else if s == "Email" then Ok(Email)
    else if s == "Username" then Ok(Username)
    else Err(FromStrError)
  }

  /** `Display for CredentialType` (and so `to_string`). */
  function ToString(t: CredentialType): (s: string)
    ensures s in NAMES
  {
    match t
    case PhoneNumber => "PhoneNumber"
    case Email => "Email"
    case Username => "Username"
  }

  /** `Encode`: the column holds `to_string` of the value, a text that
      parses back to it. */
  function EncodeColumn(t: CredentialType): (s: string)
    ensures FromStr(s) == Ok(t)
  {
    ToString(t)
  }

  /** `Decode`: the column read as text (`None` when it is not text), then
      parsed with `from_str`. */
  function DecodeColumn(column: Option<string>): (r: Result<CredentialType, DecodeError>)
    ensures r.Ok? ==> column == Some(EncodeColumn(r.value))
  {
    match column
    case None => Err(NotText)
    case Some(text) =>
      match FromStr(text)
      case Ok(t) => Ok(t)
      case Err(e) => Err(Parse(e))
  }

  /** Parsing the displayed form gives the variant back. */
  lemma ParseDisplay(t: CredentialType)
    ensures FromStr(ToString(t)) == Ok(t)
  {
  }

  /** Whatever parses is displayed as exactly the text it was parsed from. */
  lemma DisplayParse(s: string)
    requires FromStr(s).Ok?
    ensures ToString(FromStr(s).value) == s
  {
  }

  /** The display names are exactly the three variant names, one each. */
  lemma DisplayNames()
    ensures ToString(PhoneNumber) == "PhoneNumber"
    ensures ToString(Email) == "Email"
    ensures ToString(Username) == "Username"
    ensures forall t, u :: ToString(t) == ToString(u) ==> t == u
  {
  }

  /** Matching is case-sensitive. */
  lemma ParseIsCaseSensitive()
    ensures FromStr("email").Err? && FromStr("EMAIL").Err?
    ensures FromStr("phonenumber").Err? && FromStr("username").Err?
  {
  }

  /** Column decoding fails exactly for a non-text column and for text
      that is not a variant name. */
  lemma DecodeColumnFails(column: Option<string>)
    ensures DecodeColumn(column).Err? <==> column.None? || column.value !in NAMES
  {
  }

  /** A value written to the column is read back unchanged. */
  lemma {:induction false} DecodeEncodeColumn(t: CredentialType)
    ensures DecodeColumn(Some(EncodeColumn(t))) == Ok(t)
  {
    ParseDisplay(t);
  }
}
