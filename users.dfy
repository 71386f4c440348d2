/** The field validators of the login payload (app/models/users.py, `UserLogin`). */
module UserLogin {
  import opened Common
  import opened Text

  const USERNAME_MAX_LENGTH: nat := 150
  const PASSWORD_MIN_LENGTH: nat := 6

  /** The `ValueError` a validator raises, which the API turns into a 422. */
  datatype ValidationError = ValidationError(message: string)

  /** `normalize_username`: strip, then refuse an empty or an over-long name. */
  function NormalizeUsername(value: string): (r: Result<string, ValidationError>)
    ensures r.Ok? <==> 1 <= |Strip(value)| <= USERNAME_MAX_LENGTH
    ensures r.Ok? ==> r.value == Strip(value)
    ensures Strip(value) == [] ==> r == Err(ValidationError("username must not be empty or whitespace"))
    ensures |Strip(value)| > USERNAME_MAX_LENGTH ==> r == Err(ValidationError("username must be at most 150 characters"))
  {
    var trimmed := Strip(value);
    if |trimmed| == 0 then Err(ValidationError("username must not be empty or whitespace"))
    else if |trimmed| > USERNAME_MAX_LENGTH then Err(ValidationError("username must be at most 150 characters"))
    else Ok(trimmed)
  }

  /** `validate_password`: at least six characters, returned unchanged. */
  function ValidatePassword(value: string): (r: Result<string, ValidationError>)
    ensures r.Ok? <==> |value| >= PASSWORD_MIN_LENGTH
    ensures r.Ok? ==> r.value == value
    ensures r.Err? ==> r.error == ValidationError("password must be at least 6 characters")
  {
    if |value| < PASSWORD_MIN_LENGTH then Err(ValidationError("password must be at least 6 characters"))
    else Ok(value)
  }

  /**
   * An accepted username is the input with only surrounding whitespace cut
   * off; it has no whitespace at its ends and 1 to 150 characters.
   */
  lemma AcceptedUsernameIsTrimmedInput(value: string)
    requires NormalizeUsername(value).Ok?
    ensures var name := NormalizeUsername(value).value;
      && 1 <= |name| <= USERNAME_MAX_LENGTH && IsStripped(name)
      && exists i, j :: 0 <= i <= j <= |value| && name == value[i..j]
           && (forall k :: 0 <= k < i ==> IsSpace(value[k]))
           && (forall k :: j <= k < |value| ==> IsSpace(value[k]))
  {
    StripIsTrimmedSlice(value);
  }

  /** A name made only of whitespace (the empty name included) is refused. */
  lemma WhitespaceOnlyUsernameRejected(value: string)
    requires forall k :: 0 <= k < |value| ==> IsSpace(value[k])
    ensures NormalizeUsername(value) == Err(ValidationError("username must not be empty or whitespace"))
  {
  }

  /** Normalisation is idempotent: an accepted name normalises to itself. */
  lemma NormalizeUsernameIdempotent(value: string)
    requires NormalizeUsername(value).Ok?
    ensures NormalizeUsername(NormalizeUsername(value).value) == NormalizeUsername(value)
  {
    StripIdempotent(value);
  }
}
