/**
 * Password hashing, token claims and bearer authentication of the server
 * (server/app/core/security.py).
 *
 * A stored password hash is the string `scheme$iterations$salt$digest`:
 * the scheme name `pbkdf2_sha256`, the iteration count in decimal, the salt
 * as 32 lower-case hex digits and the PBKDF2-HMAC-SHA256 digest in hex.
 * PBKDF2 itself is the parameter `kdf`: any deterministic function of the
 * password, the salt bytes and the iteration count (the UTF-8 encoding of
 * the password is folded into it). The random salt is a parameter as well.
 */
module Security {
  import opened Common
  import opened Text
  import opened Records

  const PASSWORD_HASH_SCHEME: string := "pbkdf2_sha256"
  const PASSWORD_ITERATIONS: int := 200000
  const PASSWORD_SALT_BYTES: nat := 16

  /** `hashlib.pbkdf2_hmac` raises for iteration counts outside this range. */
  const INT_MAX: int := 0x7FFF_FFFF

  /** PBKDF2-HMAC-SHA256 of a password under a salt and an iteration count. */
  type Kdf = (string, seq<byte>, int) -> seq<byte>

  /** `hash_password`: `salt` is the 16 random bytes behind `secrets.token_hex(16)`. */
  function HashPassword(password: string, salt: seq<byte>, kdf: Kdf): (h: string)
    requires |salt| == PASSWORD_SALT_BYTES
  {
    Join([PASSWORD_HASH_SCHEME, IntToDecimal(PASSWORD_ITERATIONS), ToHex(salt),
          ToHex(kdf(password, salt, PASSWORD_ITERATIONS))], '$')
  }

  /**
   * What `verify_password` decides, whatever the stored iteration count and
   * salt length: four `$`-separated fields, the scheme, a hex salt, an
   * iteration count PBKDF2 takes, and a stored digest equal to the one
   * recomputed with them.
   */
  predicate StoredDigestMatches(password: string, hashed: string, kdf: Kdf) {
    var f := Split(hashed, '$');
    && |f| == 4 && f[0] == PASSWORD_HASH_SCHEME
    && FromHex(f[2]).Some? && ParseInt(f[1]).Some? && 1 <= ParseInt(f[1]).value <= INT_MAX
    && ToHex(kdf(password, FromHex(f[2]).value, ParseInt(f[1]).value)) == f[3]
  }

  /**
   * `verify_password`. Every path on which the source raises (a wrong number
   * of fields, a bad hex salt, a bad iteration count, an iteration count
   * PBKDF2 refuses) is caught there and gives `false` here.
   */
  function VerifyPassword(password: string, hashed: string, kdf: Kdf): (ok: bool)
    ensures |Split(hashed, '$')| != 4 ==> !ok
    ensures |Split(hashed, '$')| == 4 && Split(hashed, '$')[0] != PASSWORD_HASH_SCHEME ==> !ok
    ensures |Split(hashed, '$')| == 4 && (FromHex(Split(hashed, '$')[2]).None? || ParseInt(Split(hashed, '$')[1]).None?) ==> !ok
    ensures ok <==> StoredDigestMatches(password, hashed, kdf)
  {
    var fields := Split(hashed, '$');
    if |fields| != 4 then false
    else if fields[0] != PASSWORD_HASH_SCHEME then false
    else
      // the call's arguments are evaluated left to right: the salt first
      match FromHex(fields[2])
      case None => false
      case Some(salt) =>
        match ParseInt(fields[1])
        case None => false
        case Some(iterations) =>
          if iterations < 1 || iterations > INT_MAX then false
          // compare_digest of two strings of which the first is ASCII: plain equality
          else ToHex(kdf(password, salt, iterations)) == fields[3]
  }

  /** The four fields of a freshly made hash. */
  lemma HashPasswordFields(password: string, salt: seq<byte>, kdf: Kdf)
    requires |salt| == PASSWORD_SALT_BYTES
    ensures var f := Split(HashPassword(password, salt, kdf), '$');
      && f == [PASSWORD_HASH_SCHEME, "200000", ToHex(salt), ToHex(kdf(password, salt, PASSWORD_ITERATIONS))]
      && |f[2]| == 32 && IsLowerHex(f[2]) && IsLowerHex(f[3])
  {
    DecimalOf200000();
    var fields := [PASSWORD_HASH_SCHEME, IntToDecimal(PASSWORD_ITERATIONS), ToHex(salt),
                   ToHex(kdf(password, salt, PASSWORD_ITERATIONS))];
    assert forall k :: 0 <= k < 4 ==> '$' !in fields[k] by {
      assert forall c :: c in ToHex(salt) ==> c != '$';
      assert forall c :: c in ToHex(kdf(password, salt, PASSWORD_ITERATIONS)) ==> c != '$';
    }
    SplitJoin(fields, '$');
  }

  /** A hash verifies against exactly the passwords PBKDF2 cannot tell from the original. */
  lemma VerifyHashedPassword(candidate: string, password: string, salt: seq<byte>, kdf: Kdf)
    requires |salt| == PASSWORD_SALT_BYTES
    ensures VerifyPassword(candidate, HashPassword(password, salt, kdf), kdf)
            <==> kdf(candidate, salt, PASSWORD_ITERATIONS) == kdf(password, salt, PASSWORD_ITERATIONS)
  {
    HashPasswordFields(password, salt, kdf);
    FromHexOfToHex(salt);
    ParseIntOfDecimal(PASSWORD_ITERATIONS);
    DecimalOf200000();
    ToHexInjective(kdf(candidate, salt, PASSWORD_ITERATIONS), kdf(password, salt, PASSWORD_ITERATIONS));
  }

  /** `verify_password(p, hash_password(p))` holds. */
  lemma VerifyHashRoundTrip(password: string, salt: seq<byte>, kdf: Kdf)
    requires |salt| == PASSWORD_SALT_BYTES
    ensures VerifyPassword(password, HashPassword(password, salt, kdf), kdf)
  {
    VerifyHashedPassword(password, password, salt, kdf);
  }

  // ---------------------------------------------------------------------------
  // Access tokens

  /** A claim value: a string, an integer or an instant (seconds since the epoch). */
  datatype Claim = Str(s: string) | Int(i: int) | Instant(t: int)

  /** `str(v)` for the claim values a subject can hold. */
  function StrOf(v: Claim): string
    requires !v.Instant?
  {
    match v
    case Str(s) => s
    case Int(i) => IntToDecimal(i)
  }

  /**
   * `create_access_token` up to the JWT signing: the claims to be encoded. The
   * caller's dictionary is copied, `exp` is set to `now` plus the lifetime and
   * a `sub` claim is turned into a string.
   */
  function CreateAccessToken(claims: map<string, Claim>, now: int, ttlMinutes: int): (r: map<string, Claim>)
    requires "sub" in claims ==> !claims["sub"].Instant?
    ensures r.Keys == claims.Keys + {"exp"}
    ensures r["exp"] == Instant(now + ttlMinutes * 60)
    ensures "sub" in claims ==> r["sub"] == Str(StrOf(claims["sub"]))
    ensures forall k :: k in claims && k != "exp" && k != "sub" ==> r[k] == claims[k]
  {
    var toEncode := claims["exp" := Instant(now + ttlMinutes * 60)];
    if "sub" in toEncode then toEncode["sub" := Str(StrOf(toEncode["sub"]))] else toEncode
  }

  // ---------------------------------------------------------------------------
  // Bearer authentication

  /** The `Authorization` header as `HTTPBearer` hands it over. */
  datatype Credentials = Credentials(scheme: string, credentials: string)

  /**
   * A claim value after JSON decoding of the token payload. `JInt` stands for
   * every JSON value that is neither a string nor `null`: the subject check
   * below treats them all alike.
   */
  datatype Json = JStr(s: string) | JInt(i: int) | JNull

  /** The signature and expiry checks and the decoding of a JWT; `None` where they raise `JWTError`. */
  type Decoder = string -> Option<map<string, Json>>

  /**
   * python-jose's `jwt.decode` with its default options: after `decode`, the
   * `verify_sub` check raises `JWTClaimsError`, a `JWTError`, for a `sub`
   * claim that is present and not a string, `null` included.
   */
  function JoseDecode(decode: Decoder, token: string): (r: Option<map<string, Json>>)
    ensures r.Some? <==> decode(token).Some? && ("sub" in decode(token).value ==> decode(token).value["sub"].JStr?)
    ensures r.Some? ==> r == decode(token)
  {
    match decode(token)
    case None => None
    case Some(payload) => if "sub" in payload && !payload["sub"].JStr? then None else Some(payload)
  }

  datatype HttpError = HttpError(status: int, detail: string)

  /** The response the server sends for an exception nothing catches. */
  const INTERNAL_SERVER_ERROR: HttpError := HttpError(500, "Internal Server Error")

  /** The range of an SQLite `INTEGER`: Python's `sqlite3` raises `OverflowError` binding any other integer. */
  const SQLITE_INTEGER_MIN: int := -0x8000_0000_0000_0000
  const SQLITE_INTEGER_MAX: int := 0x7FFF_FFFF_FFFF_FFFF

  predicate FitsSqliteInteger(n: int) {
    SQLITE_INTEGER_MIN <= n <= SQLITE_INTEGER_MAX
  }

  /**
   * `get_current_user` over the user table `users` (keyed by id). Every
   * rejection the source raises is a 401 whose detail says which check failed;
   * a subject outside the SQLite integer range makes the query raise an
   * `OverflowError` that nothing catches, which the server answers with a 500.
   */
  function GetCurrentUser(credentials: Option<Credentials>, decode: Decoder, users: map<int, User>): (r: Result<User, HttpError>)
    ensures r.Err? ==> r.error.status == 401 || r.error == INTERNAL_SERVER_ERROR
    ensures credentials.None? ==> r == Err(HttpError(401, "Missing or invalid Authorization header"))
    ensures credentials.Some? && AsciiLower(credentials.value.scheme) != "bearer" ==>
              r == Err(HttpError(401, "Missing or invalid Authorization header"))
    ensures r.Ok? ==>
              && credentials.Some? && AsciiLower(credentials.value.scheme) == "bearer"
              && var payload := decode(credentials.value.credentials);
              && payload.Some? && "sub" in payload.value && payload.value["sub"].JStr?
              && var id := ParseInt(payload.value["sub"].s);
              && id.Some? && FitsSqliteInteger(id.value) && id.value in users && r.value == users[id.value]
    ensures credentials.Some? && AsciiLower(credentials.value.scheme) == "bearer" ==>
              var payload := decode(credentials.value.credentials);
              && (payload.None? ==> r == Err(HttpError(401, "Invalid or expired token")))
              && (payload.Some? && "sub" !in payload.value ==> r == Err(HttpError(401, "Invalid token subject")))
              && (payload.Some? && "sub" in payload.value && !payload.value["sub"].JStr? ==>
                    r == Err(HttpError(401, "Invalid or expired token")))
              && (payload.Some? && "sub" in payload.value && payload.value["sub"].JStr? ==>
                    var id := ParseInt(payload.value["sub"].s);
                    && (id.None? ==> r == Err(HttpError(401, "Invalid or expired token")))
                    && (id.Some? && !FitsSqliteInteger(id.value) ==> r == Err(INTERNAL_SERVER_ERROR))
                    && (id.Some? && FitsSqliteInteger(id.value) && id.value !in users ==>
                          r == Err(HttpError(401, "Invalid user")))
                    && (id.Some? && FitsSqliteInteger(id.value) && id.value in users ==> r == Ok(users[id.value])))
  {
    if credentials.None? || AsciiLower(credentials.value.scheme) != "bearer" then
      Err(HttpError(401, "Missing or invalid Authorization header"))
    else
      match JoseDecode(decode, credentials.value.credentials)
      case None => Err(HttpError(401, "Invalid or expired token"))
      case Some(payload) =>
        if "sub" !in payload then Err(HttpError(401, "Invalid token subject"))
        else
          match ParseInt(payload["sub"].s)
          case None => Err(HttpError(401, "Invalid or expired token"))
          case Some(id) =>
            if !FitsSqliteInteger(id) then Err(INTERNAL_SERVER_ERROR)
            else if id !in users then Err(HttpError(401, "Invalid user"))
            else Ok(users[id])
  }

  /** `"bearer"` is already lower case. */
  lemma LowerOfBearer()
    ensures AsciiLower("bearer") == "bearer"
  {
    var l := AsciiLower("bearer");
    forall k | 0 <= k < 6 ensures l[k] == "bearer"[k] {
    }
  }

  /** The scheme is compared without regard to ASCII case: any spelling of it is as good as `bearer`. */
  lemma BearerSchemeIgnoresCase(scheme: string, token: string, decode: Decoder, users: map<int, User>)
    requires AsciiLower(scheme) == "bearer"
    ensures GetCurrentUser(Some(Credentials(scheme, token)), decode, users)
         == GetCurrentUser(Some(Credentials("bearer", token)), decode, users)
  {
    LowerOfBearer();
  }
}
