/**
 * Login-or-register and token issue (app/users/service.py) over the `users`
 * table, using the password helpers of `Security`.
 */
module UserService {
  import opened Common
  import opened Text
  import opened Records
  import Security

  /** The `users` table, keyed by id; usernames are unique (a database constraint). */
  class UserTable {
    var users: map<int, User>
    var nextId: int

    ghost predicate Valid()
      reads this
    {
      && (forall id :: id in users ==> users[id].id == id && id < nextId)
      && (forall a, b :: a in users && b in users && users[a].username == users[b].username ==> a == b)
    }

    constructor ()
      ensures Valid() && users == map[]
    {
      users := map[];
      nextId := 1;
    }

    /** `get_by_username`. */
    function FindByUsername(username: string): (r: Option<User>)
      reads this
      requires Valid()
      ensures r.Some? <==> exists id :: id in users && users[id].username == username
      ensures r.Some? ==> r.value.id in users && users[r.value.id] == r.value && r.value.username == username
    {
      if exists id :: id in users && users[id].username == username then
        var id :| id in users && users[id].username == username; Some(users[id])
      else None
    }

    /** `_create_user`: a new row with a fresh id and the hash of the password. */
    method CreateUser(username: string, password: string, salt: seq<byte>, kdf: Security.Kdf) returns (user: User)
      requires Valid() && |salt| == Security.PASSWORD_SALT_BYTES
      requires forall id :: id in users ==> users[id].username != username
      modifies this
      ensures Valid()
      ensures user == User(user.id, username, Security.HashPassword(password, salt, kdf))
      ensures user.id !in old(users) && users == old(users)[user.id := user]
    {
      user := User(nextId, username, Security.HashPassword(password, salt, kdf));
      users := users[nextId := user];
      nextId := nextId + 1;
    }

    /**
     * `register_or_authenticate`: an unknown name is registered, a known name
     * must come with a password that verifies against its stored hash.
     */
    method RegisterOrAuthenticate(username: string, password: string, salt: seq<byte>, kdf: Security.Kdf)
      returns (r: Result<User, Security.HttpError>)
      requires Valid() && |salt| == Security.PASSWORD_SALT_BYTES
      modifies this
      ensures Valid()
      ensures old(FindByUsername(username)).None? ==>
        && r.Ok? && r.value.username == username
        && r.value.passwordHash == Security.HashPassword(password, salt, kdf)
        && r.value.id !in old(users) && users == old(users)[r.value.id := r.value]
      ensures old(FindByUsername(username)).Some? ==>
        && users == old(users)
        && var known := old(FindByUsername(username)).value;
        && (Security.VerifyPassword(password, known.passwordHash, kdf) ==> r == Ok(known))
        && (!Security.VerifyPassword(password, known.passwordHash, kdf) ==>
              r == Err(Security.HttpError(401, "Invalid credentials")))
    {
      var existing := FindByUsername(username);
      if existing.None? {
        var user := CreateUser(username, password, salt, kdf);
        r := Ok(user);
      } else if !Security.VerifyPassword(password, existing.value.passwordHash, kdf) {
        r := Err(Security.HttpError(401, "Invalid credentials"));
      } else {
        r := Ok(existing.value);
      }
    }
  }

  /** `issue_token`: the claims of an access token whose subject is the user's id as a string. */
  function IssueToken(user: User, now: int, ttlMinutes: int): (claims: map<string, Security.Claim>)
    ensures claims.Keys == {"sub", "exp"}
    ensures claims["sub"] == Security.Str(IntToDecimal(user.id))
    ensures claims["exp"] == Security.Instant(now + ttlMinutes * 60)
  {
    Security.CreateAccessToken(map["sub" := Security.Str(IntToDecimal(user.id))], now, ttlMinutes)
  }

  /** The JSON payload a JWT carries for a set of claims (an instant becomes its timestamp). */
  function ToJson(claims: map<string, Security.Claim>): (payload: map<string, Security.Json>)
    ensures payload.Keys == claims.Keys
  {
    map k | k in claims :: match claims[k]
      case Str(s) => Security.JStr(s)
      case Int(i) => Security.JInt(i)
      case Instant(t) => Security.JInt(t)
  }

  /**
   * A token issued for a user authenticates that user, as long as the user
   * still exists (its id, read from an SQLite `INTEGER`, is in that range):
   * `get_current_user` reads back the `sub` claim `issue_token` wrote, where
   * `decode` gives back what was signed.
   */
  lemma IssuedTokenAuthenticates(user: User, now: int, ttlMinutes: int, token: string,
                                 decode: Security.Decoder, users: map<int, User>)
    requires decode(token) == Some(ToJson(IssueToken(user, now, ttlMinutes)))
    requires user.id in users && Security.FitsSqliteInteger(user.id)
    ensures Security.GetCurrentUser(Some(Security.Credentials("bearer", token)), decode, users) == Ok(users[user.id])
  {
    Security.LowerOfBearer();
    ParseIntOfDecimal(user.id);
  }

  /** A second login with the password just registered authenticates the same user. */
  lemma RegisteredPasswordAuthenticates(user: User, password: string, salt: seq<byte>, kdf: Security.Kdf)
    requires |salt| == Security.PASSWORD_SALT_BYTES
    requires user.passwordHash == Security.HashPassword(password, salt, kdf)
    ensures Security.VerifyPassword(password, user.passwordHash, kdf)
  {
    Security.VerifyHashRoundTrip(password, salt, kdf);
  }
}
