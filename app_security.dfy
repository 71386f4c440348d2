/**
 * The older copy of the password and token helpers (app/security.py). Its
 * hash format, its `hash_password` and its `get_current_user` are those of
 * `Security`; `verify_password` reads the iteration count before the salt, and
 * `create_access_token` leaves the `sub` claim as given.
 */
module AppSecurity {
  import opened Common
  import opened Text
  import Security

  /** `verify_password` of the older copy: `int(iters_s)` is evaluated before `bytes.fromhex(salt)`. */
  function VerifyPassword(password: string, hashed: string, kdf: Security.Kdf): (ok: bool)
    ensures |Split(hashed, '$')| != 4 ==> !ok
    ensures |Split(hashed, '$')| == 4 && Split(hashed, '$')[0] != Security.PASSWORD_HASH_SCHEME ==> !ok
    ensures |Split(hashed, '$')| == 4 && (ParseInt(Split(hashed, '$')[1]).None? || FromHex(Split(hashed, '$')[2]).None?) ==> !ok
    ensures ok <==> Security.StoredDigestMatches(password, hashed, kdf)
  {
    var fields := Split(hashed, '$');
    if |fields| != 4 then false
    else if fields[0] != Security.PASSWORD_HASH_SCHEME then false
    else
      match ParseInt(fields[1])
      case None => false
      case Some(iterations) =>
        match FromHex(fields[2])
        case None => false
        case Some(salt) =>
          if iterations < 1 || iterations > Security.INT_MAX then false
          else ToHex(kdf(password, salt, iterations)) == fields[3]
  }

  /** Both copies accept and refuse exactly the same stored hashes. */
  lemma VerifyAgreesWithServer(password: string, hashed: string, kdf: Security.Kdf)
    ensures VerifyPassword(password, hashed, kdf) == Security.VerifyPassword(password, hashed, kdf)
  {
    var fields := Split(hashed, '$');
    if |fields| == 4 && fields[0] == Security.PASSWORD_HASH_SCHEME {
      match ParseInt(fields[1]) {
        case None =>
        case Some(iterations) =>
          match FromHex(fields[2]) {
            case None =>
            case Some(salt) =>
          }
      }
    }
  }

  /** `verify_password(p, hash_password(p))` holds for the older copy too. */
  lemma VerifyHashRoundTrip(password: string, salt: seq<byte>, kdf: Security.Kdf)
    requires |salt| == Security.PASSWORD_SALT_BYTES
    ensures VerifyPassword(password, Security.HashPassword(password, salt, kdf), kdf)
  {
    Security.VerifyHashRoundTrip(password, salt, kdf);
    VerifyAgreesWithServer(password, Security.HashPassword(password, salt, kdf), kdf);
  }

  /** `create_access_token` of the older copy: a copy of the claims with `exp` set; `sub` is not converted. */
  function CreateAccessToken(claims: map<string, Security.Claim>, now: int, ttlMinutes: int): (r: map<string, Security.Claim>)
    ensures r.Keys == claims.Keys + {"exp"}
    ensures r["exp"] == Security.Instant(now + ttlMinutes * 60)
    ensures forall k :: k in claims && k != "exp" ==> r[k] == claims[k]
  {
    claims["exp" := Security.Instant(now + ttlMinutes * 60)]
  }

  /** When `sub` is already a string (or absent) the two copies put the same claims in the token. */
  lemma CreateAccessTokenAgreesOnStringSubject(claims: map<string, Security.Claim>, now: int, ttlMinutes: int)
    requires "sub" in claims ==> claims["sub"].Str?
    ensures CreateAccessToken(claims, now, ttlMinutes) == Security.CreateAccessToken(claims, now, ttlMinutes)
  {
  }
}
