/** Session tokens (package jwt): the claims a login issues and their
    signature under the application's secret.

    HMAC is kept symbolic: a MAC is the term naming its algorithm, key and
    signed claims, so two MACs agree exactly when all three do. A consumer
    that checks a token with some key (`Parse`) therefore accepts it only
    under the key that signed it. */
module Jwt {
  import opened Errors
  import opened Models

  datatype Alg = HS256 | HS384 | HS512

  /** The claims map {email, exp, uid, app_id}. */
  datatype Claims = Claims(email: string, exp: int, uid: int, appId: int)

  datatype Mac = Hmac(alg: Alg, key: string, claims: Claims)

  /** A signed token; `NoToken` is the empty string a failed login returns. */
  datatype Token = NoToken | Signed(alg: Alg, claims: Claims, mac: Mac)

  const NanosPerSecond := 1_000_000_000

  /** time.Time.Unix of an instant given in nanoseconds since the epoch:
      whole seconds, rounded toward negative infinity. */
  function Unix(nanos: int): int
  {
    nanos / NanosPerSecond
  }

  /** jwt.NewWithClaims(alg, claims).SignedString(key). */
  function SignedString(alg: Alg, claims: Claims, key: string): Token
  {
    Signed(alg, claims, Hmac(alg, key, claims))
  }

  /** What a consumer holding `key` reads from a token: its claims if the MAC
      checks out under that key, nothing otherwise. A token parses under a
      key exactly when it is what signing its claims under that key gives. */
  function Parse(t: Token, key: string): (r: Option<Claims>)
    ensures r.Some? <==> t.Signed? && t == SignedString(t.alg, t.claims, key)
    ensures r.Some? ==> r.value == t.claims
  {
    if t.Signed? && t.mac == Hmac(t.alg, key, t.claims) then Some(t.claims) else None
  }

  /** NewToken(user, app, duration) issued at instant `now` (nanoseconds):
      claims {email, uid, app_id, exp = Unix(now + duration)}, signed with
      HS512 under the application's secret. HMAC accepts any key, so signing
      does not fail. */
  function NewToken(user: User, app: App, duration: int, now: int): (r: Result<Token>)
    ensures r.Ok? && r.value.Signed? && r.value.alg == HS512
    ensures Parse(r.value, app.secret) == Some(Claims(user.email, Unix(now + duration), user.id, app.id))
    ensures forall key :: key != app.secret ==> Parse(r.value, key) == None
  {
    Ok(SignedString(HS512, Claims(user.email, Unix(now + duration), user.id, app.id), app.secret))
  }

  /** The expiry a token issued at `now` carries is within one second of the
      expiry computed from any instant up to one second after issuance. */
  lemma ExpWithinOneSecond(user: User, app: App, duration: int, now: int, later: int)
    requires now <= later <= now + NanosPerSecond
    ensures var exp := Parse(NewToken(user, app, duration, now).value, app.secret).value.exp;
            exp <= Unix(later + duration) <= exp + 1
  {
  }
}
