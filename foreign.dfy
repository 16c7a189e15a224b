/** The foreign primitives the handlers call, kept abstract: bcrypt, the signed-token
    library and the claims it carries. Verification itself is a parameter of each handler
    (a function from token text to `Verdict`), so no property here depends on how a
    signature is checked. */
module Foreign {
  import opened Common
  import opened Text

  /** A bcrypt digest. The model keeps only what `bcrypt.compare` can observe of it: the
      password it was made from (salt and cost are invisible to the handlers). */
  datatype Digest = Bcrypt(preimage: string)

  /** bcrypt keys its cipher with at most this many bytes of the password. */
  const BcryptKeyBytes: nat := 72

  /** The part of a password bcrypt reads: the first 72 bytes of its UTF-8 encoding. */
  function BcryptKey(password: string): (k: seq<nat>)
    ensures |k| <= BcryptKeyBytes && |k| <= |Utf8(password)| && k == Utf8(password)[..|k|]
    ensures |Utf8(password)| <= BcryptKeyBytes ==> k == Utf8(password)
  {
    var b := Utf8(password);
    if |b| <= BcryptKeyBytes then b else b[..BcryptKeyBytes]
  }

  /** `bcrypt.hash(password, salt)`. */
  function Hash(password: string): Digest {
    Bcrypt(password)
  }

  /** `bcrypt.compare(candidate, digest)`: the candidate matches when bcrypt reads the same
      key from it as from the hashed password. */
  predicate Compare(candidate: string, digest: Digest) {
    BcryptKey(candidate) == BcryptKey(digest.preimage)
  }

  /** A password always matches its own digest. */
  lemma CompareOwnDigest(password: string)
    ensures Compare(password, Hash(password))
  {
  }

  /** For ASCII passwords of at most 72 characters bcrypt reads the whole password, so a
      candidate matches exactly when it is the hashed password. */
  lemma CompareShortAsciiExact(candidate: string, password: string)
    requires IsAscii(candidate) && IsAscii(password)
    requires |candidate| <= BcryptKeyBytes && |password| <= BcryptKeyBytes
    ensures Compare(candidate, Hash(password)) <==> candidate == password
  {
    AsciiUtf8(candidate);
    AsciiUtf8(password);
    if Compare(candidate, Hash(password)) {
      AsciiUtf8Injective(candidate, password);
    }
  }

  /** Whatever follows the first 72 bytes of a password is ignored: appending anything to
      such a password still matches its digest. */
  lemma LongPasswordIgnoresTail(password: string, tail: string)
    requires |Utf8(password)| >= BcryptKeyBytes
    ensures Compare(password + tail, Hash(password))
  {
    Utf8Append(password, tail);
    assert Utf8(password + tail)[..BcryptKeyBytes] == Utf8(password)[..BcryptKeyBytes];
  }

  /** The decoded body of a signed token. Only the keys the handlers read are kept:
      `user_id`, `role`, and the `user` key under which the refresh exchange nests the
      claims of the refresh token. */
  datatype Claims = Claims(user_id: Option<string>, role: Option<string>, user: Option<Claims>)

  /** What `jwt.verify` returns when it does not throw: a falsy value or an object. */
  datatype Payload = Falsy | Object(claims: Claims)

  /** The outcome of `jwt.verify(token, secret)`: a payload, or one of the two errors it
      throws (`TokenExpiredError`, any other `JsonWebTokenError`). */
  datatype Verdict = Verified(payload: Payload) | Expired | Invalid

  /** The three signing secrets. */
  datatype Secret = ActivationSecret | AccessSecret | RefreshSecret

  /** A token `createJWT(payload, secret, ttl)` mints. */
  datatype Token = Token(payload: Claims, secret: Secret, ttl: string)

  /** The claims of an access token minted at login: exactly `user_id` and `role`. */
  function LoginClaims(user_id: string, role: string): Claims {
    Claims(Some(user_id), Some(role), None)
  }

  /** The payload of an access token minted by the refresh exchange: `{ user: decoded }`. */
  function RefreshedClaims(decoded: Claims): Claims {
    Claims(None, None, Some(decoded))
  }

  /** `req.user.user ? req.user.user : req.user`: the identity every content handler acts for. */
  function Requester(claims: Claims): (r: Claims)
    ensures claims.user.Some? ==> r == claims.user.value
    ensures claims.user.None? ==> r == claims
  {
    if claims.user.Some? then claims.user.value else claims
  }

  /** Both kinds of access token resolve to the claims of the login that started the session. */
  lemma RequesterOfEitherToken(user_id: string, role: string)
    ensures Requester(LoginClaims(user_id, role)) == LoginClaims(user_id, role)
    ensures Requester(RefreshedClaims(LoginClaims(user_id, role))) == LoginClaims(user_id, role)
    ensures Requester(LoginClaims(user_id, role)).user_id == Some(user_id)
  {
  }
}
