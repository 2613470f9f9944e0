/** Symbolic models of the two cryptographic libraries the routes call:
    bcrypt (one-way password hashing) and jsonwebtoken (signed tokens).

    Both are modelled in the Dolev-Yao style: a digest or a signature is a
    term that records what it was built from, and the only way to obtain a
    term that verifies is to build it with the right inputs. What the
    routes rely on is exactly the round trip and the rejection of
    everything else, which the lemmas below state. */
module Crypto {
  import opened Wrappers

  type UserId = nat

  // ---------------------------------------------------------------- bcrypt

  /** A bcrypt digest: random salt, cost factor and the hashed secret. */
  datatype Digest = Bcrypt(salt: nat, rounds: nat, preimage: string)

  /** The cost factor the routes pass to `bcrypt.hash`. */
  const SaltRounds: nat := 10

  /** bcrypt only ever looks at the first 72 bytes of a password. */
  const MaxPasswordBytes: nat := 72

  /** The part of a password bcrypt hashes: its first 72 characters
      (one byte each for ASCII passwords). */
  function Truncate(plain: string): (t: string)
    ensures |t| <= MaxPasswordBytes
    ensures t <= plain
    ensures |plain| <= MaxPasswordBytes ==> t == plain
  {
    if |plain| <= MaxPasswordBytes then plain else plain[..MaxPasswordBytes]
  }

  /** `bcrypt.hash(plain, 10)`; the salt is the library's randomness, so it is a parameter. */
  function Hash(plain: string, salt: nat): (d: Digest)
    ensures d.rounds == SaltRounds
  {
    Bcrypt(salt, SaltRounds, Truncate(plain))
  }

  /** `bcrypt.compare(plain, digest)`: hash the truncated password with the
      digest's salt and compare. */
  predicate PasswordOk(plain: string, digest: Digest) {
    digest.preimage == Truncate(plain)
  }

  /** A digest accepts the password it was made from, and exactly the
      passwords that agree with it on the first 72 characters. */
  lemma HashRoundTrip(plain: string, other: string, salt: nat)
    ensures PasswordOk(plain, Hash(plain, salt))
    ensures PasswordOk(other, Hash(plain, salt)) <==> Truncate(other) == Truncate(plain)
    ensures |plain| <= MaxPasswordBytes && |other| <= MaxPasswordBytes ==>
      (PasswordOk(other, Hash(plain, salt)) <==> other == plain)
  {
  }

  /** Two different passwords that share their first 72 characters are both
      accepted by the digest of either. */
  lemma LongPasswordsCollide(prefix: string, a: char, b: char, salt: nat)
    requires |prefix| == MaxPasswordBytes && a != b
    ensures prefix + [a] != prefix + [b]
    ensures PasswordOk(prefix + [b], Hash(prefix + [a], salt))
  {
    assert (prefix + [a])[..MaxPasswordBytes] == prefix;
    assert (prefix + [b])[..MaxPasswordBytes] == prefix;
    assert (prefix + [a])[MaxPasswordBytes] != (prefix + [b])[MaxPasswordBytes];
  }

  // ---------------------------------------------------------- jsonwebtoken

  /** The payload the routes sign: `{ userId: user._id }`. A verified token
      whose payload lacks `userId` decodes to `Claims(None)`. */
  datatype Claims = Claims(userId: Option<UserId>)

  /** An HMAC over the claims under a key. */
  datatype Signature = Hmac(key: string, signed: Claims)

  /** What a client may put in the `token` cookie: a structurally valid JWT
      (claims plus signature) or any other string. */
  datatype Token = Jwt(claims: Claims, sig: Signature) | Malformed(raw: string)

  /** `jwt.sign({ userId: uid }, secret)`. The library also adds the issue
      time (`iat`), which no route reads and which is not modelled. */
  function Sign(secret: string, uid: UserId): (t: Token)
    ensures t.Jwt? && t.claims.userId == Some(uid)
  {
    var c := Claims(Some(uid));
    Jwt(c, Hmac(secret, c))
  }

  /** `jwt.verify(token, secret)`: the decoded claims, or `None` where the
      library throws (malformed token, or a signature that was not made
      over these claims with this secret). */
  function Verify(secret: string, t: Token): (r: Option<Claims>)
    ensures r.Some? ==> t.Jwt? && r.value == t.claims
  {
    match t
    case Malformed(_) => None
    case Jwt(c, s) => if s == Hmac(secret, c) then Some(c) else None
  }

  /** Round trip: verifying what was signed under the same secret gives the signed id. */
  lemma SignVerify(secret: string, uid: UserId)
    ensures Verify(secret, Sign(secret, uid)) == Some(Claims(Some(uid)))
  {
  }

  /** Unforgeability: the only tokens that verify are the ones built with the secret,
      so a token carrying someone's id verifies only if it is exactly their signed token. */
  lemma VerifyOnlySigned(secret: string, t: Token, uid: UserId)
    ensures Verify(secret, t) == Some(Claims(Some(uid))) <==> t == Sign(secret, uid)
  {
  }

  /** Tampering: changing the signature of a signed token, or the id inside it,
      or verifying under another secret, makes verification fail. */
  lemma TamperedRejected(secret: string, uid: UserId, s: Signature, other: UserId, key: string)
    ensures s != Sign(secret, uid).sig ==> Verify(secret, Jwt(Claims(Some(uid)), s)) == None
    ensures other != uid ==> Verify(secret, Jwt(Claims(Some(other)), Sign(secret, uid).sig)) == None
    ensures key != secret ==> Verify(key, Sign(secret, uid)) == None
  {
  }
}
