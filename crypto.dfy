/** The two foreign cryptographic libraries the program relies on, bcrypt and
    PyJWT, as abstract operations together with the laws the program needs of
    them. Nothing here models how they compute; a caller states the laws it
    relies on with `requires Sound(..)`. */
module Crypto {
  import opened Wrappers

  /** bcrypt: `hash(password, salt)` is `bcrypt.hashpw` with the salt that
      `bcrypt.gensalt()` drew for that call, `check` is `bcrypt.checkpw`. */
  datatype Hasher = Hasher(hash: (string, string) -> string, check: (string, string) -> bool)

  /** A password always verifies against a hash made from it, whatever the salt. */
  ghost predicate HasherSound(h: Hasher)
  {
    forall password, salt :: h.check(password, h.hash(password, salt))
  }

  /** The claims this program puts in a token: the user and the expiry time in seconds. */
  datatype Claims = Claims(user: string, exp: int)

  /** PyJWT with HS256 and the program's secret key: `encode` signs a payload,
      `decode` checks the signature and returns the payload, or `None` for a
      token that is malformed or was not signed with the key. */
  datatype TokenCodec = TokenCodec(encode: Claims -> string, decode: string -> Option<Claims>)

  /** Decoding gives back what was signed, and a signed token is never the empty string. */
  ghost predicate CodecSound(codec: TokenCodec)
  {
    && (forall c :: codec.decode(codec.encode(c)) == Some(c))
    && (forall c :: codec.encode(c) != "")
  }

  /** The three ways `jwt.decode` ends: the payload, `ExpiredSignatureError`
      or `InvalidTokenError`. */
  datatype Decoded = Verified(claims: Claims) | ExpiredSignature | InvalidToken

  /** `jwt.decode(token, key)` at time `now`: the signature is checked first,
      then the expiry; a token whose `exp` is not after `now` has expired. */
  function Decode(codec: TokenCodec, token: string, now: int): (r: Decoded)
    ensures r.Verified? <==> codec.decode(token).Some? && now < codec.decode(token).value.exp
    ensures r.Verified? ==> codec.decode(token) == Some(r.claims)
    ensures r == InvalidToken <==> codec.decode(token).None?
  {
    match codec.decode(token)
    case None => InvalidToken
    case Some(c) => if c.exp <= now then ExpiredSignature else Verified(c)
  }

  /** A signed token decodes to what was signed until its expiry, and is
      reported expired from then on. */
  lemma DecodeSigned(codec: TokenCodec, c: Claims, now: int)
    requires CodecSound(codec)
    ensures Decode(codec, codec.encode(c), now) == if now < c.exp then Verified(c) else ExpiredSignature
  {
  }
}
