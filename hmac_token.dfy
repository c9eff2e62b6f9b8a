/** The `Authorization: X-HMAC <timestamp>:<nonce>:<code>` header: how a
    signer formats it (`sign`) and how a receiver takes it apart and
    sanity-checks it before looking at the signed data (`get_token`). */
module HmacToken {
  import opened Common
  import opened ByteCodec
  import opened DecimalText

  /** The library calls the header relies on, which this model does not
      define: HMAC-SHA512 (`hmac.new(secret, msg, "sha512").digest()`),
      `base64.b64encode(..).decode("ascii")` and `base64.b64decode`, which
      gives None where Python raises binascii.Error. */
  datatype Crypto = Crypto(
    hmacSha512: (bytes, bytes) -> bytes,
    b64encode: bytes -> string,
    b64decode: string -> Option<bytes>)

  /** What the model assumes of those calls: a SHA-512 digest is 64 bytes,
      and decoding an encoding, with the two padding characters `get_token`
      appends, gives the bytes back. */
  ghost predicate ValidCrypto(c: Crypto) {
    && (forall secret, msg :: |c.hmacSha512(secret, msg)| == 64)
    && (forall b :: c.b64decode(c.b64encode(b) + "==") == Some(b))
  }

  /** `TokenInfoUnauthorized`, `TokenInfoForbidden`, `TokenInfoFound`. */
  datatype TokenInfo =
    | Unauthorized
    | Forbidden
    | Found(timestamp: int, nonce: string, hmac: bytes)

  const HMAC_PREFIX: string := "X-HMAC "

  /** The integers Python converts to a float without OverflowError, which
      `now - timestamp` does when `now` is a float: those that round to a
      finite double, below `2^1024 - 2^970` in magnitude. The whole part of
      a finite float is always one of them. */
  predicate FloatConvertible(x: int) {
    Abs(x) < Pow2(FLOAT_MAX_EXPONENT) - Pow2(FLOAT_MAX_EXPONENT - 54)
  }

  /** One past the largest binary exponent of a finite double. */
  const FLOAT_MAX_EXPONENT: nat := 1024

  /** Every integer below `2^1023` in magnitude converts to a float. */
  lemma FloatConvertibleBelow(x: int, k: nat)
    requires k <= 1023 && Abs(x) < Pow2(k)
    ensures FloatConvertible(x)
  {
    Pow2Monotone(k, 1023);
    Pow2Monotone(970, 1023);
  }

  /** `i = s.find(":")` followed by `s[:i]` and `s[i + 1:]`: the text before
      and after the first colon, or None when `find` gives -1. */
  function ColonIndex(s: string): (i: nat)
    ensures i <= |s|
    ensures i < |s| ==> s[i] == ':'
    ensures forall k :: 0 <= k < i ==> s[k] != ':'
  {
    if s == [] || s[0] == ':' then 0 else 1 + ColonIndex(s[1..])
  }

  function SplitAtColon(s: string): (r: Option<(string, string)>)
    ensures r == None <==> ':' !in s
    ensures r.Some? ==> s == r.value.0 + ":" + r.value.1 && ':' !in r.value.0
  {
    var i := ColonIndex(s);
    if i == |s| then None
    else
      assert s == s[..i] + ":" + s[i + 1..];
      Some((s[..i], s[i + 1..]))
  }

  /** `get_token(authorization, now=now, token_lifetime=token_lifetime)`,
      with the clock and the lifetime in whole seconds; Err(OverflowError)
      when the timestamp is too large to subtract from a float clock. */
  function GetToken(c: Crypto, authorization: Option<string>, now: int, tokenLifetime: int): (r: Result<TokenInfo>)
    ensures r.Err? ==> r.error == OverflowError
    ensures r == Ok(Unauthorized) <==> authorization == None
    ensures r.Ok? && r.value.Found? ==>
      && |r.value.hmac| == 64 && ':' !in r.value.nonce
      && FloatConvertible(r.value.timestamp) && Abs(now - r.value.timestamp) <= tokenLifetime
  {
    match authorization
    case None => Ok(Unauthorized)
    case Some(header) =>
      if !(HMAC_PREFIX <= header) then Ok(Forbidden)
      else
        match SplitAtColon(header[|HMAC_PREFIX|..])
        case None => Ok(Forbidden)
        case Some((timestampText, nonceAndToken)) =>
          match ParseInt(timestampText)
          case None => Ok(Forbidden)
          case Some(timestamp) =>
            if !FloatConvertible(timestamp) then Err(OverflowError)
            else if Abs(now - timestamp) > tokenLifetime then Ok(Forbidden)
            else Ok(TokenAfterTimestamp(c, timestamp, nonceAndToken))
  }

  /** The rest of `get_token` once the timestamp is accepted: the nonce is
      the text up to the next colon, and the code is what follows, decoded
      to 64 bytes. */
  function TokenAfterTimestamp(c: Crypto, timestamp: int, nonceAndToken: string): (r: TokenInfo)
    ensures r != Unauthorized
    ensures r.Found? ==> r.timestamp == timestamp && |r.hmac| == 64 && ':' !in r.nonce
  {
    match SplitAtColon(nonceAndToken)
    case None => Forbidden
    case Some((nonce, token)) =>
      match c.b64decode(token + "==")
      case None => Forbidden
      case Some(code) =>
        if |code| != 64 then Forbidden else Found(timestamp, nonce, code)
  }

  /** `sign(secret=secret, to_sign=toSign, nonce=nonce, now=now)`. */
  function Sign(c: Crypto, secret: bytes, toSign: bytes, nonce: string, now: int): (r: string)
    ensures HMAC_PREFIX <= r
  {
    HMAC_PREFIX + ShowInt(now) + ":" + nonce + ":" + c.b64encode(c.hmacSha512(secret, toSign))
  }

  /** A header of the form `X-HMAC <t>:<nonce>:<code>` is accepted with
      exactly those parts whenever `t` is an integer a float clock can take
      and within the lifetime of `now`, neither `t` nor the nonce holds a
      colon, and the code decodes to 64 bytes. */
  lemma GetTokenAccepts(c: Crypto, timestampText: string, nonce: string, codeText: string,
                        timestamp: int, now: int, tokenLifetime: int, code: bytes)
    requires ':' !in timestampText && ':' !in nonce
    requires ParseInt(timestampText) == Some(timestamp)
    requires FloatConvertible(timestamp) && Abs(now - timestamp) <= tokenLifetime
    requires c.b64decode(codeText + "==") == Some(code) && |code| == 64
    ensures GetToken(c, Some(HMAC_PREFIX + timestampText + ":" + nonce + ":" + codeText), now, tokenLifetime)
         == Ok(Found(timestamp, nonce, code))
  {
    HeaderRest(timestampText, nonce, codeText);
    SplitAtColonOf(timestampText, nonce + ":" + codeText);
    assert TokenAfterTimestamp(c, timestamp, nonce + ":" + codeText) == Found(timestamp, nonce, code) by {
      SplitAtColonOf(nonce, codeText);
    }
  }

  /** Whatever follows it, an integer timestamp too large for a float makes
      `get_token` raise OverflowError rather than refuse the header. */
  lemma GetTokenOverflows(c: Crypto, timestampText: string, rest: string,
                          timestamp: int, now: int, tokenLifetime: int)
    requires ':' !in timestampText
    requires ParseInt(timestampText) == Some(timestamp) && !FloatConvertible(timestamp)
    ensures GetToken(c, Some(HMAC_PREFIX + timestampText + ":" + rest), now, tokenLifetime) == Err(OverflowError)
  {
    var header := HMAC_PREFIX + timestampText + ":" + rest;
    assert header == HMAC_PREFIX + (timestampText + ":" + rest);
    SplitAtColonOf(timestampText, rest);
  }

  /** What `get_token` has found in a header it accepts, stage by stage. */
  lemma GetTokenFoundStages(c: Crypto, header: string, now: int, tokenLifetime: int)
    requires GetToken(c, Some(header), now, tokenLifetime).Ok?
    requires GetToken(c, Some(header), now, tokenLifetime).value.Found?
    ensures HMAC_PREFIX <= header
    ensures var r := GetToken(c, Some(header), now, tokenLifetime).value;
      var first := SplitAtColon(header[|HMAC_PREFIX|..]);
      && first.Some?
      && ParseInt(first.value.0) == Some(r.timestamp)
      && var second := SplitAtColon(first.value.1);
      && second.Some?
      && second.value.0 == r.nonce
      && c.b64decode(second.value.1 + "==") == Some(r.hmac)
  {
  }

  /** Conversely, every accepted header has that form: the timestamp is the
      text up to the first colon, the nonce the text between the first and
      the second colon, and the code the decoding of the rest. */
  lemma GetTokenFoundShape(c: Crypto, header: string, now: int, tokenLifetime: int)
    returns (timestampText: string, codeText: string)
    requires GetToken(c, Some(header), now, tokenLifetime).Ok?
    requires GetToken(c, Some(header), now, tokenLifetime).value.Found?
    ensures var r := GetToken(c, Some(header), now, tokenLifetime).value;
      && header == HMAC_PREFIX + timestampText + ":" + r.nonce + ":" + codeText
      && ':' !in timestampText && ':' !in r.nonce
      && ParseInt(timestampText) == Some(r.timestamp)
      && FloatConvertible(r.timestamp) && Abs(now - r.timestamp) <= tokenLifetime
      && c.b64decode(codeText + "==") == Some(r.hmac) && |r.hmac| == 64
  {
    GetTokenFoundStages(c, header, now, tokenLifetime);
    var rest := header[|HMAC_PREFIX|..];
    var (t, nonceAndToken) := SplitAtColon(rest).value;
    var (n, code) := SplitAtColon(nonceAndToken).value;
    timestampText, codeText := t, code;
    HeaderParts(header, t, n, code);
  }

  /** A header that is the prefix followed by `t:n:code` reads as one string. */
  lemma HeaderParts(header: string, t: string, n: string, code: string)
    requires HMAC_PREFIX <= header
    requires header[|HMAC_PREFIX|..] == t + ":" + (n + ":" + code)
    ensures header == HMAC_PREFIX + t + ":" + n + ":" + code
  {
    assert header == HMAC_PREFIX + header[|HMAC_PREFIX|..];
  }

  /** What follows the prefix of `X-HMAC t:n:code` is `t:n:code`. */
  lemma HeaderRest(t: string, n: string, code: string)
    ensures var header := HMAC_PREFIX + t + ":" + n + ":" + code;
      HMAC_PREFIX <= header && header[|HMAC_PREFIX|..] == t + ":" + (n + ":" + code)
  {
    var header := HMAC_PREFIX + t + ":" + n + ":" + code;
    assert header == HMAC_PREFIX + (t + ":" + (n + ":" + code));
  }

  /** The split at the first colon of `a + ":" + b` is `a` and `b` when `a`
      holds no colon. */
  lemma SplitAtColonOf(a: string, b: string)
    requires ':' !in a
    ensures SplitAtColon(a + ":" + b) == Some((a, b))
  {
    var s := a + ":" + b;
    assert s[|a|] == ':';
    var (a', b') := SplitAtColon(s).value;
    SplitAtFirstColon(s, a, b, a', b');
  }

  /** A string splits at its first colon in only one way. */
  lemma SplitAtFirstColon(s: string, a: string, b: string, a': string, b': string)
    requires s == a + ":" + b && s == a' + ":" + b'
    requires ':' !in a && ':' !in a'
    ensures a == a' && b == b'
  {
    assert s[|a|] == ':' && s[|a'|] == ':';
    assert s[..|a|] == a && s[..|a'|] == a';
    assert b == s[|a| + 1..];
  }

  /** What `get_token` finds in a header does not depend on the clock, only
      whether it accepts the header does. */
  lemma GetTokenAtTwoClocks(c: Crypto, header: string, now1: int, now2: int, tokenLifetime: int)
    requires GetToken(c, Some(header), now1, tokenLifetime).Ok?
    requires GetToken(c, Some(header), now1, tokenLifetime).value.Found?
    requires GetToken(c, Some(header), now2, tokenLifetime).Ok?
    requires GetToken(c, Some(header), now2, tokenLifetime).value.Found?
    ensures GetToken(c, Some(header), now1, tokenLifetime) == GetToken(c, Some(header), now2, tokenLifetime)
  {
  }

  /** The timestamp a float clock writes reads back. */
  lemma ParseFloatTimestamp(now: int)
    requires FloatConvertible(now)
    ensures ParseInt(ShowInt(now)) == Some(now)
  {
    ParseShowIntBelow(now, 1024);
  }

  /** Round trip: what `sign` writes at time `now` (the whole part of a float
      clock), `get_token` accepts at the same time for any lifetime, giving
      back that time, the nonce and the 64-byte HMAC of the signed data. */
  lemma SignThenGetToken(c: Crypto, secret: bytes, toSign: bytes, nonce: string, now: int, tokenLifetime: int)
    requires ValidCrypto(c)
    requires ':' !in nonce
    requires FloatConvertible(now) && tokenLifetime >= 0
    ensures GetToken(c, Some(Sign(c, secret, toSign, nonce, now)), now, tokenLifetime)
         == Ok(Found(now, nonce, c.hmacSha512(secret, toSign)))
  {
    SignThenGetTokenLater(c, secret, toSign, nonce, now, now, tokenLifetime);
  }

  /** The same at any clock within the token lifetime of the signing time. */
  lemma SignThenGetTokenLater(c: Crypto, secret: bytes, toSign: bytes, nonce: string,
                              now: int, later: int, tokenLifetime: int)
    requires ValidCrypto(c)
    requires ':' !in nonce
    requires FloatConvertible(now) && Abs(later - now) <= tokenLifetime
    ensures GetToken(c, Some(Sign(c, secret, toSign, nonce, now)), later, tokenLifetime)
         == Ok(Found(now, nonce, c.hmacSha512(secret, toSign)))
  {
    var digest := c.hmacSha512(secret, toSign);
    ParseFloatTimestamp(now);
    assert c.b64decode(c.b64encode(digest) + "==") == Some(digest);
    GetTokenAccepts(c, ShowInt(now), nonce, c.b64encode(digest), now, later, tokenLifetime, digest);
  }
}
