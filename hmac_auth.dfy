/** HMAC authorization of requests (`auth/helpers/hmac_auth_config.py`):
    the store of recently used codes, the wrapper that makes its setup and
    teardown reentrant, `check_code`, the `is_*_allowed` decisions and the
    `authorize_*` signers of `ToBroadcasterHmacAuth` and
    `ToSubscriberHmacAuth`. */
module HmacAuth {
  import opened Common
  import opened ByteCodec
  import opened HmacToken
  import opened HmacPreimages
  import opened DecimalText

  /** `Literal["conflict", "ok"]` of `mark_code_used`. */
  datatype MarkResult = MarkOk | MarkConflict

  /** What `check_code` and the `is_*_allowed` methods answer: "ok",
      "unauthorized" or "forbidden" (the HMAC configuration never answers
      "unavailable"). */
  datatype AuthResult = AuthOk | AuthUnauthorized | AuthForbidden

  /** The default `token_lifetime` of `IncomingHmacAuthSqliteDBConfig`: how
      long a recorded code is kept. */
  const DEFAULT_STORE_LIFETIME: int := 180

  /** The default `cleanup_batch_delay` of `IncomingHmacAuthSqliteDBConfig`,
      in whole seconds: the cleanup task woken by a new code sleeps the
      store lifetime plus this delay before it sweeps. */
  const DEFAULT_CLEANUP_BATCH_DELAY: int := 10

  /** The default `token_lifetime` of `ToBroadcasterHmacAuth` and
      `ToSubscriberHmacAuth`: how far from now a token's timestamp may lie. */
  const DEFAULT_TOKEN_LIFETIME: int := 120

  /** The `INSERT .. WHERE NOT EXISTS` of `mark_code_used`: a new code is
      recorded with its expiry; a code already present keeps its own. */
  function Recorded(codes: map<bytes, int>, code: bytes, expiresAt: int): (r: map<bytes, int>)
    ensures r.Keys == codes.Keys + {code}
    ensures r[code] == (if code in codes then codes[code] else expiresAt)
    ensures forall k :: k in codes ==> r[k] == codes[k]
  {
    if code in codes then codes else codes[code := expiresAt]
  }

  /** One sweep of `_cleanup_codes` at `clock`, the current time rounded
      down: `DELETE .. WHERE expires_at < clock`. */
  function Swept(codes: map<bytes, int>, clock: int): (r: map<bytes, int>)
    ensures forall k :: k in r <==> k in codes && codes[k] >= clock
    ensures forall k :: k in r ==> r[k] == codes[k]
  {
    map k | k in codes && codes[k] >= clock :: codes[k]
  }

  /** The database names sqlite does not keep after the connection closes:
      `":memory:"` and the empty name. Any other name is a file. */
  predicate IsTransient(database: string) {
    database == ":memory:" || database == ""
  }

  /** `IncomingHmacAuthSqliteDBConfig` seen as its table of recorded codes,
      each with the time it expires. `entered` is whether setup has run
      without a teardown since; `setups` and `teardowns` count the runs of
      each. A transient database lives only as long as its connection:
      sqlite's in-memory database `":memory:"` and its private temporary
      database `""`, which is deleted when the connection closes. */
  class RecentCodesDb {
    const transient: bool
    const lifetime: int
    var entered: bool
    var codes: map<bytes, int>
    ghost var setups: nat
    ghost var teardowns: nat

    /** `stored` is what the database file already holds: the table is
        created only if it does not exist, so codes of an earlier run stay.
        A transient database starts empty. */
    constructor(database: string, tokenLifetime: int, stored: map<bytes, int>)
      ensures transient == IsTransient(database) && lifetime == tokenLifetime
      ensures codes == (if transient then map[] else stored)
      ensures !entered && setups == 0 && teardowns == 0
    {
      transient := IsTransient(database);
      lifetime := tokenLifetime;
      entered := false;
      codes := if IsTransient(database) then map[] else stored;
      setups := 0;
      teardowns := 0;
    }

    /** `setup_hmac_auth_db`: not reentrant, it asserts it was not
        entered already. */
    method Setup() returns (r: Result<()>)
      modifies this
      ensures old(entered) ==> r == Err(AssertionError) && setups == old(setups)
      ensures !old(entered) ==> r == Ok(()) && setups == old(setups) + 1
      ensures entered && codes == old(codes) && teardowns == old(teardowns)
    {
      if entered {
        return Err(AssertionError);
      }
      entered := true;
      setups := setups + 1;
      return Ok(());
    }

    /** `teardown_hmac_auth_db`: closing the connection keeps the codes of
        a database file and loses those of a transient one. */
    method Teardown()
      modifies this
      ensures !entered && codes == (if transient then map[] else old(codes))
      ensures setups == old(setups) && teardowns == old(teardowns) + 1
    {
      entered := false;
      if transient {
        codes := map[];
      }
      teardowns := teardowns + 1;
    }

    /** `mark_code_used(code=code)` at `clock`, the current time rounded up:
        asserts the store is entered; then the code is recorded to expire
        `lifetime` seconds later, and "conflict" when it already was. */
    method MarkCodeUsed(code: bytes, clock: int) returns (r: Result<MarkResult>)
      modifies this
      ensures !old(entered) ==> r == Err(AssertionError) && codes == old(codes)
      ensures old(entered) ==>
        && r == Ok(if code in old(codes) then MarkConflict else MarkOk)
        && codes == Recorded(old(codes), code, clock + lifetime)
      ensures entered == old(entered) && setups == old(setups) && teardowns == old(teardowns)
    {
      if !entered {
        return Err(AssertionError);
      }
      r := Ok(if code in codes then MarkConflict else MarkOk);
      codes := Recorded(codes, code, clock + lifetime);
    }

    /** One pass of `_cleanup_codes` at `clock`, the current time rounded
        down: asserts the store is entered, then deletes the expired codes. */
    method CleanupExpired(clock: int) returns (r: Result<()>)
      modifies this
      ensures !old(entered) ==> r == Err(AssertionError) && codes == old(codes)
      ensures old(entered) ==> r == Ok(()) && codes == Swept(old(codes), clock)
      ensures entered == old(entered) && setups == old(setups) && teardowns == old(teardowns)
    {
      if !entered {
        return Err(AssertionError);
      }
      codes := Swept(codes, clock);
      return Ok(());
    }
  }

  /** `IncomingHmacAuthDBReentrantConfig`: forwards only the outermost setup
      and teardown to its delegate. */
  class ReentrantDb {
    const delegate: RecentCodesDb
    var depth: nat

    /** The delegate is set up while the depth is positive. */
    ghost predicate Valid()
      reads this, delegate
    {
      depth > 0 ==> delegate.entered
    }

    /** Any delegate is accepted, whether set up already or not. */
    constructor(d: RecentCodesDb)
      ensures delegate == d && depth == 0 && Valid()
    {
      delegate := d;
      depth := 0;
    }

    /** `setup_hmac_auth_db`: the delegate's setup runs only on the way
        from depth 0 to 1, and the depth goes up only if it succeeds; it
        fails its assertion when the delegate was set up elsewhere. */
    method Setup() returns (r: Result<()>)
      requires Valid()
      modifies this, delegate
      ensures Valid() && delegate.entered
      ensures old(depth) == 0 && old(delegate.entered) ==> r == Err(AssertionError) && depth == 0
      ensures !(old(depth) == 0 && old(delegate.entered)) ==> r == Ok(()) && depth == old(depth) + 1
      ensures delegate.setups == old(delegate.setups) + (if old(depth) == 0 && !old(delegate.entered) then 1 else 0)
      ensures delegate.teardowns == old(delegate.teardowns) && delegate.codes == old(delegate.codes)
    {
      if depth == 0 {
        r := delegate.Setup();
        if r.Err? {
          return;
        }
      } else {
        r := Ok(());
      }
      depth := depth + 1;
    }

    /** `teardown_hmac_auth_db`: nothing happens at depth 0; otherwise the
        depth goes down and the delegate's teardown runs only on the way
        from 1 to 0. */
    method Teardown()
      requires Valid()
      modifies this, delegate
      ensures Valid()
      ensures depth == (if old(depth) == 0 then 0 else old(depth) - 1)
      ensures delegate.teardowns == old(delegate.teardowns) + (if old(depth) == 1 then 1 else 0)
      ensures delegate.setups == old(delegate.setups)
      ensures delegate.entered == (if old(depth) == 1 then false else old(delegate.entered))
      ensures delegate.codes == (if old(depth) == 1 && delegate.transient then map[] else old(delegate.codes))
    {
      if depth <= 0 {
        return;
      }
      depth := depth - 1;
      if depth == 0 {
        delegate.Teardown();
      }
    }

    /** `mark_code_used`: forwarded, so it fails its assertion when the
        delegate is not set up, which never happens at a positive depth. */
    method MarkCodeUsed(code: bytes, clock: int) returns (r: Result<MarkResult>)
      requires Valid()
      modifies delegate
      ensures Valid()
      ensures depth > 0 ==> r.Ok?
      ensures !old(delegate.entered) ==> r == Err(AssertionError) && delegate.codes == old(delegate.codes)
      ensures old(delegate.entered) ==>
        && r == Ok(if code in old(delegate.codes) then MarkConflict else MarkOk)
        && delegate.codes == Recorded(old(delegate.codes), code, clock + delegate.lifetime)
    {
      r := delegate.MarkCodeUsed(code, clock);
    }
  }

  // ---------------------------------------------------------------------
  // check_code and the is_*_allowed decisions
  // ---------------------------------------------------------------------

  /** What `check_code` answers when `used` holds the recorded codes. */
  function CheckDecision(c: Crypto, secret: bytes, toSign: bytes, code: bytes, used: set<bytes>): (r: AuthResult)
    ensures r == AuthOk <==> code == c.hmacSha512(secret, toSign) && code !in used
    ensures r != AuthUnauthorized
  {
    if code != c.hmacSha512(secret, toSign) then AuthForbidden
    else if code in used then AuthForbidden
    else AuthOk
  }

  /** `check_code(secret=.., to_sign=.., code=.., db=db)`, with the store's
      clock at `clock`: a code that is not the HMAC of the data is refused
      without touching the store; a matching one is recorded, and refused
      if it already was. Marking fails its assertion when the store is not
      entered. */
  method CheckCode(c: Crypto, secret: bytes, toSign: bytes, code: bytes, db: RecentCodesDb, clock: int)
    returns (r: Result<AuthResult>)
    modifies db
    ensures var matches := code == c.hmacSha512(secret, toSign);
      r == (if matches && !old(db.entered) then Err(AssertionError)
            else Ok(CheckDecision(c, secret, toSign, code, old(db.codes).Keys)))
    ensures db.codes == if code == c.hmacSha512(secret, toSign) && old(db.entered)
                        then Recorded(old(db.codes), code, clock + db.lifetime) else old(db.codes)
    ensures db.entered == old(db.entered) && db.setups == old(db.setups) && db.teardowns == old(db.teardowns)
  {
    var expected := c.hmacSha512(secret, toSign);
    if code != expected {
      return Ok(AuthForbidden);
    }
    var marked :- db.MarkCodeUsed(code, clock);
    if marked == MarkConflict {
      return Ok(AuthForbidden);
    }
    return Ok(AuthOk);
  }

  /** `is_notify_allowed` and `is_receive_allowed` assert a 64-byte
      message digest before anything else. */
  predicate DigestAsserted(req: SignedRequest) {
    (req.NotifyRequest? || req.ReceiveRequest?) ==> |req.messageSha512| == 64
  }

  /** Where an `is_*_allowed` method stands before `check_code`: it has
      already answered, or it has the data to check and the token's code. */
  datatype Stage = Answered(answer: AuthResult) | ToCheck(toSign: bytes, code: bytes)

  /** The steps of the `is_*_allowed` method for the request's kind that do
      not touch the store: the token is taken from the header; a missing
      header is "unauthorized", a rejected one "forbidden"; otherwise the
      preimage is rebuilt from the request with the token's timestamp and
      nonce. */
  function Staged(c: Crypto, tokenLifetime: int, req: SignedRequest, now: int,
                  authorization: Option<string>): (r: Result<Stage>)
    ensures r.Ok? && r.value.ToCheck? ==> |r.value.code| == 64
    ensures r.Ok? && r.value.Answered? ==> r.value.answer != AuthOk
  {
    if !DigestAsserted(req) then Err(AssertionError)
    else
      var token :- GetToken(c, authorization, now, tokenLifetime);
      match token
      case Unauthorized => Ok(Answered(AuthUnauthorized))
      case Forbidden => Ok(Answered(AuthForbidden))
      case Found(timestamp, nonce, code) =>
        var toSign :- Preimage(req, timestamp, nonce);
        Ok(ToCheck(toSign, code))
  }

  /** What the `is_*_allowed` method for the request's kind answers, when
      the store is entered and `used` holds the recorded codes:
      `check_code` decides once the token is found and the preimage
      rebuilt. */
  function Decision(c: Crypto, secret: bytes, tokenLifetime: int, used: set<bytes>,
                    req: SignedRequest, now: int, authorization: Option<string>): Result<AuthResult>
  {
    var stage :- Staged(c, tokenLifetime, req, now, authorization);
    match stage
    case Answered(answer) => Ok(answer)
    case ToCheck(toSign, code) => Ok(CheckDecision(c, secret, toSign, code, used))
  }

  /** The code `check_code` passes to `mark_code_used` in that check: the
      token's code, when it is the HMAC of the rebuilt preimage. */
  function MarkedCode(c: Crypto, secret: bytes, tokenLifetime: int,
                      req: SignedRequest, now: int, authorization: Option<string>): (m: Option<bytes>)
    ensures m.Some? ==> |m.value| == 64
  {
    match Staged(c, tokenLifetime, req, now, authorization)
    case Ok(ToCheck(toSign, code)) => if code == c.hmacSha512(secret, toSign) then Some(code) else None
    case _ => None
  }

  /** The recorded codes after that check on an entered store. */
  function UsedAfter(c: Crypto, secret: bytes, tokenLifetime: int, used: set<bytes>,
                     req: SignedRequest, now: int, authorization: Option<string>): set<bytes>
  {
    match MarkedCode(c, secret, tokenLifetime, req, now, authorization)
    case Some(code) => used + {code}
    case None => used
  }

  /** The recorded codes, with their expiries, after that check on an
      entered store, the code expiring at `expiresAt` if it is new. */
  function CodesAfter(c: Crypto, secret: bytes, tokenLifetime: int, codes: map<bytes, int>,
                      req: SignedRequest, now: int, authorization: Option<string>, expiresAt: int): (r: map<bytes, int>)
    ensures r.Keys == UsedAfter(c, secret, tokenLifetime, codes.Keys, req, now, authorization)
  {
    match MarkedCode(c, secret, tokenLifetime, req, now, authorization)
    case Some(code) => Recorded(codes, code, expiresAt)
    case None => codes
  }

  /** `is_subscribe_exact_allowed`, `is_subscribe_glob_allowed`,
      `is_notify_allowed`, `is_stateful_configure_allowed`,
      `is_check_subscriptions_allowed`, `is_set_subscriptions_allowed`,
      `is_receive_allowed`, `is_missed_allowed` and
      `is_stateful_confirm_configure_allowed`, by the kind of request, with
      the store marking at `markClock`. On a store that is not entered, it
      is the marking of a code that fails. */
  method IsAllowed(c: Crypto, secret: bytes, tokenLifetime: int, db: RecentCodesDb,
                   req: SignedRequest, now: int, markClock: int, authorization: Option<string>)
    returns (r: Result<AuthResult>)
    modifies db
    ensures r == if !old(db.entered) && MarkedCode(c, secret, tokenLifetime, req, now, authorization).Some?
                 then Err(AssertionError)
                 else Decision(c, secret, tokenLifetime, old(db.codes).Keys, req, now, authorization)
    ensures db.codes == if old(db.entered)
                        then CodesAfter(c, secret, tokenLifetime, old(db.codes), req, now, authorization, markClock + db.lifetime)
                        else old(db.codes)
    ensures db.entered == old(db.entered) && db.setups == old(db.setups) && db.teardowns == old(db.teardowns)
  {
    StagedDecides(c, secret, tokenLifetime, db.codes.Keys, req, now, authorization);
    var stage :- Staged(c, tokenLifetime, req, now, authorization);
    match stage {
      case Answered(answer) =>
        return Ok(answer);
      case ToCheck(toSign, code) =>
        r := CheckCode(c, secret, toSign, code, db, markClock);
    }
  }

  /** The answer and the marked code of a check, from where it stands
      before `check_code`. */
  lemma StagedDecides(c: Crypto, secret: bytes, tokenLifetime: int, used: set<bytes>,
                      req: SignedRequest, now: int, authorization: Option<string>)
    ensures var stage := Staged(c, tokenLifetime, req, now, authorization);
      var decision := Decision(c, secret, tokenLifetime, used, req, now, authorization);
      var marked := MarkedCode(c, secret, tokenLifetime, req, now, authorization);
      && (stage.Err? ==> decision == Err(stage.error) && marked == None)
      && (stage.Ok? && stage.value.Answered? ==> decision == Ok(stage.value.answer) && marked == None)
      && (stage.Ok? && stage.value.ToCheck? ==>
            && decision == Ok(CheckDecision(c, secret, stage.value.toSign, stage.value.code, used))
            && marked == if stage.value.code == c.hmacSha512(secret, stage.value.toSign) then Some(stage.value.code) else None)
  {
  }

  // ---------------------------------------------------------------------
  // Signing
  // ---------------------------------------------------------------------

  /** `authorize_*(.., now=now)` with `make_nonce()` giving `nonce`: the
      preimage of the request at time `now`, signed at time `now`. */
  function Authorize(c: Crypto, secret: bytes, req: SignedRequest, now: int, nonce: string): (r: Result<string>)
    ensures r.Ok? ==> Preimage(req, now, nonce).Ok? && HMAC_PREFIX <= r.value
    ensures r.Err? ==> r.error in {OverflowError, AssertionError}
  {
    var toSign :- Preimage(req, now, nonce);
    Ok(Sign(c, secret, toSign, nonce, now))
  }

  /** `authorize_stateful_configure` as written: it reads the clock once
      for the preimage and again for the header, and the two readings, in
      whole seconds, need not agree. */
  function AuthorizeStatefulConfigureAsWritten(c: Crypto, secret: bytes, req: SignedRequest,
                                               preimageClock: int, headerClock: int, nonce: string): (r: Result<string>)
    requires req.StatefulConfigureRequest?
    ensures r.Ok? ==> Preimage(req, preimageClock, nonce).Ok? && HMAC_PREFIX <= r.value
    ensures r.Err? ==> r.error == OverflowError
  {
    var toSign :- Preimage(req, preimageClock, nonce);
    Ok(Sign(c, secret, toSign, nonce, headerClock))
  }

  // ---------------------------------------------------------------------
  // Lemmas
  // ---------------------------------------------------------------------

  /** A request is "unauthorized" exactly when the header is missing. */
  lemma UnauthorizedIffMissing(c: Crypto, secret: bytes, tokenLifetime: int, used: set<bytes>,
                               req: SignedRequest, now: int, authorization: Option<string>)
    requires DigestAsserted(req)
    ensures Decision(c, secret, tokenLifetime, used, req, now, authorization) == Ok(AuthUnauthorized)
        <==> authorization == None
  {
  }

  /** No replay at one instant: once a header has been checked, checking it
      again is never "ok", whatever the first answer was. */
  lemma ReplayForbidden(c: Crypto, secret: bytes, tokenLifetime: int, used: set<bytes>,
                        req: SignedRequest, now: int, authorization: Option<string>)
    ensures var after := UsedAfter(c, secret, tokenLifetime, used, req, now, authorization);
      Decision(c, secret, tokenLifetime, after, req, now, authorization) != Ok(AuthOk)
  {
  }

  /** No replay at any later time: a header once accepted is never accepted
      again by a store that has kept the code it recorded. */
  lemma AcceptedOnce(c: Crypto, secret: bytes, tokenLifetime: int, used: set<bytes>, used2: set<bytes>,
                     req: SignedRequest, now: int, later: int, authorization: Option<string>)
    requires Decision(c, secret, tokenLifetime, used, req, now, authorization) == Ok(AuthOk)
    requires UsedAfter(c, secret, tokenLifetime, used, req, now, authorization) <= used2
    ensures Decision(c, secret, tokenLifetime, used2, req, later, authorization) != Ok(AuthOk)
  {
    StagedDecides(c, secret, tokenLifetime, used, req, now, authorization);
    StagedDecides(c, secret, tokenLifetime, used2, req, later, authorization);
    var laterStage := Staged(c, tokenLifetime, req, later, authorization);
    if laterStage.Ok? && laterStage.value.ToCheck? {
      var _ := StagedAtTwoClocks(c, tokenLifetime, req, now, later, authorization);
    }
  }

  /** A check is "ok" exactly when it marks a code that was not recorded. */
  lemma MarkedCodeDecides(c: Crypto, secret: bytes, tokenLifetime: int, used: set<bytes>,
                          req: SignedRequest, now: int, authorization: Option<string>)
    ensures var m := MarkedCode(c, secret, tokenLifetime, req, now, authorization);
      Decision(c, secret, tokenLifetime, used, req, now, authorization) == Ok(AuthOk)
      <==> m.Some? && m.value !in used
  {
  }

  /** A header whose timestamp is an integer too large for a float makes
      the check raise OverflowError. */
  lemma DecisionOverflows(c: Crypto, secret: bytes, tokenLifetime: int, used: set<bytes>,
                          req: SignedRequest, now: int, timestampText: string, rest: string, timestamp: int)
    requires DigestAsserted(req)
    requires ':' !in timestampText
    requires ParseInt(timestampText) == Some(timestamp) && !FloatConvertible(timestamp)
    ensures Decision(c, secret, tokenLifetime, used, req, now, Some(HMAC_PREFIX + timestampText + ":" + rest))
         == Err(OverflowError)
  {
    GetTokenOverflows(c, timestampText, rest, timestamp, now, tokenLifetime);
  }

  /** Sign, then verify: the header `authorize_*` writes for a request at
      time `now` (the whole part of a float clock) is accepted at any time
      within the token lifetime of `now`, unless its code was already
      recorded. */
  lemma AuthorizeThenAllowed(c: Crypto, secret: bytes, tokenLifetime: int, used: set<bytes>,
                             req: SignedRequest, now: int, later: int, nonce: string)
    requires ValidCrypto(c)
    requires ':' !in nonce
    requires FloatConvertible(now) && Abs(later - now) <= tokenLifetime
    requires DigestAsserted(req)
    requires Authorize(c, secret, req, now, nonce).Ok?
    ensures var code := c.hmacSha512(secret, Preimage(req, now, nonce).value);
      var header := Some(Authorize(c, secret, req, now, nonce).value);
      && Decision(c, secret, tokenLifetime, used, req, later, header) == Ok(if code in used then AuthForbidden else AuthOk)
      && MarkedCode(c, secret, tokenLifetime, req, later, header) == Some(code)
  {
    AuthorizeStaged(c, secret, tokenLifetime, req, now, later, nonce);
  }

  /** The header `authorize_*` writes reaches `check_code` with the
      preimage it signed and the HMAC of that preimage. */
  lemma AuthorizeStaged(c: Crypto, secret: bytes, tokenLifetime: int,
                        req: SignedRequest, now: int, later: int, nonce: string)
    requires ValidCrypto(c)
    requires ':' !in nonce
    requires FloatConvertible(now) && Abs(later - now) <= tokenLifetime
    requires DigestAsserted(req)
    requires Authorize(c, secret, req, now, nonce).Ok?
    ensures var toSign := Preimage(req, now, nonce).value;
      Staged(c, tokenLifetime, req, later, Some(Authorize(c, secret, req, now, nonce).value))
      == Ok(ToCheck(toSign, c.hmacSha512(secret, toSign)))
  {
    var toSign := Preimage(req, now, nonce).value;
    assert Authorize(c, secret, req, now, nonce).value == Sign(c, secret, toSign, nonce, now);
    SignThenGetTokenLater(c, secret, toSign, nonce, now, later, tokenLifetime);
  }

  /** The store keeps a code as long as its token can be accepted: a token
      is accepted from `tokenLifetime` seconds before its timestamp to
      `tokenLifetime` seconds after, so for up to twice that after its
      first check. */
  predicate StoreOutlastsTokens(storeLifetime: int, tokenLifetime: int) {
    storeLifetime >= 2 * tokenLifetime
  }

  /** The store lifetime that outlasts tokens of the default lifetime. */
  const SAFE_STORE_LIFETIME: int := 2 * DEFAULT_TOKEN_LIFETIME

  /** A sweep after another deletes what the later of the two deletes. */
  lemma SweptTwice(codes: map<bytes, int>, clock1: int, clock2: int)
    ensures Swept(Swept(codes, clock1), clock2) == Swept(codes, if clock1 < clock2 then clock2 else clock1)
  {
  }

  /** As written, with the default lifetimes, a header is accepted twice: it
      is stamped 1000 and first checked at 880, 120 seconds early; its code
      is recorded at 880 to expire at 1060; the cleanup task, woken by that
      insert, sleeps the store lifetime and the batch delay and sweeps at
      1070, deleting it; at 1100 the header is within its lifetime again
      and accepted. */
  lemma ReplayAfterSweep(c: Crypto, secret: bytes, codes: map<bytes, int>, req: SignedRequest, nonce: string)
    requires ValidCrypto(c)
    requires ':' !in nonce && DigestAsserted(req)
    requires Authorize(c, secret, req, 1000, nonce).Ok?
    requires c.hmacSha512(secret, Preimage(req, 1000, nonce).value) !in codes
    ensures !StoreOutlastsTokens(DEFAULT_STORE_LIFETIME, DEFAULT_TOKEN_LIFETIME)
    ensures var header := Some(Authorize(c, secret, req, 1000, nonce).value);
      var recorded := CodesAfter(c, secret, DEFAULT_TOKEN_LIFETIME, codes, req, 880, header, 880 + DEFAULT_STORE_LIFETIME);
      && Decision(c, secret, DEFAULT_TOKEN_LIFETIME, codes.Keys, req, 880, header) == Ok(AuthOk)
      && Decision(c, secret, DEFAULT_TOKEN_LIFETIME, Swept(recorded, 880 + DEFAULT_STORE_LIFETIME + DEFAULT_CLEANUP_BATCH_DELAY).Keys, req, 1100, header) == Ok(AuthOk)
  {
    var header := Some(Authorize(c, secret, req, 1000, nonce).value);
    var code := c.hmacSha512(secret, Preimage(req, 1000, nonce).value);
    FloatConvertibleBelow(1000, 10);
    AuthorizeThenAllowed(c, secret, DEFAULT_TOKEN_LIFETIME, codes.Keys, req, 1000, 880, nonce);
    var recorded := CodesAfter(c, secret, DEFAULT_TOKEN_LIFETIME, codes, req, 880, header, 880 + DEFAULT_STORE_LIFETIME);
    assert recorded == Recorded(codes, code, 1060);
    assert code !in Swept(recorded, 880 + DEFAULT_STORE_LIFETIME + DEFAULT_CLEANUP_BATCH_DELAY);
    AuthorizeThenAllowed(c, secret, DEFAULT_TOKEN_LIFETIME, Swept(recorded, 880 + DEFAULT_STORE_LIFETIME + DEFAULT_CLEANUP_BATCH_DELAY).Keys, req, 1000, 1100, nonce);
  }

  /** No replay across sweeps, when the store outlasts the tokens: a header
      accepted at `now` and recorded at `markClock` (no earlier) is refused
      at any later check that follows a sweep at `sweepClock`. */
  lemma AcceptedOnceAcrossSweeps(c: Crypto, secret: bytes, tokenLifetime: int, storeLifetime: int,
                                 codes: map<bytes, int>, req: SignedRequest, now: int, markClock: int,
                                 sweepClock: int, later: int, authorization: Option<string>)
    requires StoreOutlastsTokens(storeLifetime, tokenLifetime)
    requires now <= markClock && sweepClock <= later
    requires Decision(c, secret, tokenLifetime, codes.Keys, req, now, authorization) == Ok(AuthOk)
    ensures var recorded := CodesAfter(c, secret, tokenLifetime, codes, req, now, authorization, markClock + storeLifetime);
      Decision(c, secret, tokenLifetime, Swept(recorded, sweepClock).Keys, req, later, authorization) != Ok(AuthOk)
  {
    var recorded := CodesAfter(c, secret, tokenLifetime, codes, req, now, authorization, markClock + storeLifetime);
    var code := Staged(c, tokenLifetime, req, now, authorization).value.code;
    assert MarkedCode(c, secret, tokenLifetime, req, now, authorization) == Some(code) && code !in codes;
    assert recorded[code] == markClock + storeLifetime;
    var laterStage := Staged(c, tokenLifetime, req, later, authorization);
    if laterStage.Ok? && laterStage.value.ToCheck? {
      var timestamp := StagedAtTwoClocks(c, tokenLifetime, req, now, later, authorization);
      assert code in Swept(recorded, sweepClock);
    }
  }

  /** A header that reaches `check_code` at two clocks does so with the
      same data and code, and its timestamp is within the token lifetime of
      both clocks. */
  lemma StagedAtTwoClocks(c: Crypto, tokenLifetime: int, req: SignedRequest, now1: int, now2: int,
                          authorization: Option<string>) returns (timestamp: int)
    requires Staged(c, tokenLifetime, req, now1, authorization).Ok?
    requires Staged(c, tokenLifetime, req, now1, authorization).value.ToCheck?
    requires Staged(c, tokenLifetime, req, now2, authorization).Ok?
    requires Staged(c, tokenLifetime, req, now2, authorization).value.ToCheck?
    ensures Staged(c, tokenLifetime, req, now1, authorization) == Staged(c, tokenLifetime, req, now2, authorization)
    ensures Abs(now1 - timestamp) <= tokenLifetime && Abs(now2 - timestamp) <= tokenLifetime
  {
    var token1 := GetToken(c, authorization, now1, tokenLifetime).value;
    var token2 := GetToken(c, authorization, now2, tokenLifetime).value;
    GetTokenAtTwoClocks(c, authorization.value, now1, now2, tokenLifetime);
    timestamp := token1.timestamp;
  }

  /** With the corrected store lifetime, tokens of the default lifetime are
      never replayed across sweeps. */
  lemma SafeStoreLifetime(c: Crypto, secret: bytes, codes: map<bytes, int>, req: SignedRequest, now: int,
                          markClock: int, sweepClock: int, later: int, authorization: Option<string>)
    requires now <= markClock && sweepClock <= later
    requires Decision(c, secret, DEFAULT_TOKEN_LIFETIME, codes.Keys, req, now, authorization) == Ok(AuthOk)
    ensures var recorded := CodesAfter(c, secret, DEFAULT_TOKEN_LIFETIME, codes, req, now, authorization,
                                       markClock + SAFE_STORE_LIFETIME);
      Decision(c, secret, DEFAULT_TOKEN_LIFETIME, Swept(recorded, sweepClock).Keys, req, later, authorization) != Ok(AuthOk)
  {
    AcceptedOnceAcrossSweeps(c, secret, DEFAULT_TOKEN_LIFETIME, SAFE_STORE_LIFETIME, codes, req, now, markClock,
                             sweepClock, later, authorization);
  }

  /** Two preimages of one request that differ in their timestamps are
      different byte strings. */
  lemma PreimageTimestamps(req: SignedRequest, timestamp1: int, timestamp2: int, nonce: string)
    requires timestamp1 != timestamp2
    requires Preimage(req, timestamp1, nonce).Ok? && Preimage(req, timestamp2, nonce).Ok?
    ensures Preimage(req, timestamp1, nonce).value != Preimage(req, timestamp2, nonce).value
  {
    var p1, p2 := Preimage(req, timestamp1, nonce).value, Preimage(req, timestamp2, nonce).value;
    var rest1 := HeaderThenRest(Kind(req), timestamp1, nonce, p1);
    var rest2 := HeaderThenRest(Kind(req), timestamp2, nonce, p2);
    if p1 == p2 {
      PeelHeader(Kind(req), timestamp1, nonce, rest1, Kind(req), timestamp2, nonce, rest2);
    }
  }

  /** The clock reading that `authorize_stateful_configure` signs is not
      the one it writes in the header when the two differ: the receiver
      then rebuilds the preimage at the header's time, which is not what
      was signed, and accepts only if the two preimages' HMACs collide. */
  lemma StatefulConfigureClockMismatch(c: Crypto, secret: bytes, tokenLifetime: int, used: set<bytes>,
                                       req: SignedRequest, preimageClock: int, headerClock: int, nonce: string)
    requires ValidCrypto(c)
    requires req.StatefulConfigureRequest?
    requires ':' !in nonce && tokenLifetime >= 0
    requires FloatConvertible(headerClock) && preimageClock != headerClock
    requires AuthorizeStatefulConfigureAsWritten(c, secret, req, preimageClock, headerClock, nonce).Ok?
    requires Preimage(req, headerClock, nonce).Ok?
    ensures var signed := Preimage(req, preimageClock, nonce).value;
      var rebuilt := Preimage(req, headerClock, nonce).value;
      && signed != rebuilt
      && (Decision(c, secret, tokenLifetime, used, req, headerClock,
                   Some(AuthorizeStatefulConfigureAsWritten(c, secret, req, preimageClock, headerClock, nonce).value))
          == Ok(AuthOk)
          ==> c.hmacSha512(secret, signed) == c.hmacSha512(secret, rebuilt))
  {
    var signed := Preimage(req, preimageClock, nonce).value;
    PreimageTimestamps(req, preimageClock, headerClock, nonce);
    SignThenGetToken(c, secret, signed, nonce, headerClock, tokenLifetime);
  }

  /** A concrete instance: the preimage is built at second 99 and the
      header written at second 100 (the clock passed a whole second between
      the two readings). */
  lemma StatefulConfigureClockExample(c: Crypto, secret: bytes)
    ensures var req := StatefulConfigureRequest([], false, false, 0);
      && AuthorizeStatefulConfigureAsWritten(c, secret, req, 99, 100, "n").Ok?
      && Preimage(req, 99, "n").value != Preimage(req, 100, "n").value
      && Authorize(c, secret, req, 100, "n").Ok?
  {
    var req := StatefulConfigureRequest([], false, false, 0);
    assert Utf8("n") == [110];
    PreimageTimestamps(req, 99, 100, "n");
  }
}
