/** The byte strings that HMAC tokens sign (`_prepare_*` in
    `auth/helpers/hmac_auth_config.py`). Every one starts with a one-byte
    tag naming the kind of request, the 8-byte big-endian timestamp and the
    length-prefixed UTF-8 nonce, and continues with the request's own
    fields, each string or byte field prefixed with its length. Every
    `to_bytes` can raise OverflowError. */
module HmacPreimages {
  import opened Common
  import opened ByteCodec

  /** `AuthMessageType`. */
  datatype AuthMessageType =
    | SubscribeExact
    | SubscribeGlob
    | Notify
    | WebsocketConfigure
    | CheckSubscriptions
    | SetSubscriptions
    | Receive
    | Missed
    | WebsocketConfirmConfigure

  /** `int(AuthMessageType.X)`: `auto()` numbers the members from 1. */
  function Tag(kind: AuthMessageType): (b: uint8)
    ensures 1 <= b <= 9
  {
    match kind
    case SubscribeExact => 1
    case SubscribeGlob => 2
    case Notify => 3
    case WebsocketConfigure => 4
    case CheckSubscriptions => 5
    case SetSubscriptions => 6
    case Receive => 7
    case Missed => 8
    case WebsocketConfirmConfigure => 9
  }

  /** `StrongEtag`: a format number and the etag bytes. */
  datatype StrongEtag = StrongEtag(format: int, etag: bytes)

  /** `len(data).to_bytes(width, "big")` followed by `data`. */
  function LengthPrefixed(data: bytes, width: nat): (r: Result<bytes>)
    ensures r.Ok? <==> |data| < Pow256(width)
    ensures r.Ok? ==> r.value == ToBigEndian(|data|, width) + data
    ensures r.Err? ==> r.error == OverflowError
  {
    var n :- IntToBytes(|data|, width);
    Ok(n + data)
  }

  /** The part every preimage starts with: the tag, the timestamp as 8
      bytes, and the nonce's UTF-8 length as 1 byte followed by the nonce. */
  function Header(kind: AuthMessageType, timestamp: int, nonce: string): (r: Result<bytes>)
    ensures r.Ok? <==> 0 <= timestamp < Pow256(8) && |Utf8(nonce)| < 256
    ensures r.Ok? ==> |r.value| == 10 + |Utf8(nonce)| && r.value[0] == Tag(kind)
    ensures r.Err? ==> r.error == OverflowError
  {
    var ts :- IntToBytes(timestamp, 8);
    var n :- LengthPrefixed(Utf8(nonce), 1);
    Ok([Tag(kind)] + (ts + n))
  }

  /** `b"" if recovery is None else recovery.encode("utf-8")`. */
  function RecoveryBytes(recovery: Option<string>): bytes {
    Utf8(RecoveryText(recovery))
  }

  /** The text whose encoding stands for a recovery url: none is the empty
      text. */
  function RecoveryText(recovery: Option<string>): string {
    if recovery.None? then "" else recovery.value
  }

  /** `_prepare_subscribe_exact`. */
  function PrepareSubscribeExact(url: string, recovery: Option<string>, exact: bytes, timestamp: int, nonce: string)
    : (r: Result<bytes>)
    ensures r.Ok? <==> && Header(SubscribeExact, timestamp, nonce).Ok?
                       && |Utf8(url)| < Pow256(2) && |RecoveryBytes(recovery)| < Pow256(2) && |exact| < Pow256(2)
    ensures r.Ok? ==> Header(SubscribeExact, timestamp, nonce).value <= r.value
    ensures r.Err? ==> r.error == OverflowError
  {
    var header :- Header(SubscribeExact, timestamp, nonce);
    var u :- LengthPrefixed(Utf8(url), 2);
    var rc :- LengthPrefixed(RecoveryBytes(recovery), 2);
    var e :- LengthPrefixed(exact, 2);
    Ok(header + (u + (rc + e)))
  }

  /** `_prepare_subscribe_glob`. */
  function PrepareSubscribeGlob(url: string, recovery: Option<string>, glob: string, timestamp: int, nonce: string)
    : (r: Result<bytes>)
    ensures r.Ok? <==> && Header(SubscribeGlob, timestamp, nonce).Ok?
                       && |Utf8(url)| < Pow256(2) && |RecoveryBytes(recovery)| < Pow256(2) && |Utf8(glob)| < Pow256(2)
    ensures r.Ok? ==> Header(SubscribeGlob, timestamp, nonce).value <= r.value
    ensures r.Err? ==> r.error == OverflowError
  {
    var header :- Header(SubscribeGlob, timestamp, nonce);
    var u :- LengthPrefixed(Utf8(url), 2);
    var rc :- LengthPrefixed(RecoveryBytes(recovery), 2);
    var g :- LengthPrefixed(Utf8(glob), 2);
    Ok(header + (u + (rc + g)))
  }

  /** `_prepare_notify`: the message digest goes last, unprefixed. */
  function PrepareNotify(topic: bytes, messageSha512: bytes, timestamp: int, nonce: string): (r: Result<bytes>)
    ensures r.Ok? <==> Header(Notify, timestamp, nonce).Ok? && |topic| < Pow256(2)
    ensures r.Ok? ==> Header(Notify, timestamp, nonce).value <= r.value
    ensures r.Err? ==> r.error == OverflowError
  {
    var header :- Header(Notify, timestamp, nonce);
    var t :- LengthPrefixed(topic, 2);
    Ok(header + (t + messageSha512))
  }

  /** `_prepare_stateful_configure`: each flag as one byte 1 or 0, the
      initial dictionary as 2 bytes. */
  function PrepareStatefulConfigure(subscriberNonce: bytes, enableZstd: bool, enableTraining: bool,
                                    initialDict: int, timestamp: int, nonce: string): (r: Result<bytes>)
    ensures r.Ok? <==> && Header(WebsocketConfigure, timestamp, nonce).Ok?
                       && |subscriberNonce| < Pow256(1) && 0 <= initialDict < Pow256(2)
    ensures r.Ok? ==> Header(WebsocketConfigure, timestamp, nonce).value <= r.value
    ensures r.Err? ==> r.error == OverflowError
  {
    var header :- Header(WebsocketConfigure, timestamp, nonce);
    var s :- LengthPrefixed(subscriberNonce, 1);
    var d :- IntToBytes(initialDict, 2);
    Ok(header + (s + ([if enableZstd then 1 else 0] + ([if enableTraining then 1 else 0] + d))))
  }

  /** `_prepare_check_subscriptions`. */
  function PrepareCheckSubscriptions(url: string, timestamp: int, nonce: string): (r: Result<bytes>)
    ensures r.Ok? <==> Header(CheckSubscriptions, timestamp, nonce).Ok? && |Utf8(url)| < Pow256(2)
    ensures r.Ok? ==> Header(CheckSubscriptions, timestamp, nonce).value <= r.value
    ensures r.Err? ==> r.error == OverflowError
  {
    var header :- Header(CheckSubscriptions, timestamp, nonce);
    var u :- LengthPrefixed(Utf8(url), 2);
    Ok(header + u)
  }

  /** `_prepare_set_subscriptions`: the etag's format as one byte, then the
      etag, unprefixed. The etag is encoded before the rest. */
  function PrepareSetSubscriptions(url: string, strongEtag: StrongEtag, timestamp: int, nonce: string)
    : (r: Result<bytes>)
    ensures r.Ok? <==> && Header(SetSubscriptions, timestamp, nonce).Ok?
                       && |Utf8(url)| < Pow256(2) && 0 <= strongEtag.format < Pow256(1)
    ensures r.Ok? ==> Header(SetSubscriptions, timestamp, nonce).value <= r.value
    ensures r.Err? ==> r.error == OverflowError
  {
    var format :- IntToBytes(strongEtag.format, 1);
    var header :- Header(SetSubscriptions, timestamp, nonce);
    var u :- LengthPrefixed(Utf8(url), 2);
    Ok(header + (u + (format + strongEtag.etag)))
  }

  /** `_prepare_receive`: asserts a 64-byte digest before anything else. */
  function PrepareReceive(url: string, topic: bytes, messageSha512: bytes, timestamp: int, nonce: string)
    : (r: Result<bytes>)
    ensures |messageSha512| != 64 ==> r == Err(AssertionError)
    ensures r.Ok? <==> && |messageSha512| == 64 && Header(Receive, timestamp, nonce).Ok?
                       && |Utf8(url)| < Pow256(2) && |topic| < Pow256(2)
    ensures r.Ok? ==> Header(Receive, timestamp, nonce).value <= r.value
    ensures r.Err? && |messageSha512| == 64 ==> r.error == OverflowError
  {
    if |messageSha512| != 64 then Err(AssertionError)
    else
      var header :- Header(Receive, timestamp, nonce);
      var u :- LengthPrefixed(Utf8(url), 2);
      var t :- LengthPrefixed(topic, 2);
      Ok(header + (u + (t + messageSha512)))
  }

  /** `_prepare_missed`. */
  function PrepareMissed(recovery: string, topic: bytes, timestamp: int, nonce: string): (r: Result<bytes>)
    ensures r.Ok? <==> Header(Missed, timestamp, nonce).Ok? && |Utf8(recovery)| < Pow256(2) && |topic| < Pow256(2)
    ensures r.Ok? ==> Header(Missed, timestamp, nonce).value <= r.value
    ensures r.Err? ==> r.error == OverflowError
  {
    var header :- Header(Missed, timestamp, nonce);
    var rc :- LengthPrefixed(Utf8(recovery), 2);
    var t :- LengthPrefixed(topic, 2);
    Ok(header + (rc + t))
  }

  /** `_prepare_stateful_confirm_configure`. */
  function PrepareStatefulConfirmConfigure(broadcasterNonce: bytes, timestamp: int, nonce: string): (r: Result<bytes>)
    ensures r.Ok? <==> Header(WebsocketConfirmConfigure, timestamp, nonce).Ok? && |broadcasterNonce| < Pow256(1)
    ensures r.Ok? ==> Header(WebsocketConfirmConfigure, timestamp, nonce).value <= r.value
    ensures r.Err? ==> r.error == OverflowError
  {
    var header :- Header(WebsocketConfirmConfigure, timestamp, nonce);
    var b :- LengthPrefixed(broadcasterNonce, 1);
    Ok(header + b)
  }

  /** The data of one signed request, whatever its kind: the arguments of
      the matching `_prepare_*` other than the timestamp and the nonce. */
  datatype SignedRequest =
    | SubscribeExactRequest(url: string, recovery: Option<string>, exact: bytes)
    | SubscribeGlobRequest(url: string, recovery: Option<string>, glob: string)
    | NotifyRequest(topic: bytes, messageSha512: bytes)
    | StatefulConfigureRequest(subscriberNonce: bytes, enableZstd: bool, enableTraining: bool, initialDict: int)
    | CheckSubscriptionsRequest(url: string)
    | SetSubscriptionsRequest(url: string, strongEtag: StrongEtag)
    | ReceiveRequest(url: string, topic: bytes, messageSha512: bytes)
    | MissedRequest(recoveryUrl: string, topic: bytes)
    | StatefulConfirmConfigureRequest(broadcasterNonce: bytes)

  function Kind(req: SignedRequest): AuthMessageType {
    match req
    case SubscribeExactRequest(_, _, _) => SubscribeExact
    case SubscribeGlobRequest(_, _, _) => SubscribeGlob
    case NotifyRequest(_, _) => Notify
    case StatefulConfigureRequest(_, _, _, _) => WebsocketConfigure
    case CheckSubscriptionsRequest(_) => CheckSubscriptions
    case SetSubscriptionsRequest(_, _) => SetSubscriptions
    case ReceiveRequest(_, _, _) => Receive
    case MissedRequest(_, _) => Missed
    case StatefulConfirmConfigureRequest(_) => WebsocketConfirmConfigure
  }

  /** The preimage the matching `_prepare_*` builds for a request. */
  function Preimage(req: SignedRequest, timestamp: int, nonce: string): (r: Result<bytes>)
    ensures r.Ok? ==> Header(Kind(req), timestamp, nonce).Ok? && Header(Kind(req), timestamp, nonce).value <= r.value
    ensures r.Err? ==> r.error == OverflowError || r.error == AssertionError
  {
    var kind := Kind(req);
    match req
    case SubscribeExactRequest(url, recovery, exact) =>
      assert kind == SubscribeExact;
      PrepareSubscribeExact(url, recovery, exact, timestamp, nonce)
    case SubscribeGlobRequest(url, recovery, glob) =>
      assert kind == SubscribeGlob;
      PrepareSubscribeGlob(url, recovery, glob, timestamp, nonce)
    case NotifyRequest(topic, digest) =>
      assert kind == Notify;
      PrepareNotify(topic, digest, timestamp, nonce)
    case StatefulConfigureRequest(subscriberNonce, zstd, training, initialDict) =>
      assert kind == WebsocketConfigure;
      PrepareStatefulConfigure(subscriberNonce, zstd, training, initialDict, timestamp, nonce)
    case CheckSubscriptionsRequest(url) =>
      assert kind == CheckSubscriptions;
      PrepareCheckSubscriptions(url, timestamp, nonce)
    case SetSubscriptionsRequest(url, etag) =>
      assert kind == SetSubscriptions;
      PrepareSetSubscriptions(url, etag, timestamp, nonce)
    case ReceiveRequest(url, topic, digest) =>
      assert kind == Receive;
      PrepareReceive(url, topic, digest, timestamp, nonce)
    case MissedRequest(recovery, topic) =>
      assert kind == Missed;
      PrepareMissed(recovery, topic, timestamp, nonce)
    case StatefulConfirmConfigureRequest(broadcasterNonce) =>
      assert kind == WebsocketConfirmConfigure;
      PrepareStatefulConfirmConfigure(broadcasterNonce, timestamp, nonce)
  }

  // ---------------------------------------------------------------------
  // Lemmas
  // ---------------------------------------------------------------------

  /** Distinct kinds have distinct tags. */
  lemma TagInjective(a: AuthMessageType, b: AuthMessageType)
    requires Tag(a) == Tag(b)
    ensures a == b
  {
  }

  /** Domain separation: preimages of requests of two different kinds are
      never equal, whatever their timestamps, nonces and fields, because
      their first bytes are the two kinds' distinct tags. */
  lemma DomainSeparation(a: SignedRequest, timestampA: int, nonceA: string,
                         b: SignedRequest, timestampB: int, nonceB: string)
    requires Kind(a) != Kind(b)
    requires Preimage(a, timestampA, nonceA).Ok? && Preimage(b, timestampB, nonceB).Ok?
    ensures Preimage(a, timestampA, nonceA).value != Preimage(b, timestampB, nonceB).value
  {
    var pa, pb := Preimage(a, timestampA, nonceA).value, Preimage(b, timestampB, nonceB).value;
    var ha, hb := Header(Kind(a), timestampA, nonceA).value, Header(Kind(b), timestampB, nonceB).value;
    assert pa[0] == ha[0] == Tag(Kind(a));
    assert pb[0] == hb[0] == Tag(Kind(b));
    if Tag(Kind(a)) == Tag(Kind(b)) {
      TagInjective(Kind(a), Kind(b));
    }
  }

  lemma SplitAt(a1: bytes, b1: bytes, a2: bytes, b2: bytes)
    requires |a1| == |a2| && a1 + b1 == a2 + b2
    ensures a1 == a2 && b1 == b2
  {
    assert a1 == (a1 + b1)[..|a1|] && a2 == (a2 + b2)[..|a2|];
    assert b1 == (a1 + b1)[|a1|..] && b2 == (a2 + b2)[|a2|..];
  }

  /** A length-prefixed field followed by anything determines the field. */
  lemma PeelField(d1: bytes, r1: bytes, d2: bytes, r2: bytes, width: nat)
    requires |d1| < Pow256(width) && |d2| < Pow256(width)
    requires (ToBigEndian(|d1|, width) + d1) + r1 == (ToBigEndian(|d2|, width) + d2) + r2
    ensures d1 == d2 && r1 == r2
  {
    var n1, n2 := ToBigEndian(|d1|, width), ToBigEndian(|d2|, width);
    ConcatAssoc(n1, d1, r1);
    ConcatAssoc(n2, d2, r2);
    SplitAt(n1, d1 + r1, n2, d2 + r2);
    assert |d1| == FromBigEndian(n1) == FromBigEndian(n2) == |d2|;
    SplitAt(d1, r1, d2, r2);
  }

  /** A byte string that starts with a header is that header followed by
      the rest. */
  lemma HeaderThenRest(kind: AuthMessageType, timestamp: int, nonce: string, p: bytes) returns (rest: bytes)
    requires Header(kind, timestamp, nonce).Ok? && Header(kind, timestamp, nonce).value <= p
    ensures p == Header(kind, timestamp, nonce).value + rest
  {
    var h := Header(kind, timestamp, nonce).value;
    rest := p[|h|..];
    assert p == p[..|h|] + rest;
  }

  /** The header followed by anything determines the kind, the timestamp
      and the nonce. */
  lemma PeelHeader(kind1: AuthMessageType, timestamp1: int, nonce1: string, r1: bytes,
                   kind2: AuthMessageType, timestamp2: int, nonce2: string, r2: bytes)
    requires Header(kind1, timestamp1, nonce1).Ok? && Header(kind2, timestamp2, nonce2).Ok?
    requires Header(kind1, timestamp1, nonce1).value + r1 == Header(kind2, timestamp2, nonce2).value + r2
    ensures kind1 == kind2 && timestamp1 == timestamp2 && nonce1 == nonce2 && r1 == r2
  {
    var ts1, ts2 := ToBigEndian(timestamp1, 8), ToBigEndian(timestamp2, 8);
    var n1, n2 := Utf8(nonce1), Utf8(nonce2);
    var l1, l2 := ToBigEndian(|n1|, 1) + n1, ToBigEndian(|n2|, 1) + n2;
    assert Header(kind1, timestamp1, nonce1).value + r1 == [Tag(kind1)] + (ts1 + (l1 + r1));
    assert Header(kind2, timestamp2, nonce2).value + r2 == [Tag(kind2)] + (ts2 + (l2 + r2));
    SplitAt([Tag(kind1)], ts1 + (l1 + r1), [Tag(kind2)], ts2 + (l2 + r2));
    TagInjective(kind1, kind2);
    SplitAt(ts1, l1 + r1, ts2, l2 + r2);
    PeelField(n1, r1, n2, r2, 1);
    Utf8Injective(nonce1, nonce2);
  }

  /** `_prepare_subscribe_exact` is injective, except that it cannot tell
      a missing recovery url from an empty one: equal preimages come from
      equal timestamps, nonces, urls, recovery texts and exact topics. */
  lemma SubscribeExactInjective(url1: string, recovery1: Option<string>, exact1: bytes, timestamp1: int, nonce1: string,
                                url2: string, recovery2: Option<string>, exact2: bytes, timestamp2: int, nonce2: string)
    requires PrepareSubscribeExact(url1, recovery1, exact1, timestamp1, nonce1).Ok?
    requires PrepareSubscribeExact(url2, recovery2, exact2, timestamp2, nonce2).Ok?
    requires PrepareSubscribeExact(url1, recovery1, exact1, timestamp1, nonce1).value
          == PrepareSubscribeExact(url2, recovery2, exact2, timestamp2, nonce2).value
    ensures timestamp1 == timestamp2 && nonce1 == nonce2 && url1 == url2 && exact1 == exact2
    ensures RecoveryText(recovery1) == RecoveryText(recovery2)
  {
    var u1, u2 := Utf8(url1), Utf8(url2);
    var c1, c2 := RecoveryBytes(recovery1), RecoveryBytes(recovery2);
    var f1 := ToBigEndian(|c1|, 2) + c1 + (ToBigEndian(|exact1|, 2) + exact1);
    var f2 := ToBigEndian(|c2|, 2) + c2 + (ToBigEndian(|exact2|, 2) + exact2);
    SubscribeExactFields(url1, recovery1, exact1, timestamp1, nonce1);
    SubscribeExactFields(url2, recovery2, exact2, timestamp2, nonce2);
    PeelHeader(SubscribeExact, timestamp1, nonce1, ToBigEndian(|u1|, 2) + u1 + f1,
               SubscribeExact, timestamp2, nonce2, ToBigEndian(|u2|, 2) + u2 + f2);
    PeelField(u1, f1, u2, f2, 2);
    Utf8Injective(url1, url2);
    PeelField(c1, ToBigEndian(|exact1|, 2) + exact1, c2, ToBigEndian(|exact2|, 2) + exact2, 2);
    Utf8Injective(RecoveryText(recovery1), RecoveryText(recovery2));
    PeelField(exact1, [], exact2, [], 2);
  }

  /** The fields of a subscribe-exact preimage, in order, after its header. */
  lemma SubscribeExactFields(url: string, recovery: Option<string>, exact: bytes, timestamp: int, nonce: string)
    requires PrepareSubscribeExact(url, recovery, exact, timestamp, nonce).Ok?
    ensures var u, c := Utf8(url), RecoveryBytes(recovery);
      PrepareSubscribeExact(url, recovery, exact, timestamp, nonce).value
      == Header(SubscribeExact, timestamp, nonce).value
         + (ToBigEndian(|u|, 2) + u + (ToBigEndian(|c|, 2) + c + (ToBigEndian(|exact|, 2) + exact)))
  {
  }

  /** The exception to injectivity: no recovery url and an empty one give
      the same preimage. */
  lemma SubscribeExactRecoveryCollision(url: string, exact: bytes, timestamp: int, nonce: string)
    ensures PrepareSubscribeExact(url, None, exact, timestamp, nonce)
         == PrepareSubscribeExact(url, Some(""), exact, timestamp, nonce)
  {
    assert RecoveryBytes(None) == RecoveryBytes(Some(""));
  }
}
