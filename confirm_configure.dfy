/** `stateful/messages/confirm_configure.py`: the broadcaster answers a
    configure message with its 32-byte contribution to the connection
    nonce, sent as the single header `x-broadcaster-nonce` with an empty
    payload. The stateful package frames its messages with the same
    headers layout as the websocket package modelled in `WireFormat`. */
module ConfirmConfigure {
  import opened Common
  import opened ByteCodec
  import opened WireFormat
  import opened HeaderParsing

  /** `BroadcasterToSubscriberStatefulMessageType.CONFIRM_CONFIGURE`. Its
      value is set in `stateful/constants.py`, which is not part of this
      model. */
  const CONFIRM_CONFIGURE: MessageType

  /** `B2S_ConfirmConfigure`; its `type` field is always CONFIRM_CONFIGURE
      and is left implicit. */
  datatype ConfirmConfigureMessage = ConfirmConfigureMessage(broadcasterNonce: bytes)

  /** `_headers`. */
  const HEADERS: seq<string> := ["x-broadcaster-nonce"]

  /** The only nonce length the parser accepts. */
  const NONCE_LENGTH: nat := 32

  /** `B2S_ConfirmConfigureParser.relevant_types()`. */
  function RelevantTypes(): seq<int> {
    [CONFIRM_CONFIGURE]
  }

  /** `B2S_ConfirmConfigureParser.parse(flags, type, payload)`: the type is
      asserted, the one header is read and must be exactly 32 bytes. */
  function Parse(flags: int, messageType: int, payload: bytes): (r: Result<ConfirmConfigureMessage>)
    requires FitsUint16(flags)
    ensures messageType != CONFIRM_CONFIGURE ==> r == Err(AssertionError)
    ensures r.Err? ==> r.error == AssertionError || r.error == ValueError
    ensures r.Ok? ==> |r.value.broadcasterNonce| == NONCE_LENGTH
  {
    if messageType != CONFIRM_CONFIGURE then Err(AssertionError)
    else
      var parsed :- ParseSimpleHeaders(flags, payload, HEADERS);
      assert HEADERS[0] in parsed.0;
      var nonce := parsed.0["x-broadcaster-nonce"];
      if |nonce| != NONCE_LENGTH then Err(ValueError)
      else Ok(ConfirmConfigureMessage(nonce))
  }

  /** The parser raises its type assertion exactly for the message types
      it does not declare relevant, as every parser promises. */
  lemma ParseRelevantTypes(flags: int, messageType: int, payload: bytes)
    requires FitsUint16(flags)
    ensures Parse(flags, messageType, payload) == Err(AssertionError) <==> messageType !in RelevantTypes()
  {
  }

  /** `serialize_b2s_confirm_configure(msg, minimal_headers=minimal)`. */
  function Serialize(msg: ConfirmConfigureMessage, minimal: bool): Result<bytes> {
    SimpleMessage(CONFIRM_CONFIGURE, HEADERS, [msg.broadcasterNonce], [], minimal)
  }

  lemma HeadersAscii()
    ensures |HEADERS| == 1 && NamesFit(HEADERS)
  {
    assert IsAscii(HEADERS[0]);
  }

  /** Once the headers are read, the parser keeps the nonce exactly when it
      is 32 bytes long, and returns it unchanged. */
  lemma ParseNonce(flags: int, payload: bytes)
    requires FitsUint16(flags)
    requires ParseSimpleHeaders(flags, payload, HEADERS).Ok?
    ensures var h := ParseSimpleHeaders(flags, payload, HEADERS).value.0;
      && HEADERS[0] in h
      && Parse(flags, CONFIRM_CONFIGURE, payload)
         == (if |h[HEADERS[0]]| == NONCE_LENGTH then Ok(ConfirmConfigureMessage(h[HEADERS[0]])) else Err(ValueError))
  {
  }

  /** The serializer fails only for a nonce whose length does not fit in
      the 2-byte length field; otherwise it writes the flags word, the type
      and the one header. */
  lemma SerializeShape(msg: ConfirmConfigureMessage, minimal: bool)
    ensures Serialize(msg, minimal).Ok? <==> FitsUint16(|msg.broadcasterNonce|)
    ensures Serialize(msg, minimal).Ok? ==>
      && Serializable(HEADERS, [msg.broadcasterNonce], minimal)
      && Serialize(msg, minimal).value
         == Uint16(FlagsWord(minimal)) + Uint16(CONFIRM_CONFIGURE) + HeadersLayout(HEADERS, [msg.broadcasterNonce], minimal)
  {
    HeadersAscii();
    var values := [msg.broadcasterNonce];
    assert ValuesFit(values) <==> FitsUint16(|msg.broadcasterNonce|);
    SimpleMessageShape(CONFIRM_CONFIGURE, HEADERS, values, [], minimal);
    if FitsUint16(|msg.broadcasterNonce|) {
      var layout := HeadersLayout(HEADERS, values, minimal);
      assert Uint16(FlagsWord(minimal)) + Uint16(CONFIRM_CONFIGURE) + layout + []
          == Uint16(FlagsWord(minimal)) + Uint16(CONFIRM_CONFIGURE) + layout;
    }
  }

  /** What the parser makes of the headers the serializer writes: the nonce
      comes back unchanged when it is 32 bytes long, and is rejected with
      ValueError otherwise. */
  lemma ParseSerializedHeaders(msg: ConfirmConfigureMessage, minimal: bool)
    requires FitsUint16(|msg.broadcasterNonce|)
    ensures FitsUint16(FlagsWord(minimal))
    ensures Serializable(HEADERS, [msg.broadcasterNonce], minimal)
    ensures Parse(FlagsWord(minimal), CONFIRM_CONFIGURE, HeadersLayout(HEADERS, [msg.broadcasterNonce], minimal))
         == (if |msg.broadcasterNonce| == NONCE_LENGTH then Ok(msg) else Err(ValueError))
  {
    HeadersAscii();
    var values := [msg.broadcasterNonce];
    var layout := HeadersLayout(HEADERS, values, minimal);
    assert layout + [] == layout;
    SimpleHeadersRoundTrip(HEADERS, values, minimal, []);
    var h := ParseSimpleHeaders(FlagsWord(minimal), layout, HEADERS).value.0;
    assert h == HeaderMap(HEADERS, values);
    HeaderMapLookup(HEADERS, values, 0);
    ParseNonce(FlagsWord(minimal), layout);
  }

  /** Round trip: a message with a 32-byte nonce is serialized, in either
      header mode, as the flags word of that mode, the type
      CONFIRM_CONFIGURE and headers from which `Parse` gives the message
      back; any other nonce short enough to serialize is written but
      refused by the parser with ValueError. */
  lemma SerializeThenParse(msg: ConfirmConfigureMessage, minimal: bool)
    requires FitsUint16(|msg.broadcasterNonce|)
    ensures Serialize(msg, minimal).Ok?
    ensures var m := Serialize(msg, minimal).value;
      && |m| >= 4
      && m[..2] == Uint16(FlagsWord(minimal))
      && m[2..4] == Uint16(CONFIRM_CONFIGURE)
      && Parse(FlagsWord(minimal), CONFIRM_CONFIGURE, m[4..])
         == (if |msg.broadcasterNonce| == NONCE_LENGTH then Ok(msg) else Err(ValueError))
  {
    SerializeShape(msg, minimal);
    ParseSerializedHeaders(msg, minimal);
    var f, t := Uint16(FlagsWord(minimal)), Uint16(CONFIRM_CONFIGURE);
    var layout := HeadersLayout(HEADERS, [msg.broadcasterNonce], minimal);
    var m := f + t + layout;
    assert m[..2] == f && m[2..4] == t && m[4..] == layout;
  }
}
