/** `ws/messages/enable_zstd_preset.py`: the broadcaster tells the
    subscriber about a zstd compression preset. The four numbers travel as
    headers: the identifier, the minimum size and the maximum size as
    shortest unsigned big-endian bytes, the compression level as 2 signed
    big-endian bytes. The payload is empty. */
module EnableZstdPreset {
  import opened Common
  import opened ByteCodec
  import opened WireFormat
  import opened HeaderParsing

  /** `BroadcasterToSubscriberWSMessageType.ENABLE_ZSTD_PRESET`. Its value
      is set in `ws/constants.py`, which is not part of this model. */
  const ENABLE_ZSTD_PRESET: MessageType

  /** `B2S_EnableZstdPreset`; its `type` field is always
      ENABLE_ZSTD_PRESET and is left implicit. */
  datatype EnableZstdPresetMessage = EnableZstdPresetMessage(
    identifier: int,
    compressionLevel: int,
    minSize: int,
    maxSize: int)

  /** `_headers`, in the order the serializer writes them. */
  const HEADERS: seq<string> := ["x-identifier", "x-compression-level", "x-min-size", "x-max-size"]

  const TWO_POW_32: int := 0x1_0000_0000
  const TWO_POW_64: int := 0x1_0000_0000_0000_0000

  /** `B2S_EnableZstdPresetParser.relevant_types()`. */
  function RelevantTypes(): seq<int> {
    [ENABLE_ZSTD_PRESET]
  }

  /** `B2S_EnableZstdPresetParser.parse(flags, type, payload)`: the type is
      asserted, the headers are read, and each number is checked against
      its largest width, in header order, before it is decoded. */
  function Parse(flags: int, messageType: int, payload: bytes): (r: Result<EnableZstdPresetMessage>)
    requires FitsUint16(flags)
    ensures messageType != ENABLE_ZSTD_PRESET ==> r == Err(AssertionError)
    ensures r.Err? ==> r.error == AssertionError || r.error == ValueError
    ensures r.Ok? ==> && 0 <= r.value.identifier < TWO_POW_64
                      && -0x8000 <= r.value.compressionLevel < 0x8000
                      && 0 <= r.value.minSize < TWO_POW_32
                      && 0 <= r.value.maxSize < TWO_POW_64
  {
    if messageType != ENABLE_ZSTD_PRESET then Err(AssertionError)
    else
      var parsed :- ParseSimpleHeaders(flags, payload, HEADERS);
      var headers := parsed.0;
      assert HEADERS[0] in headers && HEADERS[1] in headers && HEADERS[2] in headers && HEADERS[3] in headers;
      var identifierBytes := headers["x-identifier"];
      if |identifierBytes| > 8 then Err(ValueError)
      else
        var levelBytes := headers["x-compression-level"];
        if |levelBytes| > 2 then Err(ValueError)
        else
          var minSizeBytes := headers["x-min-size"];
          if |minSizeBytes| > 4 then Err(ValueError)
          else
            var maxSizeBytes := headers["x-max-size"];
            if |maxSizeBytes| > 8 then Err(ValueError)
            else
              WidthBounds(identifierBytes, 8);
              WidthBounds(minSizeBytes, 4);
              WidthBounds(maxSizeBytes, 8);
              SignedWidthBounds(levelBytes);
              Ok(EnableZstdPresetMessage(
                FromBigEndian(identifierBytes),
                FromSignedBigEndian(levelBytes),
                FromBigEndian(minSizeBytes),
                FromBigEndian(maxSizeBytes)))
  }

  /** The parser raises its type assertion exactly for the message types
      it does not declare relevant, as every parser promises. */
  lemma ParseRelevantTypes(flags: int, messageType: int, payload: bytes)
    requires FitsUint16(flags)
    ensures Parse(flags, messageType, payload) == Err(AssertionError) <==> messageType !in RelevantTypes()
  {
  }

  /** `serialize_b2s_enable_zstd_preset(msg, minimal_headers=minimal)`: the
      four encodings are computed in order, then the message is written. */
  function Serialize(msg: EnableZstdPresetMessage, minimal: bool): Result<bytes> {
    var identifier :- IntToMinimalUnsigned(msg.identifier);
    var level :- IntToSignedBytes(msg.compressionLevel, 2);
    var minSize :- IntToMinimalUnsigned(msg.minSize);
    var maxSize :- IntToMinimalUnsigned(msg.maxSize);
    SimpleMessage(ENABLE_ZSTD_PRESET, HEADERS, [identifier, level, minSize, maxSize], [], minimal)
  }

  lemma Pow256Values()
    ensures Pow256(2) == 0x1_0000
    ensures Pow256(4) == TWO_POW_32
    ensures Pow256(8) == TWO_POW_64
  {
    assert Pow256(1) == 256;
    assert Pow256(2) == 0x1_0000;
    assert Pow256(3) == 0x100_0000;
    assert Pow256(4) == TWO_POW_32;
    assert Pow256(5) == 0x100_0000_0000;
    assert Pow256(6) == 0x1_0000_0000_0000;
    assert Pow256(7) == 0x100_0000_0000_0000;
  }

  /** A number read from at most `width` bytes is below 256^width. */
  lemma WidthBounds(bs: bytes, width: nat)
    requires |bs| <= width && (width == 4 || width == 8)
    ensures FromBigEndian(bs) < (if width == 4 then TWO_POW_32 else TWO_POW_64)
  {
    Pow256Values();
    Pow256Monotonic(|bs|, width);
  }

  /** A signed number read from at most 2 bytes fits in 2 signed bytes. */
  lemma SignedWidthBounds(bs: bytes)
    requires |bs| <= 2
    ensures -0x8000 <= FromSignedBigEndian(bs) < 0x8000
  {
    Pow256Values();
    assert Pow256(0) == 1 && Pow256(1) == 256;
  }

  /** The message `Parse` rejects because one of its numbers is too wide,
      each with ValueError, checked in header order. */
  lemma ParseRejectsWide(flags: int, payload: bytes)
    requires FitsUint16(flags)
    requires ParseSimpleHeaders(flags, payload, HEADERS).Ok?
    ensures var h := ParseSimpleHeaders(flags, payload, HEADERS).value.0;
      && HEADERS[0] in h && HEADERS[1] in h && HEADERS[2] in h && HEADERS[3] in h
      && (|h["x-identifier"]| > 8 ==> Parse(flags, ENABLE_ZSTD_PRESET, payload) == Err(ValueError))
      && (|h["x-compression-level"]| > 2 ==> Parse(flags, ENABLE_ZSTD_PRESET, payload) == Err(ValueError))
      && (|h["x-min-size"]| > 4 ==> Parse(flags, ENABLE_ZSTD_PRESET, payload) == Err(ValueError))
      && (|h["x-max-size"]| > 8 ==> Parse(flags, ENABLE_ZSTD_PRESET, payload) == Err(ValueError))
  {
  }

  /** The messages the serializer can encode and the parser can decode. */
  predicate InRange(msg: EnableZstdPresetMessage) {
    && 0 <= msg.identifier < TWO_POW_64
    && -0x8000 <= msg.compressionLevel < 0x8000
    && 0 <= msg.minSize < TWO_POW_32
    && 0 <= msg.maxSize < TWO_POW_64
  }

  /** The serializer raises OverflowError, as `int.to_bytes` does, for a
      negative size or identifier and for a level outside 2 signed bytes. */
  lemma SerializeRejects(msg: EnableZstdPresetMessage, minimal: bool)
    requires msg.identifier < 0 || !SignedFits(msg.compressionLevel, 2) || msg.minSize < 0 || msg.maxSize < 0
    ensures Serialize(msg, minimal) == Err(OverflowError)
  {
  }

  /** The four header values the serializer computes for a message in
      range: none longer than 8 bytes. */
  function EncodedValues(msg: EnableZstdPresetMessage): (values: seq<bytes>)
    requires InRange(msg)
    ensures |values| == 4 && ValuesFit(values)
    ensures |values[0]| <= 8 && |values[1]| == 2 && |values[2]| <= 4 && |values[3]| <= 8
    ensures FromBigEndian(values[0]) == msg.identifier
    ensures FromSignedBigEndian(values[1]) == msg.compressionLevel
    ensures FromBigEndian(values[2]) == msg.minSize && FromBigEndian(values[3]) == msg.maxSize
  {
    Pow256Values();
    MinimalUnsignedFits(msg.identifier, 8);
    MinimalUnsignedFits(msg.minSize, 4);
    MinimalUnsignedFits(msg.maxSize, 8);
    [IntToMinimalUnsigned(msg.identifier).value, IntToSignedBytes(msg.compressionLevel, 2).value,
     IntToMinimalUnsigned(msg.minSize).value, IntToMinimalUnsigned(msg.maxSize).value]
  }

  lemma HeadersAscii()
    ensures |HEADERS| == 4 && NamesFit(HEADERS)
    ensures forall i, j :: 0 <= i < j < 4 ==> HEADERS[i] != HEADERS[j]
  {
    assert IsAscii(HEADERS[0]) && IsAscii(HEADERS[1]) && IsAscii(HEADERS[2]) && IsAscii(HEADERS[3]);
    assert HEADERS[0][2] != HEADERS[1][2] && HEADERS[0][2] != HEADERS[2][2] && HEADERS[0][2] != HEADERS[3][2];
    assert HEADERS[1][2] != HEADERS[2][2] && HEADERS[1][2] != HEADERS[3][2];
    assert HEADERS[2][3] != HEADERS[3][3];
  }

  /** A message in range is serialized as the flags word, the type
      ENABLE_ZSTD_PRESET, the headers and no payload. */
  lemma SerializeInRange(msg: EnableZstdPresetMessage, minimal: bool)
    requires InRange(msg)
    ensures Serializable(HEADERS, EncodedValues(msg), minimal)
    ensures Serialize(msg, minimal)
         == Ok(Uint16(FlagsWord(minimal)) + Uint16(ENABLE_ZSTD_PRESET) + HeadersLayout(HEADERS, EncodedValues(msg), minimal))
  {
    var values := EncodedValues(msg);
    HeadersAscii();
    SimpleMessageShape(ENABLE_ZSTD_PRESET, HEADERS, values, [], minimal);
    var layout := HeadersLayout(HEADERS, values, minimal);
    assert Uint16(FlagsWord(minimal)) + Uint16(ENABLE_ZSTD_PRESET) + layout + [] 
        == Uint16(FlagsWord(minimal)) + Uint16(ENABLE_ZSTD_PRESET) + layout;
  }

  /** What `Parse` makes of headers whose numbers are narrow enough. */
  lemma ParseNarrow(flags: int, payload: bytes)
    requires FitsUint16(flags)
    requires ParseSimpleHeaders(flags, payload, HEADERS).Ok?
    requires var h := ParseSimpleHeaders(flags, payload, HEADERS).value.0;
      |h[HEADERS[0]]| <= 8 && |h[HEADERS[1]]| <= 2 && |h[HEADERS[2]]| <= 4 && |h[HEADERS[3]]| <= 8
    ensures var h := ParseSimpleHeaders(flags, payload, HEADERS).value.0;
      Parse(flags, ENABLE_ZSTD_PRESET, payload) == Ok(EnableZstdPresetMessage(
        FromBigEndian(h[HEADERS[0]]), FromSignedBigEndian(h[HEADERS[1]]),
        FromBigEndian(h[HEADERS[2]]), FromBigEndian(h[HEADERS[3]])))
  {
  }

  /** The headers of a message in range parse back to the message. */
  lemma ParseEncoded(msg: EnableZstdPresetMessage, minimal: bool)
    requires InRange(msg)
    ensures FitsUint16(FlagsWord(minimal))
    ensures Serializable(HEADERS, EncodedValues(msg), minimal)
    ensures Parse(FlagsWord(minimal), ENABLE_ZSTD_PRESET, HeadersLayout(HEADERS, EncodedValues(msg), minimal)) == Ok(msg)
  {
    var values := EncodedValues(msg);
    HeadersAscii();
    var layout := HeadersLayout(HEADERS, values, minimal);
    assert layout + [] == layout;
    SimpleHeadersRoundTrip(HEADERS, values, minimal, []);
    var h := ParseSimpleHeaders(FlagsWord(minimal), layout, HEADERS).value.0;
    assert h == HeaderMap(HEADERS, values);
    HeaderMapLookup(HEADERS, values, 0);
    HeaderMapLookup(HEADERS, values, 1);
    HeaderMapLookup(HEADERS, values, 2);
    HeaderMapLookup(HEADERS, values, 3);
    assert h[HEADERS[0]] == values[0] && h[HEADERS[1]] == values[1];
    assert h[HEADERS[2]] == values[2] && h[HEADERS[3]] == values[3];
    ParseNarrow(FlagsWord(minimal), layout);
  }

  /** Round trip: a message in range is serialized, in either header mode,
      as the flags word of that mode, the type ENABLE_ZSTD_PRESET and
      headers from which `Parse` gives the message back. */
  lemma SerializeThenParse(msg: EnableZstdPresetMessage, minimal: bool)
    requires InRange(msg)
    ensures Serialize(msg, minimal).Ok?
    ensures var m := Serialize(msg, minimal).value;
      && |m| >= 4
      && m[..2] == Uint16(FlagsWord(minimal))
      && m[2..4] == Uint16(ENABLE_ZSTD_PRESET)
      && Parse(FlagsWord(minimal), ENABLE_ZSTD_PRESET, m[4..]) == Ok(msg)
  {
    SerializeInRange(msg, minimal);
    ParseEncoded(msg, minimal);
    var f, t, layout := Uint16(FlagsWord(minimal)), Uint16(ENABLE_ZSTD_PRESET), HeadersLayout(HEADERS, EncodedValues(msg), minimal);
    var m := f + t + layout;
    assert m[..2] == f && m[2..4] == t && m[4..] == layout;
  }
}
