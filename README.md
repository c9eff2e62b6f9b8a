# lonelypsp / httppubsubprotocol — a verified model of the wire format, the parser lookup and HMAC authorization

This project models the core of lonelypsp, a pub/sub broadcaster, and of httppubsubprotocol, its websocket wire format, in Dafny. The model covers:

- **The websocket message layout** (`ws/serializer_helpers.py`). A message is a 2-byte flags word, a 2-byte message type, then the headers and the payload. Headers come in one of two modes:
  - minimal: length-prefixed values only;
  - expanded: a count, then length-prefixed ASCII names and values.

  The output buffer that `serialize_simple_message` preallocates is a class over an `array`, and every `serialize_*` writer is a method proved to append exactly the bytes of a specification function.
- **Two message kinds built on that layout.**
  - `B2S_EnableZstdPreset` has four integer headers. On the serializer side they are minimal big-endian or 2-byte signed; on the parser side they have width limits.
  - The stateful `B2S_ConfirmConfigure` has a 32-byte broadcaster nonce.

  For each kind, its serializer and parser are proved to round-trip.
- **The parser lookup tables of `ws/parser.py`.** These are built in place in a list indexed by message type and refused when a type is negative, the table would be too sparse, or two parsers claim one type. Dispatch through the table is proved to reach the one parser that declared the type.
- **HMAC authorization (`auth/helpers/hmac_auth_config.py`):**
  - reading the `authorization` header (`get_token`) and writing it (`sign`);
  - the byte strings that are signed for each kind of request (the `_prepare_*` builders);
  - the store of recently used codes and its reentrant wrapper;
  - `check_code` and the `is_*_allowed` decisions.

  The main theorems:
  - a header written by `authorize_*` is accepted within the token lifetime;
  - it is accepted only once by a store that keeps its code while the token is still acceptable. With the default lifetimes, the sqlite store keeps codes for a shorter time than that, so a header can be replayed (see "## Findings");
  - preimages of different request kinds never coincide;
  - the subscribe-exact preimage determines its fields.

The modules follow the source files:

| module | file | models |
|---|---|---|
| `Common` | `common.dfy` | Option, the exceptions raised, Result |
| `ByteCodec` | `byte_codec.dfy` | `int.to_bytes` / `int.from_bytes` (unsigned and signed, big-endian), `int_to_minimal_unsigned`, ASCII and UTF-8 encoding |
| `DecimalText` | `decimal_text.dfy` | `int(s)` on a decimal string, and the decimal text of an int |
| `WireFormat` | `wire_format.dfy` | `serializer_helpers.py` and `PreallocatedBytesIO` |
| `HeaderParsing` | `header_parsing.dfy` | the reader `parse_simple_headers` that the message parsers call |
| `EnableZstdPreset` | `enable_zstd_preset.dfy` | `ws/messages/enable_zstd_preset.py` |
| `ConfirmConfigure` | `confirm_configure.dfy` | `stateful/messages/confirm_configure.py` |
| `ParserLookup` | `parser_lookup.dfy` | `ws/parser.py` |
| `HmacToken` | `hmac_token.dfy` | `get_token` and `sign` |
| `HmacPreimages` | `hmac_preimages.dfy` | `AuthMessageType` and the `_prepare_*` builders |
| `HmacAuth` | `hmac_auth.dfy` | the code stores, `check_code`, the `is_*_allowed` and `authorize_*` methods |

Some library calls have no definition here. These are HMAC-SHA512 and base64 encoding and decoding. They are fields of a `Crypto` value, with the two properties the proofs rely on stated as `HmacToken.ValidCrypto`:
- the digest is 64 bytes;
- decoding an encoding with `"=="` appended gives the bytes back.

The clock (`now`, `time.time()`) and `make_nonce()` are parameters.

## Model

| member | source | states |
|---|---|---|
| ByteCodec.IntToBytes | src/httppubsubprotocol/ws/serializer_helpers.py:21-25 | `int.to_bytes(n, width, "big")`: the result has `width` bytes and reads back as n; OverflowError exactly when n is negative or needs more bytes |
| ByteCodec.BigEndianOfValue | src/httppubsubprotocol/ws/messages/enable_zstd_preset.py:81 | `int.from_bytes(b, "big")` followed by `to_bytes` of the same width gives b back |
| ByteCodec.BigEndianInjective | src/httppubsubprotocol/ws/serializer_helpers.py:38 | two values that fit a width have equal big-endian encodings only if they are equal |
| ByteCodec.IntToSignedBytes | src/httppubsubprotocol/ws/messages/enable_zstd_preset.py:123 | `to_bytes(2, "big", signed=True)`: succeeds exactly when the value fits in two's complement of that width, and `int.from_bytes(.., signed=True)` reads it back; otherwise OverflowError |
| ByteCodec.FromSignedBigEndian | src/httppubsubprotocol/ws/messages/enable_zstd_preset.py:87 | `int.from_bytes(b, "big", signed=True)` lies in the two's-complement range of `len(b)` bytes |
| ByteCodec.IntToMinimalUnsigned | src/httppubsubprotocol/ws/messages/enable_zstd_preset.py:122-125 | `int_to_minimal_unsigned`: defined exactly on non-negative ints, reads back as the value, has no leading zero byte |
| ByteCodec.MinimalUnsignedFits | src/httppubsubprotocol/ws/messages/enable_zstd_preset.py:122-125 | a value below 256^w has a minimal encoding of at most w bytes |
| ByteCodec.EncodeAscii | src/httppubsubprotocol/ws/serializer_helpers.py:57 | `name.encode("ascii")`: fails with UnicodeEncodeError exactly on a non-ASCII character; otherwise one byte per character with the character's code |
| ByteCodec.AsciiRoundTrip | src/httppubsubprotocol/ws/serializer_helpers.py:57 | decoding the ASCII encoding of an ASCII string gives the string |
| ByteCodec.AsciiDecodeRoundTrip | src/httppubsubprotocol/ws/serializer_helpers.py:57 | bytes that decode as ASCII are the ASCII encoding of what they decode to |
| ByteCodec.Utf8Char | src/lonelypsp/auth/helpers/hmac_auth_config.py:418 | the UTF-8 encoding of one character has 1 to 4 bytes, a lead byte announcing that length, and decodes to the character's code point |
| ByteCodec.Utf8Injective | src/lonelypsp/auth/helpers/hmac_auth_config.py:418-419 | `str.encode("utf-8")` is injective |
| DecimalText.ParseShowInt | src/lonelypsp/auth/helpers/hmac_auth_config.py:272 | `int()` of the decimal text `f"{int(now)}"` writes gives back the int when it has at most 4300 digits, and is a ValueError otherwise |
| DecimalText.ParseShowIntBelow | src/lonelypsp/auth/helpers/hmac_auth_config.py:272 | every int below 2^k, for k under 4000, reads back from its decimal text |
| DecimalText.ShowNatLength | src/lonelypsp/auth/helpers/hmac_auth_config.py:328 | a number below 2^k has at most k + 1 decimal digits |
| DecimalText.DecimalValue | src/lonelypsp/auth/helpers/hmac_auth_config.py:272 | `int()` reads a decimal digit of any script (Unicode category Nd), with the ASCII digits their usual values |
| DecimalText.ParseIntExamples | src/lonelypsp/auth/helpers/hmac_auth_config.py:271-274 | `int()` reads Arabic-Indic and mixed-script digits, and does not strip the control character 28 |
| DecimalText.ShowInt | src/lonelypsp/auth/helpers/hmac_auth_config.py:328 | the decimal text of an int is non-empty, ends in a digit and holds no colon |
| WireFormat.Uint16IsToBytes | src/httppubsubprotocol/ws/serializer_helpers.py:25 | every 2-byte length or type the serializer writes is `int.to_bytes(n, 2, "big")`, with its OverflowError |
| WireFormat.PrefixResult | src/httppubsubprotocol/ws/serializer_helpers.py:10-25 | `serialize_prefix` writes the flags word and the type; it fails with OverflowError after the flags exactly when the type does not fit 2 bytes |
| WireFormat.MinimalHeadersResult | src/httppubsubprotocol/ws/serializer_helpers.py:28-39 | `serialize_minimal_headers` succeeds exactly when every value length fits 2 bytes; it then writes the minimal layout, 2 + len(value) bytes per value |
| WireFormat.ExpandedEntryResult | src/httppubsubprotocol/ws/serializer_helpers.py:56-59 | one expanded entry is length, ASCII name, length, value; it fails with OverflowError or UnicodeEncodeError exactly when the name is not ASCII or a length does not fit |
| WireFormat.ExpandedEntriesResult | src/httppubsubprotocol/ws/serializer_helpers.py:55-59 | the expanded entries succeed exactly when every name and value fits; they then write the expanded layout, 4 + len(name) + len(value) bytes per header |
| WireFormat.SimpleHeadersResult | src/httppubsubprotocol/ws/serializer_helpers.py:62-77 | `serialize_simple_headers` chooses the mode, succeeds exactly when the headers are serializable in it, and writes exactly `HeadersSize` bytes then |
| WireFormat.TotalSize | src/httppubsubprotocol/ws/serializer_helpers.py:95-107 | the precomputed size is 4 + the headers' size + the payload's; in expanded mode it raises UnicodeEncodeError on a non-ASCII name |
| WireFormat.SimpleMessageShape | src/httppubsubprotocol/ws/serializer_helpers.py:80-114 | `serialize_simple_message` succeeds exactly when the counts agree, the type fits and the headers are serializable; the message is flags, type, header layout, payload, and its length is the precomputed size (the final assertion holds) |
| WireFormat.PreallocatedBytesIO.Write | src/httppubsubprotocol/ws/serializer_helpers.py:109-112 | writing appends the data to what was written, in the preallocated buffer |
| WireFormat.SerializePrefix | src/httppubsubprotocol/ws/serializer_helpers.py:10-25 | writes exactly the bytes of `Prefix` and reports its failure |
| WireFormat.SerializeMinimalHeaders | src/httppubsubprotocol/ws/serializer_helpers.py:28-39 | the loop writes exactly the bytes of `MinimalHeaders` and stops at the first value whose length does not fit |
| WireFormat.SerializeExpandedEntries | src/httppubsubprotocol/ws/serializer_helpers.py:55-59 | the loop writes exactly the bytes of `ExpandedEntries` and stops at the first failing entry |
| WireFormat.SerializeExpandedHeaders | src/httppubsubprotocol/ws/serializer_helpers.py:42-59 | the count, then the entries, as `ExpandedHeaders` |
| WireFormat.SerializeSimpleHeaders | src/httppubsubprotocol/ws/serializer_helpers.py:62-77 | writes exactly the bytes of `SimpleHeaders` in the chosen mode |
| WireFormat.SerializeSimpleMessage | src/httppubsubprotocol/ws/serializer_helpers.py:80-114 | computes the size, preallocates, writes prefix, headers and payload, and returns exactly `SimpleMessage` |
| HeaderParsing.FlagsWordMode | src/httppubsubprotocol/ws/serializer_helpers.py:20-24 | the flags word the serializer writes fits 2 bytes and announces minimal headers exactly when minimal mode was chosen |
| HeaderParsing.ParseSimpleHeaders | src/httppubsubprotocol/ws/messages/enable_zstd_preset.py:76 | the header reader either fails with ValueError or yields a map holding every expected header name |
| HeaderParsing.ParseMinimalRoundTrip | src/httppubsubprotocol/ws/serializer_helpers.py:28-39 | reading the minimal layout of values back gives the values and the rest of the input |
| HeaderParsing.ParseMinimalLayout | src/httppubsubprotocol/ws/serializer_helpers.py:28-39 | whatever the minimal reader accepts is the minimal layout of what it returns, followed by the rest |
| HeaderParsing.ParseExpandedRoundTrip | src/httppubsubprotocol/ws/serializer_helpers.py:53-59 | reading the expanded layout back gives the names, the values and the rest |
| HeaderParsing.ReadEntryLayout | src/httppubsubprotocol/ws/serializer_helpers.py:56-59 | whatever the entry reader accepts is the layout of one expanded entry followed by the rest |
| HeaderParsing.HeaderMapLookup | src/httppubsubprotocol/ws/messages/enable_zstd_preset.py:77 | the header map sends a name to the value given with its last occurrence |
| HeaderParsing.SimpleHeadersRoundTrip | src/httppubsubprotocol/ws/messages/enable_zstd_preset.py:76 | parsing serialized headers in either mode with the flags the serializer wrote gives the map of names to values and the rest |
| EnableZstdPreset.Parse | src/httppubsubprotocol/ws/messages/enable_zstd_preset.py:68-107 | AssertionError for another message type; otherwise ValueError or a message whose identifier and max size fit 8 unsigned bytes, min size 4 unsigned bytes, and level 2 signed bytes |
| EnableZstdPreset.ParseRelevantTypes | src/httppubsubprotocol/ws/messages/enable_zstd_preset.py:64-74 | the parser raises its type assertion exactly for types outside `relevant_types()` |
| EnableZstdPreset.ParseRejectsWide | src/httppubsubprotocol/ws/messages/enable_zstd_preset.py:77-97 | each header wider than its limit (8, 2, 4, 8 bytes) makes the parse fail with ValueError |
| EnableZstdPreset.ParseNarrow | src/httppubsubprotocol/ws/messages/enable_zstd_preset.py:77-107 | headers within their limits parse to the big-endian values (the level signed) |
| EnableZstdPreset.SerializeRejects | src/httppubsubprotocol/ws/messages/enable_zstd_preset.py:114-129 | a negative identifier or size, or a level outside 16-bit two's complement, makes the serializer raise OverflowError |
| EnableZstdPreset.EncodedValues | src/httppubsubprotocol/ws/messages/enable_zstd_preset.py:121-126 | the four header values of an in-range message fit their parse limits and read back as the message's fields |
| EnableZstdPreset.SerializeInRange | src/httppubsubprotocol/ws/messages/enable_zstd_preset.py:114-129 | an in-range message serializes to flags, type and the header layout of its encoded values, with an empty payload |
| EnableZstdPreset.SerializeThenParse | src/httppubsubprotocol/ws/messages/enable_zstd_preset.py:68-129 | every in-range message, in either header mode, serializes and parses back to itself |
| ConfirmConfigure.Parse | src/lonelypsp/stateful/messages/confirm_configure.py:42-58 | AssertionError for another message type; otherwise ValueError or a message whose nonce is exactly 32 bytes |
| ConfirmConfigure.ParseRelevantTypes | src/lonelypsp/stateful/messages/confirm_configure.py:38-48 | the parser raises its type assertion exactly for types outside `relevant_types()` |
| ConfirmConfigure.ParseNonce | src/lonelypsp/stateful/messages/confirm_configure.py:50-58 | once the headers are read, the parse succeeds exactly when the nonce header has 32 bytes, with that nonce |
| ConfirmConfigure.SerializeShape | src/lonelypsp/stateful/messages/confirm_configure.py:65-75 | the serializer succeeds exactly when the nonce length fits 2 bytes, and writes flags, type and the one-header layout |
| ConfirmConfigure.SerializeThenParse | src/lonelypsp/stateful/messages/confirm_configure.py:42-75 | a serialized message parses back to itself when its nonce has 32 bytes, and to ValueError otherwise |
| ParserLookup.Largest | src/lonelypsp/ws/parser.py:75-84 | the tracked largest type is at least 0, bounds every declared type, and is 0 or a declared type |
| ParserLookup.MakeParserLookup | src/lonelypsp/ws/parser.py:72-97 | ValueError when a type is negative; otherwise AssertionError when the largest type is at least twice the count or a type is claimed twice; otherwise the table that sends each declared type to its parser and every other slot to None |
| ParserLookup.ScanTypes | src/lonelypsp/ws/parser.py:75-84 | the first loop fails on the first negative type and otherwise yields the largest type and the count |
| ParserLookup.FillLookup | src/lonelypsp/ws/parser.py:88-96 | the second loop fills the table exactly when no type is claimed twice, and then yields the table |
| ParserLookup.AnyRelevantTypes | src/lonelypsp/ws/parser.py:107-111 | `relevant_types` of the combined parser is the concatenation of every parser's types, in order |
| ParserLookup.Dispatch | src/lonelypsp/ws/parser.py:114-127 | ValueError for a negative type, one past the table, or an empty slot; otherwise the slot's parser is called |
| ParserLookup.AllTypesMembers | src/lonelypsp/ws/parser.py:107-111 | a type is among the combined types exactly when some parser declares it |
| ParserLookup.OwnerDeclared | src/lonelypsp/ws/parser.py:88-96 | a table slot is filled exactly when its type is declared |
| ParserLookup.OwnerOfDeclared | src/lonelypsp/ws/parser.py:88-96 | with no type claimed twice, the slot of a type holds the parser that declared it |
| ParserLookup.TableSlots | src/lonelypsp/ws/parser.py:72-97 | the table's slots are filled exactly for the declared types, each with its declaring parser |
| ParserLookup.DispatchTable | src/lonelypsp/ws/parser.py:114-127 | through a valid table, an undeclared type is a ValueError and a declared type reaches the parser that declared it |
| HmacToken.GetToken | src/lonelypsp/auth/helpers/hmac_auth_config.py:252-298 | unauthorized exactly when the header is missing; the only exception is OverflowError; a found token has a 64-byte code, a nonce without a colon, and a timestamp that converts to a float and lies within the lifetime of now |
| HmacToken.TokenAfterTimestamp | src/lonelypsp/auth/helpers/hmac_auth_config.py:280-298 | after an accepted timestamp: never "unauthorized"; a found token keeps that timestamp, has a nonce without a colon and a 64-byte code |
| HmacToken.GetTokenAtTwoClocks | src/lonelypsp/auth/helpers/hmac_auth_config.py:252-298 | a header found at two clocks is found with the same timestamp, nonce and code: the clock only decides whether it is accepted |
| HmacToken.GetTokenOverflows | src/lonelypsp/auth/helpers/hmac_auth_config.py:271-278 | a header whose timestamp is an integer too large for a float raises OverflowError in `now - timestamp`, whatever follows it |
| HmacToken.ParseFloatTimestamp | src/lonelypsp/auth/helpers/hmac_auth_config.py:272-328 | the timestamp text a float clock writes is read back by `int()` |
| HmacToken.GetTokenFoundShape | src/lonelypsp/auth/helpers/hmac_auth_config.py:262-298 | a found token's header is `X-HMAC ` + timestamp text + `:` + nonce + `:` + code text, where the timestamp text parses to the timestamp and the code text decodes to the code |
| HmacToken.GetTokenAccepts | src/lonelypsp/auth/helpers/hmac_auth_config.py:262-298 | a header of that shape, with a timestamp that converts to a float and lies within the lifetime and a 64-byte code, is found with exactly its timestamp, nonce and code |
| HmacToken.Sign | src/lonelypsp/auth/helpers/hmac_auth_config.py:323-328 | the signed header starts with `X-HMAC ` |
| HmacToken.SignThenGetToken | src/lonelypsp/auth/helpers/hmac_auth_config.py:252-328 | the header `sign` writes at a float clock's time is read back by `get_token` at the same time as the signing time, the nonce and the HMAC of the data |
| HmacToken.SignThenGetTokenLater | src/lonelypsp/auth/helpers/hmac_auth_config.py:252-328 | the same round trip at any clock within the token lifetime of the signing time |
| HmacPreimages.Tag | src/lonelypsp/auth/helpers/hmac_auth_config.py:331-365 | each kind of request has its own leading byte, 1 to 9 |
| HmacPreimages.LengthPrefixed | src/lonelypsp/auth/helpers/hmac_auth_config.py:427-433 | `len(x).to_bytes(w, "big") + x` succeeds exactly when the length fits w bytes |
| HmacPreimages.Header | src/lonelypsp/auth/helpers/hmac_auth_config.py:420-428 | tag, 8-byte timestamp and length-prefixed UTF-8 nonce: OverflowError exactly when the timestamp is negative or too large or the nonce over 255 bytes |
| HmacPreimages.PrepareSubscribeExact | src/lonelypsp/auth/helpers/hmac_auth_config.py:410-436 | the preimage is built exactly when url, recovery and exact each fit a 2-byte length, and it starts with the header |
| HmacPreimages.PrepareSubscribeGlob | src/lonelypsp/auth/helpers/hmac_auth_config.py:475-502 | as for subscribe exact, with the UTF-8 glob |
| HmacPreimages.PrepareNotify | src/lonelypsp/auth/helpers/hmac_auth_config.py:540-556 | built exactly when the topic fits a 2-byte length; the digest follows unprefixed |
| HmacPreimages.PrepareStatefulConfigure | src/lonelypsp/auth/helpers/hmac_auth_config.py:598-624 | built exactly when the subscriber nonce fits a 1-byte length and the initial dictionary 2 bytes |
| HmacPreimages.PrepareCheckSubscriptions | src/lonelypsp/auth/helpers/hmac_auth_config.py:669-685 | built exactly when the url fits a 2-byte length |
| HmacPreimages.PrepareSetSubscriptions | src/lonelypsp/auth/helpers/hmac_auth_config.py:712-730 | built exactly when the etag format fits one byte and the url a 2-byte length |
| HmacPreimages.PrepareReceive | src/lonelypsp/auth/helpers/hmac_auth_config.py:802-829 | AssertionError unless the digest has 64 bytes; then built exactly when url and topic fit 2-byte lengths |
| HmacPreimages.PrepareMissed | src/lonelypsp/auth/helpers/hmac_auth_config.py:873-891 | built exactly when the recovery url and the topic fit 2-byte lengths |
| HmacPreimages.PrepareStatefulConfirmConfigure | src/lonelypsp/auth/helpers/hmac_auth_config.py:923-938 | built exactly when the broadcaster nonce fits a 1-byte length |
| HmacPreimages.Preimage | src/lonelypsp/auth/helpers/hmac_auth_config.py:410-938 | every preimage starts with the header of its request kind; the errors are OverflowError and AssertionError |
| HmacPreimages.DomainSeparation | src/lonelypsp/auth/helpers/hmac_auth_config.py:331-365 | preimages of two different kinds of request are never equal, whatever their timestamps and nonces |
| HmacPreimages.PeelHeader | src/lonelypsp/auth/helpers/hmac_auth_config.py:420-428 | two equal preimages have the same kind, timestamp, nonce and remainder |
| HmacPreimages.SubscribeExactInjective | src/lonelypsp/auth/helpers/hmac_auth_config.py:410-436 | equal subscribe-exact preimages have equal timestamps, nonces, urls, exact topics and recovery texts |
| HmacPreimages.SubscribeExactRecoveryCollision | src/lonelypsp/auth/helpers/hmac_auth_config.py:419 | a missing recovery url and an empty one give the same preimage |
| HmacAuth.RecentCodesDb.Setup | src/lonelypsp/auth/helpers/hmac_auth_config.py:126-127 | the store is not reentrant: a second setup is an AssertionError |
| HmacAuth.RecentCodesDb.constructor | src/lonelypsp/auth/helpers/hmac_auth_config.py:88-135 | a new store is not entered and keeps codes for the given lifetime. It is transient exactly when the database is `:memory:` or the empty name. A transient store starts empty; a database file starts with the codes it already holds, since the table is only created if it does not exist |
| HmacAuth.RecentCodesDb.Teardown | src/lonelypsp/auth/helpers/hmac_auth_config.py:150-166 | teardown leaves the store not entered; a database file keeps the recorded codes, a transient database (`:memory:` or the empty name) loses them |
| HmacAuth.RecentCodesDb.MarkCodeUsed | src/lonelypsp/auth/helpers/hmac_auth_config.py:168-188 | AssertionError when the store is not entered, with nothing recorded; otherwise a new code is recorded to expire a lifetime after the clock (rounded up), a known code keeps its expiry, and the answer is "conflict" exactly when it was known |
| HmacAuth.RecentCodesDb.CleanupExpired | src/lonelypsp/auth/helpers/hmac_auth_config.py:190-201 | one pass of `_cleanup_codes`: AssertionError when not entered; otherwise exactly the codes that expire before the clock (rounded down) are deleted |
| HmacAuth.Recorded | src/lonelypsp/auth/helpers/hmac_auth_config.py:172-181 | the insert adds the code, with the given expiry only if it was not known, and changes no other code's expiry |
| HmacAuth.Swept | src/lonelypsp/auth/helpers/hmac_auth_config.py:198-201 | a code survives the sweep exactly when its expiry is not before the clock, with its expiry unchanged |
| HmacAuth.SweptTwice | src/lonelypsp/auth/helpers/hmac_auth_config.py:194-215 | two sweeps delete what the later of them deletes |
| HmacAuth.ReentrantDb.constructor | src/lonelypsp/auth/helpers/hmac_auth_config.py:41-43 | any delegate is accepted, at depth 0 |
| HmacAuth.ReentrantDb.Setup | src/lonelypsp/auth/helpers/hmac_auth_config.py:46-50 | the delegate is set up only from depth 0; if that fails its assertion (the delegate was set up elsewhere), the AssertionError passes through and the depth stays 0; otherwise the depth goes up by one; the delegate is entered while the depth is positive |
| HmacAuth.ReentrantDb.Teardown | src/lonelypsp/auth/helpers/hmac_auth_config.py:52-59 | nothing at depth 0; otherwise the depth goes down by one, never below 0, and the delegate is torn down only on reaching 0 |
| HmacAuth.ReentrantDb.MarkCodeUsed | src/lonelypsp/auth/helpers/hmac_auth_config.py:61-62 | forwarded to the delegate, with its answer: AssertionError exactly when the delegate is not set up, never at a positive depth |
| HmacAuth.CheckDecision | src/lonelypsp/auth/helpers/hmac_auth_config.py:306-320 | "ok" exactly when the code is the HMAC of the data and was not recorded; never "unauthorized" |
| HmacAuth.Staged | src/lonelypsp/auth/helpers/hmac_auth_config.py:458-470 | the steps of `is_*_allowed` before `check_code` never answer "ok", and hand `check_code` a 64-byte code |
| HmacAuth.CheckCode | src/lonelypsp/auth/helpers/hmac_auth_config.py:306-320 | answers `CheckDecision` on the codes recorded before, or AssertionError when a matching code meets a store that is not entered; records the code, to expire a store lifetime after the clock, only when it is the HMAC of the data and the store is entered |
| HmacAuth.IsAllowed | src/lonelypsp/auth/helpers/hmac_auth_config.py:448-473 | each `is_*_allowed` answers `Decision`: digest assertion for notify and receive, then the token (with its OverflowError), the preimage at the token's timestamp and nonce, and `check_code`; AssertionError instead when it marks a code on a store that is not entered; an entered store ends as `CodesAfter` |
| HmacAuth.CodesAfter | src/lonelypsp/auth/helpers/hmac_auth_config.py:306-320 | the codes a check leaves are those it found plus the code it marks (`UsedAfter`), with their expiries |
| HmacAuth.Authorize | src/lonelypsp/auth/helpers/hmac_auth_config.py:438-446 | `authorize_*` signs the preimage of the request at time now, with the header's timestamp also now |
| HmacAuth.UnauthorizedIffMissing | src/lonelypsp/auth/helpers/hmac_auth_config.py:458-460 | a request is "unauthorized" exactly when it carries no authorization header |
| HmacAuth.ReplayForbidden | src/lonelypsp/auth/helpers/hmac_auth_config.py:306-320 | a header that has been checked once is never "ok" when checked again at the same time |
| HmacAuth.AcceptedOnce | src/lonelypsp/auth/helpers/hmac_auth_config.py:306-320 | a header accepted once is never accepted again, at any later time, by a store that still holds the codes it recorded |
| HmacAuth.ReplayAfterSweep | src/lonelypsp/auth/helpers/hmac_auth_config.py:92-105 | with the default lifetimes (store 180, token 120), a header stamped 1000 and accepted at 880 has its code swept at 1070 (the cleanup task woken at 880 sleeps 180 + 10 seconds) and is accepted again at 1100 |
| HmacAuth.AcceptedOnceAcrossSweeps | src/lonelypsp/auth/helpers/hmac_auth_config.py:102-105 | when the store keeps codes at least twice the token lifetime, a header accepted once is refused at any later check, whatever sweep ran before it |
| HmacAuth.SafeStoreLifetime | src/lonelypsp/auth/helpers/hmac_auth_config.py:102-105 | a store lifetime of 240 seconds prevents replay of tokens with the default lifetime of 120 |
| HmacAuth.MarkedCodeDecides | src/lonelypsp/auth/helpers/hmac_auth_config.py:313-320 | a check is "ok" exactly when the code it marks was not recorded |
| HmacAuth.DecisionOverflows | src/lonelypsp/auth/helpers/hmac_auth_config.py:582 | a header whose timestamp is too large for a float makes `is_*_allowed` raise OverflowError |
| HmacAuth.AuthorizeThenAllowed | src/lonelypsp/auth/helpers/hmac_auth_config.py:438-473 | the header `authorize_*` writes is accepted at any time within the token lifetime of its signing, unless its code was already recorded, and then marks its code |
| HmacAuth.PreimageTimestamps | src/lonelypsp/auth/helpers/hmac_auth_config.py:420-428 | preimages of one request at two different timestamps differ |
| HmacAuth.AuthorizeStatefulConfigureAsWritten | src/lonelypsp/auth/helpers/hmac_auth_config.py:626-644 | `authorize_stateful_configure` as written: the preimage at the first clock reading, the header at the second |
| HmacAuth.StatefulConfigureClockMismatch | src/lonelypsp/auth/helpers/hmac_auth_config.py:636-644 | when the two readings differ, the receiver rebuilds a different preimage than the one signed, and accepts only if the two HMACs collide |
| HmacAuth.StatefulConfigureClockExample | src/lonelypsp/auth/helpers/hmac_auth_config.py:636-644 | readings 99 and 100 give a signed header whose preimage is not the receiver's |

## Left out

- I/O is not modelled:
  - the sqlite database itself (connection, transactions, rollback);
  - the scheduling of the cleanup task (its sleeps, wake-up event and batch delay). One pass of the task is `HmacAuth.RecentCodesDb.CleanupExpired`;
  - the asyncio lock of the reentrant wrapper;
  - the `IncomingHmacAuthNoneDBConfig`, whose `mark_code_used` always answers "ok".

  The code store is its table of codes with their expiry times. A transient store (sqlite's `:memory:` database or its private temporary database, named by the empty string) starts empty and forgets its codes at teardown. A database file starts with whatever codes it holds and keeps them across setups. sqlite URI names are not modelled, because the connection is opened without `uri=True`.
- `HmacAuth.AcceptedOnce` and `HmacAuth.ReplayForbidden` are about a store that still holds the codes it recorded. A sweep can delete a code while its token is still accepted. `HmacAuth.ReplayAfterSweep` shows this for the default lifetimes, and `HmacAuth.AcceptedOnceAcrossSweeps` gives the condition under which it cannot happen.
- `now`, `token_lifetime` and `time.time()` are floats in the source. They are whole numbers here: `int(now)` truncation is already applied to the clock parameters.
- `HmacToken.GetToken` compares at a whole-number clock, but `get_token` compares the untruncated float `now` (line 277). The two can differ. At `now` = 1000.5, with timestamp 880 and lifetime 120, the source answers "forbidden" (120.5 > 120), while the model at 1000 finds the token.
- `HmacToken.SignThenGetToken` asks only for a lifetime of at least 0. At a fractional clock the source signs `int(now)` and checks against `now`, so its round trip needs a lifetime of at least 1.
- `ByteCodec.IntToMinimalUnsigned`: `int_to_minimal_unsigned` is imported by `ws/messages/enable_zstd_preset.py`, but its definition is not in `ws/serializer_helpers.py` as given. Its behaviour is assumed: the shortest big-endian encoding, empty for 0, and OverflowError for a negative value, as `int.to_bytes` raises.
- `HmacToken.GetToken`: `abs(now - timestamp) > token_lifetime` is compared exactly. In the source it is double arithmetic, which rounds for timestamps beyond 2^53. The OverflowError for a timestamp that no double can hold is modelled.
- `DecimalText.ParseInt`: the 4300-digit limit is the default of CPython 3.11 and later. It can be changed with `sys.set_int_max_str_digits`, and earlier versions have no limit.
- `DecimalText.ShowInt` has no digit limit. `str()` of an int with more than 4300 digits raises ValueError, but `sign` only writes `int(now)` of a float, which has at most 309 digits.
- Strings are sequences of Unicode scalar values. A Python `str` may hold a lone surrogate, on which `.encode("utf-8")` raises UnicodeEncodeError. That error cannot occur in the model: `ByteCodec.Utf8` is total, and so are the preimages built with it in `HmacPreimages`.
- HMAC-SHA512 and base64 are parameters, as described above. `hmac.compare_digest` is equality. `secrets.token_urlsafe` behind `make_nonce` is the `nonce` parameter. The lemmas that sign ask for a nonce without a colon, which every `token_urlsafe` output satisfies.
- The constructors of `ToBroadcasterHmacAuth` and `ToSubscriberHmacAuth` are not modelled: base64 decoding of the secret and the assertion that it has 64 bytes. The secret is a parameter of any length.
- The two `is_*_allowed` classes and their `setup_*`/`teardown_*` forwarders are one method, `HmacAuth.IsAllowed`, dispatching on the request's kind. Their arguments are the fields of `SignedRequest`.
- `ws/parser_helpers.py` and `stateful/parser_helpers.py` (`parse_simple_headers`) are not part of this model. `HeaderParsing` defines the reader the serializer implies. It is shared by the websocket and stateful messages, which are assumed to use the same layout.
  - It is strict: a short read is a ValueError.
  - In expanded mode, the names read must include the expected ones.
  - It returns the unread rest.
- `ws/constants.py` and `stateful/constants.py` are not part of this model. The numeric values of the message types are constants left unspecified within 0..65535. `MINIMAL_HEADERS` is one bit of the flags word.
- `HeaderParsing.ParseSimpleHeaders`: the converse of the round trip is proved only in part. Whatever the minimal and entry readers accept is a serialized layout. The converse for a whole expanded header block is not proved.
- `sync_io.PreallocatedBytesIO` is not part of this model. `WireFormat.PreallocatedBytesIO` is a class over a preallocated `array` that refuses writes past its end by precondition.
- The `B2S_EnableZstdPreset` and `B2S_ConfirmConfigure` records carry their `type` field implicitly, since it is always their own type.
- `HmacPreimages.SubscribeExactInjective`: field recovery from a preimage is proved for subscribe exact only. For the other kinds, only the header (kind, timestamp, nonce) is proved to be recoverable, by `HmacPreimages.PeelHeader`.
- `ws/parser.py` builds one table for subscriber-to-broadcaster messages and one for broadcaster-to-subscriber messages from fixed lists of parsers. Both are `ParserLookup.MakeParserLookup` over an arbitrary list. The concrete lists and their `relevant_types` are not part of this model.

## Findings

| source | as written | input that shows it | evidently intended | confidence | as-written member | corrected member |
|---|---|---|---|---|---|---|
| src/lonelypsp/auth/helpers/hmac_auth_config.py:636-644 | `authorize_stateful_configure` reads `time.time()` twice: once for the timestamp inside the signed preimage (line 641), once for the timestamp written in the header (line 644) | the first reading is 99.9 and the second 100.0. The preimage is signed with timestamp 99, but the header says 100. The receiver rebuilds the preimage with 100 and finds an HMAC that does not match | one clock reading, used for both, as every other `authorize_*` does with its `now` | likely; not executed | HmacAuth.AuthorizeStatefulConfigureAsWritten, HmacAuth.StatefulConfigureClockMismatch, HmacAuth.StatefulConfigureClockExample | HmacAuth.Authorize, HmacAuth.AuthorizeThenAllowed |
| src/lonelypsp/auth/helpers/hmac_auth_config.py:92-105, 179, 198-201, 276-278, 393, 783 | the store keeps a code for `token_lifetime` = 180 seconds after its first use (line 179), and the sweep then deletes it (line 200). A token is accepted while its timestamp is within 120 seconds of now, before or after (lines 276-278), which is up to 240 seconds after its first use. The store's docstring asks for its lifetime to be "at least as long as the token is accepted", but 180 is less than 240 | a header stamped 1000 is first checked at 880 and accepted. Its code expires at 1060. The cleanup task, woken by that insert, sleeps 180 + 10 seconds (lines 186-187, 211-215) and sweeps it at 1070. At 1100 the header is within 120 seconds of its stamp, the store no longer has its code, and it is accepted again | a store lifetime of at least twice the token lifetime (240 for the defaults) | likely; not executed | HmacAuth.ReplayAfterSweep | HmacAuth.StoreOutlastsTokens, HmacAuth.AcceptedOnceAcrossSweeps, HmacAuth.SafeStoreLifetime |
