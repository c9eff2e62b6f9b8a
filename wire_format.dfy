/** The websocket message layout written by `ws/serializer_helpers.py`: a
    2-byte big-endian flags word, a 2-byte big-endian message type, the
    headers in minimal or expanded mode, then the payload. The `serialize_*`
    helpers write step by step into a byte stream; `serialize_simple_message`
    preallocates the exact size of the message and writes into that. */
module WireFormat {
  import opened Common
  import opened ByteCodec

  /** A 16-bit flags word with at least one bit set. */
  type FlagBit = x: int | 0 < x < 0x1_0000 witness 1

  /** `PubSubWSMessageFlags.MINIMAL_HEADERS`. Its value is set in
      `ws/constants.py`, which is not part of this model; the model relies
      only on it being a nonzero 16-bit flag. */
  const MINIMAL_HEADERS: FlagBit

  /** The flags word `serialize_prefix` writes. */
  function FlagsWord(minimalHeaders: bool): int {
    if minimalHeaders then MINIMAL_HEADERS else 0
  }

  /** What a run of writes to a stream has produced: the bytes written, and
      the exception that cut the run short, if one did. Nothing is written
      after an exception. */
  datatype Emitted = Emitted(out: bytes, failure: Option<Exception>)

  const Nothing: Emitted := Emitted([], None)

  /** `out.write(data)`. */
  function Plain(data: bytes): Emitted {
    Emitted(data, None)
  }

  /** `out.write(f(..))` where computing `f(..)` may raise instead. */
  function Computed(r: Result<bytes>): Emitted {
    match r
    case Ok(data) => Emitted(data, None)
    case Err(e) => Emitted([], Some(e))
  }

  /** One run of writes followed by another, which happens only if the first
      did not raise. */
  function Then(first: Emitted, second: Emitted): Emitted {
    if first.failure.Some? then first else Emitted(first.out + second.out, second.failure)
  }

  predicate FitsUint16(n: int) {
    0 <= n < 0x1_0000
  }

  /** A message type: one value of a 2-byte enum. */
  type MessageType = x: int | 0 <= x < 0x1_0000

  /** A length or a count as 2 big-endian bytes. */
  function Uint16(n: int): (r: bytes)
    requires FitsUint16(n)
    ensures |r| == 2 && FromBigEndian(r) == n
  {
    [n / 256, n % 256]
  }

  /** `out.write(int.to_bytes(n, 2, "big"))`: the 2 bytes, or OverflowError
      for a value that does not fit (`Uint16IsToBytes` shows this is what
      `int.to_bytes` gives). */
  function WriteUint16(n: int): Emitted {
    if FitsUint16(n) then Plain(Uint16(n)) else Emitted([], Some(OverflowError))
  }

  // ---------------------------------------------------------------------
  // The writes of each helper, in the order the helper makes them
  // ---------------------------------------------------------------------

  /** `serialize_prefix(out, type, minimal_headers=minimalHeaders)`. */
  function Prefix(messageType: int, minimalHeaders: bool): Emitted {
    Then(WriteUint16(FlagsWord(minimalHeaders)), WriteUint16(messageType))
  }

  /** One turn of the loop of `serialize_minimal_headers`. */
  function MinimalEntry(value: bytes): Emitted {
    Then(WriteUint16(|value|), Plain(value))
  }

  /** `serialize_minimal_headers(out, values)`, the loop taken apart from its
      last turn. */
  function MinimalHeaders(values: seq<bytes>): Emitted {
    if values == [] then Nothing
    else Then(MinimalHeaders(values[..|values| - 1]), MinimalEntry(values[|values| - 1]))
  }

  /** One turn of the loop of `serialize_expanded_headers`. */
  function ExpandedEntry(name: string, value: bytes): Emitted {
    Then(Then(Then(WriteUint16(|name|), Computed(EncodeAscii(name))), WriteUint16(|value|)), Plain(value))
  }

  /** The loop of `serialize_expanded_headers`, taken apart from its last turn. */
  function ExpandedEntries(names: seq<string>, values: seq<bytes>): Emitted
    requires |names| == |values|
  {
    if names == [] then Nothing
    else
      Then(ExpandedEntries(names[..|names| - 1], values[..|values| - 1]),
           ExpandedEntry(names[|names| - 1], values[|values| - 1]))
  }

  /** `serialize_expanded_headers(out, names, values)`. */
  function ExpandedHeaders(names: seq<string>, values: seq<bytes>): Emitted {
    if |names| != |values| then Emitted([], Some(AssertionError))
    else Then(WriteUint16(|names|), ExpandedEntries(names, values))
  }

  /** `serialize_simple_headers(out, names, values, minimal=minimal)`. */
  function SimpleHeaders(names: seq<string>, values: seq<bytes>, minimal: bool): Emitted {
    if minimal then MinimalHeaders(values) else ExpandedHeaders(names, values)
  }

  // ---------------------------------------------------------------------
  // The layout of a message, stated on its own
  // ---------------------------------------------------------------------

  predicate ValuesFit(values: seq<bytes>) {
    forall i :: 0 <= i < |values| ==> FitsUint16(|values[i]|)
  }

  predicate NamesFit(names: seq<string>) {
    forall i :: 0 <= i < |names| ==> IsAscii(names[i]) && FitsUint16(|names[i]|)
  }

  /** The headers `serialize_simple_headers` writes without raising: every
      length fits in 2 bytes and, in expanded mode, there are as many names
      as values, no more than 65535 of them, and every name is ASCII. */
  predicate Serializable(names: seq<string>, values: seq<bytes>, minimal: bool) {
    if minimal then ValuesFit(values)
    else |names| == |values| && FitsUint16(|names|) && NamesFit(names) && ValuesFit(values)
  }

  /** Minimal headers: each value after its 2-byte length; no count, no names. */
  function MinimalLayout(values: seq<bytes>): bytes
    requires ValuesFit(values)
  {
    if values == [] then []
    else
      var v := values[|values| - 1];
      MinimalLayout(values[..|values| - 1]) + Uint16(|v|) + v
  }

  /** Expanded header entries: each name length, ASCII name, value length and
      value. */
  function ExpandedEntriesLayout(names: seq<string>, values: seq<bytes>): bytes
    requires |names| == |values| && NamesFit(names) && ValuesFit(values)
  {
    if names == [] then []
    else
      var n, v := names[|names| - 1], values[|values| - 1];
      ExpandedEntriesLayout(names[..|names| - 1], values[..|values| - 1])
        + Uint16(|n|) + EncodeAscii(n).value + Uint16(|v|) + v
  }

  /** The headers of a message in the chosen mode; expanded headers start with
      their count. */
  function HeadersLayout(names: seq<string>, values: seq<bytes>, minimal: bool): bytes
    requires Serializable(names, values, minimal)
  {
    if minimal then MinimalLayout(values) else Uint16(|names|) + ExpandedEntriesLayout(names, values)
  }

  // ---------------------------------------------------------------------
  // Sizes: the `total_size` expression of `serialize_simple_message`
  // ---------------------------------------------------------------------

  /** `sum(len(value) for value in values)`. */
  function SumLengths(values: seq<bytes>): nat {
    if values == [] then 0 else SumLengths(values[..|values| - 1]) + |values[|values| - 1]|
  }

  /** The number of characters in all the names. */
  function SumNameLengths(names: seq<string>): nat {
    if names == [] then 0 else SumNameLengths(names[..|names| - 1]) + |names[|names| - 1]|
  }

  /** `sum(len(name.encode("ascii")) for name in names)`, which raises
      UnicodeEncodeError at the first name that is not ASCII. */
  function SumEncodedLengths(names: seq<string>): (r: Result<nat>)
    ensures r.Ok? <==> forall i :: 0 <= i < |names| ==> IsAscii(names[i])
    ensures r.Ok? ==> r.value == SumNameLengths(names)
    ensures r.Err? ==> r.error == UnicodeEncodeError
  {
    if names == [] then Ok(0)
    else
      match SumEncodedLengths(names[..|names| - 1])
      case Err(e) => Err(e)
      case Ok(n) =>
        match EncodeAscii(names[|names| - 1])
        case Err(e) => Err(e)
        case Ok(b) => Ok(n + |b|)
  }

  /** The bytes taken by the headers in either mode. */
  function HeadersSize(names: seq<string>, values: seq<bytes>, minimal: bool): nat {
    if minimal then 2 * |values| + SumLengths(values)
    else 2 + 4 * |values| + SumNameLengths(names) + SumLengths(values)
  }

  /** `total_size` in `serialize_simple_message`. */
  function TotalSize(names: seq<string>, values: seq<bytes>, payload: bytes, minimal: bool): (r: Result<nat>)
    ensures r.Ok? <==> minimal || forall i :: 0 <= i < |names| ==> IsAscii(names[i])
    ensures r.Ok? ==> r.value == 4 + HeadersSize(names, values, minimal) + |payload|
    ensures r.Err? ==> r.error == UnicodeEncodeError
  {
    if minimal then Ok(2 + 2 + (2 * |values| + SumLengths(values)) + |payload|)
    else
      match SumEncodedLengths(names)
      case Err(e) => Err(e)
      case Ok(n) => Ok(2 + 2 + (2 + 4 * |values| + n + SumLengths(values)) + |payload|)
  }

  /** `serialize_simple_message(type=.., header_names=names,
      header_values=values, payload=payload, minimal_headers=minimal)`: the
      message, or the exception it raises. The length check comes first, then
      the size computation, then the writes in order. */
  function SimpleMessage(messageType: int, names: seq<string>, values: seq<bytes>, payload: bytes, minimal: bool)
    : Result<bytes>
  {
    if |names| != |values| then Err(AssertionError)
    else
      match TotalSize(names, values, payload, minimal)
      case Err(e) => Err(e)
      case Ok(_) =>
        var e := Then(Then(Prefix(messageType, minimal), SimpleHeaders(names, values, minimal)), Plain(payload));
        if e.failure.Some? then Err(e.failure.value) else Ok(e.out)
  }

  // ---------------------------------------------------------------------
  // What the writes produce
  // ---------------------------------------------------------------------

  /** The 2-byte write is `int.to_bytes(n, 2, "big")`: it gives the 2
      big-endian bytes of a value that fits and raises OverflowError for any
      other. */
  lemma Uint16IsToBytes(n: int)
    ensures WriteUint16(n) == Computed(IntToBytes(n, 2))
  {
    assert Pow256(2) == 0x1_0000;
    if FitsUint16(n) {
      BigEndianInjective(FromBigEndian(IntToBytes(n, 2).value), n, 2);
      BigEndianOfValue(Uint16(n));
      BigEndianOfValue(IntToBytes(n, 2).value);
    }
  }

  /** `serialize_prefix` writes 4 bytes, the flags word and then the type,
      and raises OverflowError, having written the flags word, when the type
      does not fit in 2 bytes. */
  lemma PrefixResult(messageType: int, minimal: bool)
    ensures Prefix(messageType, minimal).failure.None? <==> FitsUint16(messageType)
    ensures FitsUint16(messageType) ==>
      Prefix(messageType, minimal).out == Uint16(FlagsWord(minimal)) + Uint16(messageType)
    ensures !FitsUint16(messageType) ==>
      Prefix(messageType, minimal) == Emitted(Uint16(FlagsWord(minimal)), Some(OverflowError))
  {
  }

  /** Minimal headers are written in full exactly when every value fits its
      2-byte length, and then they are `MinimalLayout`, `2n + sum(|v|)` bytes
      long; otherwise the loop raises OverflowError, having written less. */
  lemma {:induction false} MinimalHeadersResult(values: seq<bytes>)
    ensures MinimalHeaders(values).failure.None? <==> ValuesFit(values)
    ensures ValuesFit(values) ==> MinimalHeaders(values).out == MinimalLayout(values)
    ensures MinimalHeaders(values).failure.Some? ==> MinimalHeaders(values).failure == Some(OverflowError)
    ensures |MinimalHeaders(values).out| <= 2 * |values| + SumLengths(values)
    ensures MinimalHeaders(values).failure.None? ==> |MinimalHeaders(values).out| == 2 * |values| + SumLengths(values)
  {
    if values != [] {
      var init, v := values[..|values| - 1], values[|values| - 1];
      MinimalHeadersResult(init);
      assert ValuesFit(values) <==> ValuesFit(init) && FitsUint16(|v|) by {
        assert forall i :: 0 <= i < |init| ==> init[i] == values[i];
      }
    }
  }

  /** One expanded entry is written in full exactly when the name is ASCII
      and both lengths fit in 2 bytes; otherwise it raises OverflowError or
      UnicodeEncodeError, having written less. */
  lemma ExpandedEntryResult(name: string, value: bytes)
    ensures ExpandedEntry(name, value).failure.None? <==> IsAscii(name) && FitsUint16(|name|) && FitsUint16(|value|)
    ensures ExpandedEntry(name, value).failure.None? ==>
      ExpandedEntry(name, value).out == Uint16(|name|) + EncodeAscii(name).value + Uint16(|value|) + value
    ensures ExpandedEntry(name, value).failure.Some? ==>
      ExpandedEntry(name, value).failure.value in {OverflowError, UnicodeEncodeError}
    ensures |ExpandedEntry(name, value).out| <= 4 + |name| + |value|
  {
  }

  /** Expanded entries are written in full exactly when every name is ASCII
      and every length fits in 2 bytes, and then they are
      `ExpandedEntriesLayout`; otherwise the loop raises OverflowError or
      UnicodeEncodeError, having written less. */
  lemma {:induction false} ExpandedEntriesResult(names: seq<string>, values: seq<bytes>)
    requires |names| == |values|
    ensures ExpandedEntries(names, values).failure.None? <==> NamesFit(names) && ValuesFit(values)
    ensures NamesFit(names) && ValuesFit(values) ==>
      ExpandedEntries(names, values).out == ExpandedEntriesLayout(names, values)
    ensures ExpandedEntries(names, values).failure.Some? ==>
      ExpandedEntries(names, values).failure.value in {OverflowError, UnicodeEncodeError}
    ensures |ExpandedEntries(names, values).out| <= 4 * |values| + SumNameLengths(names) + SumLengths(values)
    ensures ExpandedEntries(names, values).failure.None? ==>
      |ExpandedEntries(names, values).out| == 4 * |values| + SumNameLengths(names) + SumLengths(values)
  {
    if names != [] {
      var initN, n := names[..|names| - 1], names[|names| - 1];
      var initV, v := values[..|values| - 1], values[|values| - 1];
      ExpandedEntriesResult(initN, initV);
      ExpandedEntryResult(n, v);
      assert NamesFit(names) <==> NamesFit(initN) && IsAscii(n) && FitsUint16(|n|) by {
        assert forall i :: 0 <= i < |initN| ==> initN[i] == names[i];
      }
      assert ValuesFit(values) <==> ValuesFit(initV) && FitsUint16(|v|) by {
        assert forall i :: 0 <= i < |initV| ==> initV[i] == values[i];
      }
      if NamesFit(names) && ValuesFit(values) {
        ConcatAssoc(ExpandedEntriesLayout(initN, initV), Uint16(|n|) + EncodeAscii(n).value + Uint16(|v|), v);
        ConcatAssoc(ExpandedEntriesLayout(initN, initV), Uint16(|n|) + EncodeAscii(n).value, Uint16(|v|));
        ConcatAssoc(ExpandedEntriesLayout(initN, initV), Uint16(|n|), EncodeAscii(n).value);
      }
    }
  }

  /** `serialize_simple_headers` writes the layout in full exactly for
      serializable headers, and never more than `HeadersSize` bytes. */
  lemma SimpleHeadersResult(names: seq<string>, values: seq<bytes>, minimal: bool)
    requires minimal || |names| == |values|
    ensures SimpleHeaders(names, values, minimal).failure.None? <==> Serializable(names, values, minimal)
    ensures Serializable(names, values, minimal) ==>
      SimpleHeaders(names, values, minimal).out == HeadersLayout(names, values, minimal)
    ensures |SimpleHeaders(names, values, minimal).out| <= HeadersSize(names, values, minimal)
    ensures SimpleHeaders(names, values, minimal).failure.None? ==>
      |SimpleHeaders(names, values, minimal).out| == HeadersSize(names, values, minimal)
  {
    if minimal {
      MinimalHeadersResult(values);
    } else {
      ExpandedEntriesResult(names, values);
    }
  }

  /** `serialize_simple_message` returns a message exactly when there are as
      many names as values, the type fits in 2 bytes and the headers are
      serializable. That message is the prefix, then the headers in the
      chosen mode, then the payload, and it is exactly `total_size` bytes
      long, so the closing `assert out.tell() == total_size` holds. */
  lemma SimpleMessageShape(messageType: int, names: seq<string>, values: seq<bytes>, payload: bytes, minimal: bool)
    ensures SimpleMessage(messageType, names, values, payload, minimal).Ok? <==>
      |names| == |values| && FitsUint16(messageType) && Serializable(names, values, minimal)
    ensures |names| == |values| && FitsUint16(messageType) && Serializable(names, values, minimal) ==>
      && SimpleMessage(messageType, names, values, payload, minimal).value
         == Uint16(FlagsWord(minimal)) + Uint16(messageType) + HeadersLayout(names, values, minimal) + payload
      && TotalSize(names, values, payload, minimal)
         == Ok(|SimpleMessage(messageType, names, values, payload, minimal).value|)
  {
    if |names| == |values| {
      PrefixResult(messageType, minimal);
      SimpleHeadersResult(names, values, minimal);
      if !minimal && !(forall i :: 0 <= i < |names| ==> IsAscii(names[i])) {
        assert !NamesFit(names);
      }
    }
  }

  /** The writes of a first run of the minimal-headers loop are the start of
      the writes of the whole loop, and an exception in that run is the
      exception of the whole loop. */
  lemma {:induction false} MinimalHeadersPrefix(values: seq<bytes>, j: nat)
    requires j <= |values|
    ensures |MinimalHeaders(values[..j]).out| <= |MinimalHeaders(values).out|
    ensures MinimalHeaders(values[..j]).failure.Some? ==> MinimalHeaders(values) == MinimalHeaders(values[..j])
    decreases |values| - j
  {
    if j == |values| {
      assert values[..j] == values;
    } else {
      var init := values[..|values| - 1];
      assert init[..j] == values[..j];
      MinimalHeadersPrefix(init, j);
    }
  }

  /** The same for the expanded-headers loop. */
  lemma {:induction false} ExpandedEntriesPrefix(names: seq<string>, values: seq<bytes>, j: nat)
    requires |names| == |values| && j <= |values|
    ensures |ExpandedEntries(names[..j], values[..j]).out| <= |ExpandedEntries(names, values).out|
    ensures ExpandedEntries(names[..j], values[..j]).failure.Some? ==>
      ExpandedEntries(names, values) == ExpandedEntries(names[..j], values[..j])
    decreases |values| - j
  {
    if j == |values| {
      assert names[..j] == names && values[..j] == values;
    } else {
      var initN, initV := names[..|names| - 1], values[..|values| - 1];
      assert initN[..j] == names[..j] && initV[..j] == values[..j];
      ExpandedEntriesPrefix(initN, initV, j);
    }
  }

  /** One more turn of the minimal-headers loop, after turns that did not
      raise, adds the writes of one value. */
  lemma MinimalHeadersStep(values: seq<bytes>, i: nat)
    requires i < |values|
    requires MinimalHeaders(values[..i]).failure.None?
    ensures MinimalHeaders(values[..i + 1]).out == MinimalHeaders(values[..i]).out + MinimalEntry(values[i]).out
    ensures MinimalHeaders(values[..i + 1]).failure == MinimalEntry(values[i]).failure
    ensures |MinimalHeaders(values[..i]).out| + |MinimalEntry(values[i]).out| <= |MinimalHeaders(values).out|
    ensures MinimalEntry(values[i]).failure.Some? ==> MinimalHeaders(values) == MinimalHeaders(values[..i + 1])
  {
    assert values[..i + 1][..i] == values[..i];
    MinimalHeadersPrefix(values, i + 1);
  }

  /** One more turn of the expanded-headers loop, after turns that did not
      raise, adds the writes of one entry. */
  lemma ExpandedEntriesStep(names: seq<string>, values: seq<bytes>, i: nat)
    requires |names| == |values| && i < |names|
    requires ExpandedEntries(names[..i], values[..i]).failure.None?
    ensures ExpandedEntries(names[..i + 1], values[..i + 1]).out
         == ExpandedEntries(names[..i], values[..i]).out + ExpandedEntry(names[i], values[i]).out
    ensures ExpandedEntries(names[..i + 1], values[..i + 1]).failure == ExpandedEntry(names[i], values[i]).failure
    ensures |ExpandedEntries(names[..i], values[..i]).out| + |ExpandedEntry(names[i], values[i]).out|
         <= |ExpandedEntries(names, values).out|
    ensures ExpandedEntry(names[i], values[i]).failure.Some? ==>
      ExpandedEntries(names, values) == ExpandedEntries(names[..i + 1], values[..i + 1])
  {
    assert names[..i + 1][..i] == names[..i] && values[..i + 1][..i] == values[..i];
    ExpandedEntriesPrefix(names, values, i + 1);
  }

  // ---------------------------------------------------------------------
  // The stream and the helpers that write into it
  // ---------------------------------------------------------------------

  /** `PreallocatedBytesIO(size)`: a buffer of fixed size and the position of
      the next write. */
  class PreallocatedBytesIO {
    var buffer: array<uint8>
    var pos: nat

    ghost predicate Valid()
      reads this
    {
      pos <= buffer.Length
    }

    /** What has been written so far. */
    function Written(): bytes
      reads this, buffer
      requires Valid()
    {
      buffer[..pos]
    }

    constructor(size: nat)
      ensures Valid() && fresh(buffer) && buffer.Length == size && pos == 0
    {
      buffer := new uint8[size];
      pos := 0;
    }

    /** `write(data)`, for data that fits in what is left of the buffer. */
    method Write(data: bytes)
      requires Valid() && pos + |data| <= buffer.Length
      modifies this, buffer
      ensures Valid() && buffer == old(buffer) && pos == old(pos) + |data|
      ensures Written() == old(Written()) + data
    {
      var start := pos;
      for k := 0 to |data|
        invariant pos == start && buffer == old(buffer)
        invariant buffer[..start + k] == old(buffer[..start]) + data[..k]
      {
        buffer[start + k] := data[k];
      }
      pos := start + |data|;
    }
  }

  /** `out.write(int.to_bytes(n, 2, "big"))` on a stream with room for the
      write. */
  method WriteUint16To(out: PreallocatedBytesIO, n: int) returns (failure: Option<Exception>)
    requires out.Valid() && out.pos + |WriteUint16(n).out| <= out.buffer.Length
    modifies out, out.buffer
    ensures out.Valid() && out.buffer == old(out.buffer)
    ensures out.Written() == old(out.Written()) + WriteUint16(n).out
    ensures failure == WriteUint16(n).failure
  {
    if FitsUint16(n) {
      out.Write(Uint16(n));
      failure := None;
    } else {
      failure := Some(OverflowError);
    }
  }

  /** `serialize_prefix(out, type, minimal_headers=minimalHeaders)`. */
  method SerializePrefix(out: PreallocatedBytesIO, messageType: int, minimalHeaders: bool)
    returns (failure: Option<Exception>)
    requires out.Valid() && out.pos + 4 <= out.buffer.Length
    modifies out, out.buffer
    ensures out.Valid() && out.buffer == old(out.buffer)
    ensures out.Written() == old(out.Written()) + Prefix(messageType, minimalHeaders).out
    ensures failure == Prefix(messageType, minimalHeaders).failure
  {
    failure := WriteUint16To(out, FlagsWord(minimalHeaders));
    if failure.Some? {
      return;
    }
    failure := WriteUint16To(out, messageType);
  }

  /** `serialize_minimal_headers(out, values)`. */
  method SerializeMinimalHeaders(out: PreallocatedBytesIO, values: seq<bytes>) returns (failure: Option<Exception>)
    requires out.Valid() && out.pos + |MinimalHeaders(values).out| <= out.buffer.Length
    modifies out, out.buffer
    ensures out.Valid() && out.buffer == old(out.buffer)
    ensures out.Written() == old(out.Written()) + MinimalHeaders(values).out
    ensures failure == MinimalHeaders(values).failure
  {
    for i := 0 to |values|
      invariant out.Valid() && out.buffer == old(out.buffer)
      invariant MinimalHeaders(values[..i]).failure.None?
      invariant out.Written() == old(out.Written()) + MinimalHeaders(values[..i]).out
    {
      MinimalHeadersStep(values, i);
      ghost var written := out.Written();
      failure := WriteUint16To(out, |values[i]|);
      if failure.Some? {
        return;
      }
      out.Write(values[i]);
      ConcatAssoc(written, Uint16(|values[i]|), values[i]);
      ConcatAssoc(old(out.Written()), MinimalHeaders(values[..i]).out, MinimalEntry(values[i]).out);
    }
    assert values[..|values|] == values;
    failure := None;
  }

  /** One turn of the loop of `serialize_expanded_headers`: the name length,
      the ASCII name, the value length and the value. */
  method SerializeExpandedEntry(out: PreallocatedBytesIO, name: string, value: bytes)
    returns (failure: Option<Exception>)
    requires out.Valid() && out.pos + |ExpandedEntry(name, value).out| <= out.buffer.Length
    modifies out, out.buffer
    ensures out.Valid() && out.buffer == old(out.buffer)
    ensures out.Written() == old(out.Written()) + ExpandedEntry(name, value).out
    ensures failure == ExpandedEntry(name, value).failure
  {
    ExpandedEntryWrites(name, value);
    ghost var start := out.Written();
    ghost var nameLength, valueLength := WriteUint16(|name|).out, WriteUint16(|value|).out;
    failure := WriteUint16To(out, |name|);
    if failure.Some? {
      return;
    }
    match EncodeAscii(name)
    case Err(e) =>
      return Some(e);
    case Ok(encoded) =>
      out.Write(encoded);
    failure := WriteUint16To(out, |value|);
    AppendAssoc(start, nameLength, encoded, valueLength);
    if failure.Some? {
      return;
    }
    out.Write(value);
    AppendAssoc(start, nameLength + encoded, valueLength, value);
  }

  lemma AppendAssoc(start: bytes, a: bytes, b: bytes, c: bytes)
    ensures start + a + b + c == start + (a + b + c)
  {
  }

  /** What one entry writes, case by case: the name's length; then the
      name, or the encoding error; then the value's length and the value. */
  lemma ExpandedEntryWrites(name: string, value: bytes)
    ensures var e, n := ExpandedEntry(name, value), WriteUint16(|name|);
      && (n.failure.Some? ==> e == n)
      && (n.failure.None? && EncodeAscii(name).Err? ==> e == Emitted(n.out, Some(EncodeAscii(name).error)))
      && (n.failure.None? && EncodeAscii(name).Ok? ==>
            var v := WriteUint16(|value|);
            && (v.failure.Some? ==> e == Emitted(n.out + EncodeAscii(name).value + v.out, v.failure))
            && (v.failure.None? ==> e == Emitted(n.out + EncodeAscii(name).value + v.out + value, None)))
  {
  }

  /** The loop of `serialize_expanded_headers`. */
  method SerializeExpandedEntries(out: PreallocatedBytesIO, names: seq<string>, values: seq<bytes>)
    returns (failure: Option<Exception>)
    requires |names| == |values|
    requires out.Valid() && out.pos + |ExpandedEntries(names, values).out| <= out.buffer.Length
    modifies out, out.buffer
    ensures out.Valid() && out.buffer == old(out.buffer)
    ensures out.Written() == old(out.Written()) + ExpandedEntries(names, values).out
    ensures failure == ExpandedEntries(names, values).failure
  {
    for i := 0 to |names|
      invariant out.Valid() && out.buffer == old(out.buffer)
      invariant ExpandedEntries(names[..i], values[..i]).failure.None?
      invariant out.Written() == old(out.Written()) + ExpandedEntries(names[..i], values[..i]).out
    {
      ExpandedEntriesStep(names, values, i);
      failure := SerializeExpandedEntry(out, names[i], values[i]);
      ConcatAssoc(old(out.Written()), ExpandedEntries(names[..i], values[..i]).out, ExpandedEntry(names[i], values[i]).out);
      if failure.Some? {
        return;
      }
    }
    assert names[..|names|] == names && values[..|values|] == values;
    failure := None;
  }

  /** `serialize_expanded_headers(out, names, values)`: the length check, the
      count, then the entries. */
  method SerializeExpandedHeaders(out: PreallocatedBytesIO, names: seq<string>, values: seq<bytes>)
    returns (failure: Option<Exception>)
    requires out.Valid() && out.pos + |ExpandedHeaders(names, values).out| <= out.buffer.Length
    modifies out, out.buffer
    ensures out.Valid() && out.buffer == old(out.buffer)
    ensures out.Written() == old(out.Written()) + ExpandedHeaders(names, values).out
    ensures failure == ExpandedHeaders(names, values).failure
  {
    if |names| != |values| {
      return Some(AssertionError);
    }
    failure := WriteUint16To(out, |names|);
    if failure.Some? {
      return;
    }
    failure := SerializeExpandedEntries(out, names, values);
  }

  /** `serialize_simple_headers(out, names, values, minimal=minimal)`. */
  method SerializeSimpleHeaders(out: PreallocatedBytesIO, names: seq<string>, values: seq<bytes>, minimal: bool)
    returns (failure: Option<Exception>)
    requires out.Valid() && out.pos + |SimpleHeaders(names, values, minimal).out| <= out.buffer.Length
    modifies out, out.buffer
    ensures out.Valid() && out.buffer == old(out.buffer)
    ensures out.Written() == old(out.Written()) + SimpleHeaders(names, values, minimal).out
    ensures failure == SimpleHeaders(names, values, minimal).failure
  {
    if minimal {
      failure := SerializeMinimalHeaders(out, values);
    } else {
      failure := SerializeExpandedHeaders(out, names, values);
    }
  }

  /** `serialize_simple_message`: preallocate `total_size` bytes, write the
      prefix, the headers and the payload, and check that exactly
      `total_size` bytes were written. */
  method SerializeSimpleMessage(messageType: int, names: seq<string>, values: seq<bytes>, payload: bytes, minimal: bool)
    returns (r: Result<bytes>)
    ensures r == SimpleMessage(messageType, names, values, payload, minimal)
  {
    if |names| != |values| {
      return Err(AssertionError);
    }
    var size := TotalSize(names, values, payload, minimal);
    if size.Err? {
      return Err(size.error);
    }
    var totalSize := size.value;
    SimpleMessageWrites(messageType, names, values, payload, minimal);
    ghost var prefix, headers := Prefix(messageType, minimal), SimpleHeaders(names, values, minimal);
    var out := new PreallocatedBytesIO(totalSize);
    assert out.Written() == [];
    var failure := SerializePrefix(out, messageType, minimal);
    if failure.Some? {
      return Err(failure.value);
    }
    assert out.Written() == prefix.out;
    failure := SerializeSimpleHeaders(out, names, values, minimal);
    if failure.Some? {
      return Err(failure.value);
    }
    assert out.Written() == prefix.out + headers.out;
    out.Write(payload);
    assert out.pos == totalSize;
    assert out.buffer[..] == out.Written() == prefix.out + headers.out + payload;
    return Ok(out.buffer[..]);
  }

  /** The writes of `serialize_simple_message` fit in `total_size` bytes,
      fill it exactly when none raises, and give its result. */
  lemma SimpleMessageWrites(messageType: int, names: seq<string>, values: seq<bytes>, payload: bytes, minimal: bool)
    requires |names| == |values| && TotalSize(names, values, payload, minimal).Ok?
    ensures var prefix, headers := Prefix(messageType, minimal), SimpleHeaders(names, values, minimal);
      var totalSize := TotalSize(names, values, payload, minimal).value;
      && |prefix.out| <= 4 && |headers.out| <= HeadersSize(names, values, minimal)
      && totalSize == 4 + HeadersSize(names, values, minimal) + |payload|
      && (prefix.failure.Some? ==> SimpleMessage(messageType, names, values, payload, minimal) == Err(prefix.failure.value))
      && (prefix.failure.None? ==> |prefix.out| == 4)
      && (prefix.failure.None? && headers.failure.Some? ==>
            SimpleMessage(messageType, names, values, payload, minimal) == Err(headers.failure.value))
      && (prefix.failure.None? && headers.failure.None? ==>
            && |headers.out| == HeadersSize(names, values, minimal)
            && SimpleMessage(messageType, names, values, payload, minimal) == Ok(prefix.out + headers.out + payload))
  {
    PrefixResult(messageType, minimal);
    SimpleHeadersResult(names, values, minimal);
  }
}
