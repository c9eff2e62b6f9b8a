/** `parse_simple_headers(flags, payload, expected)`, the reader the message
    parsers use for their headers. Its Python definition is not part of this
    model: what is modelled here is the behaviour assumed of it, the inverse
    of `serialize_simple_headers`. In minimal mode it reads one
    length-prefixed value per expected name, in order; in expanded mode it
    reads the 2-byte count and then that many length-prefixed ASCII names and
    length-prefixed values, and raises ValueError when an expected name is
    missing. A stream that ends too soon raises ValueError. */
module HeaderParsing {
  import opened Common
  import opened ByteCodec
  import opened WireFormat

  /** `flags & PubSubWSMessageFlags.MINIMAL_HEADERS != 0`. */
  predicate MinimalFlagSet(flags: int)
    requires FitsUint16(flags)
  {
    (flags as bv16) & (MINIMAL_HEADERS as bv16) != 0
  }

  /** The flags word `serialize_prefix` writes says which mode the headers
      are in. */
  lemma FlagsWordMode(minimal: bool)
    ensures FitsUint16(FlagsWord(minimal))
    ensures MinimalFlagSet(FlagsWord(minimal)) == minimal
  {
  }

  /** `payload.read(n)`, which must give `n` bytes. */
  function ReadExact(body: bytes, n: nat): (r: Result<(bytes, bytes)>)
    ensures r.Ok? <==> n <= |body|
    ensures r.Ok? ==> |r.value.0| == n && body == r.value.0 + r.value.1
    ensures r.Err? ==> r.error == ValueError
  {
    if |body| < n then Err(ValueError) else Ok((body[..n], body[n..]))
  }

  /** A 2-byte big-endian length or count. */
  function ReadUint16(body: bytes): (r: Result<(int, bytes)>)
    ensures r.Ok? <==> 2 <= |body|
    ensures r.Ok? ==> FitsUint16(r.value.0) && body == Uint16(r.value.0) + r.value.1
    ensures r.Err? ==> r.error == ValueError
  {
    var p :- ReadExact(body, 2);
    var n := (p.0[0] as int) * 256 + p.0[1] as int;
    assert n / 256 == p.0[0] && n % 256 == p.0[1];
    assert p.0 == Uint16(n);
    Ok((n, p.1))
  }

  /** A 2-byte length followed by that many bytes. */
  function ReadBlock(body: bytes): (r: Result<(bytes, bytes)>)
    ensures r.Ok? ==> FitsUint16(|r.value.0|) && body == Uint16(|r.value.0|) + r.value.0 + r.value.1
    ensures r.Err? ==> r.error == ValueError
  {
    var n :- ReadUint16(body);
    var p :- ReadExact(n.1, n.0);
    Ok(p)
  }

  /** The values of minimal headers: `count` blocks, read in order. */
  function ParseMinimalValues(body: bytes, count: nat): (r: Result<(seq<bytes>, bytes)>)
    ensures r.Ok? ==> |r.value.0| == count
    ensures r.Err? ==> r.error == ValueError
  {
    if count == 0 then Ok(([], body))
    else
      var first :- ReadBlock(body);
      var others :- ParseMinimalValues(first.1, count - 1);
      Ok(([first.0] + others.0, others.1))
  }

  /** One expanded entry: an ASCII name block, then a value block. Bytes
      that are not ASCII fail to decode with a ValueError. */
  function ReadEntry(body: bytes): (r: Result<(string, bytes, bytes)>)
    ensures r.Err? ==> r.error == ValueError
  {
    var name :- ReadBlock(body);
    var text :- DecodeAscii(name.0);
    var value :- ReadBlock(name.1);
    Ok((text, value.0, value.1))
  }

  /** What `ReadEntry` reads is laid out as the entry of the name and value
      it gives. */
  lemma ReadEntryLayout(body: bytes)
    requires ReadEntry(body).Ok?
    ensures var e := ReadEntry(body).value;
      && IsAscii(e.0) && FitsUint16(|e.0|) && FitsUint16(|e.1|)
      && body == EntryLayout(e.0, e.1) + e.2
  {
    var name := ReadBlock(body).value;
    var value := ReadBlock(name.1).value;
    AsciiDecodeRoundTrip(name.0);
    EntryFromBlocks(DecodeAscii(name.0).value, name.0, value.0, value.1);
  }

  /** The entries of expanded headers: `count` entries, read in order. */
  function ParseExpandedEntries(body: bytes, count: nat): (r: Result<(seq<string>, seq<bytes>, bytes)>)
    ensures r.Ok? ==> |r.value.0| == count && |r.value.1| == count
    ensures r.Err? ==> r.error == ValueError
  {
    if count == 0 then Ok(([], [], body))
    else
      var entry :- ReadEntry(body);
      var others :- ParseExpandedEntries(entry.2, count - 1);
      Ok(([entry.0] + others.0, [entry.1] + others.1, others.2))
  }

  /** `dict(zip(names, values))`: a later name overrides an earlier one. */
  function HeaderMap(names: seq<string>, values: seq<bytes>): (m: map<string, bytes>)
    requires |names| == |values|
    ensures m.Keys == set i | 0 <= i < |names| :: names[i]
  {
    if names == [] then map[]
    else HeaderMap(names[..|names| - 1], values[..|values| - 1])[names[|names| - 1] := values[|values| - 1]]
  }

  /** `parse_simple_headers(flags, payload, expected)`: the headers by name,
      and what is left of the stream. */
  function ParseSimpleHeaders(flags: int, body: bytes, expected: seq<string>): (r: Result<(map<string, bytes>, bytes)>)
    requires FitsUint16(flags)
    ensures r.Ok? ==> forall i :: 0 <= i < |expected| ==> expected[i] in r.value.0
    ensures r.Err? ==> r.error == ValueError
  {
    if MinimalFlagSet(flags) then
      var p :- ParseMinimalValues(body, |expected|);
      Ok((HeaderMap(expected, p.0), p.1))
    else
      var count :- ReadUint16(body);
      var entries :- ParseExpandedEntries(count.1, count.0);
      var m := HeaderMap(entries.0, entries.1);
      if forall i :: 0 <= i < |expected| ==> expected[i] in m then Ok((m, entries.2))
      else Err(ValueError)
  }

  // ---------------------------------------------------------------------
  // The layouts read from the front
  // ---------------------------------------------------------------------

  lemma ValuesFitCons(v: bytes, vs: seq<bytes>)
    ensures ValuesFit([v] + vs) <==> FitsUint16(|v|) && ValuesFit(vs)
  {
    assert forall i :: 0 <= i < |vs| ==> ([v] + vs)[i + 1] == vs[i];
    if ValuesFit([v] + vs) {
      assert ([v] + vs)[0] == v;
    }
  }

  lemma NamesFitCons(n: string, ns: seq<string>)
    ensures NamesFit([n] + ns) <==> IsAscii(n) && FitsUint16(|n|) && NamesFit(ns)
  {
    assert forall i :: 0 <= i < |ns| ==> ([n] + ns)[i + 1] == ns[i];
    if NamesFit([n] + ns) {
      assert ([n] + ns)[0] == n;
    }
  }

  /** Minimal headers start with the block of their first value. */
  lemma {:induction false} MinimalLayoutCons(v: bytes, vs: seq<bytes>)
    requires ValuesFit([v] + vs)
    ensures FitsUint16(|v|) && ValuesFit(vs)
    ensures MinimalLayout([v] + vs) == Uint16(|v|) + v + MinimalLayout(vs)
    decreases |vs|
  {
    ValuesFitCons(v, vs);
    if vs != [] {
      var init, w := vs[..|vs| - 1], vs[|vs| - 1];
      assert ([v] + vs)[..|vs|] == [v] + init;
      ValuesFitCons(v, init);
      assert ValuesFit([v] + init) by {
        assert forall i :: 0 <= i < |init| ==> init[i] == vs[i];
      }
      MinimalLayoutCons(v, init);
      ConcatAssoc(Uint16(|v|) + v, MinimalLayout(init), Uint16(|w|) + w);
      ConcatAssoc(MinimalLayout(init), Uint16(|w|), w);
      ConcatAssoc(Uint16(|v|) + v + MinimalLayout(init), Uint16(|w|), w);
    }
  }

  /** Expanded entries start with the name and value blocks of their first
      entry. */
  lemma {:induction false} ExpandedEntriesLayoutCons(n: string, ns: seq<string>, v: bytes, vs: seq<bytes>)
    requires |ns| == |vs| && NamesFit([n] + ns) && ValuesFit([v] + vs)
    ensures IsAscii(n) && FitsUint16(|n|) && FitsUint16(|v|) && NamesFit(ns) && ValuesFit(vs)
    ensures ExpandedEntriesLayout([n] + ns, [v] + vs)
         == EntryLayout(n, v) + ExpandedEntriesLayout(ns, vs)
    decreases |vs|
  {
    ValuesFitCons(v, vs);
    NamesFitCons(n, ns);
    if vs != [] {
      var initN, m := ns[..|ns| - 1], ns[|ns| - 1];
      var initV, w := vs[..|vs| - 1], vs[|vs| - 1];
      assert ns == initN + [m] && vs == initV + [w];
      assert [n] + ns == ([n] + initN) + [m] && [v] + vs == ([v] + initV) + [w];
      EntryLayoutIsLast([n] + initN, m, [v] + initV, w);
      ExpandedEntriesLayoutCons(n, initN, v, initV);
      EntryLayoutIsLast(initN, m, initV, w);
      ConcatAssoc(EntryLayout(n, v), ExpandedEntriesLayout(initN, initV), EntryLayout(m, w));
    }
  }

  /** The bytes of one expanded entry. */
  function EntryLayout(n: string, v: bytes): bytes
    requires IsAscii(n) && FitsUint16(|n|) && FitsUint16(|v|)
  {
    Uint16(|n|) + EncodeAscii(n).value + Uint16(|v|) + v
  }

  /** `ExpandedEntriesLayout` adds the entry of its last pair at the end. */
  lemma EntryLayoutIsLast(ns: seq<string>, n: string, vs: seq<bytes>, v: bytes)
    requires |ns| == |vs| && NamesFit(ns + [n]) && ValuesFit(vs + [v])
    ensures NamesFit(ns) && ValuesFit(vs) && IsAscii(n) && FitsUint16(|n|) && FitsUint16(|v|)
    ensures ExpandedEntriesLayout(ns + [n], vs + [v]) == ExpandedEntriesLayout(ns, vs) + EntryLayout(n, v)
  {
    assert (ns + [n])[..|ns|] == ns && (vs + [v])[..|vs|] == vs;
    assert (ns + [n])[|ns|] == n && (vs + [v])[|vs|] == v;
    assert NamesFit(ns) by {
      assert forall i :: 0 <= i < |ns| ==> ns[i] == (ns + [n])[i];
    }
    assert ValuesFit(vs) by {
      assert forall i :: 0 <= i < |vs| ==> vs[i] == (vs + [v])[i];
    }
    var e := ExpandedEntriesLayout(ns, vs);
    ConcatAssoc(e, Uint16(|n|) + EncodeAscii(n).value + Uint16(|v|), v);
    ConcatAssoc(e, Uint16(|n|) + EncodeAscii(n).value, Uint16(|v|));
    ConcatAssoc(e, Uint16(|n|), EncodeAscii(n).value);
  }

  // ---------------------------------------------------------------------
  // Parsing inverts the layouts
  // ---------------------------------------------------------------------

  /** A block is read back as its bytes, leaving what follows it. */
  lemma ReadBlockOf(v: bytes, rest: bytes)
    requires FitsUint16(|v|)
    ensures ReadBlock(Uint16(|v|) + v + rest) == Ok((v, rest))
  {
    var body := Uint16(|v|) + v + rest;
    var n := ReadUint16(body).value;
    assert body[..2] == Uint16(n.0) == Uint16(|v|);
    assert n.0 == |v|;
    assert n.1 == v + rest;
    assert (v + rest)[..|v|] == v && (v + rest)[|v|..] == rest;
  }

  /** Reading `|values|` values from minimal headers gives the values back
      and leaves what follows the headers. */
  lemma {:induction false} ParseMinimalRoundTrip(values: seq<bytes>, rest: bytes)
    requires ValuesFit(values)
    ensures ParseMinimalValues(MinimalLayout(values) + rest, |values|) == Ok((values, rest))
    decreases |values|
  {
    if values != [] {
      var v, tail := values[0], values[1..];
      assert values == [v] + tail;
      MinimalLayoutCons(v, tail);
      ParseMinimalRoundTrip(tail, rest);
      ConcatAssoc(Uint16(|v|) + v, MinimalLayout(tail), rest);
      ReadBlockOf(v, MinimalLayout(tail) + rest);
      var body := MinimalLayout(values) + rest;
      assert body == Uint16(|v|) + v + (MinimalLayout(tail) + rest);
      assert ReadBlock(body) == Ok((v, MinimalLayout(tail) + rest));
      assert ParseMinimalValues(MinimalLayout(tail) + rest, |values| - 1) == Ok((tail, rest));
    } else {
      assert MinimalLayout(values) + rest == rest;
    }
  }

  /** Conversely, whatever minimal headers are read were laid out as
      `MinimalLayout` of the values read. */
  lemma {:induction false} ParseMinimalLayout(body: bytes, count: nat)
    requires ParseMinimalValues(body, count).Ok?
    decreases count
    ensures var p := ParseMinimalValues(body, count).value;
      ValuesFit(p.0) && body == MinimalLayout(p.0) + p.1
  {
    if count > 0 {
      var first := ReadBlock(body).value;
      ParseMinimalLayout(first.1, count - 1);
      var others := ParseMinimalValues(first.1, count - 1).value;
      var v := first.0;
      ValuesFitCons(v, others.0);
      MinimalLayoutCons(v, others.0);
      ConcatAssoc(Uint16(|v|) + v, MinimalLayout(others.0), others.1);
    }
  }

  /** An entry is read back as its name and value, leaving what follows it. */
  lemma ReadEntryOf(n: string, v: bytes, rest: bytes)
    requires IsAscii(n) && FitsUint16(|n|) && FitsUint16(|v|)
    ensures ReadEntry(EntryLayout(n, v) + rest) == Ok((n, v, rest))
  {
    EntryThen(n, v, rest);
    ReadBlockOf(EncodeAscii(n).value, Uint16(|v|) + v + rest);
    AsciiRoundTrip(n);
    ReadBlockOf(v, rest);
  }

  /** Reading `|names|` entries from expanded header entries gives the names
      and values back and leaves what follows the entries. */
  lemma {:induction false} ParseExpandedRoundTrip(names: seq<string>, values: seq<bytes>, rest: bytes)
    requires |names| == |values| && NamesFit(names) && ValuesFit(values)
    ensures ParseExpandedEntries(ExpandedEntriesLayout(names, values) + rest, |names|) == Ok((names, values, rest))
    decreases |names|
  {
    if names != [] {
      var n, ns := names[0], names[1..];
      var v, vs := values[0], values[1..];
      assert names == [n] + ns && values == [v] + vs;
      ExpandedEntriesLayoutCons(n, ns, v, vs);
      ParseExpandedRoundTrip(ns, vs, rest);
      ConcatAssoc(EntryLayout(n, v), ExpandedEntriesLayout(ns, vs), rest);
      ReadEntryOf(n, v, ExpandedEntriesLayout(ns, vs) + rest);
    } else {
      assert ExpandedEntriesLayout(names, values) + rest == rest;
    }
  }

  /** The bytes of an entry followed by more bytes, grouped the way the
      parser reads them: the name block, then the value block and the rest. */
  lemma EntryThen(n: string, v: bytes, rest: bytes)
    requires IsAscii(n) && FitsUint16(|n|) && FitsUint16(|v|)
    ensures EntryLayout(n, v) + rest == Uint16(|n|) + EncodeAscii(n).value + (Uint16(|v|) + v + rest)
  {
    var u, a, w := Uint16(|n|), EncodeAscii(n).value, Uint16(|v|);
    ConcatAssoc(u + a, w + v, rest);
    ConcatAssoc(u + a, w, v);
    ConcatAssoc(w, v, rest);
  }

  /** A name block holding the ASCII encoding of a name, then a value block,
      make up the entry of that name and value. */
  lemma EntryFromBlocks(n: string, a: bytes, v: bytes, rest: bytes)
    requires EncodeAscii(n) == Ok(a) && FitsUint16(|a|) && FitsUint16(|v|)
    ensures IsAscii(n) && FitsUint16(|n|)
    ensures Uint16(|a|) + a + (Uint16(|v|) + v + rest) == EntryLayout(n, v) + rest
  {
    EntryThen(n, v, rest);
  }

  /** The value a name maps to is the one given with its last occurrence;
      with distinct names, every name maps to its own value. */
  lemma {:induction false} HeaderMapLookup(names: seq<string>, values: seq<bytes>, i: nat)
    requires |names| == |values| && i < |names|
    requires forall j :: i < j < |names| ==> names[j] != names[i]
    ensures names[i] in HeaderMap(names, values)
    ensures HeaderMap(names, values)[names[i]] == values[i]
  {
    if i < |names| - 1 {
      var initN, initV := names[..|names| - 1], values[..|values| - 1];
      HeaderMapLookup(initN, initV, i);
    }
  }

  /** `parse_simple_headers` reads back what `serialize_simple_headers`
      wrote for the same names, in either mode: the headers by name, and the
      rest of the stream untouched. */
  lemma SimpleHeadersRoundTrip(names: seq<string>, values: seq<bytes>, minimal: bool, rest: bytes)
    requires |names| == |values| && Serializable(names, values, minimal)
    ensures FitsUint16(FlagsWord(minimal))
    ensures ParseSimpleHeaders(FlagsWord(minimal), HeadersLayout(names, values, minimal) + rest, names)
         == Ok((HeaderMap(names, values), rest))
  {
    FlagsWordMode(minimal);
    if minimal {
      ParseMinimalRoundTrip(values, rest);
    } else {
      var entries := ExpandedEntriesLayout(names, values);
      ConcatAssoc(Uint16(|names|), entries, rest);
      var count := ReadUint16(Uint16(|names|) + entries + rest).value;
      assert count.0 == |names| by {
        assert (Uint16(|names|) + (entries + rest))[..2] == Uint16(count.0) == Uint16(|names|);
      }
      ParseExpandedRoundTrip(names, values, rest);
    }
  }
}
