/** `ws/parser.py`: every message parser declares the message types it
    handles; a lookup table indexed by message type is built once from the
    list of parsers, and the "any message" parser dispatches on it. The
    subscriber-to-broadcaster and broadcaster-to-subscriber halves of the
    file are the same code over two parser lists, so both are modelled by
    one generic definition over a parser type `P`. */
module ParserLookup {
  import opened Common
  import opened ByteCodec

  /** A parser class as far as the lookup sees it: something to delegate to
      and the result of its `relevant_types()`. */
  datatype Parser<P> = Parser(id: P, relevantTypes: seq<int>)

  // ---------------------------------------------------------------------
  // Specification
  // ---------------------------------------------------------------------

  /** The declared types of all parsers, parser by parser, in list order. */
  function AllTypes<P>(parsers: seq<Parser<P>>): seq<int> {
    if parsers == [] then []
    else AllTypes(parsers[..|parsers| - 1]) + parsers[|parsers| - 1].relevantTypes
  }

  predicate NonNegative(types: seq<int>) {
    forall i :: 0 <= i < |types| ==> types[i] >= 0
  }

  /** No type is declared twice, by one parser or by two. */
  predicate Distinct(types: seq<int>) {
    forall i, j :: 0 <= i < j < |types| ==> types[i] != types[j]
  }

  /** `largest_type` after the first loop: the running maximum, from 0. */
  function Largest(types: seq<int>): (m: int)
    ensures m >= 0
    ensures forall i :: 0 <= i < |types| ==> types[i] <= m
    ensures m == 0 || m in types
  {
    if types == [] then 0
    else
      var m := Largest(types[..|types| - 1]);
      if types[|types| - 1] > m then types[|types| - 1] else m
  }

  /** The parser that declares type `t`, if any (the last one to declare
      it, which is the only one when no type is declared twice). */
  function Owner<P>(parsers: seq<Parser<P>>, t: int): Option<P> {
    if parsers == [] then None
    else if t in parsers[|parsers| - 1].relevantTypes then Some(parsers[|parsers| - 1].id)
    else Owner(parsers[..|parsers| - 1], t)
  }

  /** The table construction builds: one slot per type from 0 to the
      largest declared type, holding the parser that declares it. */
  function Table<P>(parsers: seq<Parser<P>>): (table: seq<Option<P>>)
    ensures |table| == Largest(AllTypes(parsers)) + 1
  {
    seq(Largest(AllTypes(parsers)) + 1, t => Owner(parsers, t))
  }

  // ---------------------------------------------------------------------
  // Operations
  // ---------------------------------------------------------------------

  /** `_make_s2b_parser_lookup()` / `_make_b2s_parser_lookup()`. A first
      pass raises ValueError at the first negative type and otherwise
      computes the largest type and the number of declarations; the
      construction asserts that the largest type is below twice that
      number; a second pass fills a table of `largest + 1` empty slots,
      asserting that no slot is claimed twice. */
  method MakeParserLookup<P>(parsers: seq<Parser<P>>) returns (r: Result<seq<Option<P>>>)
    ensures !NonNegative(AllTypes(parsers)) ==> r == Err(ValueError)
    ensures NonNegative(AllTypes(parsers)) && Largest(AllTypes(parsers)) >= 2 * |AllTypes(parsers)|
            ==> r == Err(AssertionError)
    ensures NonNegative(AllTypes(parsers)) && !Distinct(AllTypes(parsers)) ==> r == Err(AssertionError)
    ensures r.Ok? <==> && NonNegative(AllTypes(parsers))
                       && Largest(AllTypes(parsers)) < 2 * |AllTypes(parsers)|
                       && Distinct(AllTypes(parsers))
    ensures r.Ok? ==> r.value == Table(parsers)
  {
    var counts :- ScanTypes(parsers);
    var (largest, total) := counts;
    if !(largest < 2 * total) {
      return Err(AssertionError);
    }
    var lookup := new Option<P>[largest + 1](_ => None);
    var filled := FillLookup(parsers, lookup);
    if !filled {
      return Err(AssertionError);
    }
    return Ok(lookup[..]);
  }

  /** The first pass of the construction: ValueError at the first negative
      type, otherwise `(largest_type, total_types)`. */
  method ScanTypes<P>(parsers: seq<Parser<P>>) returns (r: Result<(int, int)>)
    ensures !NonNegative(AllTypes(parsers)) ==> r == Err(ValueError)
    ensures NonNegative(AllTypes(parsers)) ==> r == Ok((Largest(AllTypes(parsers)), |AllTypes(parsers)|))
  {
    var largest := 0;
    var total := 0;
    for i := 0 to |parsers|
      invariant NonNegative(AllTypes(parsers[..i]))
      invariant largest == Largest(AllTypes(parsers[..i]))
      invariant total == |AllTypes(parsers[..i])|
    {
      var counts :- ScanParser(parsers, i, largest, total);
      largest, total := counts.0, counts.1;
    }
    assert parsers[..|parsers|] == parsers;
    return Ok((largest, total));
  }

  /** The inner loop of the first pass, for the parser at index `i`. */
  method ScanParser<P>(parsers: seq<Parser<P>>, i: nat, largest0: int, total0: int) returns (r: Result<(int, int)>)
    requires i < |parsers|
    requires NonNegative(AllTypes(parsers[..i]))
    requires largest0 == Largest(AllTypes(parsers[..i])) && total0 == |AllTypes(parsers[..i])|
    ensures r.Err? ==> r == Err(ValueError) && !NonNegative(AllTypes(parsers))
    ensures r.Ok? ==> && NonNegative(AllTypes(parsers[..i + 1]))
                      && r.value == (Largest(AllTypes(parsers[..i + 1])), |AllTypes(parsers[..i + 1])|)
  {
    var largest, total := largest0, total0;
    var types := parsers[i].relevantTypes;
    assert AllTypes(parsers[..i]) + types[..0] == AllTypes(parsers[..i]);
    for j := 0 to |types|
      invariant NonNegative(AllTypes(parsers[..i]) + types[..j])
      invariant largest == Largest(AllTypes(parsers[..i]) + types[..j])
      invariant total == |AllTypes(parsers[..i]) + types[..j]|
    {
      var typ := types[j];
      if typ < 0 {
        DeclaredIn(parsers, i, j);
        return Err(ValueError);
      }
      assert AllTypes(parsers[..i]) + types[..j + 1] == (AllTypes(parsers[..i]) + types[..j]) + [typ];
      if typ > largest {
        largest := typ;
      }
      total := total + 1;
    }
    assert types[..|types|] == types;
    AllTypesStep(parsers, i);
    return Ok((largest, total));
  }

  /** The second pass of the construction, on a table of empty slots that
      reaches the largest type: each declared type's slot gets its parser;
      false, with the table partly filled, when a slot is claimed twice. */
  method FillLookup<P>(parsers: seq<Parser<P>>, lookup: array<Option<P>>) returns (filled: bool)
    requires NonNegative(AllTypes(parsers)) && lookup.Length == Largest(AllTypes(parsers)) + 1
    requires forall t :: 0 <= t < lookup.Length ==> lookup[t].None?
    modifies lookup
    ensures filled <==> Distinct(AllTypes(parsers))
    ensures filled ==> lookup[..] == Table(parsers)
  {
    for i := 0 to |parsers|
      invariant forall t :: 0 <= t < lookup.Length ==> lookup[t] == Owner(parsers[..i], t)
      invariant Distinct(AllTypes(parsers[..i]))
    {
      filled := FillSlots(parsers, i, lookup);
      if !filled {
        return;
      }
    }
    assert parsers[..|parsers|] == parsers;
    return true;
  }

  /** The inner loop of the second pass, for the parser at index `i`: its
      types' slots get the parser, unless one of them is already taken. */
  method FillSlots<P>(parsers: seq<Parser<P>>, i: nat, lookup: array<Option<P>>) returns (filled: bool)
    requires i < |parsers|
    requires NonNegative(AllTypes(parsers)) && lookup.Length == Largest(AllTypes(parsers)) + 1
    requires forall t :: 0 <= t < lookup.Length ==> lookup[t] == Owner(parsers[..i], t)
    requires Distinct(AllTypes(parsers[..i]))
    modifies lookup
    ensures filled ==> Distinct(AllTypes(parsers[..i + 1]))
    ensures filled ==> forall t :: 0 <= t < lookup.Length ==> lookup[t] == Owner(parsers[..i + 1], t)
    ensures !filled ==> !Distinct(AllTypes(parsers))
  {
    var types := parsers[i].relevantTypes;
    var parser := parsers[i].id;
    ghost var seen := AllTypes(parsers[..i]);
    assert seen + types[..0] == seen;
    for j := 0 to |types|
      invariant forall t :: 0 <= t < lookup.Length ==>
        lookup[t] == if t in types[..j] then Some(parser) else Owner(parsers[..i], t)
      invariant Distinct(seen + types[..j])
    {
      var messageType := types[j];
      assert 0 <= messageType < lookup.Length by {
        DeclaredIn(parsers, i, j);
      }
      if lookup[messageType].Some? {
        assert messageType in seen + types[..j] by {
          OwnerDeclared(parsers[..i], messageType);
        }
        DuplicateInPrefix(parsers, i, j);
        return false;
      }
      assert messageType !in seen by {
        OwnerDeclared(parsers[..i], messageType);
      }
      DistinctExtend(seen, types, j);
      assert types[..j + 1] == types[..j] + [messageType];
      lookup[messageType] := Some(parser);
    }
    assert types[..|types|] == types;
    assert parsers[..i + 1][..i] == parsers[..i];
    AllTypesStep(parsers, i);
    return true;
  }

  /** `S2B_AnyMessageParser.relevant_types()` /
      `B2S_AnyMessageParser.relevant_types()`: every listed parser's types,
      appended in list order. */
  method AnyRelevantTypes<P>(parsers: seq<Parser<P>>) returns (result: seq<int>)
    ensures result == AllTypes(parsers)
  {
    result := [];
    for i := 0 to |parsers|
      invariant result == AllTypes(parsers[..i])
    {
      result := result + parsers[i].relevantTypes;
      AllTypesStep(parsers, i);
    }
    assert parsers[..|parsers|] == parsers;
  }

  /** `S2B_AnyMessageParser.parse(flags, type, payload)` /
      `B2S_AnyMessageParser.parse(..)` over a built table: ValueError for a
      negative type, a type past the end of the table and an empty slot;
      otherwise the slot's parser is called with the same arguments.
      `parse(p, ..)` stands for `p.parse(..)`. */
  function Dispatch<P, M>(table: seq<Option<P>>, parse: (P, int, int, bytes) -> Result<M>,
                          flags: int, messageType: int, payload: bytes): (r: Result<M>)
    ensures messageType < 0 || messageType >= |table| ==> r == Err(ValueError)
    ensures 0 <= messageType < |table| && table[messageType].None? ==> r == Err(ValueError)
    ensures 0 <= messageType < |table| && table[messageType].Some? ==>
      r == parse(table[messageType].value, flags, messageType, payload)
  {
    if messageType < 0 then Err(ValueError)
    else if messageType >= |table| then Err(ValueError)
    else
      match table[messageType]
      case None => Err(ValueError)
      case Some(parser) => parse(parser, flags, messageType, payload)
  }

  // ---------------------------------------------------------------------
  // Lemmas
  // ---------------------------------------------------------------------

  lemma AllTypesStep<P>(parsers: seq<Parser<P>>, i: nat)
    requires i < |parsers|
    ensures AllTypes(parsers[..i + 1]) == AllTypes(parsers[..i]) + parsers[i].relevantTypes
  {
    assert parsers[..i + 1][..i] == parsers[..i];
  }

  /** The Any parser's types are the in-order concatenation: the types of
      two lists appended are the types of each, appended. */
  lemma {:induction false} AllTypesAppend<P>(a: seq<Parser<P>>, b: seq<Parser<P>>)
    ensures AllTypes(a + b) == AllTypes(a) + AllTypes(b)
    decreases |b|
  {
    if b == [] {
      assert a + b == a;
    } else {
      var init, last := b[..|b| - 1], b[|b| - 1].relevantTypes;
      assert (a + b)[..|a + b| - 1] == a + init;
      assert AllTypes(a + b) == AllTypes(a + init) + last;
      AllTypesAppend(a, init);
      assert AllTypes(a + b) == AllTypes(a) + (AllTypes(init) + last);
    }
  }

  /** The types of a prefix of the list are a prefix of all the types. */
  lemma {:induction false} AllTypesPrefix<P>(parsers: seq<Parser<P>>, k: nat)
    requires k <= |parsers|
    ensures AllTypes(parsers[..k]) <= AllTypes(parsers)
  {
    assert parsers == parsers[..k] + parsers[k..];
    AllTypesAppend(parsers[..k], parsers[k..]);
  }

  /** A type is among all the types exactly when some parser declares it. */
  lemma {:induction false} AllTypesMembers<P>(parsers: seq<Parser<P>>, t: int)
    ensures t in AllTypes(parsers) <==> exists i :: 0 <= i < |parsers| && t in parsers[i].relevantTypes
  {
    if parsers != [] {
      var init := parsers[..|parsers| - 1];
      AllTypesMembers(init, t);
      if t in AllTypes(parsers) && t !in parsers[|parsers| - 1].relevantTypes {
        var i :| 0 <= i < |init| && t in init[i].relevantTypes;
        assert parsers[i] == init[i];
      }
      if exists i :: 0 <= i < |parsers| && t in parsers[i].relevantTypes {
        var i :| 0 <= i < |parsers| && t in parsers[i].relevantTypes;
        if i < |init| {
          assert init[i] == parsers[i];
        }
      }
    }
  }

  lemma DeclaredIn<P>(parsers: seq<Parser<P>>, i: nat, j: nat)
    requires i < |parsers| && j < |parsers[i].relevantTypes|
    ensures parsers[i].relevantTypes[j] in AllTypes(parsers)
  {
    AllTypesMembers(parsers, parsers[i].relevantTypes[j]);
  }

  /** Some parser claims a type exactly when it is declared. */
  lemma {:induction false} OwnerDeclared<P>(parsers: seq<Parser<P>>, t: int)
    ensures Owner(parsers, t).Some? <==> t in AllTypes(parsers)
  {
    if parsers != [] {
      OwnerDeclared(parsers[..|parsers| - 1], t);
    }
  }

  /** The parser in a slot declared that slot's type. */
  lemma {:induction false} OwnerDeclares<P>(parsers: seq<Parser<P>>, t: int)
    requires Owner(parsers, t).Some?
    ensures exists i :: 0 <= i < |parsers| && parsers[i].id == Owner(parsers, t).value && t in parsers[i].relevantTypes
  {
    var last := |parsers| - 1;
    if t !in parsers[last].relevantTypes {
      var init := parsers[..last];
      OwnerDeclares(init, t);
      var i :| 0 <= i < |init| && init[i].id == Owner(init, t).value && t in init[i].relevantTypes;
      assert parsers[i] == init[i];
    }
  }

  /** When no type is declared twice, every declared type is claimed by
      the parser that declared it. */
  lemma {:induction false} OwnerOfDeclared<P>(parsers: seq<Parser<P>>, i: nat, t: int)
    requires Distinct(AllTypes(parsers))
    requires i < |parsers| && t in parsers[i].relevantTypes
    ensures Owner(parsers, t) == Some(parsers[i].id)
  {
    var last := |parsers| - 1;
    var init := parsers[..last];
    if i < last {
      assert init[i] == parsers[i];
      AllTypesMembers(init, t);
      DistinctSplit(AllTypes(init), parsers[last].relevantTypes);
      OwnerOfDeclared(init, i, t);
    }
  }

  /** A type seen neither before the parser nor earlier in its own list
      keeps the types seen so far distinct. */
  lemma DistinctExtend(seen: seq<int>, types: seq<int>, j: nat)
    requires j < |types| && Distinct(seen + types[..j])
    requires types[j] !in seen && types[j] !in types[..j]
    ensures Distinct(seen + types[..j + 1])
  {
    assert seen + types[..j + 1] == (seen + types[..j]) + [types[j]];
  }

  /** Two sequences whose concatenation has no repeats have none each and
      share no element. */
  lemma DistinctSplit(a: seq<int>, b: seq<int>)
    requires Distinct(a + b)
    ensures Distinct(a) && Distinct(b)
    ensures forall x :: x in a ==> x !in b
  {
    forall x | x in a
      ensures x !in b
    {
      var k :| 0 <= k < |a| && a[k] == x;
      forall m | 0 <= m < |b|
        ensures b[m] != x
      {
        assert (a + b)[k] == x && (a + b)[|a| + m] == b[m];
      }
    }
    forall i, j | 0 <= i < j < |a|
      ensures a[i] != a[j]
    {
      assert (a + b)[i] == a[i] && (a + b)[j] == a[j];
    }
    forall i, j | 0 <= i < j < |b|
      ensures b[i] != b[j]
    {
      assert (a + b)[|a| + i] == b[i] && (a + b)[|a| + j] == b[j];
    }
  }

  /** A repeated type in the part of the declarations seen so far is a
      repeated type in all of them. */
  lemma DuplicateInPrefix<P>(parsers: seq<Parser<P>>, i: nat, j: nat)
    requires i < |parsers| && j < |parsers[i].relevantTypes|
    requires parsers[i].relevantTypes[j] in AllTypes(parsers[..i]) + parsers[i].relevantTypes[..j]
    ensures !Distinct(AllTypes(parsers))
  {
    var types := parsers[i].relevantTypes;
    var seen := AllTypes(parsers[..i]) + types[..j];
    var k :| 0 <= k < |seen| && seen[k] == types[j];
    AllTypesStep(parsers, i);
    AllTypesPrefix(parsers, i + 1);
    var all := AllTypes(parsers);
    assert seen + [types[j]] <= AllTypes(parsers[..i + 1]);
    assert all[k] == types[j] && all[|seen|] == types[j];
  }

  /** A successfully built table: slots run from 0 to the largest type;
      every declared type's slot holds the parser that declared it, and
      every other slot is empty. */
  lemma TableSlots<P>(parsers: seq<Parser<P>>, t: int)
    requires Distinct(AllTypes(parsers))
    ensures 0 <= t < |Table(parsers)| ==> (Table(parsers)[t].Some? <==> t in AllTypes(parsers))
    ensures forall i :: 0 <= i < |parsers| && t in parsers[i].relevantTypes && 0 <= t < |Table(parsers)|
              ==> Table(parsers)[t] == Some(parsers[i].id)
  {
    OwnerDeclared(parsers, t);
    forall i | 0 <= i < |parsers| && t in parsers[i].relevantTypes {
      OwnerOfDeclared(parsers, i, t);
    }
  }

  /** Dispatch on a successfully built table: a message whose type some
      parser declared goes to that parser with the same flags, type and
      payload; any other type is refused with ValueError. */
  lemma DispatchTable<P, M>(parsers: seq<Parser<P>>, parse: (P, int, int, bytes) -> Result<M>,
                            flags: int, messageType: int, payload: bytes)
    requires NonNegative(AllTypes(parsers)) && Distinct(AllTypes(parsers))
    ensures messageType !in AllTypes(parsers) ==>
      Dispatch(Table(parsers), parse, flags, messageType, payload) == Err(ValueError)
    ensures forall i :: 0 <= i < |parsers| && messageType in parsers[i].relevantTypes ==>
      Dispatch(Table(parsers), parse, flags, messageType, payload) == parse(parsers[i].id, flags, messageType, payload)
  {
    TableSlots(parsers, messageType);
    var all := AllTypes(parsers);
    if messageType in all {
      var k :| 0 <= k < |all| && all[k] == messageType;
      assert 0 <= messageType <= Largest(all);
    }
    forall i | 0 <= i < |parsers| && messageType in parsers[i].relevantTypes
      ensures messageType in all
    {
      AllTypesMembers(parsers, messageType);
    }
  }
}
