/** What the current decoder (src/decode.c) computes, as functions of the
    input and a start position: each parser yields the value it builds and
    the position just past what it consumed, or the error it raises. The
    methods of module Decoder are proved to agree with these functions. */
module DecoderSpec {
  import opened Bytes
  import opened Values
  import opened Packing

  /** A parser's outcome: the value and the cursor after it. */
  type Parsed = Result<(Value, nat)>

  /** The position after the single optional `+` or `-` of an integer. */
  function SignEnd(s: seq<byte>, pos: nat): (q: nat)
    ensures pos <= q <= pos + 1
    ensures q == pos + 1 ==> At(s, pos) != NUL && !IsDigit(At(s, pos))
  {
    if At(s, pos) == CharMinus || At(s, pos) == CharPlus then pos + 1 else pos
  }

  /** parse_i (src/decode.c:6-21): `i`, an optional sign, a digit run read
      into a 32-bit `int`, `e`. The sign is consumed but not applied. */
  function ParseInt(s: seq<byte>, pos: nat): (r: Parsed)
    ensures r.Ok? ==> At(s, pos) == CharI && pos < r.value.1 <= |s|
    ensures r.Ok? ==> At(s, r.value.1 - 1) == CharE
    ensures r.Ok? ==> r.value.0.Int? && -IntMax - 1 <= r.value.0.n <= IntMax
  {
    if At(s, pos) != CharI then Err(NotAnInteger)
    else
      var from := SignEnd(s, pos + 1);
      var q := DigitsEnd(s, from);
      if At(s, q) != CharE then Err(InvalidTerminator)
      else
        DigitsEndRun(s, from);
        Ok((Int(Wrap32(DigitsValue(s[from..q]))), q + 1))
  }

  /** parse_s (src/decode.c:24-46) with each payload byte checked against
      the NUL before it is copied: a digit run n, `:`, then n bytes, none of
      them the NUL. */
  function ParseString(s: seq<byte>, pos: nat): (r: Parsed)
    ensures r.Ok? ==> IsDigit(At(s, pos)) && pos < r.value.1 <= |s|
    ensures r.Ok? ==> r.value.0.Str? && |r.value.0.bytes| <= IntMax
  {
    if !IsDigit(At(s, pos)) then Err(NotAString)
    else
      var q := DigitsEnd(s, pos);
      if At(s, q) != CharColon then Err(InvalidSeparator)
      else
        DigitsEndRun(s, pos);
        var n := DigitsValue(s[pos..q]);
        if n > IntMax then Err(StringTooLong)
        else if q + 1 + n > NulEnd(s, q + 1) then Err(PrematureEnd)
        else Ok((Str(s[q + 1..q + 1 + n]), q + 1 + n))
  }

  /** parse_switch (src/decode.c:161-173): dispatch on the leading byte.
      The kind of a value tells which byte it started at. */
  function ParseSwitch(s: seq<byte>, pos: nat): (r: Parsed)
    ensures r.Ok? ==> pos < r.value.1 <= |s|
    ensures r.Ok? ==> (r.value.0.Int? <==> At(s, pos) == CharI)
    ensures r.Ok? ==> (r.value.0.Str? <==> IsDigit(At(s, pos)))
    ensures r.Ok? ==> (r.value.0.Dict? <==> At(s, pos) == CharD)
    ensures r.Ok? ==> (IsListLike(r.value.0) <==> At(s, pos) == CharL)
    ensures At(s, pos) != CharI && At(s, pos) != CharD && At(s, pos) != CharL && !IsDigit(At(s, pos))
            ==> r == Err(UnexpectedToken)
    decreases |s| - pos, 2
  {
    var b := At(s, pos);
    if b == CharI then ParseInt(s, pos)
    else if b == CharD then ParseDict(s, pos)
    else if b == CharL then ParseList(s, pos)
    else if IsDigit(b) then ParseString(s, pos)
    else Err(UnexpectedToken)
  }

  predicate IsListLike(v: Value)
  {
    v.List? || v.IntVec? || v.StrVec?
  }

  /** parse_l (src/decode.c:99-157): `l`, elements up to `e`, packed. */
  function ParseList(s: seq<byte>, pos: nat): (r: Parsed)
    ensures r.Ok? ==> At(s, pos) == CharL && pos < r.value.1 <= |s|
    ensures r.Ok? ==> IsListLike(r.value.0)
    decreases |s| - pos, 1
  {
    if At(s, pos) != CharL then Err(NotAList)
    else
      match ListItems(s, pos + 1)
      case Err(e) => Err(e)
      case Ok((vs, q)) => Ok((Pack(vs), q))
  }

  /** The element loop of parse_l (src/decode.c:110-115) and the `e` after
      it: the elements in encounter order and the position past the `e`. */
  function ListItems(s: seq<byte>, pos: nat): (r: Result<(seq<Value>, nat)>)
    ensures r.Ok? ==> pos < r.value.1 <= |s| && At(s, r.value.1 - 1) == CharE
    decreases |s| - pos, 4
  {
    if At(s, pos) == CharE then Ok(([], pos + 1))
    else
      match ListElement(s, pos)
      case Err(e) => Err(e)
      case Ok((v, p)) =>
        match ListItems(s, p)
        case Err(e) => Err(e)
        case Ok((vs, q)) => Ok(([v] + vs, q))
  }

  /** One pass of the body of that loop (src/decode.c:111-113): the byte
      under the cursor must not be the NUL, then an element follows. */
  function ListElement(s: seq<byte>, pos: nat): (r: Parsed)
    ensures r.Ok? ==> pos < r.value.1 <= |s|
    ensures At(s, pos) == NUL ==> r == Err(UnterminatedList)
    decreases |s| - pos, 3
  {
    if At(s, pos) == NUL then Err(UnterminatedList) else ParseSwitch(s, pos)
  }

  /** parse_d (src/decode.c:49-96): `d`, key/value pairs up to `e`. */
  function ParseDict(s: seq<byte>, pos: nat): (r: Parsed)
    ensures r.Ok? ==> At(s, pos) == CharD && pos < r.value.1 <= |s|
    ensures r.Ok? ==> r.value.0.Dict? && |r.value.0.names| == |r.value.0.values|
    decreases |s| - pos, 1
  {
    if At(s, pos) != CharD then Err(NotADict)
    else
      match DictEntries(s, pos + 1)
      case Err(e) => Err(e)
      case Ok((ks, vs, q)) => Ok((Dict(ks, vs), q))
  }

  /** The pair loop of parse_d (src/decode.c:57-65): the keys and the
      values in encounter order and the position past the `e`. */
  function DictEntries(s: seq<byte>, pos: nat): (r: Result<(seq<seq<byte>>, seq<Value>, nat)>)
    ensures r.Ok? ==> |r.value.0| == |r.value.1|
    ensures r.Ok? ==> pos < r.value.2 <= |s| && At(s, r.value.2 - 1) == CharE
    decreases |s| - pos, 1
  {
    if At(s, pos) == CharE then Ok(([], [], pos + 1))
    else
      match DictPair(s, pos)
      case Err(e) => Err(e)
      case Ok(((k, v), p)) =>
        match DictEntries(s, p)
        case Err(e) => Err(e)
        case Ok((ks, vs, q)) => Ok(([k.bytes] + ks, [v] + vs, q))
  }

  /** One pass of the body of that loop (src/decode.c:58-63): the byte
      under the cursor must not be the NUL and must be a digit, then a key
      string and a value follow. */
  function DictPair(s: seq<byte>, pos: nat): (r: Result<((Value, Value), nat)>)
    ensures r.Ok? ==> IsDigit(At(s, pos)) && pos < r.value.1 <= |s| && r.value.0.0.Str?
    ensures At(s, pos) == NUL ==> r == Err(UnterminatedDict)
    ensures At(s, pos) != NUL && !IsDigit(At(s, pos)) ==> r == Err(NonStringKey)
    decreases |s| - pos, 0
  {
    if At(s, pos) == NUL then Err(UnterminatedDict)
    else if !IsDigit(At(s, pos)) then Err(NonStringKey)
    else
      match ParseString(s, pos)
      case Err(e) => Err(e)
      case Ok((k, p)) =>
        match ParseSwitch(s, p)
        case Err(e) => Err(e)
        case Ok((v, q)) => Ok(((k, v), q))
  }

  /** A run of already parsed elements put in front of the rest of a list. */
  function PrependItems(vs: seq<Value>, r: Result<(seq<Value>, nat)>): Result<(seq<Value>, nat)>
  {
    match r
    case Err(e) => Err(e)
    case Ok((ws, q)) => Ok((vs + ws, q))
  }

  /** Already parsed pairs put in front of the rest of a dictionary. */
  function PrependEntries(ks: seq<seq<byte>>, vs: seq<Value>, r: Result<(seq<seq<byte>>, seq<Value>, nat)>)
    : Result<(seq<seq<byte>>, seq<Value>, nat)>
  {
    match r
    case Err(e) => Err(e)
    case Ok((ks', vs', q)) => Ok((ks + ks', vs + vs', q))
  }

  /** Already parsed top-level items put in front of the rest. */
  function PrependTop(vs: seq<Value>, r: Result<seq<Value>>): Result<seq<Value>>
  {
    match r
    case Err(e) => Err(e)
    case Ok(ws) => Ok(vs + ws)
  }

  lemma PrependItemsCompose(vs: seq<Value>, ws: seq<Value>, r: Result<(seq<Value>, nat)>)
    ensures PrependItems([], r) == r
    ensures PrependItems(vs, PrependItems(ws, r)) == PrependItems(vs + ws, r)
  {
    if r.Ok? {
      assert [] + r.value.0 == r.value.0;
      assert vs + (ws + r.value.0) == vs + ws + r.value.0;
    }
  }

  lemma PrependEntriesCompose(ks: seq<seq<byte>>, vs: seq<Value>, ks': seq<seq<byte>>, vs': seq<Value>,
                              r: Result<(seq<seq<byte>>, seq<Value>, nat)>)
    ensures PrependEntries([], [], r) == r
    ensures PrependEntries(ks, vs, PrependEntries(ks', vs', r)) == PrependEntries(ks + ks', vs + vs', r)
  {
    if r.Ok? {
      assert [] + r.value.0 == r.value.0;
      assert [] + r.value.1 == r.value.1;
      assert ks + (ks' + r.value.0) == ks + ks' + r.value.0;
      assert vs + (vs' + r.value.1) == vs + vs' + r.value.1;
    }
  }

  lemma PrependTopCompose(vs: seq<Value>, ws: seq<Value>, r: Result<seq<Value>>)
    ensures PrependTop([], r) == r
    ensures PrependTop(vs, PrependTop(ws, r)) == PrependTop(vs + ws, r)
  {
    if r.Ok? {
      assert [] + r.value == r.value;
      assert vs + (ws + r.value) == vs + ws + r.value;
    }
  }

  /** The loop of parse_l (src/decode.c:110-115) read one element
      further: if the elements before `at` are `vs`, and the element at `at`
      is v and ends at p, then the elements before p are vs + [v]. */
  lemma ListItemsAdvance(s: seq<byte>, first: nat, vs: seq<Value>, at: nat, v: Value, p: nat)
    requires ListItems(s, first) == PrependItems(vs, ListItems(s, at))
    requires At(s, at) != CharE && ListElement(s, at) == Ok((v, p))
    ensures ListItems(s, first) == PrependItems(vs + [v], ListItems(s, p))
  {
    assert ListItems(s, at) == PrependItems([v], ListItems(s, p));
    PrependItemsCompose(vs, [v], ListItems(s, p));
  }

  /** The loop of parse_l meeting the NUL, or an element that fails: the
      whole list fails with that error. */
  lemma ListItemsError(s: seq<byte>, first: nat, vs: seq<Value>, at: nat)
    requires ListItems(s, first) == PrependItems(vs, ListItems(s, at))
    requires At(s, at) != CharE && ListElement(s, at).Err?
    ensures ListItems(s, first) == Err(ListElement(s, at).error)
  {
  }

  /** The loop of parse_l stopped at an `e`: the elements read are all. */
  lemma ListItemsClose(s: seq<byte>, first: nat, vs: seq<Value>, close: nat)
    requires ListItems(s, first) == PrependItems(vs, ListItems(s, close))
    requires At(s, close) == CharE
    ensures ListItems(s, first) == Ok((vs, close + 1))
  {
    assert vs + [] == vs;
  }

  /** The loop of parse_d (src/decode.c:57-64) read one pair further. */
  lemma DictEntriesAdvance(s: seq<byte>, first: nat, ks: seq<seq<byte>>, vs: seq<Value>,
                           at: nat, k: Value, v: Value, q: nat)
    requires DictEntries(s, first) == PrependEntries(ks, vs, DictEntries(s, at))
    requires At(s, at) != CharE && DictPair(s, at) == Ok(((k, v), q))
    ensures DictEntries(s, first) == PrependEntries(ks + [k.bytes], vs + [v], DictEntries(s, q))
  {
    assert DictEntries(s, at) == PrependEntries([k.bytes], [v], DictEntries(s, q));
    PrependEntriesCompose(ks, vs, [k.bytes], [v], DictEntries(s, q));
  }

  /** The loop of C_bdecode (src/decode.c:183-185): items until the NUL. */
  function TopItems(s: seq<byte>, pos: nat): (r: Result<seq<Value>>)
    ensures r.Ok? ==> (|r.value| == 0 <==> At(s, pos) == NUL)
    decreases |s| - pos
  {
    if At(s, pos) == NUL then Ok([])
    else
      match ParseSwitch(s, pos)
      case Err(e) => Err(e)
      case Ok((v, p)) =>
        match TopItems(s, p)
        case Err(e) => Err(e)
        case Ok(vs) => Ok([v] + vs)
  }

  /** The loop of parse_d meeting the NUL, a key that is not a string, or
      a key or value that fails: the whole dictionary fails with that
      error. */
  lemma DictEntriesError(s: seq<byte>, first: nat, ks: seq<seq<byte>>, vs: seq<Value>, at: nat)
    requires DictEntries(s, first) == PrependEntries(ks, vs, DictEntries(s, at))
    requires At(s, at) != CharE && DictPair(s, at).Err?
    ensures DictEntries(s, first) == Err(DictPair(s, at).error)
  {
  }

  /** The loop of parse_d stopped at an `e`: the pairs read are all. */
  lemma DictEntriesClose(s: seq<byte>, first: nat, ks: seq<seq<byte>>, vs: seq<Value>, close: nat)
    requires DictEntries(s, first) == PrependEntries(ks, vs, DictEntries(s, close))
    requires At(s, close) == CharE
    ensures DictEntries(s, first) == Ok((ks, vs, close + 1))
  {
    assert ks + [] == ks && vs + [] == vs;
  }

  /** The loop of C_bdecode (src/decode.c:183-185) read one item further. */
  lemma TopItemsAdvance(s: seq<byte>, vs: seq<Value>, at: nat, v: Value, p: nat)
    requires TopItems(s, 0) == PrependTop(vs, TopItems(s, at))
    requires At(s, at) != NUL
    requires ParseSwitch(s, at) == Ok((v, p))
    ensures TopItems(s, 0) == PrependTop(vs + [v], TopItems(s, p))
  {
    assert TopItems(s, at) == PrependTop([v], TopItems(s, p));
    PrependTopCompose(vs, [v], TopItems(s, p));
  }

  /** The loop of C_bdecode meeting an item that fails. */
  lemma TopItemsError(s: seq<byte>, vs: seq<Value>, at: nat)
    requires TopItems(s, 0) == PrependTop(vs, TopItems(s, at))
    requires At(s, at) != NUL && ParseSwitch(s, at).Err?
    ensures TopItems(s, 0) == Err(ParseSwitch(s, at).error)
  {
  }

  /** The loop of C_bdecode stopped at the NUL: the items read are all. */
  lemma TopItemsClose(s: seq<byte>, vs: seq<Value>, close: nat)
    requires TopItems(s, 0) == PrependTop(vs, TopItems(s, close))
    requires At(s, close) == NUL
    ensures TopItems(s, 0) == Ok(vs)
  {
    assert vs + [] == vs;
  }

  /** The bare item when there is one, the items in order when there are
      several, and R's NULL when there are none. */
  function Assemble(vs: seq<Value>): (d: Decoded)
    ensures d == Null <==> |vs| == 0
    ensures d.Bare? <==> |vs| == 1
    ensures d.Items? ==> |vs| > 1 && d.values == vs
  {
    if |vs| == 0 then Null else if |vs| == 1 then Bare(vs[0]) else Items(vs)
  }

  /** C_bdecode (src/decode.c:176-191). */
  function Decode(s: seq<byte>): (r: Result<Decoded>)
    ensures r.Ok? ==> (r.value == Null <==> At(s, 0) == NUL)
  {
    match TopItems(s, 0)
    case Err(e) => Err(e)
    case Ok(vs) => Ok(Assemble(vs))
  }
}
