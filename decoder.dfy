/** The current decoder, src/decode.c, as the code runs: every parser moves
    the shared cursor forward, container parsers accumulate their
    results by prepending cons cells, reverse them with reversePairList and
    copy them into freshly allocated vectors. Each parser is proved to agree
    with its counterpart in DecoderSpec.

    The cursor `const char **c` that the parsers advance through a pointer
    is an in/out position: each method takes the position `*c` holds on
    entry and returns the position it holds on exit. */
module Decoder {
  import opened Bytes
  import opened Values
  import opened PairList
  import opened Packing
  import Spec = DecoderSpec

  /** parse_i (src/decode.c:6-21). `ans` is a C `int`: every step of the
      accumulation wraps to 32 bits. `sig` is set and never used. */
  method ParseI(s: seq<byte>, start: nat) returns (r: Result<Value>, pos: nat)
    requires start <= |s|
    ensures Agrees(r, pos, Spec.ParseInt(s, start))
  {
    pos := start;
    if At(s, pos) != CharI {
      return Err(NotAnInteger), pos;
    }
    pos := pos + 1;
    var ans, sig := 0, 1;
    if At(s, pos) == CharMinus {
      sig := -1;
      pos := pos + 1;
    } else if At(s, pos) == CharPlus {
      pos := pos + 1;
    }
    ghost var from := pos;
    assert from == Spec.SignEnd(s, start + 1);
    while At(s, pos) != NUL && IsDigit(At(s, pos))
      invariant from <= pos <= |s| && DigitsEnd(s, pos) == DigitsEnd(s, from)
      invariant AllDigits(s[from..pos])
      invariant ans == Wrap32(DigitsValue(s[from..pos]))
      decreases |s| - pos
    {
      AccumulateStep(s, from, pos, ans);
      ans := Wrap32(ans * 10 + (At(s, pos) - CharZero) as int);
      pos := pos + 1;
    }
    if At(s, pos) != CharE {
      return Err(InvalidTerminator), pos;
    }
    pos := pos + 1;
    r := Ok(Int(ans));
  }

  /** parse_s (src/decode.c:24-46), with the copy loop testing the byte it
      copies: the code tests `*((*c)++)`, the byte before the one it copies
      (see ParseStringAsWritten); here the cursor moves first and the byte
      under it is tested, `*(++(*c))`. */
  method ParseS(s: seq<byte>, start: nat) returns (r: Result<Value>, pos: nat)
    requires start <= |s|
    ensures Agrees(r, pos, Spec.ParseString(s, start))
  {
    pos := start;
    if !IsDigit(At(s, pos)) {
      return Err(NotAString), pos;
    }
    var len := 0;
    while At(s, pos) != NUL && IsDigit(At(s, pos))
      invariant start <= pos <= |s| && DigitsEnd(s, pos) == DigitsEnd(s, start)
      invariant AllDigits(s[start..pos])
      invariant len == DigitsValue(s[start..pos])
      decreases |s| - pos
    {
      DigitsValueSnoc(s, start, pos);
      len := len * 10 + (At(s, pos) - CharZero) as int;
      pos := pos + 1;
    }
    if At(s, pos) != CharColon {
      return Err(InvalidSeparator), pos;
    }
    if len > IntMax {
      return Err(StringTooLong), pos;
    }
    var payload;
    payload, pos := CopyPayload(s, pos, len);
    if payload.Err? {
      return Err(payload.error), pos;
    }
    r := Ok(Str(payload.value));
  }

  /** The copy loop of parse_s (src/decode.c:35-43) from the `:` at `sep`:
      `len` bytes, each tested against the NUL before it is copied, and the
      step past the last one. */
  method CopyPayload(s: seq<byte>, sep: nat, len: nat) returns (r: Result<seq<byte>>, pos: nat)
    requires sep < |s|
    ensures sep + 1 + len > NulEnd(s, sep + 1) ==> r == Err(PrematureEnd)
    ensures sep + 1 + len <= NulEnd(s, sep + 1) ==> sep + 1 + len <= |s| && r == Ok(s[sep + 1..sep + 1 + len]) && pos == sep + 1 + len
  {
    var newc := new byte[len];
    pos := sep;
    var i := 0;
    while i != len
      invariant 0 <= i <= len
      invariant pos == sep + i < |s|
      invariant NulEnd(s, pos + 1) == NulEnd(s, sep + 1)
      invariant forall j :: 0 <= j < i ==> newc[j] == s[sep + 1 + j]
      decreases len - i
    {
      pos := pos + 1;
      if At(s, pos) == NUL {
        return Err(PrematureEnd), pos;
      }
      newc[i] := s[pos];
      i := i + 1;
    }
    pos := pos + 1;
    assert newc[..] == s[sep + 1..sep + 1 + len];
    r := Ok(newc[..]);
  }

  /** parse_switch (src/decode.c:161-173). */
  method ParseSwitch(s: seq<byte>, start: nat) returns (r: Result<Value>, pos: nat)
    requires start <= |s|
    ensures Agrees(r, pos, Spec.ParseSwitch(s, start))
    decreases |s| - start, 2
  {
    var b := At(s, start);
    if b == CharI {
      r, pos := ParseI(s, start);
    } else if b == CharD {
      r, pos := ParseD(s, start);
    } else if b == CharL {
      r, pos := ParseL(s, start);
    } else if IsDigit(b) {
      r, pos := ParseS(s, start);
    } else {
      r, pos := Err(UnexpectedToken), start;
    }
  }

  /** parse_l's `same` after the elements `items`, computed as the loop
      does: set when the first byte is 'i' or a digit, then cleared by the
      first element whose kind differs from `prev`. */
  ghost function SameFlag(lead: byte, items: seq<Value>): (same: bool)
    ensures same ==> lead == CharI || IsDigit(lead)
    decreases |items|
  {
    if |items| == 0 then lead == CharI || IsDigit(lead)
    else
      var last := items[|items| - 1];
      SameFlag(lead, items[..|items| - 1])
      && ((Tag(lead) == CharS && last.Str?) || (Tag(lead) == CharI && last.Int?))
  }

  /** `same` holds exactly when the first byte is 'i' and every element is
      an integer, or the first byte is a digit and every element a string. */
  lemma {:induction false} SameFlagMeans(lead: byte, items: seq<Value>)
    ensures SameFlag(lead, items) <==> (lead == CharI && AllInt(items)) || (IsDigit(lead) && AllStr(items))
    decreases |items|
  {
    if |items| > 0 {
      var init := items[..|items| - 1];
      SameFlagMeans(lead, init);
      assert forall k :: 0 <= k < |init| ==> init[k] == items[k];
      assert AllInt(items) <==> AllInt(init) && items[|items| - 1].Int?;
      assert AllStr(items) <==> AllStr(init) && items[|items| - 1].Str?;
    }
  }

  /** How parse_l's flags relate to the elements read so far; the first
      element's kind is the one its leading byte announces. */
  ghost predicate Homogeneity(same: bool, prev: byte, lead: byte, items: seq<Value>)
  {
    && prev == Tag(lead)
    && same == SameFlag(lead, items)
    && (|items| > 0 ==> (items[0].Int? <==> lead == CharI) && (items[0].Str? <==> IsDigit(lead)))
  }

  /** The update of `same` in parse_l's loop (src/decode.c:113) for an
      element v that starts with byte b: it stays set only while b matches
      `prev`, a digit for 's' and 'i' for 'i'. */
  lemma HomogeneityStep(same: bool, prev: byte, lead: byte, items: seq<Value>, b: byte, v: Value)
    requires Homogeneity(same, prev, lead, items)
    requires |items| == 0 ==> b == lead
    requires v.Int? <==> b == CharI
    requires v.Str? <==> IsDigit(b)
    ensures Homogeneity(same && ((prev == CharS && IsDigit(b)) || (prev == CharI && b == CharI)), prev, lead, items + [v])
  {
    assert (items + [v])[..|items|] == items;
  }

  /** What the flags tell the packing step: an integer vector, a string
      vector, or a generic vector of the elements. */
  lemma HomogeneityPack(same: bool, prev: byte, lead: byte, items: seq<Value>)
    requires Homogeneity(same, prev, lead, items) && |items| > 0
    ensures same ==> prev == CharI || prev == CharS
    ensures same && prev == CharI ==> AllInt(items) && Pack(items) == IntVec(Ints(items))
    ensures same && prev == CharS ==> AllStr(items) && Pack(items) == StrVec(Strs(items))
    ensures !same ==> Pack(items) == List(items)
  {
    SameFlagMeans(lead, items);
  }

  /** parse_l (src/decode.c:99-157). */
  method ParseL(s: seq<byte>, start: nat) returns (r: Result<Value>, pos: nat)
    requires start <= |s|
    ensures Agrees(r, pos, Spec.ParseList(s, start))
    decreases |s| - start, 1
  {
    pos := start;
    if At(s, pos) != CharL {
      return Err(NotAList), pos;
    }
    pos := pos + 1;
    var res, len, same, prev; ghost var cells, items;
    res, pos, len, same, prev, cells, items := ListLoop(s, pos);
    if res.Err? {
      return Err(res.error), pos;
    }
    pos := pos + 1;
    FreshAll(cells);
    r := PackList(res.value, cells, len, same, prev, At(s, start + 1), items);
  }

  /** The flags before parse_l's first element (src/decode.c:105-108): set
      when the element starts with 'i' or a digit, with `prev` its kind. */
  method StartFlags(b: byte) returns (same: bool, prev: byte)
    ensures Homogeneity(same, prev, b, [])
  {
    same, prev := false, b;
    if b == CharI {
      same, prev := true, CharI;
    } else if IsDigit(b) {
      same, prev := true, CharS;
    }
  }

  /** The flags and the element loop of parse_l (src/decode.c:104-115),
      up to the `e` that ends it: the list of cells, the last element first,
      its length and the flags `same` and `prev`. */
  method ListLoop(s: seq<byte>, first: nat)
    returns (r: Result<Cell?<Value>>, pos: nat, len: nat, same: bool, prev: byte,
             ghost cells: seq<Cell<Value>>, ghost items: seq<Value>)
    requires first <= |s|
    ensures r.Err? ==> Spec.ListItems(s, first) == Err(r.error)
    ensures r.Ok? ==> pos < |s| && Spec.ListItems(s, first) == Ok((items, pos + 1))
    ensures r.Ok? ==> Stacked(r.value, cells, items) && len == |items|
    ensures r.Ok? ==> Homogeneity(same, prev, At(s, first), items)
    ensures r.Ok? ==> Fresh(cells)
    decreases |s| - first, 4
  {
    ghost var lead := At(s, first);
    Spec.PrependItemsCompose([], [], Spec.ListItems(s, first));
    pos := first;
    var ans: Cell?<Value> := null;
    cells, items := [], [];
    len := 0;
    same, prev := StartFlags(At(s, pos));
    while At(s, pos) != CharE
      invariant first <= pos <= |s|
      invariant |items| == 0 ==> pos == first
      invariant Spec.ListItems(s, first) == Spec.PrependItems(items, Spec.ListItems(s, pos))
      invariant Stacked(ans, cells, items)
      invariant Fresh(cells)
      invariant len == |items|
      invariant Homogeneity(same, prev, lead, items)
      decreases |s| - pos
    {
      ghost var at := pos;
      var step; ghost var v;
      step, pos, same, v := ListStep(s, pos, ans, cells, items, same, prev, lead);
      if step.Err? {
        Spec.ListItemsError(s, first, items, at);
        return Err(step.error), pos, len, same, prev, cells, items;
      }
      len := len + 1;
      ans := step.value;
      FreshCons(ans, cells);
      cells := [ans] + cells;
      Spec.ListItemsAdvance(s, first, items, at, v, pos);
      items := items + [v];
    }
    Spec.ListItemsClose(s, first, items, pos);
    r := Ok(ans);
  }

  /** The body of parse_l's loop (src/decode.c:111-113): the NUL check, the
      update of `same` by the byte the element starts with, and the element
      put in a fresh cell in front of `ans`. `len++` is left to the caller. */
  method ListStep(s: seq<byte>, at: nat, ans: Cell?<Value>, ghost cells: seq<Cell<Value>>, ghost items: seq<Value>,
                  same: bool, prev: byte, ghost lead: byte)
    returns (r: Result<Cell<Value>>, pos: nat, same': bool, ghost v: Value)
    requires at <= |s|
    requires Stacked(ans, cells, items)
    requires Homogeneity(same, prev, lead, items)
    requires |items| == 0 ==> At(s, at) == lead
    ensures r.Err? ==> Spec.ListElement(s, at) == Err(r.error)
    ensures r.Ok? ==> Spec.ListElement(s, at) == Ok((v, pos)) && at < pos <= |s|
    ensures r.Ok? ==> fresh(r.value)
    ensures r.Ok? ==> Stacked(r.value, [r.value] + cells, items + [v])
    ensures r.Ok? ==> Homogeneity(same', prev, lead, items + [v])
    decreases |s| - at, 3
  {
    if At(s, at) == NUL {
      return Err(UnterminatedList), at, same, List([]);
    }
    var b := At(s, at);
    same' := same && ((prev == CharS && IsDigit(b)) || (prev == CharI && b == CharI));
    var w;
    w, pos := ParseSwitch(s, at);
    if w.Err? {
      return Err(w.error), pos, same', List([]);
    }
    v := w.value;
    HomogeneityStep(same, prev, lead, items, b, v);
    var cell := Cons(w.value, ans, cells, items);
    r := Ok(cell);
  }

  /** The end of parse_l (src/decode.c:120-156): an empty generic vector
      when no element was read; otherwise the cells are reversed into
      encounter order and copied into an integer vector, a string vector or
      a generic vector, as the flags say.
      The cells are relinked in place and no caller reads them again, so
      their final links are left unstated. */
  method PackList(ans: Cell?<Value>, ghost cells: seq<Cell<Value>>, len: nat, same: bool, prev: byte,
                  ghost lead: byte, ghost items: seq<Value>)
    returns (r: Result<Value>)
    requires Stacked(ans, cells, items)
    requires len == |items|
    requires Homogeneity(same, prev, lead, items)
    modifies cells
    ensures r == Ok(Pack(items))
  {
    if len == 0 {
      return Ok(List([]));
    }
    StackedChain(ans, cells, items);
    var res := ReversePairList(ans, cells);
    assert res.Ok?;
    var rev := res.value;
    ghost var rcells := Reverse(cells);
    CarsReverse(cells);
    ReverseReverse(items);
    assert Cars(rcells) == items;
    HomogeneityPack(same, prev, lead, items);
    if same && prev == CharI {
      var ns := IntVector(rev, rcells, len);
      r := Ok(IntVec(ns));
    } else if same && prev == CharS {
      var ss := StrVector(rev, rcells, len);
      r := Ok(StrVec(ss));
    } else {
      var vs := ToVector(rev, rcells);
      r := Ok(List(vs));
    }
  }

  /** The fill loop of parse_d (src/decode.c:84-87): walks the key and the
      value lists together, copying each key's bytes into `nms` and each
      value into `ans`. */
  method DictVectors(k: Cell<Value>, ghost kcells: seq<Cell<Value>>, d: Cell<Value>, ghost dcells: seq<Cell<Value>>, len: nat)
    returns (names: seq<seq<byte>>, values: seq<Value>)
    requires Chain(k, kcells) && Chain(d, dcells)
    requires len == |kcells| == |dcells|
    requires AllStr(Cars(kcells))
    ensures names == Strs(Cars(kcells)) && values == Cars(dcells)
  {
    CarsIndex(kcells);
    CarsIndex(dcells);
    StrsIndex(Cars(kcells));
    ghost var keys, vals := Strs(Cars(kcells)), Cars(dcells);
    var nms := new seq<byte>[len];
    var ans := new Value[len](_ => List([]));
    var K: Cell?<Value>, D: Cell?<Value> := k, d;
    var i := 0;
    while K != null
      invariant 0 <= i <= len
      invariant K == if i < len then kcells[i] else null
      invariant D == if i < len then dcells[i] else null
      invariant forall j :: 0 <= j < i ==> nms[j] == keys[j] && ans[j] == vals[j]
      decreases len - i
    {
      assert Cars(kcells)[i] == K.car;
      nms[i] := K.car.bytes;
      ans[i] := D.car;
      i, K, D := i + 1, K.cdr, D.cdr;
    }
    names, values := nms[..], ans[..];
  }

  /** parse_d (src/decode.c:49-96). */
  method ParseD(s: seq<byte>, start: nat) returns (r: Result<Value>, pos: nat)
    requires start <= |s|
    ensures Agrees(r, pos, Spec.ParseDict(s, start))
    decreases |s| - start, 1
  {
    pos := start;
    if At(s, pos) != CharD {
      return Err(NotADict), pos;
    }
    pos := pos + 1;
    var res, len; ghost var kcells, dcells, keys, vals;
    res, pos, len, kcells, dcells, keys, vals := DictLoop(s, pos);
    if res.Err? {
      return Err(res.error), pos;
    }
    pos := pos + 1;
    FreshAll(kcells);
    FreshAll(dcells);
    r := BuildDict(res.value.0, kcells, res.value.1, dcells, len, keys, vals);
  }

  /** The pair loop of parse_d (src/decode.c:54-64), up to the `e` that
      ends it: the key and the value lists, each the last pair first, and
      their common length. */
  method DictLoop(s: seq<byte>, first: nat)
    returns (r: Result<(Cell?<Value>, Cell?<Value>)>, pos: nat, len: nat,
             ghost kcells: seq<Cell<Value>>, ghost dcells: seq<Cell<Value>>,
             ghost keys: seq<Value>, ghost vals: seq<Value>)
    requires first <= |s|
    ensures r.Err? ==> Spec.DictEntries(s, first) == Err(r.error)
    ensures r.Ok? ==> DictStacks(r.value.0, kcells, keys, r.value.1, dcells, vals) && len == |keys|
    ensures r.Ok? ==> pos < |s| && Spec.DictEntries(s, first) == Ok((Strs(keys), vals, pos + 1))
    ensures r.Ok? ==> Fresh(kcells) && Fresh(dcells)
    decreases |s| - first, 1
  {
    Spec.PrependEntriesCompose([], [], [], [], Spec.DictEntries(s, first));
    pos := first;
    var K: Cell?<Value>, D: Cell?<Value> := null, null;
    kcells, dcells := [], [];
    keys, vals := [], [];
    len := 0;
    while At(s, pos) != CharE
      invariant first <= pos <= |s|
      invariant DictStacks(K, kcells, keys, D, dcells, vals) && len == |keys|
      invariant Spec.DictEntries(s, first) == Spec.PrependEntries(Strs(keys), vals, Spec.DictEntries(s, pos))
      invariant Fresh(kcells) && Fresh(dcells)
      decreases |s| - pos
    {
      ghost var at := pos;
      var step; ghost var key, v;
      step, pos, key, v := DictStep(s, pos, K, kcells, keys, D, dcells, vals);
      if step.Err? {
        Spec.DictEntriesError(s, first, Strs(keys), vals, at);
        return Err(step.error), pos, len, kcells, dcells, keys, vals;
      }
      FreshCons(step.value.0, kcells);
      FreshCons(step.value.1, dcells);
      len := len + 1;
      K, D := step.value.0, step.value.1;
      kcells, dcells := [step.value.0] + kcells, [step.value.1] + dcells;
      Spec.DictEntriesAdvance(s, first, Strs(keys), vals, at, key, v, pos);
      StrsSnoc(keys, key);
      keys, vals := keys + [key], vals + [v];
    }
    Spec.DictEntriesClose(s, first, Strs(keys), vals, pos);
    r := Ok((K, D));
  }

  /** parse_d's two accumulated lists: the keys, all strings, and the
      values, each stacked the last pair first, as many of one as of the
      other, in cells of their own. */
  ghost predicate DictStacks(K: Cell?<Value>, kcells: seq<Cell<Value>>, keys: seq<Value>,
                             D: Cell?<Value>, dcells: seq<Cell<Value>>, vals: seq<Value>)
    reads kcells, dcells
  {
    && Stacked(K, kcells, keys) && Stacked(D, dcells, vals)
    && Disjoint(kcells, dcells) && AllStr(keys) && |keys| == |vals|
  }

  /** The body of parse_d's loop (src/decode.c:58-63): the NUL and digit
      checks, then parse_s for the key and parse_switch for the value, each
      put in front of its list in a fresh cell. The key's cell is allocated
      once the value is parsed too; a failing value raises an R error, so
      no caller sees the difference. */
  method DictStep(s: seq<byte>, at: nat, K: Cell?<Value>, ghost kcells: seq<Cell<Value>>, ghost keys: seq<Value>,
                  D: Cell?<Value>, ghost dcells: seq<Cell<Value>>, ghost vals: seq<Value>)
    returns (r: Result<(Cell<Value>, Cell<Value>)>, pos: nat, ghost key: Value, ghost v: Value)
    requires at <= |s|
    requires DictStacks(K, kcells, keys, D, dcells, vals)
    ensures r.Err? ==> Spec.DictPair(s, at) == Err(r.error)
    ensures r.Ok? ==> Spec.DictPair(s, at) == Ok(((key, v), pos)) && key.Str?
    ensures r.Ok? ==> fresh(r.value.0) && fresh(r.value.1)
    ensures r.Ok? ==> DictStacks(r.value.0, [r.value.0] + kcells, keys + [key], r.value.1, [r.value.1] + dcells, vals + [v])
    decreases |s| - at, 0
  {
    pos := at;
    if At(s, pos) == NUL {
      return Err(UnterminatedDict), pos, List([]), List([]);
    }
    if !IsDigit(At(s, pos)) {
      return Err(NonStringKey), pos, List([]), List([]);
    }
    var k, w;
    k, pos := ParseS(s, pos);
    if k.Err? {
      return Err(k.error), pos, List([]), List([]);
    }
    w, pos := ParseSwitch(s, pos);
    if w.Err? {
      return Err(w.error), pos, List([]), List([]);
    }
    key, v := k.value, w.value;
    var K' := Cons(k.value, K, kcells, keys);
    var D' := Cons(w.value, D, dcells, vals);
    DisjointCons(K', kcells, D', dcells);
    assert AllStr(keys + [key]) by {
      assert forall j :: 0 <= j < |keys| ==> (keys + [key])[j] == keys[j];
    }
    r := Ok((K', D'));
  }

  /** The end of parse_d (src/decode.c:67-91): an empty dictionary when no
      pair was read; otherwise both lists are reversed into encounter order
      and copied into the names and the values of the dictionary.
      The cells are relinked in place and no caller reads them again, so
      their final links are left unstated. */
  method BuildDict(K: Cell?<Value>, ghost kcells: seq<Cell<Value>>, D: Cell?<Value>, ghost dcells: seq<Cell<Value>>,
                   len: nat, ghost keys: seq<Value>, ghost vals: seq<Value>)
    returns (r: Result<Value>)
    requires DictStacks(K, kcells, keys, D, dcells, vals) && len == |keys|
    modifies kcells, dcells
    ensures r == Ok(Dict(Strs(keys), vals))
  {
    if len == 0 {
      return Ok(Dict([], []));
    }
    StackedChain(K, kcells, keys);
    StackedChain(D, dcells, vals);
    var rk := ReversePairList(K, kcells);
    ghost var rkc := Reverse(kcells);
    ReverseIndex(kcells);
    assert Chain(rk.value, rkc);
    assert forall x :: x in rkc ==> x !in dcells;
    var rd := ReversePairList(D, dcells);
    assert Chain(rk.value, rkc);
    CarsReverse(kcells);
    CarsReverse(dcells);
    ReverseReverse(keys);
    ReverseReverse(vals);
    assert Cars(rkc) == keys;
    assert Cars(Reverse(dcells)) == vals;
    var names, values := DictVectors(rk.value, rkc, rd.value, Reverse(dcells), len);
    r := Ok(Dict(names, values));
  }

  /** C_bdecode (src/decode.c:176-191): dispatch until the NUL, then return
      the bare item, or all items in encounter order. With no item `ans` is
      R_NilValue, whose CDR and CAR are R_NilValue again. */
  method BDecode(input: seq<byte>) returns (r: Result<Decoded>)
    ensures r == Spec.Decode(input)
  {
    var pos := 0;
    var ans: Cell?<Value> := null;
    ghost var cells: seq<Cell<Value>> := [];
    ghost var items: seq<Value> := [];
    Spec.PrependTopCompose([], [], Spec.TopItems(input, 0));
    while At(input, pos) != NUL
      invariant pos <= |input|
      invariant Spec.TopItems(input, 0) == Spec.PrependTop(items, Spec.TopItems(input, pos))
      invariant Stacked(ans, cells, items)
      invariant Fresh(cells)
      decreases |input| - pos
    {
      ghost var at := pos;
      var v;
      v, pos := ParseSwitch(input, pos);
      if v.Err? {
        Spec.TopItemsError(input, items, at);
        return Err(v.error);
      }
      ans := Cons(v.value, ans, cells, items);
      FreshCons(ans, cells);
      cells := [ans] + cells;
      Spec.TopItemsAdvance(input, items, at, v.value, pos);
      items := items + [v.value];
    }
    Spec.TopItemsClose(input, items, pos);
    FreshAll(cells);
    var d := Collect(ans, cells, items);
    r := Ok(d);
  }

  /** The end of C_bdecode (src/decode.c:187-190): the bare item when the
      list has one cell (for R_NilValue, CAR gives R_NilValue again), the
      list reversed into encounter order otherwise.
      The cells are relinked in place and no caller reads them again, so
      their final links are left unstated. */
  method Collect(ans: Cell?<Value>, ghost cells: seq<Cell<Value>>, ghost items: seq<Value>) returns (d: Decoded)
    requires Stacked(ans, cells, items)
    modifies cells
    ensures d == Spec.Assemble(items)
  {
    StackedChain(ans, cells, items);
    if ans == null {
      return Null;
    }
    if ans.cdr == null {
      assert |cells| == 1;
      CarsIndex(cells);
      ReverseIndex(items);
      return Bare(ans.car);
    }
    var res := ReversePairList(ans, cells);
    assert res.Ok?;
    CarsReverse(cells);
    ReverseReverse(items);
    var vs := ToVector(res.value, Reverse(cells));
    d := Items(vs);
  }
}
