/** The older decoder, src/bencode.c, as the code runs. Its parse_i
    (src/bencode.c:52-65, returning the bare `int` that its callers wrap in
    ScalarInteger) and its parse_s (src/bencode.c:67-89) are the same text
    as those of src/decode.c and are the methods Decoder.ParseI and
    Decoder.ParseS; its reversePairList (src/bencode.c:39-50) is a verbatim
    copy of the one in src/bencode.h, PairList.ReversePairList. Each parser
    is proved to agree with its counterpart in LegacySpec. */
module Legacy {
  import opened Bytes
  import opened Values
  import opened PairList
  import opened Packing
  import opened LegacySpec
  import Spec = DecoderSpec
  import Decoder

  /** The switch on the leading byte that parse_l (src/bencode.c:103-126)
      and decode1 (src/bencode.c:171-187) share: 'i', 'l' or a digit is
      read by its parser, 'd' is refused as not implemented. */
  method OldSwitch(s: seq<byte>, start: nat) returns (r: Result<Value>, pos: nat)
    requires start <= |s|
    ensures Agrees(r, pos, OldElement(s, start))
    decreases |s| - start, 1
  {
    var b := At(s, start);
    if b == CharI {
      r, pos := Decoder.ParseI(s, start);
    } else if b == CharD {
      r, pos := Err(DictNotImplemented), start;
    } else if b == CharL {
      r, pos := OldParseL(s, start);
    } else if IsDigit(b) {
      r, pos := Decoder.ParseS(s, start);
    } else {
      r, pos := Err(UnexpectedToken), start;
    }
  }

  /** All values of `items` carry tag `k`. */
  ghost predicate AllKind(items: seq<Value>, k: byte)
  {
    forall j :: 0 <= j < |items| ==> ValueKind(items[j]) == k
  }

  /** How the flags of bencode.c's parse_l relate to the elements read so
      far: `prev` is the tag of the last element (of the first byte before
      any), and `same` holds exactly when every element carries the first
      element's tag. */
  ghost predicate OldFlags(same: bool, prev: byte, lead: byte, items: seq<Value>)
  {
    && (|items| == 0 ==> prev == Tag(lead))
    && (|items| > 0 ==> prev == ValueKind(items[|items| - 1]) && ValueKind(items[0]) == Tag(lead))
    && (same <==> AllKind(items, Tag(lead)))
  }

  /** The update `same = same && prev == X; prev = X` of the case that reads
      an element of tag X. */
  lemma OldFlagsStep(same: bool, prev: byte, lead: byte, items: seq<Value>, b: byte, v: Value)
    requires OldFlags(same, prev, lead, items)
    requires |items| == 0 ==> b == lead
    requires ValueKind(v) == Tag(b)
    ensures OldFlags(same && prev == Tag(b), Tag(b), lead, items + [v])
  {
    var items' := items + [v];
    assert forall j :: 0 <= j < |items| ==> items'[j] == items[j];
    if |items| > 0 && same {
      assert ValueKind(items[|items| - 1]) == Tag(lead);
    }
  }

  /** What the flags tell the packing step: with every element tagged 'i'
      an integer vector, with every element tagged 's' a string vector,
      and a generic vector otherwise, which is the packing of src/decode.c
      too. */
  lemma OldFlagsPack(same: bool, prev: byte, lead: byte, items: seq<Value>)
    requires OldFlags(same, prev, lead, items) && |items| > 0
    ensures same && prev == CharI ==> AllInt(items) && Pack(items) == IntVec(Ints(items))
    ensures same && prev == CharS ==> AllStr(items) && Pack(items) == StrVec(Strs(items))
    ensures !(same && (prev == CharI || prev == CharS)) ==> Pack(items) == List(items)
  {
    if AllInt(items) {
      assert forall j :: 0 <= j < |items| ==> ValueKind(items[j]) == CharI;
    }
    if AllStr(items) {
      assert forall j :: 0 <= j < |items| ==> ValueKind(items[j]) == CharS;
    }
    if same && prev == CharI {
      assert forall j :: 0 <= j < |items| ==> ValueKind(items[j]) == CharI;
    }
    if same && prev == CharS {
      assert forall j :: 0 <= j < |items| ==> ValueKind(items[j]) == CharS;
    }
  }

  /** parse_l (src/bencode.c:91-160). */
  method OldParseL(s: seq<byte>, start: nat) returns (r: Result<Value>, pos: nat)
    requires start <= |s|
    ensures Agrees(r, pos, OldParseList(s, start))
    decreases |s| - start, 0
  {
    pos := start;
    if At(s, pos) != CharL {
      return Err(NotAList), pos;
    }
    pos := pos + 1;
    var res, len, same, prev; ghost var cells, items;
    res, pos, len, same, prev, cells, items := OldListLoop(s, pos);
    if res.Err? {
      return Err(res.error), pos;
    }
    FreshAll(cells);
    r := OldPackList(res.value, cells, len, same, prev, At(s, start + 1), items);
  }

  /** The flags and the element loop of bencode.c's parse_l
      (src/bencode.c:96-130), up to the `e` or the NUL that ends it, and
      past the `e`. */
  method OldListLoop(s: seq<byte>, first: nat)
    returns (r: Result<Cell?<Value>>, pos: nat, len: nat, same: bool, prev: byte,
             ghost cells: seq<Cell<Value>>, ghost items: seq<Value>)
    requires first <= |s|
    ensures r.Err? ==> OldItems(s, first) == Err(r.error)
    ensures r.Ok? ==> OldItems(s, first) == Ok((items, pos))
    ensures r.Ok? ==> Stacked(r.value, cells, items) && len == |items|
    ensures r.Ok? ==> OldFlags(same, prev, At(s, first), items)
    ensures r.Ok? ==> Fresh(cells)
    decreases |s| - first, 3
  {
    ghost var lead := At(s, first);
    Spec.PrependItemsCompose([], [], OldItems(s, first));
    pos := first;
    var ans: Cell?<Value> := null;
    cells, items := [], [];
    // src/bencode.c:97-98: `same` starts set and `prev` is the tag of the first byte.
    same, prev, len := true, Tag(At(s, pos)), 0;
    while At(s, pos) != NUL && At(s, pos) != CharE
      invariant first <= pos <= |s|
      invariant |items| == 0 ==> pos == first
      invariant OldItems(s, first) == Spec.PrependItems(items, OldItems(s, pos))
      invariant Stacked(ans, cells, items)
      invariant Fresh(cells)
      invariant len == |items|
      invariant OldFlags(same, prev, lead, items)
      decreases |s| - pos
    {
      ghost var at := pos;
      var step; ghost var v;
      step, pos, same, prev, v := OldListStep(s, pos, ans, cells, items, same, prev, lead);
      if step.Err? {
        OldItemsError(s, first, items, at);
        return Err(step.error), pos, len, same, prev, cells, items;
      }
      len := len + 1;
      ans := step.value;
      FreshCons(ans, cells);
      cells := [ans] + cells;
      OldItemsAdvance(s, first, items, at, v, pos);
      items := items + [v];
    }
    OldItemsClose(s, first, items, pos);
    // src/bencode.c:130: an `e` is stepped over, the NUL is not.
    if At(s, pos) != NUL {
      pos := pos + 1;
    }
    r := Ok(ans);
  }

  /** The body of that loop (src/bencode.c:101-126): the element read by the
      switch, put in front of the list, and the flags updated by its tag.
      `len++` is left to the caller. */
  method OldListStep(s: seq<byte>, at: nat, ans: Cell?<Value>, ghost cells: seq<Cell<Value>>, ghost items: seq<Value>,
                     same: bool, prev: byte, ghost lead: byte)
    returns (r: Result<Cell<Value>>, pos: nat, same': bool, prev': byte, ghost v: Value)
    requires at <= |s|
    requires Stacked(ans, cells, items)
    requires OldFlags(same, prev, lead, items)
    requires |items| == 0 ==> At(s, at) == lead
    ensures r.Err? ==> OldElement(s, at) == Err(r.error)
    ensures r.Ok? ==> OldElement(s, at) == Ok((v, pos))
    ensures r.Ok? ==> fresh(r.value)
    ensures r.Ok? ==> Stacked(r.value, [r.value] + cells, items + [v])
    ensures r.Ok? ==> OldFlags(same', prev', lead, items + [v])
    decreases |s| - at, 2
  {
    var b := At(s, at);
    var w;
    w, pos := OldSwitch(s, at);
    if w.Err? {
      return Err(w.error), pos, same, prev, List([]);
    }
    v := w.value;
    var cell := Cons(w.value, ans, cells, items);
    same', prev' := same && prev == Tag(b), Tag(b);
    OldFlagsStep(same, prev, lead, items, b, v);
    r := Ok(cell);
  }

  /** The end of bencode.c's parse_l (src/bencode.c:132-159): the cells are
      reversed, which fails for the empty list, and copied into an integer
      vector, a string vector or a generic vector, as the flags say.
      The cells are relinked in place and no caller reads them again, so
      their final links are left unstated. */
  method OldPackList(ans: Cell?<Value>, ghost cells: seq<Cell<Value>>, len: nat, same: bool, prev: byte,
                     ghost lead: byte, ghost items: seq<Value>)
    returns (r: Result<Value>)
    requires Stacked(ans, cells, items)
    requires len == |items|
    requires OldFlags(same, prev, lead, items)
    modifies cells
    ensures |items| == 0 ==> r == Err(NilList)
    ensures |items| > 0 ==> r == Ok(Pack(items))
  {
    StackedChain(ans, cells, items);
    var res := ReversePairList(ans, cells);
    if res.Err? {
      return Err(res.error);
    }
    var rev := res.value;
    ghost var rcells := Reverse(cells);
    CarsReverse(cells);
    ReverseReverse(items);
    assert Cars(rcells) == items;
    OldFlagsPack(same, prev, lead, items);
    if same && prev == CharI {
      var ns := IntVector(rev, rcells, len);
      r := Ok(IntVec(ns));
    } else if same && prev == CharS {
      var ss := StrVector(rev, rcells, len);
      r := Ok(StrVec(ss));
    } else {
      var vs := ToVector(rev, rcells);
      r := Ok(List(vs));
    }
  }

  /** decode1 (src/bencode.c:162-191): items until the NUL, then the bare
      item if there is one, and otherwise the accumulated list unreversed. */
  method Decode1(input: seq<byte>) returns (r: Result<Decoded>)
    ensures r == OldDecode(input)
  {
    var pos := 0;
    var ans: Cell?<Value> := null;
    ghost var cells: seq<Cell<Value>> := [];
    ghost var items: seq<Value> := [];
    Spec.PrependTopCompose([], [], OldTopItems(input, 0));
    while At(input, pos) != NUL
      invariant pos <= |input|
      invariant OldTopItems(input, 0) == Spec.PrependTop(items, OldTopItems(input, pos))
      invariant Stacked(ans, cells, items)
      decreases |input| - pos
    {
      ghost var at := pos;
      var v;
      v, pos := OldSwitch(input, pos);
      if v.Err? {
        OldTopItemsError(input, items, at);
        return Err(v.error);
      }
      ans := Cons(v.value, ans, cells, items);
      cells := [ans] + cells;
      OldTopItemsAdvance(input, items, at, v.value, pos);
      items := items + [v.value];
    }
    OldTopItemsClose(input, items, pos);
    StackedChain(ans, cells, items);
    if ans == null {
      return Ok(Null);
    }
    if ans.cdr == null {
      assert |cells| == 1;
      CarsIndex(cells);
      ReverseIndex(items);
      return Ok(Bare(ans.car));
    }
    var vs := ToVector(ans, cells);
    r := Ok(Items(vs));
  }
}
