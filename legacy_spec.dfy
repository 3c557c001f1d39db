/** What the older decoder (src/bencode.c) computes. Its parse_i and
    parse_s are the code of src/decode.c up to the R wrapper of the result
    (a bare `int`, and ScalarString(mkChar(..)) for mkString(..)), and are
    specified by DecoderSpec.ParseInt and DecoderSpec.ParseString; its list
    parser and
    its driver differ: no dictionaries, a list that ends silently at the
    NUL, an empty list that fails in reversePairList, and top-level items
    returned last first. */
module LegacySpec {
  import opened Bytes
  import opened Values
  import opened Packing
  import opened PairList
  import Spec = DecoderSpec

  /** The tag bencode.c's parse_l keeps in `prev` for a value: 'i', 's' or
      'l' by the case of the switch that read it. */
  function ValueKind(v: Value): byte
  {
    match v
    case Int(_) => CharI
    case Str(_) => CharS
    case Dict(_, _) => CharD
    case _ => CharL
  }

  /** One element as the switch of parse_l or of decode1 reads it
      (src/bencode.c:103-126 and 171-187). The tag of the value is the tag
      of the byte it starts at. */
  function OldElement(s: seq<byte>, pos: nat): (r: Spec.Parsed)
    ensures r.Ok? ==> pos < r.value.1 <= |s|
    ensures r.Ok? ==> ValueKind(r.value.0) == Tag(At(s, pos))
    decreases |s| - pos, 1
  {
    var b := At(s, pos);
    if b == CharI then Spec.ParseInt(s, pos)
    else if b == CharD then Err(DictNotImplemented)
    else if b == CharL then OldParseList(s, pos)
    else if IsDigit(b) then Spec.ParseString(s, pos)
    else Err(UnexpectedToken)
  }

  /** The cases of the older switch: a value read is an integer exactly
      when it starts with `i` and a string exactly when it starts with a
      digit; a `d` is refused as not implemented (src/bencode.c:108-110,
      175-176), and any byte but `i`, `l`, `d` or a digit as an unexpected
      token (src/bencode.c:117-125, 181-186). */
  lemma OldElementCases(s: seq<byte>, pos: nat)
    ensures OldElement(s, pos).Ok? ==>
              (OldElement(s, pos).value.0.Int? <==> At(s, pos) == CharI)
              && (OldElement(s, pos).value.0.Str? <==> IsDigit(At(s, pos)))
    ensures At(s, pos) == CharD ==> OldElement(s, pos) == Err(DictNotImplemented)
    ensures At(s, pos) != CharI && At(s, pos) != CharD && At(s, pos) != CharL && !IsDigit(At(s, pos))
            ==> OldElement(s, pos) == Err(UnexpectedToken)
  {
  }

  /** parse_l (src/bencode.c:91-160): `l`, elements up to `e` or the NUL,
      then reversePairList, which fails on the empty list, then packing. */
  function OldParseList(s: seq<byte>, pos: nat): (r: Spec.Parsed)
    ensures r.Ok? ==> At(s, pos) == CharL && pos < r.value.1 <= |s|
    ensures r.Ok? ==> Spec.IsListLike(r.value.0)
    decreases |s| - pos, 0
  {
    if At(s, pos) != CharL then Err(NotAList)
    else
      match OldItems(s, pos + 1)
      case Err(e) => Err(e)
      case Ok((vs, q)) => if |vs| == 0 then Err(NilList) else Ok((Pack(vs), q))
  }

  /** The element loop of parse_l (src/bencode.c:100-130): elements until
      an `e`, which is consumed, or the NUL, which is not. */
  function OldItems(s: seq<byte>, pos: nat): (r: Result<(seq<Value>, nat)>)
    ensures r.Ok? ==> pos <= r.value.1 && (pos <= |s| ==> r.value.1 <= |s|)
    decreases |s| - pos, 2
  {
    if At(s, pos) == NUL then Ok(([], pos))
    else if At(s, pos) == CharE then Ok(([], pos + 1))
    else
      match OldElement(s, pos)
      case Err(e) => Err(e)
      case Ok((v, p)) =>
        match OldItems(s, p)
        case Err(e) => Err(e)
        case Ok((vs, q)) => Ok(([v] + vs, q))
  }

  /** The loop of decode1 (src/bencode.c:169-188): items until the NUL. */
  function OldTopItems(s: seq<byte>, pos: nat): (r: Result<seq<Value>>)
    ensures r.Ok? ==> (|r.value| == 0 <==> At(s, pos) == NUL)
    decreases |s| - pos
  {
    if At(s, pos) == NUL then Ok([])
    else
      match OldElement(s, pos)
      case Err(e) => Err(e)
      case Ok((v, p)) =>
        match OldTopItems(s, p)
        case Err(e) => Err(e)
        case Ok(vs) => Ok([v] + vs)
  }

  /** The end of decode1 (src/bencode.c:189-190): R's NULL for no item, the
      bare item for one, and otherwise the accumulated list as it stands,
      the last item first. */
  function OldAssemble(vs: seq<Value>): (d: Decoded)
    ensures d == Null <==> |vs| == 0
    ensures d.Bare? <==> |vs| == 1
    ensures d.Items? ==> |vs| > 1 && |d.values| == |vs|
    ensures d.Items? ==> forall k :: 0 <= k < |vs| ==> d.values[k] == vs[|vs| - 1 - k]
  {
    ReverseIndex(vs);
    if |vs| == 0 then Null else if |vs| == 1 then Bare(vs[0]) else Items(Reverse(vs))
  }

  /** decode1 (src/bencode.c:162-191). */
  function OldDecode(s: seq<byte>): (r: Result<Decoded>)
    ensures r.Ok? ==> (r.value == Null <==> At(s, 0) == NUL)
  {
    match OldTopItems(s, 0)
    case Err(e) => Err(e)
    case Ok(vs) => Ok(OldAssemble(vs))
  }

  /** The loop of parse_l read one element further. */
  lemma OldItemsAdvance(s: seq<byte>, first: nat, vs: seq<Value>, at: nat, v: Value, p: nat)
    requires OldItems(s, first) == Spec.PrependItems(vs, OldItems(s, at))
    requires At(s, at) != NUL && At(s, at) != CharE && OldElement(s, at) == Ok((v, p))
    ensures OldItems(s, first) == Spec.PrependItems(vs + [v], OldItems(s, p))
  {
    assert OldItems(s, at) == Spec.PrependItems([v], OldItems(s, p));
    Spec.PrependItemsCompose(vs, [v], OldItems(s, p));
  }

  /** The loop of parse_l meeting an element that fails. */
  lemma OldItemsError(s: seq<byte>, first: nat, vs: seq<Value>, at: nat)
    requires OldItems(s, first) == Spec.PrependItems(vs, OldItems(s, at))
    requires At(s, at) != NUL && At(s, at) != CharE && OldElement(s, at).Err?
    ensures OldItems(s, first) == Err(OldElement(s, at).error)
  {
  }

  /** The loop of parse_l stopped at an `e` or at the NUL. */
  lemma OldItemsClose(s: seq<byte>, first: nat, vs: seq<Value>, close: nat)
    requires OldItems(s, first) == Spec.PrependItems(vs, OldItems(s, close))
    requires At(s, close) == NUL || At(s, close) == CharE
    ensures At(s, close) == NUL ==> OldItems(s, first) == Ok((vs, close))
    ensures At(s, close) != NUL ==> OldItems(s, first) == Ok((vs, close + 1))
  {
    assert vs + [] == vs;
  }

  /** The loop of decode1 read one item further. */
  lemma OldTopItemsAdvance(s: seq<byte>, vs: seq<Value>, at: nat, v: Value, p: nat)
    requires OldTopItems(s, 0) == Spec.PrependTop(vs, OldTopItems(s, at))
    requires At(s, at) != NUL && OldElement(s, at) == Ok((v, p))
    ensures OldTopItems(s, 0) == Spec.PrependTop(vs + [v], OldTopItems(s, p))
  {
    assert OldTopItems(s, at) == Spec.PrependTop([v], OldTopItems(s, p));
    Spec.PrependTopCompose(vs, [v], OldTopItems(s, p));
  }

  /** The loop of decode1 meeting an item that fails. */
  lemma OldTopItemsError(s: seq<byte>, vs: seq<Value>, at: nat)
    requires OldTopItems(s, 0) == Spec.PrependTop(vs, OldTopItems(s, at))
    requires At(s, at) != NUL && OldElement(s, at).Err?
    ensures OldTopItems(s, 0) == Err(OldElement(s, at).error)
  {
  }

  /** The loop of decode1 stopped at the NUL. */
  lemma OldTopItemsClose(s: seq<byte>, vs: seq<Value>, close: nat)
    requires OldTopItems(s, 0) == Spec.PrependTop(vs, OldTopItems(s, close))
    requires At(s, close) == NUL
    ensures OldTopItems(s, 0) == Ok(vs)
  {
    assert vs + [] == vs;
  }
}
