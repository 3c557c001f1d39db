/** What the older decoder (src/bencode.c) promises, proved about the
    functions of LegacySpec, and how it differs from the current decoder on
    the same input. */
module LegacyProperties {
  import opened Bytes
  import opened Values
  import opened Packing
  import opened PairList
  import opened LegacySpec
  import Spec = DecoderSpec
  import Props = DecoderProperties

  /** A run of elements read one after the other by the older switch. */
  ghost predicate OldElementRun(s: seq<byte>, ps: seq<nat>, vs: seq<Value>)
  {
    && |ps| == |vs| + 1
    && forall i :: 0 <= i < |vs| ==> OldElement(s, ps[i]) == Ok((vs[i], ps[i + 1]))
  }

  lemma OldElementRunTail(s: seq<byte>, ps: seq<nat>, vs: seq<Value>)
    requires OldElementRun(s, ps, vs) && |vs| > 0
    ensures OldElementRun(s, ps[1..], vs[1..])
  {
    forall i | 0 <= i < |vs| - 1
      ensures OldElement(s, ps[1..][i]) == Ok((vs[1..][i], ps[1..][i + 1]))
    {
      assert OldElement(s, ps[i + 1]) == Ok((vs[i + 1], ps[i + 2]));
    }
  }

  /** The loop of bencode.c's parse_l reads the elements in encounter
      order. */
  lemma {:induction false} OldItemsPrefix(s: seq<byte>, ps: seq<nat>, vs: seq<Value>)
    requires OldElementRun(s, ps, vs)
    ensures OldItems(s, ps[0]) == Spec.PrependItems(vs, OldItems(s, ps[|vs|]))
    decreases |vs|
  {
    Spec.PrependItemsCompose(vs, [], OldItems(s, ps[|vs|]));
    if |vs| > 0 {
      OldElementRunTail(s, ps, vs);
      OldItemsPrefix(s, ps[1..], vs[1..]);
      assert OldElement(s, ps[0]) == Ok((vs[0], ps[1]));
      Spec.PrependItemsCompose([vs[0]], vs[1..], OldItems(s, ps[|vs|]));
      assert [vs[0]] + vs[1..] == vs;
    }
  }

  /** bencode.c's parse_l on `l` and elements: ended by `e`, which is
      consumed, or silently by the NUL, which is not; packed as in
      src/decode.c when there is an element, and refused with the empty
      list's error when there is none. */
  lemma OldParseListOf(s: seq<byte>, p: nat, ps: seq<nat>, vs: seq<Value>)
    requires At(s, p) == CharL && OldElementRun(s, ps, vs) && ps[0] == p + 1
    requires At(s, ps[|vs|]) == CharE || At(s, ps[|vs|]) == NUL
    ensures |vs| == 0 ==> OldParseList(s, p) == Err(NilList)
    ensures |vs| > 0 && At(s, ps[|vs|]) == CharE ==> OldParseList(s, p) == Ok((Pack(vs), ps[|vs|] + 1))
    ensures |vs| > 0 && At(s, ps[|vs|]) == NUL ==> OldParseList(s, p) == Ok((Pack(vs), ps[|vs|]))
    ensures Pack(vs).IntVec? <==> |vs| > 0 && forall i :: 0 <= i < |vs| ==> At(s, ps[i]) == CharI
    ensures Pack(vs).StrVec? <==> |vs| > 0 && forall i :: 0 <= i < |vs| ==> IsDigit(At(s, ps[i]))
  {
    OldItemsPrefix(s, ps, vs);
    assert vs + [] == vs;
    PackKeepsElements(vs);
    OldElementRunKinds(s, ps, vs);
  }

  /** An element is an integer exactly when it starts with `i`, and a
      string exactly when it starts with a digit. */
  lemma OldElementRunKinds(s: seq<byte>, ps: seq<nat>, vs: seq<Value>)
    requires OldElementRun(s, ps, vs)
    ensures AllInt(vs) <==> forall i :: 0 <= i < |vs| ==> At(s, ps[i]) == CharI
    ensures AllStr(vs) <==> forall i :: 0 <= i < |vs| ==> IsDigit(At(s, ps[i]))
  {
    forall i | 0 <= i < |vs|
      ensures vs[i].Int? <==> At(s, ps[i]) == CharI
      ensures vs[i].Str? <==> IsDigit(At(s, ps[i]))
    {
      assert OldElement(s, ps[i]) == Ok((vs[i], ps[i + 1]));
    }
  }

  /** A `d` is refused inside a list, after any elements. */
  lemma OldParseListRefusesDict(s: seq<byte>, p: nat, ps: seq<nat>, vs: seq<Value>)
    requires At(s, p) == CharL && OldElementRun(s, ps, vs) && ps[0] == p + 1
    requires At(s, ps[|vs|]) == CharD
    ensures OldParseList(s, p) == Err(DictNotImplemented)
  {
    OldItemsPrefix(s, ps, vs);
  }

  /** decode1's loop reads the items in encounter order. */
  lemma {:induction false} OldTopItemsPrefix(s: seq<byte>, ps: seq<nat>, vs: seq<Value>)
    requires OldElementRun(s, ps, vs)
    ensures OldTopItems(s, ps[0]) == Spec.PrependTop(vs, OldTopItems(s, ps[|vs|]))
    decreases |vs|
  {
    Spec.PrependTopCompose(vs, [], OldTopItems(s, ps[|vs|]));
    if |vs| > 0 {
      OldElementRunTail(s, ps, vs);
      OldTopItemsPrefix(s, ps[1..], vs[1..]);
      assert OldElement(s, ps[0]) == Ok((vs[0], ps[1]));
      Spec.PrependTopCompose([vs[0]], vs[1..], OldTopItems(s, ps[|vs|]));
      assert [vs[0]] + vs[1..] == vs;
    }
  }

  /** decode1 on items up to the NUL: R's NULL for none, the bare item for
      one, and for several all of them, the last first. */
  lemma OldDecodeOf(s: seq<byte>, ps: seq<nat>, vs: seq<Value>)
    requires OldElementRun(s, ps, vs) && ps[0] == 0 && At(s, ps[|vs|]) == NUL
    ensures |vs| == 0 ==> OldDecode(s) == Ok(Null)
    ensures |vs| == 1 ==> OldDecode(s) == Ok(Bare(vs[0]))
    ensures |vs| > 1 ==> OldDecode(s) == Ok(Items(Reverse(vs)))
    ensures |vs| > 1 ==> forall i :: 0 <= i < |vs| ==> OldDecode(s).value.values[i] == vs[|vs| - 1 - i]
  {
    OldTopItemsPrefix(s, ps, vs);
    assert vs + [] == vs;
    ReverseIndex(vs);
  }

  /** A top-level `d` is refused, after any items. */
  lemma OldDecodeRefusesDict(s: seq<byte>, ps: seq<nat>, vs: seq<Value>)
    requires OldElementRun(s, ps, vs) && ps[0] == 0 && At(s, ps[|vs|]) == CharD
    ensures OldDecode(s) == Err(DictNotImplemented)
  {
    OldTopItemsPrefix(s, ps, vs);
  }

  /** On scalar items, integers and strings, the two switches agree: both
      decoders read them with the same parse_i and parse_s. */
  lemma ScalarsAgree(s: seq<byte>, ps: seq<nat>, vs: seq<Value>)
    requires Props.ElementRun(s, ps, vs)
    requires forall i :: 0 <= i < |vs| ==> vs[i].Int? || vs[i].Str?
    ensures OldElementRun(s, ps, vs)
  {
    forall i | 0 <= i < |vs|
      ensures OldElement(s, ps[i]) == Ok((vs[i], ps[i + 1]))
    {
      assert Spec.ParseSwitch(s, ps[i]) == Ok((vs[i], ps[i + 1]));
    }
  }

  /** The same input of several scalar items: src/decode.c returns them in
      encounter order, src/bencode.c last first. */
  lemma DecodersDisagreeOnOrder(s: seq<byte>, ps: seq<nat>, vs: seq<Value>)
    requires Props.ElementRun(s, ps, vs) && ps[0] == 0 && At(s, ps[|vs|]) == NUL && |vs| > 1
    requires forall i :: 0 <= i < |vs| ==> vs[i].Int? || vs[i].Str?
    ensures Spec.Decode(s) == Ok(Items(vs))
    ensures OldDecode(s) == Ok(Items(Reverse(vs)))
  {
    Props.DecodeOf(s, ps, vs);
    ScalarsAgree(s, ps, vs);
    OldDecodeOf(s, ps, vs);
  }

  /** A non-empty list of scalars ended by `e` is read alike by both
      decoders, packing included. */
  lemma ScalarListsAgree(s: seq<byte>, p: nat, ps: seq<nat>, vs: seq<Value>)
    requires At(s, p) == CharL && Props.ElementRun(s, ps, vs) && ps[0] == p + 1
    requires At(s, ps[|vs|]) == CharE && |vs| > 0
    requires forall i :: 0 <= i < |vs| ==> vs[i].Int? || vs[i].Str?
    ensures OldParseList(s, p) == Spec.ParseList(s, p)
  {
    Props.ParseListOf(s, p, ps, vs);
    ScalarsAgree(s, ps, vs);
    OldParseListOf(s, p, ps, vs);
  }

  /** `le`: an empty generic vector for src/decode.c, the empty list's
      error for src/bencode.c. */
  lemma EmptyListsDisagree(s: seq<byte>, p: nat)
    requires At(s, p) == CharL && At(s, p + 1) == CharE
    ensures Spec.ParseList(s, p) == Ok((List([]), p + 2))
    ensures OldParseList(s, p) == Err(NilList)
  {
    Props.ParseListEmpty(s, p);
  }
}
