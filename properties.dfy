/** What the current decoder promises about whole tokens and containers,
    proved about the functions of DecoderSpec, which the methods of module
    Decoder are proved to compute. A container's elements are given by the
    positions they start at: element i is read from ps[i] and ends where
    element i + 1 starts. */
module DecoderProperties {
  import opened Bytes
  import opened Values
  import opened Packing
  import opened DecoderSpec

  /** A digit run followed by a byte that is not a digit ends there. */
  lemma {:induction false} DigitsEndOf(s: seq<byte>, from: nat, n: nat)
    requires from + n <= |s|
    requires AllDigits(s[from..from + n])
    requires !IsDigit(At(s, from + n))
    ensures DigitsEnd(s, from) == from + n
    decreases n
  {
    if n > 0 {
      assert s[from..from + n][0] == s[from];
      assert s[from + 1..from + n] == s[from..from + n][1..];
      DigitsEndOf(s, from + 1, n - 1);
    }
  }

  predicate NoNul(d: seq<byte>)
  {
    forall k :: 0 <= k < |d| ==> d[k] != NUL
  }

  /** A run of bytes none of which is the NUL lies before the end of the C
      string. */
  lemma {:induction false} NulEndAfter(s: seq<byte>, from: nat, n: nat)
    requires from + n <= |s|
    requires NoNul(s[from..from + n])
    ensures from + n <= NulEnd(s, from)
    decreases n
  {
    if n > 0 {
      assert s[from..from + n][0] == s[from];
      assert s[from + 1..from + n] == s[from..from + n][1..];
      NulEndAfter(s, from + 1, n - 1);
    }
  }

  /** A NUL at k ends the C string at k or before. */
  lemma {:induction false} NulEndBefore(s: seq<byte>, from: nat, k: nat)
    requires from <= k && At(s, k) == NUL
    ensures NulEnd(s, from) <= k
    decreases k - from
  {
    if from < k && At(s, from) != NUL {
      NulEndBefore(s, from + 1, k);
    }
  }

  /** No byte before the end of the C string is the NUL. */
  lemma {:induction false} NulEndRun(s: seq<byte>, from: nat)
    requires from <= |s|
    ensures NoNul(s[from..NulEnd(s, from)])
    decreases |s| - from
  {
    if At(s, from) != NUL {
      NulEndRun(s, from + 1);
      assert s[from..NulEnd(s, from)] == [s[from]] + s[from + 1..NulEnd(s, from + 1)];
    }
  }

  /** parse_i on a whole integer token: an `i` at p, at most one sign byte,
      the digits from `from` up to an `e` at q. The value is the digit run
      read left to right and wrapped to 32 bits, whatever the sign byte (it
      is consumed and dropped), and 0 for an empty run; the cursor ends one
      past the `e`. */
  lemma ParseIntToken(s: seq<byte>, p: nat, from: nat, q: nat)
    requires p < from <= q < |s| && s[p] == CharI
    requires from == p + 1 || (from == p + 2 && (s[p + 1] == CharMinus || s[p + 1] == CharPlus))
    requires AllDigits(s[from..q]) && s[q] == CharE
    ensures ParseInt(s, p) == Ok((Int(Wrap32(DigitsValue(s[from..q]))), q + 1))
    ensures DigitsValue(s[from..q]) <= IntMax ==> ParseInt(s, p) == Ok((Int(DigitsValue(s[from..q])), q + 1))
    ensures from == q ==> ParseInt(s, p) == Ok((Int(0), q + 1))
  {
    if from == p + 1 && from < q {
      assert s[p + 1] == s[from..q][0];
    }
    DigitsEndOf(s, from, q - from);
    Wrap32Small(0);
    if DigitsValue(s[from..q]) <= IntMax {
      Wrap32Small(DigitsValue(s[from..q]));
    }
  }

  /** An integer whose digits are followed by anything but `e` or another
      digit is refused. */
  lemma ParseIntBadTerminator(s: seq<byte>, p: nat, from: nat, q: nat)
    requires p < from <= q <= |s| && s[p] == CharI
    requires from == p + 1 || (from == p + 2 && (s[p + 1] == CharMinus || s[p + 1] == CharPlus))
    requires from == p + 1 ==> At(s, from) != CharMinus && At(s, from) != CharPlus
    requires AllDigits(s[from..q]) && At(s, q) != CharE && !IsDigit(At(s, q))
    ensures ParseInt(s, p) == Err(InvalidTerminator)
  {
    if from == p + 1 && from < q {
      assert s[p + 1] == s[from..q][0];
    }
    DigitsEndOf(s, from, q - from);
  }

  /** parse_s on a whole string token: a non-empty digit run from p to a
      `:` at q giving the length n, then n bytes none of which is the NUL.
      The value is exactly those bytes, and the cursor moves past the
      length digits, the `:` and the payload. */
  lemma ParseStringToken(s: seq<byte>, p: nat, q: nat, n: nat)
    requires p < q < |s| && AllDigits(s[p..q]) && s[q] == CharColon
    requires n == DigitsValue(s[p..q]) <= IntMax
    requires q + 1 + n <= |s| && NoNul(s[q + 1..q + 1 + n])
    ensures ParseString(s, p) == Ok((Str(s[q + 1..q + 1 + n]), p + (q - p) + 1 + n))
  {
    assert s[p] == s[p..q][0];
    DigitsEndOf(s, p, q - p);
    NulEndAfter(s, q + 1, n);
  }

  /** A length not followed by `:` is refused. */
  lemma ParseStringBadSeparator(s: seq<byte>, p: nat, q: nat)
    requires p < q <= |s| && AllDigits(s[p..q])
    requires At(s, q) != CharColon && !IsDigit(At(s, q))
    ensures ParseString(s, p) == Err(InvalidSeparator)
  {
    assert s[p] == s[p..q][0];
    DigitsEndOf(s, p, q - p);
  }

  /** A length above INT_MAX is refused, whatever follows the `:`. */
  lemma ParseStringTooLong(s: seq<byte>, p: nat, q: nat)
    requires p < q < |s| && AllDigits(s[p..q]) && s[q] == CharColon
    requires DigitsValue(s[p..q]) > IntMax
    ensures ParseString(s, p) == Err(StringTooLong)
  {
    assert s[p] == s[p..q][0];
    DigitsEndOf(s, p, q - p);
  }

  /** A payload that meets the NUL (the end of the input included) before
      its n-th byte is refused. */
  lemma ParseStringPrematureEnd(s: seq<byte>, p: nat, q: nat, k: nat)
    requires p < q < |s| && AllDigits(s[p..q]) && s[q] == CharColon
    requires DigitsValue(s[p..q]) <= IntMax
    requires q < k <= q + DigitsValue(s[p..q]) && At(s, k) == NUL
    ensures ParseString(s, p) == Err(PrematureEnd)
  {
    assert s[p] == s[p..q][0];
    DigitsEndOf(s, p, q - p);
    NulEndBefore(s, q + 1, k);
  }

  /** A string read is at most INT_MAX bytes long and holds no NUL. */
  lemma ParseStringPayload(s: seq<byte>, p: nat)
    requires ParseString(s, p).Ok?
    ensures |ParseString(s, p).value.0.bytes| <= IntMax
    ensures NoNul(ParseString(s, p).value.0.bytes)
  {
    var q := DigitsEnd(s, p);
    var n := |ParseString(s, p).value.0.bytes|;
    NulEndRun(s, q + 1);
    assert ParseString(s, p).value.0.bytes == s[q + 1..NulEnd(s, q + 1)][..n];
  }

  /** A run of elements read one after the other. */
  ghost predicate ElementRun(s: seq<byte>, ps: seq<nat>, vs: seq<Value>)
  {
    && |ps| == |vs| + 1
    && forall i :: 0 <= i < |vs| ==> ParseSwitch(s, ps[i]) == Ok((vs[i], ps[i + 1]))
  }

  lemma ElementRunTail(s: seq<byte>, ps: seq<nat>, vs: seq<Value>)
    requires ElementRun(s, ps, vs) && |vs| > 0
    ensures ElementRun(s, ps[1..], vs[1..])
  {
    forall i | 0 <= i < |vs| - 1
      ensures ParseSwitch(s, ps[1..][i]) == Ok((vs[1..][i], ps[1..][i + 1]))
    {
      assert ParseSwitch(s, ps[i + 1]) == Ok((vs[i + 1], ps[i + 2]));
    }
  }

  /** parse_l's loop reads the elements in encounter order: whatever
      follows them, the list holds them first. */
  lemma {:induction false} ListItemsPrefix(s: seq<byte>, ps: seq<nat>, vs: seq<Value>)
    requires ElementRun(s, ps, vs)
    ensures ListItems(s, ps[0]) == PrependItems(vs, ListItems(s, ps[|vs|]))
    decreases |vs|
  {
    PrependItemsCompose(vs, [], ListItems(s, ps[|vs|]));
    if |vs| > 0 {
      ElementRunTail(s, ps, vs);
      ListItemsPrefix(s, ps[1..], vs[1..]);
      assert ParseSwitch(s, ps[0]) == Ok((vs[0], ps[1]));
      PrependItemsCompose([vs[0]], vs[1..], ListItems(s, ps[|vs|]));
      assert [vs[0]] + vs[1..] == vs;
    }
  }

  /** parse_l on `l`, elements, `e`: the elements in encounter order, as
      many as parse_switch calls, packed into an integer vector exactly when
      there is one and every element starts with `i`, into a string vector
      exactly when there is one and every element starts with a digit, and
      into a generic vector otherwise; the cursor ends past the `e`. */
  lemma ParseListOf(s: seq<byte>, p: nat, ps: seq<nat>, vs: seq<Value>)
    requires At(s, p) == CharL && ElementRun(s, ps, vs) && ps[0] == p + 1
    requires At(s, ps[|vs|]) == CharE
    ensures ParseList(s, p) == Ok((Pack(vs), ps[|vs|] + 1))
    ensures Packing.Elements(ParseList(s, p).value.0) == vs
    ensures ParseList(s, p).value.0.IntVec? <==> |vs| > 0 && forall i :: 0 <= i < |vs| ==> At(s, ps[i]) == CharI
    ensures ParseList(s, p).value.0.StrVec? <==> |vs| > 0 && forall i :: 0 <= i < |vs| ==> IsDigit(At(s, ps[i]))
  {
    ListItemsPrefix(s, ps, vs);
    assert ListItems(s, ps[|vs|]) == Ok(([], ps[|vs|] + 1));
    assert vs + [] == vs;
    assert ParseList(s, p) == Ok((Pack(vs), ps[|vs|] + 1));
    PackKeepsElements(vs);
    ElementRunKinds(s, ps, vs);
  }

  /** An element is an integer exactly when it starts with `i`, and a
      string exactly when it starts with a digit. */
  lemma ElementRunKinds(s: seq<byte>, ps: seq<nat>, vs: seq<Value>)
    requires ElementRun(s, ps, vs)
    ensures AllInt(vs) <==> forall i :: 0 <= i < |vs| ==> At(s, ps[i]) == CharI
    ensures AllStr(vs) <==> forall i :: 0 <= i < |vs| ==> IsDigit(At(s, ps[i]))
  {
    forall i | 0 <= i < |vs|
      ensures vs[i].Int? <==> At(s, ps[i]) == CharI
      ensures vs[i].Str? <==> IsDigit(At(s, ps[i]))
    {
      assert ParseSwitch(s, ps[i]) == Ok((vs[i], ps[i + 1]));
    }
  }

  /** `le` is an empty generic vector. */
  lemma ParseListEmpty(s: seq<byte>, p: nat)
    requires At(s, p) == CharL && At(s, p + 1) == CharE
    ensures ParseList(s, p) == Ok((List([]), p + 2))
  {
  }

  /** A list whose elements run into the NUL before an `e` is refused. */
  lemma ParseListUnterminated(s: seq<byte>, p: nat, ps: seq<nat>, vs: seq<Value>)
    requires At(s, p) == CharL && ElementRun(s, ps, vs) && ps[0] == p + 1
    requires At(s, ps[|vs|]) == NUL
    ensures ParseList(s, p) == Err(UnterminatedList)
  {
    ListItemsPrefix(s, ps, vs);
  }

  /** A run of key/value pairs read one after the other: key i is a string
      read from ps[i] up to qs[i], value i is read from there up to where
      the next key starts. */
  ghost predicate Pairs(s: seq<byte>, ps: seq<nat>, qs: seq<nat>, keys: seq<seq<byte>>, vals: seq<Value>)
  {
    && |ps| == |keys| + 1 && |qs| == |keys| == |vals|
    && forall i :: 0 <= i < |keys| ==>
         ParseString(s, ps[i]) == Ok((Str(keys[i]), qs[i])) && ParseSwitch(s, qs[i]) == Ok((vals[i], ps[i + 1]))
  }

  lemma PairsTail(s: seq<byte>, ps: seq<nat>, qs: seq<nat>, keys: seq<seq<byte>>, vals: seq<Value>)
    requires Pairs(s, ps, qs, keys, vals) && |keys| > 0
    ensures Pairs(s, ps[1..], qs[1..], keys[1..], vals[1..])
  {
    forall i | 0 <= i < |keys| - 1
      ensures ParseString(s, ps[1..][i]) == Ok((Str(keys[1..][i]), qs[1..][i]))
      ensures ParseSwitch(s, qs[1..][i]) == Ok((vals[1..][i], ps[1..][i + 1]))
    {
      assert ParseString(s, ps[i + 1]) == Ok((Str(keys[i + 1]), qs[i + 1]));
      assert ParseSwitch(s, qs[i + 1]) == Ok((vals[i + 1], ps[i + 2]));
    }
  }

  /** parse_d's loop reads the pairs in encounter order. */
  lemma {:induction false} DictEntriesPrefix(s: seq<byte>, ps: seq<nat>, qs: seq<nat>, keys: seq<seq<byte>>, vals: seq<Value>)
    requires Pairs(s, ps, qs, keys, vals)
    ensures DictEntries(s, ps[0]) == PrependEntries(keys, vals, DictEntries(s, ps[|keys|]))
    decreases |keys|
  {
    PrependEntriesCompose(keys, vals, [], [], DictEntries(s, ps[|keys|]));
    if |keys| > 0 {
      PairsTail(s, ps, qs, keys, vals);
      DictEntriesPrefix(s, ps[1..], qs[1..], keys[1..], vals[1..]);
      assert ParseString(s, ps[0]) == Ok((Str(keys[0]), qs[0]));
      assert DictPair(s, ps[0]) == Ok(((Str(keys[0]), vals[0]), ps[1]));
      PrependEntriesCompose([keys[0]], [vals[0]], keys[1..], vals[1..], DictEntries(s, ps[|keys|]));
      assert [keys[0]] + keys[1..] == keys;
      assert [vals[0]] + vals[1..] == vals;
    }
  }

  /** parse_d on `d`, pairs, `e`: the i-th name is the i-th key and the i-th
      value the i-th value, with repeated keys kept, and the cursor ends
      past the `e`. */
  lemma ParseDictOf(s: seq<byte>, p: nat, ps: seq<nat>, qs: seq<nat>, keys: seq<seq<byte>>, vals: seq<Value>)
    requires At(s, p) == CharD && Pairs(s, ps, qs, keys, vals) && ps[0] == p + 1
    requires At(s, ps[|keys|]) == CharE
    ensures ParseDict(s, p) == Ok((Dict(keys, vals), ps[|keys|] + 1))
  {
    DictEntriesPrefix(s, ps, qs, keys, vals);
    assert keys + [] == keys && vals + [] == vals;
  }

  /** `de` is a dictionary with no entries. */
  lemma ParseDictEmpty(s: seq<byte>, p: nat)
    requires At(s, p) == CharD && At(s, p + 1) == CharE
    ensures ParseDict(s, p) == Ok((Dict([], []), p + 2))
  {
  }

  /** After some pairs, the NUL before an `e` is refused, and so is a key
      that does not start with a digit. */
  lemma ParseDictStops(s: seq<byte>, p: nat, ps: seq<nat>, qs: seq<nat>, keys: seq<seq<byte>>, vals: seq<Value>)
    requires At(s, p) == CharD && Pairs(s, ps, qs, keys, vals) && ps[0] == p + 1
    requires At(s, ps[|keys|]) != CharE
    ensures At(s, ps[|keys|]) == NUL ==> ParseDict(s, p) == Err(UnterminatedDict)
    ensures At(s, ps[|keys|]) != NUL && !IsDigit(At(s, ps[|keys|])) ==> ParseDict(s, p) == Err(NonStringKey)
  {
    DictEntriesPrefix(s, ps, qs, keys, vals);
  }

  /** C_bdecode's loop reads the items in encounter order. */
  lemma {:induction false} TopItemsPrefix(s: seq<byte>, ps: seq<nat>, vs: seq<Value>)
    requires ElementRun(s, ps, vs)
    ensures TopItems(s, ps[0]) == PrependTop(vs, TopItems(s, ps[|vs|]))
    decreases |vs|
  {
    PrependTopCompose(vs, [], TopItems(s, ps[|vs|]));
    if |vs| > 0 {
      ElementRunTail(s, ps, vs);
      TopItemsPrefix(s, ps[1..], vs[1..]);
      assert ParseSwitch(s, ps[0]) == Ok((vs[0], ps[1]));
      PrependTopCompose([vs[0]], vs[1..], TopItems(s, ps[|vs|]));
      assert [vs[0]] + vs[1..] == vs;
    }
  }

  /** C_bdecode on items up to the NUL: R's NULL for none, the bare item
      for one, and all of them in encounter order for several. */
  lemma DecodeOf(s: seq<byte>, ps: seq<nat>, vs: seq<Value>)
    requires ElementRun(s, ps, vs) && ps[0] == 0 && At(s, ps[|vs|]) == NUL
    ensures |vs| == 0 ==> Decode(s) == Ok(Null)
    ensures |vs| == 1 ==> Decode(s) == Ok(Bare(vs[0]))
    ensures |vs| > 1 ==> Decode(s) == Ok(Items(vs))
  {
    TopItemsPrefix(s, ps, vs);
    assert vs + [] == vs;
  }

  /** A failing item fails the whole decode with its error. */
  lemma DecodeFails(s: seq<byte>, ps: seq<nat>, vs: seq<Value>)
    requires ElementRun(s, ps, vs) && ps[0] == 0
    requires At(s, ps[|vs|]) != NUL && ParseSwitch(s, ps[|vs|]).Err?
    ensures Decode(s) == Err(ParseSwitch(s, ps[|vs|]).error)
  {
    TopItemsPrefix(s, ps, vs);
  }
}
