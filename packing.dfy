/** Packing of homogeneous lists (src/decode.c:129-155 and
    src/bencode.c:134-159): the fill loops that copy a list of scalars into
    a freshly allocated INTSXP or STRSXP vector, and the packing rule both
    decoders implement. */
module Packing {
  import opened Bytes
  import opened Values
  import opened PairList

  predicate AllInt(vs: seq<Value>)
  {
    forall k :: 0 <= k < |vs| ==> vs[k].Int?
  }

  predicate AllStr(vs: seq<Value>)
  {
    forall k :: 0 <= k < |vs| ==> vs[k].Str?
  }

  /** The integers of a list of Int values. */
  function Ints(vs: seq<Value>): (r: seq<int>)
    requires AllInt(vs)
    ensures |r| == |vs|
  {
    if |vs| == 0 then [] else [vs[0].n] + Ints(vs[1..])
  }

  lemma {:induction false} IntsIndex(vs: seq<Value>)
    requires AllInt(vs)
    ensures forall k :: 0 <= k < |vs| ==> Ints(vs)[k] == vs[k].n
  {
    if |vs| > 0 {
      IntsIndex(vs[1..]);
    }
  }

  /** The payloads of a list of Str values. */
  function Strs(vs: seq<Value>): (r: seq<seq<byte>>)
    requires AllStr(vs)
    ensures |r| == |vs|
  {
    if |vs| == 0 then [] else [vs[0].bytes] + Strs(vs[1..])
  }

  lemma {:induction false} StrsIndex(vs: seq<Value>)
    requires AllStr(vs)
    ensures forall k :: 0 <= k < |vs| ==> Strs(vs)[k] == vs[k].bytes
  {
    if |vs| > 0 {
      StrsIndex(vs[1..]);
    }
  }

  /** A key read one further adds its bytes at the end. */
  lemma StrsSnoc(vs: seq<Value>, x: Value)
    requires AllStr(vs) && x.Str?
    ensures AllStr(vs + [x]) && Strs(vs + [x]) == Strs(vs) + [x.bytes]
  {
    StrsIndex(vs);
    StrsIndex(vs + [x]);
    assert forall k :: 0 <= k < |vs| + 1 ==> Strs(vs + [x])[k] == (Strs(vs) + [x.bytes])[k];
  }

  /** The value a list parser returns for its elements: an empty generic
      vector for no elements, an integer vector when every element is an
      integer, a string vector when every element is a string, and a
      generic vector otherwise. */
  function Pack(vs: seq<Value>): (r: Value)
    ensures r.List? || r.IntVec? || r.StrVec?
    ensures r == List([]) <==> |vs| == 0
  {
    if |vs| == 0 then List([])
    else if AllInt(vs) then IntVec(Ints(vs))
    else if AllStr(vs) then StrVec(Strs(vs))
    else List(vs)
  }

  /** The elements of a list-like value, read back as generic values: the
      packed vectors stand for lists of scalars. */
  function Elements(v: Value): seq<Value>
    requires v.List? || v.IntVec? || v.StrVec?
  {
    match v
    case List(items) => items
    case IntVec(ns) => seq(|ns|, k requires 0 <= k < |ns| => Int(ns[k]))
    case StrVec(ss) => seq(|ss|, k requires 0 <= k < |ss| => Str(ss[k]))
  }

  /** Packing keeps the elements, their number and their order; it picks an
      integer vector exactly when the list is non-empty and all integers, a
      string vector exactly when it is non-empty and all strings. */
  lemma PackKeepsElements(vs: seq<Value>)
    ensures Pack(vs).List? || Pack(vs).IntVec? || Pack(vs).StrVec?
    ensures Elements(Pack(vs)) == vs
    ensures Pack(vs).IntVec? <==> |vs| > 0 && AllInt(vs)
    ensures Pack(vs).StrVec? <==> |vs| > 0 && AllStr(vs)
  {
    if |vs| > 0 && AllInt(vs) {
      IntsIndex(vs);
      assert forall k :: 0 <= k < |vs| ==> Elements(Pack(vs))[k] == vs[k];
    } else if |vs| > 0 && AllStr(vs) {
      StrsIndex(vs);
      assert forall k :: 0 <= k < |vs| ==> Elements(Pack(vs))[k] == vs[k];
    }
  }

  /** The INTSXP fill loop: walks the list from its head, writing the
      integer of the i-th cell into slot i of a fresh vector. */
  method IntVector(head: Cell?<Value>, ghost cells: seq<Cell<Value>>, len: nat) returns (ns: seq<int>)
    requires Chain(head, cells) && len == |cells|
    requires AllInt(Cars(cells))
    ensures ns == Ints(Cars(cells))
  {
    CarsIndex(cells);
    IntsIndex(Cars(cells));
    var newans := new int[len];
    var p := head;
    var i := 0;
    while p != null
      invariant 0 <= i <= len
      invariant p == if i < len then cells[i] else null
      invariant forall k :: 0 <= k < i ==> newans[k] == cells[k].car.n
      decreases len - i
    {
      assert Cars(cells)[i] == p.car;
      newans[i] := p.car.n;
      p := p.cdr;
      i := i + 1;
    }
    ns := newans[..];
  }

  /** The STRSXP fill loop: walks the list from its head, writing the
      string of the i-th cell into slot i of a fresh vector. */
  method StrVector(head: Cell?<Value>, ghost cells: seq<Cell<Value>>, len: nat) returns (ss: seq<seq<byte>>)
    requires Chain(head, cells) && len == |cells|
    requires AllStr(Cars(cells))
    ensures ss == Strs(Cars(cells))
  {
    CarsIndex(cells);
    StrsIndex(Cars(cells));
    var newans := new seq<byte>[len];
    var p := head;
    var i := 0;
    while p != null
      invariant 0 <= i <= len
      invariant p == if i < len then cells[i] else null
      invariant forall k :: 0 <= k < i ==> newans[k] == cells[k].car.bytes
      decreases len - i
    {
      assert Cars(cells)[i] == p.car;
      newans[i] := p.car.bytes;
      p := p.cdr;
      i := i + 1;
    }
    ss := newans[..];
  }
}
