/** R pairlists as the decoders use them: cons cells whose CAR is fixed at
    CONS time and whose CDR link can be reset (SETCDR), and the in-place
    reversal `reversePairList` of src/bencode.h. */
module PairList {
  import opened Values

  /** A cons cell. R_NilValue is `null`. */
  class Cell<T> {
    const car: T
    var cdr: Cell?<T>

    /** CONS(car, cdr). */
    constructor (car: T, cdr: Cell?<T>)
      ensures this.car == car && this.cdr == cdr
    {
      this.car := car;
      this.cdr := cdr;
    }
  }

  ghost predicate Distinct<T>(cells: seq<Cell<T>>)
  {
    forall j, k :: 0 <= j < k < |cells| ==> cells[j] != cells[k]
  }

  /** `head` starts a nil-terminated list whose cells, in order, are
      `cells`, with no cell repeated. */
  ghost predicate Chain<T>(head: Cell?<T>, cells: seq<Cell<T>>)
    reads cells
  {
    && Distinct(cells)
    && (if |cells| == 0 then head == null
        else head == cells[0] && cells[|cells| - 1].cdr == null)
    && (forall k :: 0 <= k < |cells| - 1 ==> cells[k].cdr == cells[k + 1])
  }

  /** The CARs of a list of cells, in order. */
  function Cars<T>(cells: seq<Cell<T>>): (r: seq<T>)
    ensures |r| == |cells|
  {
    if |cells| == 0 then [] else [cells[0].car] + Cars(cells[1..])
  }

  /** The k-th CAR is the CAR of the k-th cell. */
  lemma {:induction false} CarsIndex<T>(cells: seq<Cell<T>>)
    ensures forall k :: 0 <= k < |cells| ==> Cars(cells)[k] == cells[k].car
  {
    if |cells| > 0 {
      CarsIndex(cells[1..]);
    }
  }

  /** The reverse of a sequence. */
  function Reverse<T>(s: seq<T>): (r: seq<T>)
    ensures |r| == |s|
  {
    if |s| == 0 then [] else Reverse(s[1..]) + [s[0]]
  }

  /** Reversal reads a sequence from its last element to its first. */
  lemma {:induction false} ReverseIndex<T>(s: seq<T>)
    ensures forall k :: 0 <= k < |s| ==> Reverse(s)[k] == s[|s| - 1 - k]
  {
    if |s| > 0 {
      ReverseIndex(s[1..]);
    }
  }

  /** Reversal is its own inverse. */
  lemma ReverseReverse<T>(s: seq<T>)
    ensures Reverse(Reverse(s)) == s
  {
    ReverseIndex(s);
    ReverseIndex(Reverse(s));
    assert forall k :: 0 <= k < |s| ==> Reverse(Reverse(s))[k] == s[k];
  }

  /** Reversal moves elements and creates or drops none. */
  lemma {:induction false} ReverseSameMultiset<T>(s: seq<T>)
    ensures multiset(Reverse(s)) == multiset(s)
  {
    if |s| > 0 {
      ReverseSameMultiset(s[1..]);
      assert s == [s[0]] + s[1..];
    }
  }

  /** The CARs of the reversed cells are the reversed CARs. */
  lemma CarsReverse<T>(cells: seq<Cell<T>>)
    ensures Cars(Reverse(cells)) == Reverse(Cars(cells))
  {
    CarsIndex(cells);
    CarsIndex(Reverse(cells));
    ReverseIndex(cells);
    ReverseIndex(Cars(cells));
    assert forall k :: 0 <= k < |cells| ==> Cars(Reverse(cells))[k] == Reverse(Cars(cells))[k];
  }

  lemma CarsPrefix<T>(cells: seq<Cell<T>>, k: nat)
    requires k < |cells|
    ensures Cars(cells[..k + 1]) == Cars(cells[..k]) + [cells[k].car]
  {
    CarsIndex(cells[..k + 1]);
    CarsIndex(cells[..k]);
    assert forall j :: 0 <= j < k + 1 ==> Cars(cells[..k + 1])[j] == (Cars(cells[..k]) + [cells[k].car])[j];
  }

  /** `head` starts a nil-terminated list of distinct cells `cells` whose
      CARs are `items` from the last to the first: the shape an accumulating
      loop leaves, since each CONS puts the newest element in front. */
  ghost predicate Stacked<T>(head: Cell?<T>, cells: seq<Cell<T>>, items: seq<T>)
    reads cells
    decreases |cells|
  {
    if |cells| == 0 then head == null && |items| == 0
    else
      && |items| > 0 && head == cells[0] && cells[0] !in cells[1..]
      && cells[0].car == items[|items| - 1]
      && Stacked(cells[0].cdr, cells[1..], items[..|items| - 1])
  }

  /** A stacked list is a chain whose CARs are the items reversed. */
  lemma {:induction false} StackedChain<T>(head: Cell?<T>, cells: seq<Cell<T>>, items: seq<T>)
    requires Stacked(head, cells, items)
    ensures Chain(head, cells) && Cars(cells) == Reverse(items)
    decreases |cells|
  {
    if |cells| > 0 {
      var init := items[..|items| - 1];
      StackedChain(cells[0].cdr, cells[1..], init);
      assert forall k :: 1 <= k < |cells| ==> cells[k] == cells[1..][k - 1];
      ReverseSnoc(init, items[|items| - 1]);
      assert init + [items[|items| - 1]] == items;
    }
  }

  /** Every cell was allocated after the enclosing method started, one cell
      at a time. */
  twostate predicate Fresh<T>(new cells: seq<Cell<T>>)
    decreases |cells|
  {
    |cells| == 0 || (fresh(cells[0]) && Fresh(cells[1..]))
  }

  twostate lemma {:induction false} FreshAll<T>(new cells: seq<Cell<T>>)
    requires Fresh(cells)
    ensures forall k :: 0 <= k < |cells| ==> fresh(cells[k])
    decreases |cells|
  {
    if |cells| > 0 {
      FreshAll(cells[1..]);
      assert forall k :: 1 <= k < |cells| ==> cells[k] == cells[1..][k - 1];
    }
  }

  /** A cell allocated since the previous state, put in front of cells
      that were too. */
  twostate lemma FreshCons<T>(new x: Cell<T>, new cells: seq<Cell<T>>)
    requires fresh(x) && Fresh(cells)
    ensures Fresh([x] + cells)
  {
    assert ([x] + cells)[1..] == cells;
  }

  /** No cell is in both lists. */
  ghost predicate Disjoint<T>(xs: seq<Cell<T>>, ys: seq<Cell<T>>)
  {
    forall j, k :: 0 <= j < |xs| && 0 <= k < |ys| ==> xs[j] != ys[k]
  }

  lemma DisjointCons<T>(x: Cell<T>, xs: seq<Cell<T>>, y: Cell<T>, ys: seq<Cell<T>>)
    requires Disjoint(xs, ys) && x != y && x !in ys && y !in xs
    ensures Disjoint([x] + xs, [y] + ys)
  {
    forall j, k | 0 <= j < |xs| + 1 && 0 <= k < |ys| + 1
      ensures ([x] + xs)[j] != ([y] + ys)[k]
    {
      if j > 0 && k > 0 {
        assert ([x] + xs)[j] == xs[j - 1] && ([y] + ys)[k] == ys[k - 1];
      }
    }
  }

  /** Appending an element to a sequence puts it at the front of the
      reverse. */
  lemma ReverseSnoc<T>(items: seq<T>, x: T)
    ensures Reverse(items + [x]) == [x] + Reverse(items)
  {
    ReverseIndex(items);
    ReverseIndex(items + [x]);
    assert forall k :: 0 <= k < |items| + 1 ==> Reverse(items + [x])[k] == ([x] + Reverse(items))[k];
  }

  /** CONS(car, head) on a list that holds `items`, the last one first: the
      new cell is in front and holds the element added last. */
  method Cons<T>(car: T, head: Cell?<T>, ghost cells: seq<Cell<T>>, ghost items: seq<T>) returns (r: Cell<T>)
    requires Stacked(head, cells, items)
    ensures fresh(r) && r.car == car && r.cdr == head
    ensures Stacked(r, [r] + cells, items + [car])
  {
    r := new Cell(car, head);
    assert ([r] + cells)[1..] == cells;
    assert (items + [car])[..|items|] == items;
  }

  /** reversePairList (src/bencode.h:15-26, copied verbatim at
      src/bencode.c:39-50). The CDR links are reset one cell at a time; no
      cell is allocated and no CAR changes, so the result is the same cells
      in reverse order, and the old head becomes the last cell. R's SETCDR
      refuses R_NilValue, so an empty list is an error. */
  method ReversePairList<T>(head: Cell?<T>, ghost cells: seq<Cell<T>>) returns (r: Result<Cell<T>>)
    requires Chain(head, cells)
    modifies cells
    ensures head == null ==> r == Err(NilList)
    ensures head != null ==> r.Ok? && Chain(r.value, Reverse(cells))
    ensures head != null ==> head.cdr == null
    ensures |cells| == 1 ==> r == Ok(head)
  {
    if head == null {
      return Err(NilList);
    }
    ReverseIndex(cells);
    var h: Cell<T> := head;
    var tail := head.cdr;
    head.cdr := null;
    ghost var k := 1;
    while tail != null
      invariant 1 <= k <= |cells|
      invariant h == cells[k - 1]
      invariant tail == if k < |cells| then cells[k] else null
      invariant cells[0].cdr == null
      invariant forall j :: 0 < j < k ==> cells[j].cdr == cells[j - 1]
      invariant forall j :: k <= j < |cells| - 1 ==> cells[j].cdr == cells[j + 1]
      invariant k < |cells| ==> cells[|cells| - 1].cdr == null
      decreases |cells| - k
    {
      var tmp := tail.cdr;
      tail.cdr := h;
      h := tail;
      tail := tmp;
      k := k + 1;
    }
    r := Ok(h);
  }

  /** PairToVectorList: the CARs of a list, in list order, read by walking
      the CDR links. */
  method ToVector<T>(head: Cell?<T>, ghost cells: seq<Cell<T>>) returns (vs: seq<T>)
    requires Chain(head, cells)
    ensures vs == Cars(cells)
  {
    vs := [];
    var p := head;
    ghost var k := 0;
    while p != null
      invariant 0 <= k <= |cells|
      invariant p == if k < |cells| then cells[k] else null
      invariant vs == Cars(cells[..k])
      decreases |cells| - k
    {
      CarsPrefix(cells, k);
      vs := vs + [p.car];
      p := p.cdr;
      k := k + 1;
    }
    assert cells[..k] == cells;
  }
}
