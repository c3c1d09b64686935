/** The stack of the generated parsers: a vector seen from its end, and slices of its top
    (3rd_party/bison/stack.hh). */
module ParserStack {

  /** Element i from the top of a stack whose vector is v. */
  function FromTop<T>(v: seq<T>, i: nat): T
    requires i < |v|
  {
    v[|v| - 1 - i]
  }

  /** The stack as a list, top first. */
  function TopFirst<T>(v: seq<T>): (l: seq<T>)
    ensures |l| == |v|
    ensures forall i :: 0 <= i < |v| ==> l[i] == FromTop(v, i)
  {
    seq(|v|, i requires 0 <= i < |v| => FromTop(v, i))
  }

  class Stack<T> {
    var seq_: seq<T>

    constructor ()
      ensures seq_ == []
    {
      seq_ := [];
    }

    ghost function Items(): seq<T>
      reads this
    {
      TopFirst(seq_)
    }

    function At(i: nat): (t: T)
      requires i < |seq_|
      reads this
      ensures t == Items()[i]
    {
      FromTop(seq_, i)
    }

    method Push(t: T)
      modifies this
      ensures seq_ == old(seq_) + [t]
      ensures Items() == [t] + old(Items())
    {
      seq_ := seq_ + [t];
    }

    method Pop(n: nat)
      requires n <= |seq_|
      modifies this
      ensures seq_ == old(seq_)[..|old(seq_)| - n]
      ensures Items() == old(Items())[n..]
    {
      var k: nat := n;
      while k > 0
        invariant 0 <= k <= n <= |old(seq_)|
        invariant seq_ == old(seq_)[..|old(seq_)| - n + k]
      {
        seq_ := seq_[..|seq_| - 1];
        k := k - 1;
      }
    }
  }

  /** A slice of the topmost elements: it counts from the deepest one, which is number 1. */
  class Slice<T> {
    const stack: Stack<T>
    const range: nat

    constructor (s: Stack<T>, r: nat)
      ensures stack == s && range == r
    {
      stack, range := s, r;
    }

    function At(i: nat): T
      requires i <= range && range - i < |stack.seq_|
      reads stack
    {
      stack.At(range - i)
    }
  }

  // ---- Whole runs. ----

  datatype Op<T> = Push(t: T) | Pop(n: nat)

  /** A run on the vector. */
  function OnVector<T>(v: seq<T>, ops: seq<Op<T>>): seq<T>
    requires Possible(|v|, ops)
    decreases ops
  {
    if ops == [] then v
    else match ops[0]
      case Push(t) => OnVector(v + [t], ops[1..])
      case Pop(n) => OnVector(v[..|v| - n], ops[1..])
  }

  /** The same run on a list whose head is the top. */
  function OnList<T>(l: seq<T>, ops: seq<Op<T>>): seq<T>
    requires Possible(|l|, ops)
    decreases ops
  {
    if ops == [] then l
    else match ops[0]
      case Push(t) => OnList([t] + l, ops[1..])
      case Pop(n) => OnList(l[n..], ops[1..])
  }

  /** No pop takes more than there is. */
  predicate Possible<T>(size: nat, ops: seq<Op<T>>)
    decreases ops
  {
    ops == [] || match ops[0]
      case Push(t) => Possible(size + 1, ops[1..])
      case Pop(n) => n <= size && Possible(size - n, ops[1..])
  }

  /** Every run on the vector is, read from the end, the run on the list. */
  lemma {:induction false} VectorRefinesList<T>(v: seq<T>, ops: seq<Op<T>>)
    requires Possible(|v|, ops)
    ensures TopFirst(OnVector(v, ops)) == OnList(TopFirst(v), ops)
    decreases ops
  {
    if ops != [] {
      match ops[0]
      case Push(t) =>
        VectorRefinesList(v + [t], ops[1..]);
        assert TopFirst(v + [t]) == [t] + TopFirst(v);
      case Pop(n) =>
        VectorRefinesList(v[..|v| - n], ops[1..]);
        assert TopFirst(v[..|v| - n]) == TopFirst(v)[n..];
    }
  }

  function Pushes<T>(xs: seq<T>): (ops: seq<Op<T>>)
    ensures |ops| == |xs|
  {
    if xs == [] then [] else [Push(xs[0])] + Pushes(xs[1..])
  }

  lemma {:induction false} PushesAppend<T>(v: seq<T>, xs: seq<T>)
    ensures Possible(|v|, Pushes(xs)) && OnVector(v, Pushes(xs)) == v + xs
    decreases xs
  {
    if xs == [] {
      assert v + xs == v;
    } else {
      var ops, rest := Pushes(xs), xs[1..];
      PushesAppend(v + [xs[0]], rest);
      assert ops[0] == Push(xs[0]) && ops[1..] == Pushes(rest);
      OneMore(v, xs);
    }
  }

  lemma OneMore<T>(v: seq<T>, xs: seq<T>)
    requires xs != []
    ensures (v + [xs[0]]) + xs[1..] == v + xs
  {
  }

  /** A slice on a vector that ends with xs. */
  lemma SliceShowsEnd<T>(slice: Slice<T>, v: seq<T>, xs: seq<T>, i: nat)
    requires slice.stack.seq_ == v + xs && 1 <= i <= |xs| == slice.range
    ensures slice.At(i) == xs[i - 1]
  {
    assert FromTop(v + xs, |xs| - i) == (v + xs)[|v| + (i - 1)];
  }

  /** After pushing x1 to xn, a slice of range n shows xi at index i, and popping n restores the
      earlier stack. */
  lemma SliceShowsPushed<T>(slice: Slice<T>, v: seq<T>, xs: seq<T>, i: nat)
    requires 1 <= i <= |xs| == slice.range
    ensures Possible(|v|, Pushes(xs))
    ensures slice.stack.seq_ == OnVector(v, Pushes(xs)) ==>
      var w := slice.stack.seq_; |w| == |v| + |xs| && slice.At(i) == xs[i - 1] && w[..|w| - |xs|] == v
  {
    PushesAppend(v, xs);
    if slice.stack.seq_ == v + xs {
      SliceShowsEnd(slice, v, xs, i);
    }
  }
}
