/** `Relabel`: a partial relabelling table that only ever grows. Old
    indices below `maxsize` receive new labels 0, 1, 2, ... in the order
    they are first seen. */
module Relabelling {
  import opened Basics

  // ---------------------------------------------------------------------
  // The abstract table: the old indices, listed in label order
  // ---------------------------------------------------------------------

  /** The label that `forward(i)` returns when the old indices labelled so
      far are `labels`: the existing one, or the next free one. */
  function Label(labels: seq<nat>, i: nat): nat {
    if i in labels then IndexOf(labels, i) else |labels|
  }

  /** The table after `forward(i)`. */
  function Labelled(labels: seq<nat>, i: nat): seq<nat> {
    if i in labels then labels else labels + [i]
  }

  /** `forward` keeps the table a bijection between its old indices and
      0, ..., size-1, and `backward` undoes it. */
  lemma ForwardBackward(labels: seq<nat>, i: nat)
    requires Distinct(labels)
    ensures Distinct(Labelled(labels, i))
    ensures Label(labels, i) < |Labelled(labels, i)|
    ensures Labelled(labels, i)[Label(labels, i)] == i
    ensures labels <= Labelled(labels, i)
  {
    if i !in labels {
      assert Elems([i]) == {i};
      DistinctAppend(labels, [i]);
    }
  }

  /** A fresh index gets the next label and grows the table by exactly one;
      a known one changes nothing. */
  lemma ForwardFresh(labels: seq<nat>, i: nat)
    ensures i !in labels ==> Label(labels, i) == |labels| && |Labelled(labels, i)| == |labels| + 1
    ensures i in labels ==> Label(labels, i) < |labels| && Labelled(labels, i) == labels
  {
  }

  /** A repeated `forward(i)` returns the same label and leaves the table
      alone. */
  lemma ForwardIdempotent(labels: seq<nat>, i: nat)
    ensures Label(Labelled(labels, i), i) == Label(labels, i)
    ensures Labelled(Labelled(labels, i), i) == Labelled(labels, i)
  {
    if i !in labels {
      var extended := labels + [i];
      assert extended[|labels|] == i;
      assert forall j :: 0 <= j < |labels| ==> extended[j] != i;
    }
  }

  /** `map(relabel.forward, xs)`: the labels returned, and the final table. */
  function ForwardAll(labels: seq<nat>, xs: seq<nat>): (seq<nat>, seq<nat>)
    decreases |xs|
  {
    if xs == [] then ([], labels)
    else
      var rest := ForwardAll(Labelled(labels, xs[0]), xs[1..]);
      ([Label(labels, xs[0])] + rest.0, rest.1)
  }

  /** Distinct fresh indices get consecutive labels, in call order. */
  lemma {:induction false} ForwardAllFresh(labels: seq<nat>, xs: seq<nat>)
    requires Distinct(xs) && Elems(xs) !! Elems(labels)
    ensures ForwardAll(labels, xs).1 == labels + xs
    ensures |ForwardAll(labels, xs).0| == |xs|
    ensures forall k :: 0 <= k < |xs| ==> ForwardAll(labels, xs).0[k] == |labels| + k
    decreases |xs|
  {
    if xs != [] {
      var x := xs[0];
      assert x in Elems(xs);
      assert x !in labels;
      var next := labels + [x];
      assert Elems(xs[1..]) !! Elems(next) by {
        forall y | y in Elems(xs[1..]) ensures y !in Elems(next) {
          var j :| 0 <= j < |xs[1..]| && xs[1..][j] == y;
          assert xs[j + 1] == y;
          assert y in Elems(xs);
        }
      }
      ForwardAllFresh(next, xs[1..]);
      assert next + xs[1..] == labels + xs;
    }
  }

  // ---------------------------------------------------------------------
  // The table itself
  // ---------------------------------------------------------------------

  class Relabel {
    const maxsize: nat
    var size: nat
    var zeroOrigin: Option<nat>
    const fwd: array<nat>
    const bwd: array<nat>
    /** The old indices in label order: `backward` as a sequence. */
    ghost var labels: seq<nat>

    /** `fwd` maps each old index to its label and every other index to 0;
        `bwd` lists the old indices; `zeroOrigin` is the index with label 0,
        the one entry of `fwd` whose 0 means "assigned". */
    ghost predicate Valid()
      reads this, fwd, bwd
    {
      && fwd.Length == maxsize && bwd.Length == maxsize && fwd != bwd
      && size == |labels| && size <= maxsize && Distinct(labels) && InRange(labels, maxsize)
      && (forall k :: 0 <= k < size ==> bwd[k] == labels[k])
      && (forall k :: 0 <= k < size ==> fwd[labels[k]] == k)
      && (forall i :: 0 <= i < maxsize && i !in labels ==> fwd[i] == 0)
      && zeroOrigin == (if size == 0 then None else Some(labels[0]))
    }

    /** `Relabel(maxsize)`: an empty table over 0, ..., maxsize-1. */
    constructor (maxsize: nat)
      ensures Valid() && labels == [] && this.maxsize == maxsize
      ensures fresh(fwd) && fresh(bwd)
    {
      this.maxsize := maxsize;
      size := 0;
      zeroOrigin := None;
      bwd := new nat[maxsize](_ => 0);
      fwd := new nat[maxsize](_ => 0);
      labels := [];
    }

    /** The `size` property: how many labels have been handed out. */
    function Size(): (r: nat)
      reads this, fwd, bwd
      requires Valid()
      ensures r == |labels|
    {
      size
    }

    /** `backward(i)`: the old index with label i, ValueError unless
        0 <= i < size. */
    method Backward(i: int) returns (r: Result<nat>)
      requires Valid()
      ensures 0 <= i < |labels| ==> r == Ok(labels[i])
      ensures !(0 <= i < |labels|) ==> r == Err(ValueError)
    {
      if 0 <= i < size {
        return Ok(bwd[i]);
      } else {
        return Err(ValueError);
      }
    }

    /** `forward(i)`: the label of old index i, handing out the next free
        one the first time i is seen. A negative i is a ValueError, and
        i >= maxsize fails the array lookup with IndexError. */
    method Forward(i: int) returns (r: Result<nat>)
      requires Valid()
      modifies this, fwd, bwd
      ensures Valid()
      ensures i < 0 ==> r == Err(ValueError) && labels == old(labels)
      ensures i >= maxsize ==> r == Err(IndexError) && labels == old(labels)
      ensures 0 <= i < maxsize ==> r == Ok(Label(old(labels), i)) && labels == Labelled(old(labels), i)
    {
      if i < 0 {
        return Err(ValueError);
      }
      if i >= fwd.Length {
        return Err(IndexError);
      }
      var value := fwd[i];
      if value != 0 || zeroOrigin == Some(i) {
        assert i in labels;
        return Ok(value);
      }
      assert i !in labels;
      assert Distinct(labels + [i]) by {
        assert Elems([i]) == {i};
        DistinctAppend(labels, [i]);
      }
      DistinctBound(labels + [i], maxsize);
      var next := size;
      fwd[i] := next;
      bwd[next] := i;
      if next == 0 {
        zeroOrigin := Some(i);
      }
      size := size + 1;
      labels := labels + [i];
      return Ok(next);
    }
  }

  /** The class doctest on the abstract table: (7, 4, 6, 1, 0) get labels
      0..4 and become the table, so `backward` gives them back in order;
      label 5 does not exist until `forward(9)` hands it out. */
  lemma RelabelDoctest(xs: seq<nat>)
    requires |xs| == 5 && xs[0] == 7 && xs[1] == 4 && xs[2] == 6 && xs[3] == 1 && xs[4] == 0
    ensures ForwardAll([], xs) == ([0, 1, 2, 3, 4], xs)
    ensures Label(xs, 9) == 5 && Labelled(xs, 9)[5] == 9
  {
    assert Distinct(xs);
    assert Elems(xs) !! Elems([]);
    ForwardAllFresh([], xs);
    var r := ForwardAll([], xs);
    assert [] + xs == xs;
    assert r.0 == [0, 1, 2, 3, 4];
    assert 9 !in xs;
  }

  /** The index that received label 0 is recognised by `zeroOrigin`: a
      repeated `forward(4)` in a fresh table returns 0 both times and hands
      out nothing new. */
  method ZeroOriginDoctest() returns (first: Result<nat>, second: Result<nat>, size: nat)
    ensures first == Ok(0) && second == Ok(0) && size == 1
  {
    var t := new Relabel(10);
    first := t.Forward(4);
    second := t.Forward(4);
    size := t.Size();
  }
}
