/** `iter_bfs(permpair, root)`: relabel the edges of (alpha, beta) in
    breadth-first order from `root`, and emit the relabelled pair as the
    stream new_alpha(0), new_beta(0), new_alpha(1), new_beta(1), ... */
module Bfs {
  import opened Basics
  import opened Relabelling

  /** Where a walk stopped: the old edges in label order, and the exception
      that ended it, if any. */
  datatype Walk = Walk(labels: seq<nat>, error: Option<Error>)

  /** Every label below k has been visited: its old edge has an entry in
      beta, and both its images already carry labels. */
  ghost predicate Processed(alpha: seq<nat>, beta: seq<nat>, labels: seq<nat>, k: nat) {
    && k <= |labels|
    && (forall j {:trigger labels[j]} :: 0 <= j < k ==> labels[j] < |alpha| && labels[j] < |beta|)
    && (forall j {:trigger alpha[labels[j]]} {:trigger beta[labels[j]]} :: 0 <= j < k ==>
          labels[j] < |alpha| && labels[j] < |beta| && alpha[labels[j]] in labels && beta[labels[j]] in labels)
  }

  /** Visiting an edge whose images are `a` and `b`: `forward(a)` then
      `forward(b)`. */
  function Visit(labels: seq<nat>, a: nat, b: nat): (r: seq<nat>)
    requires Distinct(labels)
    ensures Distinct(r) && labels <= r && a in r && b in r
    ensures Elems(r) == Elems(labels) + {a, b}
  {
    ForwardBackward(labels, a);
    ForwardBackward(Labelled(labels, a), b);
    Labelled(Labelled(labels, a), b)
  }

  /** The walk from label k on, with the labels handed out so far: visit
      label k, label its alpha image then its beta image, go on with k + 1.
      It stops with ValueError when label k does not exist yet, and with
      IndexError when an image is not an edge. */
  function BfsFrom(alpha: seq<nat>, beta: seq<nat>, labels: seq<nat>, k: nat): (w: Walk)
    requires Distinct(labels) && InRange(labels, |alpha|) && k <= |labels|
    ensures Distinct(w.labels) && InRange(w.labels, |alpha|) && labels <= w.labels
    ensures w.error == None || w.error == Some(ValueError) || w.error == Some(IndexError)
    decreases |alpha| - k
  {
    DistinctBound(labels, |alpha|);
    if k == |alpha| then Walk(labels, None)
    else if k == |labels| then Walk(labels, Some(ValueError))
    else
      var x := labels[k];
      if x >= |beta| || alpha[x] >= |alpha| || beta[x] >= |alpha| then
        Walk(labels, Some(IndexError))
      else
        VisitInRange(labels, alpha[x], beta[x], |alpha|);
        BfsFrom(alpha, beta, Visit(labels, alpha[x], beta[x]), k + 1)
  }

  lemma VisitInRange(labels: seq<nat>, a: nat, b: nat, n: nat)
    requires Distinct(labels) && InRange(labels, n) && a < n && b < n
    ensures InRange(Visit(labels, a, b), n)
  {
    var next := Visit(labels, a, b);
    forall i | 0 <= i < |next| ensures next[i] < n {
      assert next[i] in Elems(next);
      if next[i] in Elems(labels) {
        var j :| 0 <= j < |labels| && labels[j] == next[i];
      }
    }
  }

  /** The emitted stream for labels 0..k-1, read off the labels handed out. */
  function EmitPrefix(alpha: seq<nat>, beta: seq<nat>, labels: seq<nat>, k: nat): seq<nat>
    requires Processed(alpha, beta, labels, k)
  {
    if k == 0 then []
    else
      EmitPrefix(alpha, beta, labels, k - 1)
        + [Label(labels, alpha[labels[k - 1]]), Label(labels, beta[labels[k - 1]])]
  }

  /** `tuple(iter_bfs((alpha, beta), root))`. */
  function BfsSpec(alpha: seq<nat>, beta: seq<nat>, root: int): Result<seq<nat>> {
    if root < 0 then Err(ValueError)
    else if root >= |alpha| then Err(IndexError)
    else
      var w := BfsFrom(alpha, beta, [root], 0);
      if w.error.Some? then Err(w.error.value)
      else
        BfsFromProcessed(alpha, beta, [root], 0);
        Ok(EmitPrefix(alpha, beta, w.labels, |alpha|))
  }

  /** The old edges in the order the walk labels them. */
  function BfsOrder(alpha: seq<nat>, beta: seq<nat>, root: nat): seq<nat>
    requires root < |alpha|
  {
    BfsFrom(alpha, beta, [root], 0).labels
  }

  // ---------------------------------------------------------------------
  // Facts about the walk
  // ---------------------------------------------------------------------

  /** A walk that finishes has visited every label, and there are as many
      labels as edges. */
  lemma {:induction false} BfsFromProcessed(alpha: seq<nat>, beta: seq<nat>, labels: seq<nat>, k: nat)
    requires Distinct(labels) && InRange(labels, |alpha|) && k <= |labels|
    requires Processed(alpha, beta, labels, k)
    ensures BfsFrom(alpha, beta, labels, k).error == None ==>
              Processed(alpha, beta, BfsFrom(alpha, beta, labels, k).labels, |alpha|)
              && |BfsFrom(alpha, beta, labels, k).labels| == |alpha|
    decreases |alpha| - k
  {
    DistinctBound(labels, |alpha|);
    if k < |alpha| && k < |labels| {
      var x := labels[k];
      if x < |beta| && alpha[x] < |alpha| && beta[x] < |alpha| {
        var next := VisitNext(alpha, beta, labels, k);
        BfsFromProcessed(alpha, beta, next, k + 1);
      }
    }
  }

  /** A walk stopped by `backward` has visited every label it handed out,
      and handed out fewer labels than there are edges. */
  lemma {:induction false} BfsFromStuck(alpha: seq<nat>, beta: seq<nat>, labels: seq<nat>, k: nat)
    requires Distinct(labels) && InRange(labels, |alpha|) && k <= |labels|
    requires Processed(alpha, beta, labels, k)
    ensures BfsFrom(alpha, beta, labels, k).error == Some(ValueError) ==>
              Processed(alpha, beta, BfsFrom(alpha, beta, labels, k).labels, |BfsFrom(alpha, beta, labels, k).labels|)
              && |BfsFrom(alpha, beta, labels, k).labels| < |alpha|
    decreases |alpha| - k
  {
    DistinctBound(labels, |alpha|);
    if k < |alpha| && k < |labels| {
      var x := labels[k];
      if x < |beta| && alpha[x] < |alpha| && beta[x] < |alpha| {
        var next := VisitNext(alpha, beta, labels, k);
        BfsFromStuck(alpha, beta, next, k + 1);
      }
    }
  }

  /** One visit of the walk keeps its invariants. */
  lemma VisitNext(alpha: seq<nat>, beta: seq<nat>, labels: seq<nat>, k: nat) returns (next: seq<nat>)
    requires Distinct(labels) && InRange(labels, |alpha|) && k < |labels| && k < |alpha|
    requires Processed(alpha, beta, labels, k)
    requires labels[k] < |beta| && alpha[labels[k]] < |alpha| && beta[labels[k]] < |alpha|
    ensures next == Visit(labels, alpha[labels[k]], beta[labels[k]])
    ensures Distinct(next) && InRange(next, |alpha|) && k + 1 <= |next|
    ensures Processed(alpha, beta, next, k + 1)
    ensures BfsFrom(alpha, beta, labels, k) == BfsFrom(alpha, beta, next, k + 1)
  {
    var x := labels[k];
    next := Visit(labels, alpha[x], beta[x]);
    assert InRange(next, |alpha|) by {
      VisitInRange(labels, alpha[x], beta[x], |alpha|);
    }
    assert Processed(alpha, beta, next, k + 1) by {
      ProcessedGrows(alpha, beta, labels, next, k);
      assert next[k] == x;
      ProcessedExtend(alpha, beta, next, k);
    }
  }

  /** Visited labels stay visited when the table grows. */
  lemma ProcessedGrows(alpha: seq<nat>, beta: seq<nat>, labels: seq<nat>, more: seq<nat>, k: nat)
    requires Processed(alpha, beta, labels, k) && labels <= more
    ensures Processed(alpha, beta, more, k)
  {
    forall j | 0 <= j < k
      ensures more[j] < |alpha| && more[j] < |beta| && alpha[more[j]] in more && beta[more[j]] in more
    {
      assert more[j] == labels[j];
      var p :| 0 <= p < |labels| && labels[p] == alpha[labels[j]];
      assert more[p] == labels[p];
      var q :| 0 <= q < |labels| && labels[q] == beta[labels[j]];
      assert more[q] == labels[q];
    }
  }

  /** Label k is visited once both its images carry labels. */
  lemma ProcessedExtend(alpha: seq<nat>, beta: seq<nat>, labels: seq<nat>, k: nat)
    requires Processed(alpha, beta, labels, k) && k < |labels|
    requires labels[k] < |alpha| && labels[k] < |beta|
    requires alpha[labels[k]] in labels && beta[labels[k]] in labels
    ensures Processed(alpha, beta, labels, k + 1)
  {
  }

  /** Everything the walk labels lies in any set that holds the labels it
      started with and is closed under both maps. */
  lemma {:induction false} BfsFromWithin(alpha: seq<nat>, beta: seq<nat>, labels: seq<nat>, k: nat, s: set<nat>)
    requires Distinct(labels) && InRange(labels, |alpha|) && k <= |labels|
    requires Closed(alpha, s) && Closed(beta, s) && Elems(labels) <= s
    ensures Elems(BfsFrom(alpha, beta, labels, k).labels) <= s
    decreases |alpha| - k
  {
    DistinctBound(labels, |alpha|);
    if k < |alpha| && k < |labels| {
      var x := labels[k];
      if x < |beta| && alpha[x] < |alpha| && beta[x] < |alpha| {
        assert x in Elems(labels);
        var next := Visit(labels, alpha[x], beta[x]);
        VisitInRange(labels, alpha[x], beta[x], |alpha|);
        BfsFromWithin(alpha, beta, next, k + 1, s);
        assert BfsFrom(alpha, beta, labels, k) == BfsFrom(alpha, beta, next, k + 1);
      }
    }
  }

  /** On a pair of maps of the same edges, the walk can only stop because
      some edge is unreachable: it never raises IndexError. */
  lemma {:induction false} BfsFromNoIndexError(alpha: seq<nat>, beta: seq<nat>, labels: seq<nat>, k: nat)
    requires PairOk(alpha, beta)
    requires Distinct(labels) && InRange(labels, |alpha|) && k <= |labels|
    ensures BfsFrom(alpha, beta, labels, k).error != Some(IndexError)
    decreases |alpha| - k
  {
    DistinctBound(labels, |alpha|);
    if k < |alpha| && k < |labels| {
      var x := labels[k];
      var next := Visit(labels, alpha[x], beta[x]);
      VisitInRange(labels, alpha[x], beta[x], |alpha|);
      BfsFromNoIndexError(alpha, beta, next, k + 1);
      assert BfsFrom(alpha, beta, labels, k) == BfsFrom(alpha, beta, next, k + 1);
    }
  }

  lemma {:induction false} EmitPrefixLength(alpha: seq<nat>, beta: seq<nat>, labels: seq<nat>, k: nat)
    requires Processed(alpha, beta, labels, k)
    ensures |EmitPrefix(alpha, beta, labels, k)| == 2 * k
  {
    if k > 0 {
      EmitPrefixLength(alpha, beta, labels, k - 1);
    }
  }

  /** Entries 2j and 2j+1 of the stream are the new labels of the alpha
      and beta images of the edge with label j. */
  lemma {:induction false} EmitPrefixAt(alpha: seq<nat>, beta: seq<nat>, labels: seq<nat>, k: nat, j: nat)
    requires Processed(alpha, beta, labels, k) && j < k
    ensures |EmitPrefix(alpha, beta, labels, k)| == 2 * k
    ensures EmitPrefix(alpha, beta, labels, k)[2 * j] == Label(labels, alpha[labels[j]])
    ensures EmitPrefix(alpha, beta, labels, k)[2 * j + 1] == Label(labels, beta[labels[j]])
  {
    EmitPrefixLength(alpha, beta, labels, k - 1);
    var prefix := EmitPrefix(alpha, beta, labels, k - 1);
    var x := labels[k - 1];
    var tail := [Label(labels, alpha[x]), Label(labels, beta[x])];
    assert EmitPrefix(alpha, beta, labels, k) == prefix + tail;
    if j < k - 1 {
      EmitPrefixAt(alpha, beta, labels, k - 1, j);
      assert (prefix + tail)[2 * j] == prefix[2 * j];
      assert (prefix + tail)[2 * j + 1] == prefix[2 * j + 1];
    } else {
      assert (prefix + tail)[2 * j] == tail[0];
      assert (prefix + tail)[2 * j + 1] == tail[1];
    }
  }

  /** The root gets label 0, the relabelling is a permutation of the edges,
      and the output is the pair conjugated by it: label out[2k] carries
      alpha of the edge with label k, and out[2k+1] carries its beta. */
  lemma BfsConjugates(alpha: seq<nat>, beta: seq<nat>, root: nat, k: nat)
    requires root < |alpha| && BfsSpec(alpha, beta, root).Ok? && k < |alpha|
    ensures BfsOrder(alpha, beta, root)[0] == root
    ensures IsPermutation(BfsOrder(alpha, beta, root)) && |BfsOrder(alpha, beta, root)| == |alpha|
    ensures |BfsSpec(alpha, beta, root).value| == 2 * |alpha|
    ensures var order := BfsOrder(alpha, beta, root);
            var out := BfsSpec(alpha, beta, root).value;
            out[2 * k] < |alpha| && out[2 * k + 1] < |alpha| && order[k] < |beta|
            && order[out[2 * k]] == alpha[order[k]] && order[out[2 * k + 1]] == beta[order[k]]
  {
    var order := BfsOrder(alpha, beta, root);
    BfsFromProcessed(alpha, beta, [root], 0);
    assert [root] <= order;
    EmitPrefixAt(alpha, beta, order, |alpha|, k);
  }

  /** When the walk finishes, every set of edges that holds the root and is
      closed under alpha and beta holds every edge. */
  lemma BfsOkReachesAll(alpha: seq<nat>, beta: seq<nat>, root: nat, s: set<nat>)
    requires root < |alpha| && BfsSpec(alpha, beta, root).Ok?
    requires Closed(alpha, s) && Closed(beta, s) && root in s
    ensures RangeSet(|alpha|) <= s
  {
    var order := BfsOrder(alpha, beta, root);
    BfsFromProcessed(alpha, beta, [root], 0);
    BfsFromWithin(alpha, beta, [root], 0, s);
    FullCover(order, |alpha|);
  }

  /** When the walk on a pair of maps of the same edges raises, it is the
      ValueError of `backward`, and the edges labelled so far are a set
      closed under both maps that holds the root but misses some edge. */
  lemma BfsErrStuck(alpha: seq<nat>, beta: seq<nat>, root: nat)
    requires PairOk(alpha, beta) && root < |alpha| && BfsSpec(alpha, beta, root).Err?
    ensures BfsSpec(alpha, beta, root).error == ValueError
    ensures var reached := Elems(BfsOrder(alpha, beta, root));
            Closed(alpha, reached) && Closed(beta, reached) && root in reached
            && reached != RangeSet(|alpha|)
  {
    var order := BfsOrder(alpha, beta, root);
    BfsFromNoIndexError(alpha, beta, [root], 0);
    BfsFromStuck(alpha, beta, [root], 0);
    assert [root] <= order;
    var reached := Elems(order);
    forall y | y in reached ensures y < |alpha| && alpha[y] in reached && beta[y] in reached {
      var j :| 0 <= j < |order| && order[j] == y;
      assert alpha[order[j]] in order && beta[order[j]] in order;
    }
    assert root in reached by {
      assert order[0] == root;
    }
    DistinctCard(order);
    RangeSetCard(|alpha|);
  }

  // ---------------------------------------------------------------------
  // The generator
  // ---------------------------------------------------------------------

  lemma LabelStable(labels: seq<nat>, more: seq<nat>, a: nat)
    requires labels <= more && a in labels
    ensures Label(more, a) == Label(labels, a)
  {
    assert more == labels + more[|labels|..];
    IndexOfPrefix(labels, more[|labels|..], a);
  }

  /** Labels already handed out never change, so the stream emitted so far
      reads the same off any later table. */
  lemma {:induction false} EmitPrefixStable(alpha: seq<nat>, beta: seq<nat>, labels: seq<nat>, more: seq<nat>, k: nat)
    requires Processed(alpha, beta, labels, k) && labels <= more
    ensures Processed(alpha, beta, more, k)
    ensures EmitPrefix(alpha, beta, more, k) == EmitPrefix(alpha, beta, labels, k)
  {
    ProcessedGrows(alpha, beta, labels, more, k);
    if k > 0 {
      EmitPrefixStable(alpha, beta, labels, more, k - 1);
      var x := labels[k - 1];
      assert more[k - 1] == x;
      LabelStable(labels, more, alpha[x]);
      LabelStable(labels, more, beta[x]);
      var tail := [Label(labels, alpha[x]), Label(labels, beta[x])];
      assert EmitPrefix(alpha, beta, labels, k) == EmitPrefix(alpha, beta, labels, k - 1) + tail;
      assert EmitPrefix(alpha, beta, more, k) == EmitPrefix(alpha, beta, more, k - 1) + tail;
      assert EmitPrefix(alpha, beta, more, k) == EmitPrefix(alpha, beta, labels, k);
    } else {
      assert EmitPrefix(alpha, beta, more, k) == [] == EmitPrefix(alpha, beta, labels, k);
    }
  }

  /** The loop state of `iter_bfs` before label k is visited: the walk
      from here is the walk from the root, and `out` is what has been
      yielded so far. */
  ghost predicate Progress(alpha: seq<nat>, beta: seq<nat>, root: nat, labels: seq<nat>, k: nat, out: seq<nat>)
    requires root < |alpha|
  {
    && Distinct(labels) && InRange(labels, |alpha|) && k <= |labels|
    && BfsFrom(alpha, beta, labels, k) == BfsFrom(alpha, beta, [root], 0)
    && Processed(alpha, beta, labels, k)
    && out == EmitPrefix(alpha, beta, labels, k)
  }

  /** The loop state before the first round: only the root is labelled. */
  lemma ProgressStart(alpha: seq<nat>, beta: seq<nat>, root: nat)
    requires root < |alpha|
    ensures Progress(alpha, beta, root, [root], 0, [])
  {
  }

  /** One round of the loop: visiting label k keeps the loop state. */
  lemma ProgressStep(alpha: seq<nat>, beta: seq<nat>, root: nat, labels: seq<nat>, k: nat, out: seq<nat>)
    requires root < |alpha| && Progress(alpha, beta, root, labels, k, out)
    requires k < |alpha| && k < |labels|
    requires labels[k] < |beta| && alpha[labels[k]] < |alpha| && beta[labels[k]] < |alpha|
    ensures var x := labels[k];
            var once := Labelled(labels, alpha[x]);
            Progress(alpha, beta, root, Labelled(once, beta[x]), k + 1,
                     out + [Label(labels, alpha[x]), Label(once, beta[x])])
  {
    var x := labels[k];
    var a, b := alpha[x], beta[x];
    var once := Labelled(labels, a);
    var next := VisitNext(alpha, beta, labels, k);
    assert next == Labelled(once, b);
    var tail := [Label(labels, a), Label(once, b)];
    assert Label(next, alpha[next[k]]) == Label(labels, a) && Label(next, beta[next[k]]) == Label(once, b) by {
      assert next[k] == x;
      ForwardBackward(labels, a);
      LabelStable(once, next, a);
      ForwardIdempotent(labels, a);
      ForwardIdempotent(once, b);
    }
    assert EmitPrefix(alpha, beta, next, k) == out by {
      EmitPrefixStable(alpha, beta, labels, next, k);
    }
    assert EmitPrefix(alpha, beta, next, k + 1) == out + tail;
  }

  /** The loop ran through every label: its stream is the whole output. */
  lemma ProgressDone(alpha: seq<nat>, beta: seq<nat>, root: nat, labels: seq<nat>, out: seq<nat>)
    requires root < |alpha| && Progress(alpha, beta, root, labels, |alpha|, out)
    ensures BfsSpec(alpha, beta, root) == Ok(out)
  {
    var w := BfsFrom(alpha, beta, [root], 0);
    assert w == Walk(labels, None);
  }

  /** Where the loop state can stop the run: label k not handed out yet is
      a ValueError, an edge without a beta entry or with an image that is
      not an edge is an IndexError. */
  lemma ProgressFails(alpha: seq<nat>, beta: seq<nat>, root: nat, labels: seq<nat>, k: nat, out: seq<nat>)
    requires root < |alpha| && Progress(alpha, beta, root, labels, k, out) && k < |alpha|
    ensures k >= |labels| ==> BfsSpec(alpha, beta, root) == Err(ValueError)
    ensures k < |labels| && labels[k] >= |beta| ==> BfsSpec(alpha, beta, root) == Err(IndexError)
    ensures k < |labels| && labels[k] < |beta| && (alpha[labels[k]] >= |alpha| || beta[labels[k]] >= |alpha|) ==>
              BfsSpec(alpha, beta, root) == Err(IndexError)
  {
  }

  /** One round of the loop of `iter_bfs`: look up the old edge with label
      k, label its alpha image then its beta image, and yield those labels;
      or the exception the round raises, which ends the whole run. */
  method VisitLabel(relabel: Relabel, alpha: seq<nat>, beta: seq<nat>, root: nat, k: nat, out: seq<nat>)
    returns (r: Result<seq<nat>>)
    requires relabel.Valid() && relabel.maxsize == |alpha| && root < |alpha| && k < |alpha|
    requires Progress(alpha, beta, root, relabel.labels, k, out)
    modifies relabel, relabel.fwd, relabel.bwd
    ensures relabel.Valid()
    ensures r.Ok? ==> Progress(alpha, beta, root, relabel.labels, k + 1, r.value)
    ensures r.Err? ==> BfsSpec(alpha, beta, root) == Err(r.error)
  {
    ghost var before := relabel.labels;
    ProgressFails(alpha, beta, root, before, k, out);
    var oldLabel := relabel.Backward(k);
    if oldLabel.Err? {
      return Err(ValueError);
    }
    var x := oldLabel.value;
    var oldAlpha := alpha[x];
    if x >= |beta| {
      return Err(IndexError);
    }
    var oldBeta := beta[x];
    var newAlpha := relabel.Forward(oldAlpha);
    if newAlpha.Err? {
      return Err(newAlpha.error);
    }
    var newBeta := relabel.Forward(oldBeta);
    if newBeta.Err? {
      return Err(newBeta.error);
    }
    ProgressStep(alpha, beta, root, before, k, out);
    return Ok(out + [newAlpha.value, newBeta.value]);
  }

  /** `iter_bfs((alpha, beta), root)`, run to the end: the stream it yields,
      or the exception it raises. */
  method IterBfs(alpha: seq<nat>, beta: seq<nat>, root: int) returns (r: Result<seq<nat>>)
    ensures r == BfsSpec(alpha, beta, root)
  {
    var size := |alpha|;
    var relabel := new Relabel(size);
    var edgeZero := relabel.Forward(root);
    if edgeZero.Err? {
      return Err(edgeZero.error);
    }
    assert relabel.labels == [root];
    ProgressStart(alpha, beta, root);
    var out: seq<nat> := [];
    for newLabel := 0 to size
      invariant fresh(relabel.fwd) && fresh(relabel.bwd)
      invariant relabel.Valid() && relabel.maxsize == size
      invariant Progress(alpha, beta, root, relabel.labels, newLabel, out)
    {
      var step := VisitLabel(relabel, alpha, beta, root, newLabel, out);
      if step.Err? {
        return Err(step.error);
      }
      out := step.value;
      assert Progress(alpha, beta, root, relabel.labels, newLabel + 1, out);
    }
    ProgressDone(alpha, beta, root, relabel.labels, out);
    return Ok(out);
  }

  /** Two edges swapped by alpha and fixed by beta, walked from edge 1:
      edge 1 gets label 0 and edge 0 label 1, so the output is the pair
      conjugated by that swap. */
  lemma BfsSmallExample()
    ensures BfsSpec([1, 0], [0, 1], 1) == Ok([1, 0, 0, 1])
  {
    assert Visit([1], 0, 1) == [1, 0];
    assert Visit([1, 0], 1, 0) == [1, 0];
    assert BfsFrom([1, 0], [0, 1], [1], 0) == Walk([1, 0], None);
    BfsConjugates([1, 0], [0, 1], 1, 0);
    BfsConjugates([1, 0], [0, 1], 1, 1);
    var out := BfsSpec([1, 0], [0, 1], 1).value;
    assert |out| == 4 && out[0] == 1 && out[1] == 0 && out[2] == 0 && out[3] == 1;
    assert out == [1, 0, 0, 1];
  }

  /** A pair that is not transitive: from edge 0 the walk never reaches
      edge 1, and `backward(1)` raises ValueError. Roots outside the edges
      fail before the walk starts. */
  lemma BfsErrorExamples()
    ensures BfsSpec([0, 1], [0, 1], 0) == Err(ValueError)
    ensures BfsSpec([0, 1], [0, 1], 2) == Err(IndexError)
    ensures BfsSpec([0, 1], [0, 1], -1) == Err(ValueError)
  {
    assert Visit([0], 0, 0) == [0];
    assert BfsFrom([0, 1], [0, 1], [0], 0) == Walk([0], Some(ValueError));
  }
}
