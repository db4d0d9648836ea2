/** The scratch module `work.py`: a second `iter_cycles`, driven by a `done`
    bytearray and closing a cycle as soon as the walk reaches an index
    already done, and the `BytesDessin` pair. */
module Work {
  import opened Basics
  import PermTools
  import PermPairTools

  // ---------------------------------------------------------------------
  // What iter_cycles yields
  // ---------------------------------------------------------------------

  /** A walk of `perm`: non-empty, each entry `perm` of the one before, and
      starting at its least entry. */
  predicate IsWalk(perm: seq<nat>, c: seq<nat>) {
    && |c| >= 1
    && (forall i :: 0 <= i < |c| ==> c[i] < |perm| && c[0] <= c[i])
    && (forall i :: 0 <= i < |c| - 1 ==> c[i + 1] == perm[c[i]])
  }

  /** The walks found so far: each closes on an index of itself or of an
      earlier walk (one that is done, and on no later walk), their starts
      increase, and no index appears twice. */
  predicate PartialWalks(perm: seq<nat>, cs: seq<seq<nat>>) {
    && (forall k :: 0 <= k < |cs| ==> IsWalk(perm, cs[k]))
    && (forall k :: 0 <= k < |cs| ==> perm[Last(cs[k])] in Elems(Flatten(cs)))
    && (forall k, l :: 0 <= k < l < |cs| ==> perm[Last(cs[k])] !in cs[l])
    && (forall k, l :: 0 <= k < l < |cs| ==> cs[k][0] < cs[l][0])
    && Distinct(Flatten(cs))
  }

  /** What `iter_cycles(perm)` yields: walks that between them hold every
      index of `perm` exactly once. */
  predicate WalkDecomposition(perm: seq<nat>, cs: seq<seq<nat>>) {
    PartialWalks(perm, cs) && Elems(Flatten(cs)) == RangeSet(|perm|)
  }

  // ---------------------------------------------------------------------
  // iter_cycles
  // ---------------------------------------------------------------------

  /** The state of the outer loop once the walk from `start` is yielded:
      `done` marks exactly the indices of the walks, and every index up to
      `start` is among them. */
  predicate Outer(perm: seq<nat>, done: seq<bool>, cs: seq<seq<nat>>, start: int) {
    && |done| == |perm|
    && -1 <= start < |perm|
    && PartialWalks(perm, cs)
    && (forall i :: 0 <= i < |perm| ==> (done[i] <==> i in Elems(Flatten(cs))))
    && (forall i :: 0 <= i <= start ==> i in Elems(Flatten(cs)))
    && (forall k :: 0 <= k < |cs| ==> cs[k][0] <= start)
  }

  /** The state of the inner loop: `cycle` is the walk from `s` so far,
      and `done` the marks of `before` plus `cycle`. */
  predicate Inner(perm: seq<nat>, before: seq<bool>, done: seq<bool>, cs: seq<seq<nat>>, start: int,
                  s: nat, cycle: seq<nat>) {
    && Outer(perm, before, cs, start)
    && start < s < |perm| && (forall j :: start < j < s ==> before[j])
    && cycle != [] && cycle[0] == s
    && (forall i :: 0 <= i < |cycle| ==> cycle[i] < |perm| && !before[cycle[i]])
    && (forall i :: 0 <= i < |cycle| - 1 ==> cycle[i + 1] == perm[cycle[i]])
    && Distinct(cycle)
    && done == PermPairTools.Mark(before, cycle)
  }

  /** `iter_cycles(perm)`: from each index not yet done, lowest first, walk
      `perm` marking indices done until it reaches one already done. A value
      of `perm` that is not an index makes `done[item]` raise IndexError. */
  method IterCycles(perm: seq<nat>) returns (r: Result<seq<seq<nat>>>)
    ensures r.Ok? <==> IsEndo(perm)
    ensures r.Err? ==> r.error == IndexError
    ensures r.Ok? ==> WalkDecomposition(perm, r.value)
    ensures IsPermutation(perm) ==> r.Ok? && PermTools.CycleDecomposition(perm, r.value)
  {
    var n := |perm|;
    var done := new bool[n](_ => false);
    var cycles: seq<seq<nat>> := [];
    var start: int := -1;
    while true
      invariant done.Length == n && Outer(perm, done[..], cycles, start)
      decreases n - start
    {
      var s := PermTools.FindFalse(done, start + 1);
      if s == -1 {
        FinishWalks(perm, done[..], cycles, start);
        if IsPermutation(perm) {
          WalksAreCycles(perm, cycles);
        }
        return Ok(cycles);
      }
      ghost var before := done[..];
      var cycle: seq<nat> := [s];
      done[s] := true;
      var item := s;
      FirstStep(perm, before, done[..], cycles, start, s);
      while true
        invariant done.Length == n && Inner(perm, before, done[..], cycles, start, s, cycle) && item == Last(cycle)
        decreases n - |cycle|
      {
        if perm[item] >= n {
          NotEndo(perm, item);
          return Err(IndexError);
        }
        var next := perm[item];
        if done[next] {
          CloseWalk(perm, before, done[..], cycles, start, s, cycle);
          break;
        }
        ghost var mid := done[..];
        done[next] := true;
        ExtendWalk(perm, before, mid, done[..], cycles, start, s, cycle, next);
        cycle := cycle + [next];
        item := next;
      }
      cycles := cycles + [cycle];
      start := s;
    }
  }

  lemma NotEndo(perm: seq<nat>, item: nat)
    requires item < |perm| && perm[item] >= |perm|
    ensures !IsEndo(perm)
  {
  }

  lemma FirstStep(perm: seq<nat>, before: seq<bool>, done: seq<bool>, cs: seq<seq<nat>>, start: int, s: nat)
    requires Outer(perm, before, cs, start)
    requires start < s < |perm| && !before[s] && forall j :: start < j < s ==> before[j]
    requires done == before[s := true]
    ensures Inner(perm, before, done, cs, start, s, [s])
  {
    assert PermPairTools.Mark(before, [s]) == before[s := true];
  }

  /** A new index on the walk: it is not done, so it is neither on an
      earlier walk nor on this one. */
  lemma ExtendWalk(perm: seq<nat>, before: seq<bool>, mid: seq<bool>, done: seq<bool>, cs: seq<seq<nat>>,
                   start: int, s: nat, cycle: seq<nat>, next: nat)
    requires Inner(perm, before, mid, cs, start, s, cycle)
    requires next == perm[Last(cycle)] && next < |perm| && !mid[next]
    requires done == mid[next := true]
    ensures Inner(perm, before, done, cs, start, s, cycle + [next])
    ensures |cycle + [next]| <= |perm|
  {
    var c := cycle + [next];
    assert next !in cycle;
    forall i | 0 <= i < |c|
      ensures c[i] < |perm| && !before[c[i]]
    {
      if i < |cycle| {
        assert c[i] == cycle[i];
      }
    }
    forall i | 0 <= i < |c| - 1
      ensures c[i + 1] == perm[c[i]]
    {
      assert c[i] == cycle[i];
      if i + 1 < |cycle| {
        assert c[i + 1] == cycle[i + 1];
      }
    }
    DistinctAppend(cycle, [next]);
    MarkExtend(before, cycle, next);
    assert InRange(c, |perm|);
    DistinctBound(c, |perm|);
  }

  /** Marking one more index of the walk. */
  lemma MarkExtend(before: seq<bool>, cycle: seq<nat>, next: nat)
    requires next < |before|
    ensures PermPairTools.Mark(before, cycle + [next]) == PermPairTools.Mark(before, cycle)[next := true]
  {
    var m, m' := PermPairTools.Mark(before, cycle), PermPairTools.Mark(before, cycle + [next]);
    forall i | 0 <= i < |before|
      ensures m'[i] == m[next := true][i]
    {
      assert i in cycle + [next] <==> i in cycle || i == next;
    }
  }

  /** The walk reaches an index already done: what it yields extends the
      walks found so far. */
  lemma CloseWalk(perm: seq<nat>, before: seq<bool>, done: seq<bool>, cs: seq<seq<nat>>,
                  start: int, s: nat, cycle: seq<nat>)
    requires Inner(perm, before, done, cs, start, s, cycle)
    requires perm[Last(cycle)] < |perm| && done[perm[Last(cycle)]]
    ensures Outer(perm, done, cs + [cycle], s)
  {
    var prior := Elems(Flatten(cs));
    var all := Elems(Flatten(cs + [cycle]));
    FlattenAppend(cs, cycle);
    assert all == prior + Elems(cycle);
    assert Elems(cycle) !! prior;
    DistinctAppend(Flatten(cs), cycle);
    forall i | 0 <= i < |perm|
      ensures done[i] <==> i in all
    {
      assert i in cycle <==> i in Elems(cycle);
    }
    forall i | 0 <= i <= s
      ensures i in all
    {
      if i == s {
        assert cycle[0] in Elems(cycle);
      } else if i > start {
        assert before[i];
      }
    }
    forall i | 0 <= i < |cycle|
      ensures s <= cycle[i]
    {
      assert cycle[i] !in prior;
    }
    WalksAppend(perm, cs, cycle);
    forall k | 0 <= k < |cs + [cycle]|
      ensures (cs + [cycle])[k][0] <= s
    {
      if k < |cs| {
        assert (cs + [cycle])[k] == cs[k];
      }
    }
  }

  lemma WalksAppend(perm: seq<nat>, cs: seq<seq<nat>>, c: seq<nat>)
    requires PartialWalks(perm, cs) && IsWalk(perm, c)
    requires perm[Last(c)] in Elems(Flatten(cs)) + Elems(c)
    requires forall k :: 0 <= k < |cs| ==> cs[k][0] < c[0]
    requires Distinct(Flatten(cs) + c) && Elems(Flatten(cs)) !! Elems(c)
    ensures PartialWalks(perm, cs + [c])
  {
    FlattenAppend(cs, c);
    assert Elems(Flatten(cs + [c])) == Elems(Flatten(cs)) + Elems(c);
    WalksAppendEach(perm, cs, c, Elems(Flatten(cs + [c])));
    WalksAppendPairs(perm, cs, c);
  }

  /** Each walk of `cs + [c]` is a walk whose successor lies in `all`. */
  lemma WalksAppendEach(perm: seq<nat>, cs: seq<seq<nat>>, c: seq<nat>, all: set<nat>)
    requires forall k :: 0 <= k < |cs| ==> IsWalk(perm, cs[k]) && perm[Last(cs[k])] in Elems(Flatten(cs))
    requires IsWalk(perm, c) && perm[Last(c)] in all && Elems(Flatten(cs)) <= all
    ensures forall k :: 0 <= k < |cs + [c]| ==> IsWalk(perm, (cs + [c])[k]) && perm[Last((cs + [c])[k])] in all
  {
    forall k | 0 <= k < |cs + [c]|
      ensures IsWalk(perm, (cs + [c])[k]) && perm[Last((cs + [c])[k])] in all
    {
      if k < |cs| {
        assert (cs + [c])[k] == cs[k];
      }
    }
  }

  /** An earlier walk neither continues into `c` nor starts after it. */
  lemma WalksAppendPairs(perm: seq<nat>, cs: seq<seq<nat>>, c: seq<nat>)
    requires PartialWalks(perm, cs)
    requires IsWalk(perm, c) && forall k :: 0 <= k < |cs| ==> cs[k][0] < c[0]
    requires Elems(Flatten(cs)) !! Elems(c)
    ensures forall k, l :: 0 <= k < l < |cs + [c]| ==>
      perm[Last((cs + [c])[k])] !in (cs + [c])[l] && (cs + [c])[k][0] < (cs + [c])[l][0]
  {
    var cs' := cs + [c];
    forall k, l | 0 <= k < l < |cs'|
      ensures perm[Last(cs'[k])] !in cs'[l] && cs'[k][0] < cs'[l][0]
    {
      assert cs'[k] == cs[k];
      if l < |cs| {
        assert cs'[l] == cs[l];
      } else {
        assert perm[Last(cs[k])] in Elems(Flatten(cs));
      }
    }
  }

  /** No index is left undone: the walks cover every index. */
  lemma FinishWalks(perm: seq<nat>, done: seq<bool>, cs: seq<seq<nat>>, start: int)
    requires Outer(perm, done, cs, start)
    requires forall j :: start < j < |done| ==> done[j]
    ensures WalkDecomposition(perm, cs)
    ensures IsEndo(perm)
  {
    forall i: nat | i < |perm| ensures i in Elems(Flatten(cs)) {
      if i > start {
        assert done[i];
      }
    }
    FlattenBelow(cs, |perm|);
    WalksEndo(perm, cs);
  }

  /** Every index lies on a walk, and the walk looks up `perm` of each of
      its indices: so `perm` never names an index out of range. */
  lemma WalksEndo(perm: seq<nat>, cs: seq<seq<nat>>)
    requires WalkDecomposition(perm, cs)
    ensures IsEndo(perm)
  {
    forall x: nat | x < |perm|
      ensures perm[x] < |perm|
    {
      assert x in Elems(Flatten(cs));
      FlattenMemberInv(cs, x);
      var k, j :| 0 <= k < |cs| && 0 <= j < |cs[k]| && cs[k][j] == x;
      if j < |cs[k]| - 1 {
        assert perm[x] == cs[k][j + 1];
      } else {
        assert perm[Last(cs[k])] in Elems(Flatten(cs));
      }
    }
  }

  // ---------------------------------------------------------------------
  // On a permutation the walks are the cycles
  // ---------------------------------------------------------------------

  /** On a permutation every walk closes on its own start: the index it
      reaches cannot be on an earlier walk, whose own indices already map
      onto each other, nor inside the walk past its start. */
  lemma {:induction false} WalksClose(perm: seq<nat>, cs: seq<seq<nat>>, k: nat)
    requires IsPermutation(perm) && WalkDecomposition(perm, cs) && k <= |cs|
    ensures forall i :: 0 <= i < k ==> perm[Last(cs[i])] == cs[i][0]
  {
    if k > 0 {
      WalksClose(perm, cs, k - 1);
      WalkClosesAt(perm, cs, k - 1);
    }
  }

  lemma WalkClosesAt(perm: seq<nat>, cs: seq<seq<nat>>, k: nat)
    requires IsPermutation(perm) && WalkDecomposition(perm, cs) && k < |cs|
    requires forall i :: 0 <= i < k ==> perm[Last(cs[i])] == cs[i][0]
    ensures perm[Last(cs[k])] == cs[k][0]
  {
    var y := perm[Last(cs[k])];
    assert y in Flatten(cs);
    FlattenMemberInv(cs, y);
    var m, j :| 0 <= m < |cs| && 0 <= j < |cs[m]| && cs[m][j] == y;
    NotOnEarlierWalk(perm, cs, k, m, j);
    FlattenParts(cs, k, k);
    NotInsideWalk(perm, cs[k], j);
  }

  /** An index on an earlier, closed walk is already `perm` of an index of
      that walk, so it is not `perm` of the last index of walk k. */
  lemma NotOnEarlierWalk(perm: seq<nat>, cs: seq<seq<nat>>, k: nat, m: nat, j: nat)
    requires IsPermutation(perm) && WalkDecomposition(perm, cs) && k < |cs| && m < |cs| && j < |cs[m]|
    requires forall i :: 0 <= i < k ==> perm[Last(cs[i])] == cs[i][0]
    ensures m < k ==> perm[Last(cs[k])] != cs[m][j]
  {
    if m < k {
      var z := if j > 0 then cs[m][j - 1] else Last(cs[m]);
      assert perm[z] == cs[m][j];
      FlattenParts(cs, m, k);
      assert z in Elems(cs[m]) && Last(cs[k]) in Elems(cs[k]);
    }
  }

  /** Past its start, each index of a walk is `perm` of the index before
      it, which is not the last one. */
  lemma NotInsideWalk(perm: seq<nat>, c: seq<nat>, j: nat)
    requires IsPermutation(perm) && IsWalk(perm, c) && Distinct(c)
    ensures 0 < j < |c| ==> perm[Last(c)] != c[j]
  {
    if 0 < j < |c| {
      assert c[j] == perm[c[j - 1]];
      assert c[j - 1] != Last(c);
    }
  }

  /** Two pieces of a repetition-free flattening are each repetition-free,
      and distinct pieces share no entry. */
  lemma {:induction false} FlattenParts(cs: seq<seq<nat>>, k: nat, l: nat)
    requires Distinct(Flatten(cs)) && k < |cs| && l < |cs|
    ensures Distinct(cs[k])
    ensures k != l ==> Elems(cs[k]) !! Elems(cs[l])
  {
    DistinctSplit(cs[0], Flatten(cs[1..]));
    if k > 0 && l > 0 {
      FlattenParts(cs[1..], k - 1, l - 1);
    } else if k != l {
      var o := if k == 0 then l else k;
      forall x | x in cs[o]
        ensures x in Elems(Flatten(cs[1..]))
      {
        var j :| 0 <= j < |cs[o]| && cs[o][j] == x;
        FlattenMember(cs[1..], o - 1, j);
      }
      if k > 0 {
        FlattenParts(cs[1..], k - 1, k - 1);
      }
    }
  }

  /** On a permutation, what `iter_cycles` yields is its decomposition into
      disjoint cycles, each from its least element, starts increasing: the
      same promise as the `iter_cycles` of `permtools.py`. */
  lemma WalksAreCycles(perm: seq<nat>, cs: seq<seq<nat>>)
    requires IsPermutation(perm) && WalkDecomposition(perm, cs)
    ensures PermTools.CycleDecomposition(perm, cs)
  {
    forall k | 0 <= k < |cs|
      ensures PermTools.IsCycle(perm, cs[k])
    {
      WalksClose(perm, cs, |cs|);
      FlattenParts(cs, k, k);
    }
  }

  // ---------------------------------------------------------------------
  // BytesDessin
  // ---------------------------------------------------------------------

  newtype Byte = x: int | 0 <= x < 256

  /** A `BytesDessin`: the tuple (alpha, beta) of two byte strings. */
  datatype BytesDessin = BytesDessin(alpha: seq<Byte>, beta: seq<Byte>)

  /** `BytesDessin(alpha, beta)`: ValueError unless alpha and beta have the
      same length, and otherwise the pair (alpha, beta) itself. */
  function NewBytesDessin(alpha: seq<Byte>, beta: seq<Byte>): (r: Result<BytesDessin>)
    ensures r.Ok? <==> |alpha| == |beta|
    ensures r.Err? ==> r.error == ValueError
    ensures r.Ok? ==> r.value.alpha == alpha && r.value.beta == beta
  {
    if |alpha| != |beta| then Err(ValueError) else Ok(BytesDessin(alpha, beta))
  }

  /** `len(d)`: the length of d[0]. */
  function Len(d: BytesDessin): nat {
    |d.alpha|
  }

  /** A constructed dessin has as many edges as each of its two strings. */
  lemma LenOfNew(alpha: seq<Byte>, beta: seq<Byte>)
    requires NewBytesDessin(alpha, beta).Ok?
    ensures Len(NewBytesDessin(alpha, beta).value) == |alpha| == |beta|
  {
  }

  /** `test_create`: `len(BytesDessin(bytes(range(4)), bytes(range(4)))) == 4`,
      and `BytesDessin(bytes(range(3)), bytes(range(4)))` raises ValueError. */
  lemma CreateExample(four: seq<Byte>, three: seq<Byte>)
    requires |four| == 4 && forall i :: 0 <= i < 4 ==> four[i] as int == i
    requires |three| == 3 && forall i :: 0 <= i < 3 ==> three[i] as int == i
    ensures NewBytesDessin(four, four).Ok? && Len(NewBytesDessin(four, four).value) == 4
    ensures NewBytesDessin(three, four) == Err(ValueError)
  {
  }
}
