/** `rebase_cycles` and `perm_from_cycles`: renumber the entries of a list
    of cycles to 0, 1, ..., n-1 keeping their relative order, and build the
    permutation a list of cycles describes. */
module CycleRebase {
  import opened Basics
  import opened PermTools

  // ---------------------------------------------------------------------
  // rebase_cycles
  // ---------------------------------------------------------------------

  /** `bisect.bisect_left(values, x)` on a sorted list: the number of
      entries below x, which is where x would be inserted. */
  function BisectLeft(values: seq<int>, x: int): (r: nat)
    requires Sorted(values)
    ensures r <= |values|
    ensures forall i :: 0 <= i < r ==> values[i] < x
    ensures forall i :: r <= i < |values| ==> x <= values[i]
  {
    if values == [] || x <= values[0] then 0
    else 1 + BisectLeft(values[1..], x)
  }

  /** The new value of each entry of one cycle. */
  function RankCycle(values: seq<int>, c: seq<nat>): (r: seq<nat>)
    requires Sorted(values)
    ensures |r| == |c| && forall j :: 0 <= j < |c| ==> r[j] == BisectLeft(values, c[j])
  {
    seq(|c|, j requires 0 <= j < |c| => BisectLeft(values, c[j]))
  }

  /** `rebase_cycles(cycles)`: every entry replaced by its rank among all
      the entries, sorted with `values.sort()`. */
  function Rebase(cycles: seq<seq<nat>>): (r: seq<seq<nat>>)
    ensures |r| == |cycles|
    ensures forall k :: 0 <= k < |cycles| ==> |r[k]| == |cycles[k]|
  {
    var values := Sort(Flatten(cycles));
    seq(|cycles|, k requires 0 <= k < |cycles| => RankCycle(values, cycles[k]))
  }

  /** An entry that occurs in the sorted list is found at its rank. */
  lemma BisectFinds(values: seq<int>, x: int)
    requires Sorted(values) && x in values
    ensures BisectLeft(values, x) < |values| && values[BisectLeft(values, x)] == x
  {
    var m :| 0 <= m < |values| && values[m] == x;
  }

  /** Ranks compare exactly as the entries they replace. */
  lemma BisectOrder(values: seq<int>, x: int, y: int)
    requires Sorted(values) && x in values && y in values
    ensures x < y <==> BisectLeft(values, x) < BisectLeft(values, y)
    ensures x == y <==> BisectLeft(values, x) == BisectLeft(values, y)
  {
    BisectFinds(values, x);
    BisectFinds(values, y);
  }

  /** Rebasing keeps the relative order of any two entries, in the same
      cycle or not. */
  lemma RebaseOrder(cycles: seq<seq<nat>>, k: nat, j: nat, k': nat, j': nat)
    requires k < |cycles| && j < |cycles[k]| && k' < |cycles| && j' < |cycles[k']|
    ensures cycles[k][j] < cycles[k'][j'] <==> Rebase(cycles)[k][j] < Rebase(cycles)[k'][j']
    ensures cycles[k][j] == cycles[k'][j'] <==> Rebase(cycles)[k][j] == Rebase(cycles)[k'][j']
  {
    var flat := Flatten(cycles);
    var values := Sort(flat);
    FlattenMember(cycles, k, j);
    FlattenMember(cycles, k', j');
    assert cycles[k][j] in multiset(values) && cycles[k'][j'] in multiset(values) by {
      assert cycles[k][j] in multiset(flat) && cycles[k'][j'] in multiset(flat);
    }
    BisectOrder(values, cycles[k][j], cycles[k'][j']);
  }

  lemma {:induction false} RankFlatten(values: seq<int>, cs: seq<seq<nat>>)
    requires Sorted(values)
    ensures Flatten(seq(|cs|, k requires 0 <= k < |cs| => RankCycle(values, cs[k])))
         == RankCycle(values, Flatten(cs))
  {
    var ranked := seq(|cs|, k requires 0 <= k < |cs| => RankCycle(values, cs[k]));
    if cs != [] {
      RankFlatten(values, cs[1..]);
      assert ranked[1..] == seq(|cs[1..]|, k requires 0 <= k < |cs[1..]| => RankCycle(values, cs[1..][k]));
      assert Flatten(cs) == cs[0] + Flatten(cs[1..]);
      assert RankCycle(values, Flatten(cs)) == RankCycle(values, cs[0]) + RankCycle(values, Flatten(cs[1..]));
    }
  }

  /** Cycles with distinct entries are rebased onto exactly 0, ..., n-1:
      read in order, their entries form a permutation. */
  lemma RebasePermutation(cycles: seq<seq<nat>>)
    requires Distinct(Flatten(cycles))
    ensures IsPermutation(Flatten(Rebase(cycles)))
  {
    var flat := Flatten(cycles);
    var values := Sort(flat);
    RankFlatten(values, cycles);
    var ranks := RankCycle(values, flat);
    assert Flatten(Rebase(cycles)) == ranks;
    SortLength(flat);
    forall u | 0 <= u < |flat| ensures ranks[u] < |ranks| && values[ranks[u]] == flat[u] {
      assert flat[u] in multiset(flat);
      BisectFinds(values, flat[u]);
    }
    forall u, v | 0 <= u < v < |flat| ensures ranks[u] != ranks[v] {
      assert flat[u] != flat[v];
    }
  }

  /** The insertions that sort the doctest below. */
  lemma InsertDoctest()
    ensures Insert(4, []) == [4] && Insert(7, [4]) == [4, 7]
    ensures Insert(3, [4, 7]) == [3, 4, 7] && Insert(9, [3, 4, 7]) == [3, 4, 7, 9]
  {
  }

  /** `values.sort()` in the doctest below. */
  lemma SortDoctest(s: seq<int>)
    requires |s| == 4 && s[0] == 9 && s[1] == 3 && s[2] == 7 && s[3] == 4
    ensures Sort(s) == [3, 4, 7, 9]
  {
    InsertDoctest();
    assert s[3..][1..] == [] && s[2..][1..] == s[3..] && s[1..][1..] == s[2..];
    assert Sort(s[3..]) == [4];
    assert Sort(s[2..]) == [4, 7];
    assert Sort(s[1..]) == [3, 4, 7];
  }

  /** The ranks in the doctest below. */
  lemma RankDoctest(c0: seq<nat>, c1: seq<nat>)
    requires |c0| == 3 && c0[0] == 9 && c0[1] == 3 && c0[2] == 7
    requires |c1| == 1 && c1[0] == 4
    ensures RankCycle([3, 4, 7, 9], c0) == [3, 0, 2] && RankCycle([3, 4, 7, 9], c1) == [1]
  {
    var values := [3, 4, 7, 9];
    assert BisectLeft(values, 9) == 3 && BisectLeft(values, 3) == 0;
    assert BisectLeft(values, 7) == 2 && BisectLeft(values, 4) == 1;
  }

  /** The sorted entries of the doctest below. */
  lemma FlattenSortDoctest(c0: seq<nat>, c1: seq<nat>)
    requires |c0| == 3 && c0[0] == 9 && c0[1] == 3 && c0[2] == 7
    requires |c1| == 1 && c1[0] == 4
    ensures Sort(Flatten([c0, c1])) == [3, 4, 7, 9]
  {
    var cycles := [c0, c1];
    var flat := Flatten(cycles);
    assert flat == c0 + c1 by {
      assert cycles[1..] == [c1];
      assert Flatten([c1]) == c1 + Flatten([c1][1..]);
    }
    SortDoctest(flat);
  }

  /** The doctest: ((9, 3, 7), (4,)) becomes ((3, 0, 2), (1,)). */
  lemma RebaseDoctest(c0: seq<nat>, c1: seq<nat>)
    requires |c0| == 3 && c0[0] == 9 && c0[1] == 3 && c0[2] == 7
    requires |c1| == 1 && c1[0] == 4
    ensures Rebase([c0, c1]) == [[3, 0, 2], [1]]
  {
    FlattenSortDoctest(c0, c1);
    var r := Rebase([c0, c1]);
    assert r[0] == RankCycle([3, 4, 7, 9], c0) && r[1] == RankCycle([3, 4, 7, 9], c1);
    RankDoctest(c0, c1);
  }

  // ---------------------------------------------------------------------
  // perm_from_cycles
  // ---------------------------------------------------------------------

  /** The assignments `value[prev] = curr` one cycle makes, in order: the
      last entry is sent to the first, then each entry to the next. */
  function Writes(c: seq<nat>): (ws: seq<(nat, nat)>)
    requires c != []
    ensures |ws| == |c| && ws[0] == (Last(c), c[0])
    ensures forall j :: 0 < j < |c| ==> ws[j] == (c[j - 1], c[j])
  {
    seq(|c|, j requires 0 <= j < |c| => if j == 0 then (Last(c), c[0]) else (c[j - 1], c[j]))
  }

  /** Carry out assignments into a list; one past its end is an IndexError. */
  function ApplyWrites(value: seq<Option<nat>>, ws: seq<(nat, nat)>): (r: Result<seq<Option<nat>>>)
    ensures r.Ok? ==> |r.value| == |value|
    ensures r.Err? ==> r.error == IndexError
    decreases |ws|
  {
    if ws == [] then Ok(value)
    else if ws[0].0 >= |value| then Err(IndexError)
    else ApplyWrites(value[ws[0].0 := Some(ws[0].1)], ws[1..])
  }

  /** The loop over the cycles; `cyc[-1]` of an empty cycle is an
      IndexError. */
  function FillCycles(value: seq<Option<nat>>, cycles: seq<seq<nat>>): (r: Result<seq<Option<nat>>>)
    ensures r.Ok? ==> |r.value| == |value|
    ensures r.Err? ==> r.error == IndexError
    decreases |cycles|
  {
    if cycles == [] then Ok(value)
    else if cycles[0] == [] then Err(IndexError)
    else
      match ApplyWrites(value, Writes(cycles[0]))
      case Err(e) => Err(e)
      case Ok(v) => FillCycles(v, cycles[1..])
  }

  /** `[None] * n`. */
  function Nones(n: nat): (r: seq<Option<nat>>)
    ensures |r| == n && forall i :: 0 <= i < n ==> r[i] == None
  {
    seq(n, _ => None)
  }

  /** `perm_from_cycles(cycles)`: a list of `None` as long as all the
      cycles together, filled in by the cycles. */
  function PermFromCyclesSpec(cycles: seq<seq<nat>>): Result<seq<Option<nat>>> {
    FillCycles(Nones(TotalLength(cycles)), cycles)
  }

  method PermFromCycles(cycles: seq<seq<nat>>) returns (r: Result<seq<Option<nat>>>)
    ensures r == PermFromCyclesSpec(cycles)
  {
    var length := TotalLength(cycles);
    var value := new Option<nat>[length](_ => None);
    assert value[..] == Nones(length);
    assert cycles[0..] == cycles;
    for k := 0 to |cycles|
      invariant FillCycles(value[..], cycles[k..]) == PermFromCyclesSpec(cycles)
    {
      var cyc := cycles[k];
      assert cycles[k..][0] == cyc && cycles[k..][1..] == cycles[k + 1..];
      if cyc == [] {
        return Err(IndexError);
      }
      var prev := cyc[|cyc| - 1];
      ghost var before := value[..];
      for j := 0 to |cyc|
        invariant ApplyWrites(value[..], Writes(cyc)[j..]) == ApplyWrites(before, Writes(cyc))
        invariant j < |cyc| ==> prev == Writes(cyc)[j].0
      {
        var curr := cyc[j];
        assert Writes(cyc)[j..][0] == (prev, curr);
        assert Writes(cyc)[j..][1..] == Writes(cyc)[j + 1..];
        if prev >= value.Length {
          return Err(IndexError);
        }
        value[prev] := Some(curr);
        prev := curr;
      }
      assert Writes(cyc)[|cyc|..] == [];
    }
    assert cycles[|cycles|..] == [];
    return Ok(value[..]);
  }

  /** The entry after position j of a cycle, going round from the last
      entry to the first: `c[(j + 1) % len(c)]`. */
  function Succ(c: seq<nat>, j: nat): nat
    requires j < |c|
  {
    if j + 1 < |c| then c[j + 1] else c[0]
  }

  /** The assignments succeed exactly when every target is inside the list. */
  lemma {:induction false} ApplyWritesOk(value: seq<Option<nat>>, ws: seq<(nat, nat)>)
    ensures ApplyWrites(value, ws).Ok? <==> forall t :: 0 <= t < |ws| ==> ws[t].0 < |value|
    decreases |ws|
  {
    if ws != [] && ws[0].0 < |value| {
      ApplyWritesOk(value[ws[0].0 := Some(ws[0].1)], ws[1..]);
      assert forall t :: 1 <= t < |ws| ==> ws[t] == ws[1..][t - 1];
    }
  }

  /** With pairwise different targets, each target ends up holding its own
      value and every other entry is left alone. */
  lemma {:induction false} ApplyWritesAt(value: seq<Option<nat>>, ws: seq<(nat, nat)>)
    requires forall t :: 0 <= t < |ws| ==> ws[t].0 < |value|
    requires forall t, u :: 0 <= t < u < |ws| ==> ws[t].0 != ws[u].0
    ensures ApplyWrites(value, ws).Ok?
    ensures forall t :: 0 <= t < |ws| ==> ApplyWrites(value, ws).value[ws[t].0] == Some(ws[t].1)
    ensures forall i :: 0 <= i < |value| && (forall t :: 0 <= t < |ws| ==> ws[t].0 != i) ==>
      ApplyWrites(value, ws).value[i] == value[i]
    decreases |ws|
  {
    ApplyWritesOk(value, ws);
    if ws != [] {
      var v := value[ws[0].0 := Some(ws[0].1)];
      assert forall t :: 1 <= t < |ws| ==> ws[t] == ws[1..][t - 1];
      ApplyWritesAt(v, ws[1..]);
      var r := ApplyWrites(value, ws).value;
      assert r[ws[0].0] == Some(ws[0].1) by {
        assert forall u :: 0 <= u < |ws[1..]| ==> ws[1..][u].0 != ws[0].0;
      }
    }
  }

  /** The assignment that stores the successor of position j. */
  lemma WriteOf(c: seq<nat>, j: nat)
    requires j < |c|
    ensures j + 1 < |c| ==> Writes(c)[j + 1] == (c[j], Succ(c, j))
    ensures j + 1 == |c| ==> Writes(c)[0] == (c[j], Succ(c, j))
  {
  }

  /** Every assignment of a cycle targets one of its entries, and different
      assignments of a repetition-free cycle target different entries. */
  lemma WriteTargets(c: seq<nat>)
    requires c != []
    ensures forall t :: 0 <= t < |c| ==> Writes(c)[t].0 in c
    ensures Distinct(c) ==> forall t, u :: 0 <= t < u < |c| ==> Writes(c)[t].0 != Writes(c)[u].0
  {
  }

  /** `perm_from_cycles` fails, with IndexError, exactly when a cycle is
      empty or holds an entry that is not an index of the list. */
  lemma {:induction false} FillCyclesOk(value: seq<Option<nat>>, cycles: seq<seq<nat>>)
    ensures FillCycles(value, cycles).Ok? <==>
      forall k :: 0 <= k < |cycles| ==> cycles[k] != [] && InRange(cycles[k], |value|)
    decreases |cycles|
  {
    if cycles != [] && cycles[0] != [] {
      var c := cycles[0];
      CycleWritesOk(value, c);
      assert forall k :: 1 <= k < |cycles| ==> cycles[k] == cycles[1..][k - 1];
      if InRange(c, |value|) {
        FillCyclesOk(ApplyWrites(value, Writes(c)).value, cycles[1..]);
      }
    }
  }

  /** The assignments of one cycle go through exactly when all its entries
      are indices of the list. */
  lemma CycleWritesOk(value: seq<Option<nat>>, c: seq<nat>)
    requires c != []
    ensures ApplyWrites(value, Writes(c)).Ok? <==> InRange(c, |value|)
  {
    ApplyWritesOk(value, Writes(c));
    WriteTargets(c);
    if !InRange(c, |value|) {
      var j :| 0 <= j < |c| && c[j] >= |value|;
      WriteOf(c, j);
    }
  }

  /** For cycles without a repeated entry, each entry is mapped to the next
      one along its cycle (the last to the first), and entries that are in
      no cycle keep their value. */
  lemma {:induction false} FillCyclesAt(value: seq<Option<nat>>, cycles: seq<seq<nat>>)
    requires forall k :: 0 <= k < |cycles| ==> cycles[k] != [] && InRange(cycles[k], |value|)
    requires Distinct(Flatten(cycles))
    ensures FillCycles(value, cycles).Ok?
    ensures forall k, j :: 0 <= k < |cycles| && 0 <= j < |cycles[k]| ==>
      cycles[k][j] < |value| && FillCycles(value, cycles).value[cycles[k][j]] == Some(Succ(cycles[k], j))
    ensures forall i :: 0 <= i < |value| && i !in Flatten(cycles) ==>
      FillCycles(value, cycles).value[i] == value[i]
    decreases |cycles|
  {
    FillCyclesOk(value, cycles);
    if cycles != [] {
      var c := cycles[0];
      var rest := cycles[1..];
      assert forall k :: 1 <= k < |cycles| ==> cycles[k] == rest[k - 1];
      DistinctSplit(c, Flatten(rest));
      WriteTargets(c);
      ApplyWritesAt(value, Writes(c));
      var v := ApplyWrites(value, Writes(c)).value;
      FillCyclesAt(v, rest);
      var r := FillCycles(value, cycles).value;
      assert r == FillCycles(v, rest).value;
      forall j | 0 <= j < |c| ensures r[c[j]] == Some(Succ(c, j)) {
        assert c[j] in Elems(c);
        WriteOf(c, j);
      }
      forall i | 0 <= i < |value| && i !in Flatten(cycles) ensures r[i] == value[i] {
        assert i !in c && i !in Flatten(rest);
      }
    }
  }

  /** A permutation as a list with every entry filled in. */
  function Somes(p: seq<nat>): (r: seq<Option<nat>>)
    ensures |r| == |p| && forall i :: 0 <= i < |p| ==> r[i] == Some(p[i])
  {
    seq(|p|, i requires 0 <= i < |p| => Some(p[i]))
  }

  /** Along a cycle of p, the successor of an entry is its image under p. */
  lemma SuccIsImage(p: seq<nat>, c: seq<nat>, j: nat)
    requires IsCycle(p, c) && j < |c|
    ensures c[j] < |p| && Succ(c, j) == p[c[j]]
  {
  }

  /** A cycle decomposition of p has no empty cycle, only indices of p, and
      exactly |p| entries in all. */
  lemma DecompositionShape(p: seq<nat>, cs: seq<seq<nat>>)
    requires CycleDecomposition(p, cs)
    ensures TotalLength(cs) == |p|
    ensures forall k :: 0 <= k < |cs| ==> cs[k] != [] && InRange(cs[k], |p|)
  {
    FlattenLength(cs);
    DistinctCard(Flatten(cs));
    RangeSetCard(|p|);
    forall k | 0 <= k < |cs| ensures cs[k] != [] && InRange(cs[k], |p|) {
      assert IsCycle(p, cs[k]);
    }
  }

  /** An entry that lies on one of the cycles is filled with its image. */
  lemma FilledEntry(p: seq<nat>, cs: seq<seq<nat>>, r: seq<Option<nat>>, i: nat)
    requires i in Flatten(cs) && i < |p| && |r| == |p|
    requires forall k, j :: 0 <= k < |cs| && 0 <= j < |cs[k]| ==>
      cs[k][j] < |p| && r[cs[k][j]] == Some(Succ(cs[k], j)) && Succ(cs[k], j) == p[cs[k][j]]
    ensures r[i] == Some(p[i])
  {
    FlattenMemberInv(cs, i);
    var k, j :| 0 <= k < |cs| && 0 <= j < |cs[k]| && cs[k][j] == i;
  }

  /** Cycles that cover 0, ..., n-1 once each, and send each entry to its
      image under p, fill in exactly p. */
  lemma FillFromCycles(p: seq<nat>, cs: seq<seq<nat>>)
    requires TotalLength(cs) == |p|
    requires forall k :: 0 <= k < |cs| ==> cs[k] != [] && InRange(cs[k], |p|)
    requires Distinct(Flatten(cs)) && Elems(Flatten(cs)) == RangeSet(|p|)
    requires forall k, j :: 0 <= k < |cs| && 0 <= j < |cs[k]| ==> cs[k][j] < |p| && Succ(cs[k], j) == p[cs[k][j]]
    ensures PermFromCyclesSpec(cs) == Ok(Somes(p))
  {
    CoverMembers(Flatten(cs), |p|);
    var none := Nones(|p|);
    FillCyclesAt(none, cs);
    var r := FillCycles(none, cs).value;
    forall i | 0 <= i < |p| ensures r[i] == Some(p[i]) {
      FilledEntry(p, cs, r, i);
    }
    assert r == Somes(p);
  }

  /** The cycles that `iter_cycles` finds give back the permutation they
      came from: `perm_from_cycles` inverts the cycle decomposition. */
  lemma PermFromDecomposition(p: seq<nat>, cs: seq<seq<nat>>)
    requires CycleDecomposition(p, cs)
    ensures PermFromCyclesSpec(cs) == Ok(Somes(p))
  {
    DecompositionShape(p, cs);
    forall k, j | 0 <= k < |cs| && 0 <= j < |cs[k]| ensures cs[k][j] < |p| && Succ(cs[k], j) == p[cs[k][j]] {
      SuccIsImage(p, cs[k], j);
    }
    FillFromCycles(p, cs);
  }

  /** An entry on a cycle whose cycles together are a permutation is
      filled with an index of the list. */
  lemma FilledIndex(cs: seq<seq<nat>>, r: seq<Option<nat>>, i: nat)
    requires i in Flatten(cs) && IsPermutation(Flatten(cs)) && |r| == |Flatten(cs)|
    requires forall k, j :: 0 <= k < |cs| && 0 <= j < |cs[k]| ==>
      cs[k][j] < |r| && r[cs[k][j]] == Some(Succ(cs[k], j))
    ensures i < |r| && r[i].Some? && r[i].value < |r|
  {
    FlattenMemberInv(cs, i);
    var k, j :| 0 <= k < |cs| && 0 <= j < |cs[k]| && cs[k][j] == i;
    var t := if j + 1 < |cs[k]| then j + 1 else 0;
    FlattenMember(cs, k, t);
  }

  /** Non-empty cycles whose entries, read in order, are a permutation of
      0, ..., n-1 fill in every entry of the list, each with an index of
      the list. */
  lemma FillPermutationCycles(cs: seq<seq<nat>>)
    requires forall k :: 0 <= k < |cs| ==> cs[k] != []
    requires IsPermutation(Flatten(cs))
    ensures PermFromCyclesSpec(cs).Ok?
    ensures |PermFromCyclesSpec(cs).value| == TotalLength(cs)
    ensures forall i :: 0 <= i < TotalLength(cs) ==>
      PermFromCyclesSpec(cs).value[i].Some? && PermFromCyclesSpec(cs).value[i].value < TotalLength(cs)
  {
    var n := TotalLength(cs);
    FlattenLength(cs);
    FullCover(Flatten(cs), n);
    CoverMembers(Flatten(cs), n);
    forall k | 0 <= k < |cs| ensures InRange(cs[k], n) {
      forall j | 0 <= j < |cs[k]| ensures cs[k][j] < n {
        FlattenMember(cs, k, j);
      }
    }
    var none := Nones(n);
    FillCyclesAt(none, cs);
    var r := FillCycles(none, cs).value;
    forall i | 0 <= i < n ensures r[i].Some? && r[i].value < n {
      FilledIndex(cs, r, i);
    }
  }

  /** The intended use, "cycles assumed rebased": after `rebase_cycles`,
      non-empty cycles with no repeated entry always give a complete list
      of indices. */
  lemma PermFromRebased(cycles: seq<seq<nat>>)
    requires forall k :: 0 <= k < |cycles| ==> cycles[k] != []
    requires Distinct(Flatten(cycles))
    ensures PermFromCyclesSpec(Rebase(cycles)).Ok?
    ensures forall i :: 0 <= i < |PermFromCyclesSpec(Rebase(cycles)).value| ==>
      PermFromCyclesSpec(Rebase(cycles)).value[i].Some?
  {
    RebasePermutation(cycles);
    FillPermutationCycles(Rebase(cycles));
  }

  /** The doctests: no cycles give the empty list, and the single cycle
      (3, 0, 1, 2) gives [1, 2, 3, 0]. */
  lemma PermFromCyclesDoctest(c: seq<nat>)
    requires |c| == 4 && c[0] == 3 && c[1] == 0 && c[2] == 1 && c[3] == 2
    ensures PermFromCyclesSpec([]) == Ok([])
    ensures PermFromCyclesSpec([c]) == Ok([Some(1), Some(2), Some(3), Some(0)])
  {
    assert Flatten([c]) == c + Flatten([c][1..]);
    assert TotalLength([c]) == 4;
    FillCyclesAt(Nones(4), [c]);
    var r := PermFromCyclesSpec([c]).value;
    assert Succ(c, 0) == 0 && Succ(c, 1) == 1 && Succ(c, 2) == 2 && Succ(c, 3) == 3;
    assert |r| == 4 && r[3] == Some(0) && r[0] == Some(1) && r[1] == Some(2) && r[2] == Some(3);
    assert r == [Some(1), Some(2), Some(3), Some(0)];
  }
}
