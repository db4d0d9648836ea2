/** Tools for single permutations: the `is_perm` validator, the cycle
    walkers `iter_cycle` / `iter_seen_cycle`, and `iter_cycles`, which
    decomposes a permutation into its cycles, lowest index first. */
module PermTools {
  import opened Basics

  // ---------------------------------------------------------------------
  // is_perm: sort a private copy and compare it with [0, ..., len-1]
  // ---------------------------------------------------------------------

  predicate Sorted(s: seq<int>) {
    forall i, j :: 0 <= i < j < |s| ==> s[i] <= s[j]
  }

  /** Insert `x` into a sorted sequence (one step of sorting the copy). */
  function Insert(x: int, s: seq<int>): seq<int> {
    if s == [] || x <= s[0] then [x] + s else [s[0]] + Insert(x, s[1..])
  }

  lemma {:induction false} InsertMultiset(x: int, s: seq<int>)
    ensures multiset(Insert(x, s)) == multiset(s) + multiset{x}
  {
    if s != [] && x > s[0] {
      InsertMultiset(x, s[1..]);
      assert s == [s[0]] + s[1..];
    }
  }

  lemma {:induction false} InsertSorted(x: int, s: seq<int>)
    requires Sorted(s)
    ensures Sorted(Insert(x, s))
  {
    if s != [] && x > s[0] {
      var t := Insert(x, s[1..]);
      InsertSorted(x, s[1..]);
      InsertMultiset(x, s[1..]);
      forall k | 0 <= k < |t| ensures s[0] <= t[k] {
        assert t[k] in multiset(t);
        assert t[k] in multiset(s[1..]) || t[k] == x;
      }
    }
  }

  /** The sorted copy that `value.sort()` produces. */
  function Sort(s: seq<int>): (r: seq<int>)
    ensures Sorted(r) && multiset(r) == multiset(s)
  {
    if s == [] then []
    else
      assert s == [s[0]] + s[1..];
      InsertMultiset(s[0], Sort(s[1..]));
      InsertSorted(s[0], Sort(s[1..]));
      Insert(s[0], Sort(s[1..]))
  }

  /** `is_perm(seq)`: the sorted copy equals [0, ..., len(seq)-1]. Exactly
      the sequences whose entries are distinct and lie in [0, len). */
  function IsPerm(s: seq<int>): (r: bool)
    ensures r <==> (forall i :: 0 <= i < |s| ==> 0 <= s[i] < |s|) && Distinct(s)
  {
    IsPermCorrect(s);
    Sort(s) == Range(|s|)
  }

  lemma {:induction false} DistinctMultiset(t: seq<int>)
    ensures Distinct(t) <==> forall v :: multiset(t)[v] <= 1
  {
    if t != [] {
      var u := t[..|t| - 1];
      var x := t[|t| - 1];
      assert t == u + [x];
      DistinctMultiset(u);
      assert multiset(t) == multiset(u) + multiset{x};
      if Distinct(t) {
        assert Distinct(u);
      }
      if forall v :: multiset(t)[v] <= 1 {
        assert forall v :: multiset(u)[v] <= 1 by {
          forall v ensures multiset(u)[v] <= 1 {
            assert multiset(t)[v] >= multiset(u)[v];
          }
        }
        assert multiset(u)[x] == 0 by {
          assert multiset(t)[x] == multiset(u)[x] + 1;
        }
        forall i, j | 0 <= i < j < |t| ensures t[i] != t[j] {
          if j == |t| - 1 {
            assert t[i] in u;
          } else {
            assert u[i] != u[j];
          }
        }
      }
    }
  }

  lemma {:induction false} SortedDistinctLower(t: seq<int>, i: nat)
    requires Sorted(t) && Distinct(t) && i < |t|
    requires forall k :: 0 <= k < |t| ==> 0 <= t[k]
    ensures t[i] >= i
  {
    if i > 0 {
      SortedDistinctLower(t, i - 1);
      assert t[i - 1] != t[i];
    }
  }

  lemma {:induction false} SortedDistinctUpper(t: seq<int>, i: nat)
    requires Sorted(t) && Distinct(t) && i < |t|
    requires forall k :: 0 <= k < |t| ==> t[k] < |t|
    ensures t[i] <= i
    decreases |t| - i
  {
    if i < |t| - 1 {
      SortedDistinctUpper(t, i + 1);
      assert t[i] != t[i + 1];
    }
  }

  lemma SortLength(s: seq<int>)
    ensures |Sort(s)| == |s|
  {
    assert |multiset(Sort(s))| == |multiset(s)|;
  }

  lemma IsPermSound(s: seq<int>)
    requires Sort(s) == Range(|s|)
    ensures forall i :: 0 <= i < |s| ==> 0 <= s[i] < |s|
    ensures Distinct(s)
  {
    var n := |s|;
    forall i | 0 <= i < n ensures 0 <= s[i] < n {
      assert s[i] in multiset(s);
      assert s[i] in multiset(Range(n));
    }
    DistinctMultiset(s);
    DistinctMultiset(Range(n));
  }

  lemma IsPermComplete(s: seq<int>)
    requires forall i :: 0 <= i < |s| ==> 0 <= s[i] < |s|
    requires Distinct(s)
    ensures Sort(s) == Range(|s|)
  {
    var t := Sort(s);
    var n := |s|;
    SortLength(s);
    DistinctMultiset(s);
    DistinctMultiset(t);
    forall k | 0 <= k < n ensures 0 <= t[k] < n {
      assert t[k] in multiset(t);
      assert t[k] in s;
    }
    forall i | 0 <= i < n ensures t[i] == i {
      SortedDistinctLower(t, i);
      SortedDistinctUpper(t, i);
    }
  }

  lemma IsPermCorrect(s: seq<int>)
    ensures Sort(s) == Range(|s|) <==> (forall i :: 0 <= i < |s| ==> 0 <= s[i] < |s|) && Distinct(s)
  {
    if Sort(s) == Range(|s|) {
      IsPermSound(s);
    }
    if (forall i :: 0 <= i < |s| ==> 0 <= s[i] < |s|) && Distinct(s) {
      IsPermComplete(s);
    }
  }

  /** The doctests of both copies of `is_perm`, with each sequence given
      entry by entry: rearrangements of 0, ..., n-1 pass, including the
      empty one ... */
  lemma IsPermAccepts(s: seq<int>, t: seq<int>, u: seq<int>)
    requires |s| == 2 && s[0] == 0 && s[1] == 1
    requires |t| == 2 && t[0] == 1 && t[1] == 0
    requires |u| == 3 && u[0] == 1 && u[1] == 2 && u[2] == 0
    ensures IsPerm(s) && IsPerm(t) && IsPerm(u) && IsPerm([])
  {
    assert Distinct(s) && forall i :: 0 <= i < |s| ==> 0 <= s[i] < |s|;
    assert Distinct(t) && forall i :: 0 <= i < |t| ==> 0 <= t[i] < |t|;
    assert Distinct(u) && forall i :: 0 <= i < |u| ==> 0 <= u[i] < |u|;
  }

  /** Every rearrangement of 0, ..., n-1 passes, whatever its order. */
  lemma RearrangementIsPerm(s: seq<int>, n: nat)
    requires multiset(s) == multiset(Range(n))
    ensures IsPerm(s)
  {
    assert |s| == |multiset(s)| == n;
    forall i | 0 <= i < |s|
      ensures 0 <= s[i] < |s|
    {
      assert s[i] in multiset(Range(n));
    }
    DistinctMultiset(Range(n));
    DistinctMultiset(s);
  }

  /** ... and an entry out of range or a repeated entry fails. */
  lemma IsPermRejects(s: seq<int>, t: seq<int>, u: seq<int>)
    requires |s| == 1 && s[0] == 1
    requires |t| == 3 && t[0] == 2 && t[1] == 0 && t[2] == 0
    requires |u| == 2 && u[0] == 1 && u[1] == 1
    ensures !IsPerm(s) && !IsPerm(t) && !IsPerm(u)
  {
    assert t[1] == t[2];
    assert u[0] == u[1];
  }

  // ---------------------------------------------------------------------
  // Cycles of a map p on {0, ..., |p|-1}
  // ---------------------------------------------------------------------

  /** p applied k times to x. */
  function Pow(p: seq<nat>, x: nat, k: nat): (r: nat)
    requires IsEndo(p) && x < |p|
    ensures r < |p|
  {
    if k == 0 then x else p[Pow(p, x, k - 1)]
  }

  /** x, p[x], ..., the first k points of the orbit of x. */
  function Orbit(p: seq<nat>, x: nat, k: nat): (r: seq<nat>)
    requires IsEndo(p) && x < |p|
  {
    seq(k, i requires 0 <= i < k => Pow(p, x, i))
  }

  /** `c` is x, p[x], p[p[x]], ... stopped just before the walk comes back
      to x: the cycle of p through x, starting at x. */
  predicate IsCycleFrom(p: seq<nat>, x: nat, c: seq<nat>) {
    && |c| >= 1
    && c[0] == x
    && (forall i :: 0 <= i < |c| ==> c[i] < |p|)
    && (forall i :: 0 <= i < |c| - 1 ==> c[i + 1] == p[c[i]])
    && p[Last(c)] == x
    && (forall i :: 0 < i < |c| ==> c[i] != x)
  }

  predicate IsCycle(p: seq<nat>, c: seq<nat>) {
    |c| >= 1 && IsCycleFrom(p, c[0], c)
  }

  /** The least j in [k, |p|] with Pow(p, x, j) == x, or |p| + 1 if none. */
  function ReturnTime(p: seq<nat>, x: nat, k: nat): (r: nat)
    requires IsEndo(p) && x < |p| && 1 <= k <= |p| + 1
    ensures k <= r <= |p| + 1
    ensures r <= |p| ==> Pow(p, x, r) == x
    ensures forall j :: k <= j < r ==> Pow(p, x, j) != x
    decreases |p| + 1 - k
  {
    if k > |p| then k
    else if Pow(p, x, k) == x then k
    else ReturnTime(p, x, k + 1)
  }

  /** What `tuple(iter_cycle(p, x))` gives for an index x of p: the cycle
      through x when the walk returns to x within |p| steps, ValueError otherwise. */
  function CycleOf(p: seq<nat>, x: nat): (r: Result<seq<nat>>)
    requires IsEndo(p) && x < |p|
    ensures r.Ok? <==> exists k :: 1 <= k <= |p| && Pow(p, x, k) == x
    ensures r.Ok? ==> IsCycleFrom(p, x, r.value) && |r.value| <= |p|
    ensures r.Err? ==> r.error == ValueError
  {
    var t := ReturnTime(p, x, 1);
    if t <= |p| then
      OrbitCycle(p, x, t);
      Ok(Orbit(p, x, t))
    else
      Err(ValueError)
  }

  /** The orbit of x up to its first return is the cycle through x. */
  lemma OrbitCycle(p: seq<nat>, x: nat, t: nat)
    requires IsEndo(p) && x < |p| && 1 <= t <= |p| && Pow(p, x, t) == x
    requires forall j :: 1 <= j < t ==> Pow(p, x, j) != x
    ensures IsCycleFrom(p, x, Orbit(p, x, t))
  {
    var c := Orbit(p, x, t);
    forall i | 0 <= i < t - 1 ensures c[i + 1] == p[c[i]] {
    }
    assert Last(c) == Pow(p, x, t - 1);
  }

  /** Following a cycle never leaves it. */
  lemma CycleClosed(p: seq<nat>, c: seq<nat>)
    requires IsCycle(p, c)
    ensures Closed(p, Elems(c))
  {
    forall x | x in Elems(c) ensures x < |p| && p[x] in Elems(c) {
      var i :| 0 <= i < |c| && c[i] == x;
      if i < |c| - 1 {
        assert c[i + 1] == p[x];
      }
    }
  }

  lemma {:induction false} ClosedForward(p: seq<nat>, c: seq<nat>, s: set<nat>, i: nat)
    requires IsCycle(p, c) && Closed(p, s) && i < |c| && c[i] in s
    ensures c[|c| - 1] in s
    decreases |c| - i
  {
    if i < |c| - 1 {
      ClosedForward(p, c, s, i + 1);
    }
  }

  /** A cycle whose start lies outside a p-closed set misses that set
      entirely: cycles walked from unseen edges never overlap earlier ones. */
  lemma CycleDisjoint(p: seq<nat>, c: seq<nat>, s: set<nat>)
    requires IsCycle(p, c) && Closed(p, s) && c[0] !in s
    ensures Elems(c) !! s
  {
    forall x | x in Elems(c) ensures x !in s {
      var i :| 0 <= i < |c| && c[i] == x;
      if x in s {
        ClosedForward(p, c, s, i);
      }
    }
  }

  lemma {:induction false} CycleNoRepeat(p: seq<nat>, c: seq<nat>, i: nat, j: nat)
    requires IsCycle(p, c) && i < j < |c|
    ensures c[i] != c[j]
    decreases |c| - j
  {
    assert c[i + 1] == p[c[i]];
    if j < |c| - 1 {
      CycleNoRepeat(p, c, i + 1, j + 1);
      assert c[j + 1] == p[c[j]];
    }
  }

  /** The entries of a cycle are distinct. */
  lemma CycleDistinct(p: seq<nat>, c: seq<nat>)
    requires IsCycle(p, c)
    ensures Distinct(c)
  {
    forall i, j | 0 <= i < j < |c| ensures c[i] != c[j] {
      CycleNoRepeat(p, c, i, j);
    }
  }

  lemma {:induction false} PowCancel(p: seq<nat>, x: nat, i: nat, j: nat)
    requires IsPermutation(p) && x < |p| && i <= j && Pow(p, x, i) == Pow(p, x, j)
    ensures Pow(p, x, j - i) == x
  {
    if i > 0 {
      assert p[Pow(p, x, i - 1)] == p[Pow(p, x, j - 1)];
      PowCancel(p, x, i - 1, j - 1);
    }
  }

  /** For a permutation every walk returns to its start, so `iter_cycle`
      never raises. */
  lemma PermReturns(p: seq<nat>, x: nat)
    requires IsPermutation(p) && x < |p|
    ensures CycleOf(p, x).Ok?
  {
    var o := Orbit(p, x, |p| + 1);
    assert InRange(o, |p|);
    if Distinct(o) {
      DistinctBound(o, |p|);
    }
    var i, j :| 0 <= i < j < |o| && o[i] == o[j];
    PowCancel(p, x, i, j);
  }

  // ---------------------------------------------------------------------
  // The walk on any sequence of naturals
  // ---------------------------------------------------------------------

  /** The indices the walk yields from step i on, standing at `curr`: it
      stops after |p| items, at an index outside p, or just before it would
      come back to `start`. */
  function TrailFrom(p: seq<nat>, start: nat, curr: nat, i: nat): seq<nat>
    decreases |p| - i
  {
    if i >= |p| || curr >= |p| then []
    else if p[curr] == start then [curr]
    else [curr] + TrailFrom(p, start, p[curr], i + 1)
  }

  /** How that walk stops: None when it comes back to `start`, ValueError
      once |p| items are out, IndexError at an index outside p. */
  function StopFrom(p: seq<nat>, start: nat, curr: nat, i: nat): (r: Option<Error>)
    ensures r.Some? ==> r.value == ValueError || r.value == IndexError
    decreases |p| - i
  {
    if i >= |p| then Some(ValueError)
    else if curr >= |p| then Some(IndexError)
    else if p[curr] == start then None
    else StopFrom(p, start, p[curr], i + 1)
  }

  /** The indices of p that `iter_cycle(p, start)` reaches, up to a return
      or an error. */
  function Trail(p: seq<nat>, start: nat): seq<nat> {
    TrailFrom(p, start, start, 0)
  }

  /** What `tuple(iter_cycle(p, start))` gives on any sequence of naturals. */
  function Walk(p: seq<nat>, start: nat): Result<seq<nat>> {
    var stop := StopFrom(p, start, start, 0);
    if stop.None? then Ok(Trail(p, start)) else Err(stop.value)
  }

  /** A walk that comes back to `start` yields indices of p, each the image
      of the one before and none of them `start` after the first, and the
      last one maps to `start`. */
  lemma {:induction false} TrailCloses(p: seq<nat>, start: nat, curr: nat, i: nat)
    requires StopFrom(p, start, curr, i).None?
    ensures var t := TrailFrom(p, start, curr, i);
      && 1 <= |t| <= |p| - i && t[0] == curr
      && (forall j :: 0 <= j < |t| ==> t[j] < |p|)
      && (forall j :: 0 <= j < |t| - 1 ==> t[j + 1] == p[t[j]])
      && (forall j :: 0 < j < |t| ==> t[j] != start)
      && p[Last(t)] == start
    decreases |p| - i
  {
    if p[curr] != start {
      TrailCloses(p, start, p[curr], i + 1);
      var t' := TrailFrom(p, start, p[curr], i + 1);
      var t := TrailFrom(p, start, curr, i);
      assert t == [curr] + t';
      assert Last(t) == Last(t');
      forall j | 0 <= j < |t| - 1 ensures t[j + 1] == p[t[j]] {
        if j > 0 {
          assert t[j] == t'[j - 1] && t[j + 1] == t'[j];
        }
      }
    }
  }

  /** A walk that succeeds is the cycle of p through its start, on any
      sequence of naturals. */
  lemma WalkCycle(p: seq<nat>, x: nat)
    requires Walk(p, x).Ok?
    ensures IsCycleFrom(p, x, Walk(p, x).value) && |Walk(p, x).value| <= |p|
  {
    TrailCloses(p, x, x, 0);
  }

  lemma {:induction false} WalkPow(p: seq<nat>, x: nat, i: nat)
    requires IsEndo(p) && x < |p| && i <= |p| && ReturnTime(p, x, 1) > i
    ensures StopFrom(p, x, Pow(p, x, i), i) == if ReturnTime(p, x, 1) <= |p| then None else Some(ValueError)
    ensures ReturnTime(p, x, 1) <= |p| ==>
      TrailFrom(p, x, Pow(p, x, i), i) == Orbit(p, x, ReturnTime(p, x, 1))[i..]
    decreases |p| - i
  {
    var t := ReturnTime(p, x, 1);
    if i < |p| {
      var curr := Pow(p, x, i);
      assert p[curr] == Pow(p, x, i + 1);
      if p[curr] == x {
        assert t == i + 1;
        assert Orbit(p, x, t)[i..] == [curr];
      } else {
        assert t != i + 1;
        WalkPow(p, x, i + 1);
        if t <= |p| {
          assert Orbit(p, x, t)[i..] == [curr] + Orbit(p, x, t)[i + 1..];
        }
      }
    }
  }

  /** On a map into its own indices the walk is `CycleOf`: it never meets
      an IndexError. */
  lemma WalkIsCycleOf(p: seq<nat>, x: nat)
    requires IsEndo(p) && x < |p|
    ensures Walk(p, x) == CycleOf(p, x)
  {
    WalkPow(p, x, 0);
  }

  /** `iter_cycle` fails only on a map that is not a permutation, and only
      with ValueError when the map stays within its indices. */
  lemma WalkFails(p: seq<nat>, x: nat)
    requires x < |p| && Walk(p, x).Err?
    ensures !IsPermutation(p)
    ensures IsEndo(p) ==> Walk(p, x).error == ValueError
  {
    if IsEndo(p) {
      WalkIsCycleOf(p, x);
      PermCycleOk(p, x);
    }
  }

  // ---------------------------------------------------------------------
  // The walkers
  // ---------------------------------------------------------------------

  /** `iter_cycle(perm, start)`: yield start, perm[start], ... until the walk
      returns to start; give up with ValueError after len(perm) items, and
      with IndexError on stepping outside perm. */
  method IterCycle(perm: seq<nat>, start: nat) returns (r: Result<seq<nat>>)
    ensures r == Walk(perm, start)
    ensures |perm| == 0 ==> r == Err(ValueError)
    ensures 0 < |perm| <= start ==> r == Err(IndexError)
    ensures r.Ok? ==> IsCycleFrom(perm, start, r.value) && |r.value| <= |perm|
    ensures IsEndo(perm) && start < |perm| ==> r == CycleOf(perm, start)
  {
    var cycle := [];
    var curr: nat := start;
    for i := 0 to |perm|
      invariant Trail(perm, start) == cycle + TrailFrom(perm, start, curr, i)
      invariant StopFrom(perm, start, start, 0) == StopFrom(perm, start, curr, i)
    {
      if curr >= |perm| {
        r := Err(IndexError);
        WalkFacts(perm, start);
        return;
      }
      var next := perm[curr];
      TrailStep(perm, start, curr, i);
      cycle := cycle + [curr];
      if next == start {
        r := Ok(cycle);
        WalkFacts(perm, start);
        return;
      }
      curr := next;
      assert Trail(perm, start) == cycle + TrailFrom(perm, start, curr, i + 1);
      assert StopFrom(perm, start, start, 0) == StopFrom(perm, start, curr, i + 1);
    }
    r := Err(ValueError);
    WalkFacts(perm, start);
  }

  /** One step of the walk from an index of p, within the step budget. */
  lemma TrailStep(p: seq<nat>, start: nat, curr: nat, i: nat)
    requires i < |p| && curr < |p|
    ensures p[curr] == start ==> TrailFrom(p, start, curr, i) == [curr]
    ensures p[curr] == start ==> StopFrom(p, start, curr, i).None?
    ensures p[curr] != start ==>
      TrailFrom(p, start, curr, i) == [curr] + TrailFrom(p, start, p[curr], i + 1)
    ensures p[curr] != start ==> StopFrom(p, start, curr, i) == StopFrom(p, start, p[curr], i + 1)
  {
  }

  /** The named cases of `Walk`: an empty map, a start outside it, a
      returning walk, and a map into its own indices. */
  lemma WalkFacts(p: seq<nat>, x: nat)
    ensures |p| == 0 ==> Walk(p, x) == Err(ValueError)
    ensures 0 < |p| <= x ==> Walk(p, x) == Err(IndexError)
    ensures Walk(p, x).Ok? ==> IsCycleFrom(p, x, Walk(p, x).value) && |Walk(p, x).value| <= |p|
    ensures IsEndo(p) && x < |p| ==> Walk(p, x) == CycleOf(p, x)
  {
    if Walk(p, x).Ok? {
      WalkCycle(p, x);
    }
    if IsEndo(p) && x < |p| {
      WalkIsCycleOf(p, x);
    }
  }

  /** The set of indices marked in a `seen` buffer. */
  ghost function Marked(seen: array<bool>): set<nat>
    reads seen
  {
    set i: nat | i < seen.Length && seen[i]
  }

  /** `iter_seen_cycle(seen, perm, start)`: as `IterCycle`, and sets
      seen[x] for every index x of perm the walk reaches, and nothing else. */
  method IterSeenCycle(seen: array<bool>, perm: seq<nat>, start: nat) returns (r: Result<seq<nat>>)
    requires seen.Length == |perm|
    modifies seen
    ensures r == Walk(perm, start)
    ensures |perm| == 0 ==> r == Err(ValueError)
    ensures 0 < |perm| <= start ==> r == Err(IndexError)
    ensures r.Ok? ==> IsCycleFrom(perm, start, r.value) && |r.value| <= |perm|
    ensures IsEndo(perm) && start < |perm| ==> r == CycleOf(perm, start)
    ensures forall i :: 0 <= i < seen.Length ==> seen[i] == (old(seen[i]) || i in Trail(perm, start))
  {
    var cycle := [];
    var curr: nat := start;
    for i := 0 to |perm|
      invariant Trail(perm, start) == cycle + TrailFrom(perm, start, curr, i)
      invariant StopFrom(perm, start, start, 0) == StopFrom(perm, start, curr, i)
      invariant forall j :: 0 <= j < seen.Length ==> seen[j] == (old(seen[j]) || j in cycle)
    {
      if curr >= |perm| {
        r := Err(IndexError);
        WalkFacts(perm, start);
        return;
      }
      ghost var before := seen[..];
      seen[curr] := true;
      forall j | 0 <= j < seen.Length
        ensures seen[j] == (old(seen[j]) || j in cycle + [curr])
      {
        if j != curr {
          assert seen[j] == before[j];
        }
      }
      var next := perm[curr];
      TrailStep(perm, start, curr, i);
      cycle := cycle + [curr];
      if next == start {
        r := Ok(cycle);
        WalkFacts(perm, start);
        return;
      }
      curr := next;
      assert Trail(perm, start) == cycle + TrailFrom(perm, start, curr, i + 1);
      assert StopFrom(perm, start, start, 0) == StopFrom(perm, start, curr, i + 1);
    }
    r := Err(ValueError);
    WalkFacts(perm, start);
  }

  /** `bytearray.find(False, from)`: the first unmarked index at or after
      `from`, or -1. */
  method FindFalse(seen: array<bool>, from: nat) returns (r: int)
    ensures r == -1 ==> forall j :: from <= j < seen.Length ==> seen[j]
    ensures r != -1 ==> from <= r < seen.Length && !seen[r] && forall j :: from <= j < r ==> seen[j]
  {
    var i := from;
    while i < seen.Length
      invariant from <= i
      invariant forall j :: from <= j < i && j < seen.Length ==> seen[j]
    {
      if !seen[i] {
        return i;
      }
      i := i + 1;
    }
    return -1;
  }

  /** The cycles `cs` split p: each is a cycle of p beginning at its least
      element, the starts strictly increase, and every index 0..|p|-1 lies
      in exactly one of them. */
  predicate CycleDecomposition(p: seq<nat>, cs: seq<seq<nat>>) {
    && (forall k :: 0 <= k < |cs| ==> IsCycle(p, cs[k]))
    && (forall k, i :: 0 <= k < |cs| && 0 <= i < |cs[k]| ==> cs[k][0] <= cs[k][i])
    && (forall k, l :: 0 <= k < l < |cs| && |cs[k]| > 0 && |cs[l]| > 0 ==> cs[k][0] < cs[l][0])
    && Distinct(Flatten(cs))
    && Elems(Flatten(cs)) == RangeSet(|p|)
  }

  /** The loop state of `iter_cycles`: the cycles found so far are disjoint
      cycles of p, each starting at its least element, starts increasing,
      and together they form a p-closed set. */
  predicate PartialDecomposition(p: seq<nat>, cs: seq<seq<nat>>) {
    && (forall k :: 0 <= k < |cs| ==> IsCycle(p, cs[k]))
    && (forall k, i :: 0 <= k < |cs| && 0 <= i < |cs[k]| ==> cs[k][0] <= cs[k][i])
    && (forall k, l :: 0 <= k < l < |cs| && |cs[k]| > 0 && |cs[l]| > 0 ==> cs[k][0] < cs[l][0])
    && Distinct(Flatten(cs))
    && InRange(Flatten(cs), |p|)
    && Closed(p, Elems(Flatten(cs)))
  }

  lemma ExtendShape(p: seq<nat>, cs: seq<seq<nat>>, c: seq<nat>)
    requires forall k :: 0 <= k < |cs| ==> IsCycle(p, cs[k])
    requires forall k, i :: 0 <= k < |cs| && 0 <= i < |cs[k]| ==> cs[k][0] <= cs[k][i]
    requires forall k, l :: 0 <= k < l < |cs| && |cs[k]| > 0 && |cs[l]| > 0 ==> cs[k][0] < cs[l][0]
    requires IsCycle(p, c)
    requires forall i :: 0 <= i < |c| ==> c[0] <= c[i]
    requires forall k :: 0 <= k < |cs| && |cs[k]| > 0 ==> cs[k][0] < c[0]
    ensures forall k :: 0 <= k < |cs + [c]| ==> IsCycle(p, (cs + [c])[k])
    ensures forall k, i :: 0 <= k < |cs + [c]| && 0 <= i < |(cs + [c])[k]| ==> (cs + [c])[k][0] <= (cs + [c])[k][i]
    ensures forall k, l :: 0 <= k < l < |cs + [c]| && |(cs + [c])[k]| > 0 && |(cs + [c])[l]| > 0 ==>
              (cs + [c])[k][0] < (cs + [c])[l][0]
  {
    var cs' := cs + [c];
    assert forall k :: 0 <= k < |cs| ==> cs'[k] == cs[k];
    assert cs'[|cs|] == c;
  }

  lemma ExtendFlatten(p: seq<nat>, cs: seq<seq<nat>>, c: seq<nat>)
    requires Distinct(Flatten(cs)) && InRange(Flatten(cs), |p|) && Closed(p, Elems(Flatten(cs)))
    requires IsCycle(p, c)
    requires c[0] !in Elems(Flatten(cs))
    ensures Distinct(Flatten(cs + [c])) && InRange(Flatten(cs + [c]), |p|)
    ensures Closed(p, Elems(Flatten(cs + [c])))
    ensures Elems(Flatten(cs + [c])) == Elems(Flatten(cs)) + Elems(c)
    ensures Elems(c) !! Elems(Flatten(cs))
  {
    var before := Elems(Flatten(cs));
    CycleDisjoint(p, c, before);
    CycleDistinct(p, c);
    CycleClosed(p, c);
    DistinctAppend(Flatten(cs), c);
    FlattenAppend(cs, c);
    assert Elems(Flatten(cs) + c) == before + Elems(c);
  }

  /** One round of `iter_cycles`: the cycle walked from the lowest unseen
      index extends the decomposition. */
  lemma ExtendDecomposition(p: seq<nat>, cs: seq<seq<nat>>, c: seq<nat>)
    requires PartialDecomposition(p, cs)
    requires IsCycle(p, c)
    requires c[0] !in Elems(Flatten(cs))
    requires forall i :: 0 <= i < c[0] ==> i in Elems(Flatten(cs))
    requires cs != [] ==> Last(cs)[0] < c[0]
    ensures PartialDecomposition(p, cs + [c])
    ensures Elems(Flatten(cs + [c])) == Elems(Flatten(cs)) + Elems(c)
  {
    forall k | 0 <= k < |cs| ensures cs[k][0] < c[0] {
      if k < |cs| - 1 {
        assert cs[k][0] < Last(cs)[0];
      }
    }
    ExtendFlatten(p, cs, c);
    forall i | 0 <= i < |c| ensures c[0] <= c[i] {
      assert c[i] !in Elems(Flatten(cs));
    }
    ExtendShape(p, cs, c);
  }

  /** The loop state of `iter_cycles` after the cycle starting at `start`:
      `seen` marks exactly the edges of the cycles found, and every index up
      to `start` is among them. */
  ghost predicate Progress(p: seq<nat>, seen: seq<bool>, cs: seq<seq<nat>>, start: int) {
    && |seen| == |p|
    && -1 <= start < |p|
    && PartialDecomposition(p, cs)
    && (forall i :: 0 <= i < |p| ==> (seen[i] <==> i in Elems(Flatten(cs))))
    && (forall i :: 0 <= i <= start ==> i in Elems(Flatten(cs)))
    && (cs != [] ==> Last(cs)[0] == start)
  }

  /** One round of `iter_cycles`: the cycle walked from the first unseen
      index after `start` extends the decomposition. */
  lemma ProgressStep(p: seq<nat>, seen: seq<bool>, seen': seq<bool>, cs: seq<seq<nat>>,
                     start: int, c: seq<nat>)
    requires Progress(p, seen, cs, start)
    requires IsCycle(p, c) && start < c[0] < |p| && !seen[c[0]]
    requires forall j :: start < j < c[0] ==> seen[j]
    requires |seen'| == |seen| && forall i :: 0 <= i < |seen| ==> seen'[i] == (seen[i] || i in c)
    ensures Progress(p, seen', cs + [c], c[0])
  {
    var done := Elems(Flatten(cs));
    forall i | 0 <= i < c[0] ensures i in done {
      if i > start {
        assert seen[i];
      }
    }
    ExtendDecomposition(p, cs, c);
    var all := Elems(Flatten(cs + [c]));
    assert all == done + Elems(c);
    forall i | 0 <= i < |p|
      ensures seen'[i] <==> i in all
    {
      assert i in c <==> i in Elems(c);
    }
    forall i | 0 <= i <= c[0]
      ensures i in all
    {
      if i == c[0] {
        assert c[0] in Elems(c);
      }
    }
    assert Last(cs + [c]) == c;
  }

  lemma FinishDecomposition(p: seq<nat>, cs: seq<seq<nat>>, seen: seq<bool>, start: int)
    requires Progress(p, seen, cs, start)
    requires forall j :: start < j < |seen| ==> seen[j]
    ensures CycleDecomposition(p, cs)
  {
    forall i: nat | i < |p| ensures i in Elems(Flatten(cs)) {
      if i > start {
        assert seen[i];
      }
    }
  }

  /** `iter_cycles(perm)`: walk from each index not yet seen, lowest first. */
  method IterCycles(perm: seq<nat>) returns (r: Result<seq<seq<nat>>>)
    ensures IsPermutation(perm) ==> r.Ok?
    ensures r.Err? ==> r.error == ValueError || r.error == IndexError
    ensures IsEndo(perm) && r.Err? ==> r.error == ValueError
    ensures r.Ok? ==> CycleDecomposition(perm, r.value)
  {
    var n := |perm|;
    var seen := new bool[n](_ => false);
    var cycles: seq<seq<nat>> := [];
    var start: int := -1;
    while true
      invariant Progress(perm, seen[..], cycles, start)
      decreases n - start
    {
      var next := FindFalse(seen, start + 1);
      if next == -1 {
        FinishDecomposition(perm, cycles, seen[..], start);
        return Ok(cycles);
      }
      ghost var before := seen[..];
      var c := IterSeenCycle(seen, perm, next);
      if c.Err? {
        WalkFails(perm, next);
        return Err(c.error);
      }
      assert IsCycle(perm, c.value) && c.value[0] == next;
      ProgressStep(perm, before, seen[..], cycles, start, c.value);
      cycles := cycles + [c.value];
      start := next;
    }
  }

  /** Only a map that is not a permutation can fail to return. */
  lemma PermCycleOk(p: seq<nat>, x: nat)
    requires IsEndo(p) && x < |p|
    ensures CycleOf(p, x).Err? ==> !IsPermutation(p)
  {
    if IsPermutation(p) {
      PermReturns(p, x);
    }
  }

  /** `iter_cycle` and `iter_seen_cycle` on a permutation: every index lies
      on a cycle, and that cycle has at most |p| entries, all distinct. */
  lemma PermCycle(p: seq<nat>, x: nat)
    requires IsPermutation(p) && x < |p|
    ensures CycleOf(p, x).Ok?
    ensures Distinct(CycleOf(p, x).value) && |CycleOf(p, x).value| <= |p|
  {
    PermReturns(p, x);
    CycleDistinct(p, CycleOf(p, x).value);
  }

  lemma {:induction false} CyclePow(p: seq<nat>, x: nat, c: seq<nat>, i: nat)
    requires IsEndo(p) && x < |p| && IsCycleFrom(p, x, c) && i < |c|
    ensures Pow(p, x, i) == c[i]
  {
    if i > 0 {
      CyclePow(p, x, c, i - 1);
      assert c[(i - 1) + 1] == p[c[i - 1]];
      assert Pow(p, x, i) == p[Pow(p, x, i - 1)];
    } else {
      assert Pow(p, x, 0) == x;
    }
  }

  /** A cycle of p through x, listed from x, is what `iter_cycle(p, x)`
      yields: the walk from x comes back to x first after exactly |c| steps. */
  lemma CycleOfExact(p: seq<nat>, x: nat, c: seq<nat>)
    requires IsEndo(p) && x < |p| && IsCycleFrom(p, x, c)
    ensures CycleOf(p, x) == Ok(c)
  {
    CyclePow(p, x, c, |c| - 1);
    assert Pow(p, x, |c|) == p[Pow(p, x, |c| - 1)] == x;
    CycleDistinct(p, c);
    DistinctBound(c, |p|);
    forall j | 1 <= j < |c|
      ensures Pow(p, x, j) != x
    {
      CyclePow(p, x, c, j);
    }
    var t := ReturnTime(p, x, 1);
    assert t == |c|;
    var o := Orbit(p, x, t);
    forall i | 0 <= i < |c|
      ensures o[i] == c[i]
    {
      CyclePow(p, x, c, i);
    }
    assert o == c;
  }
}
