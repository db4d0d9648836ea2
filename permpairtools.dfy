/** Irreducible components of a permutation pair (alpha, beta): the edges
    reachable from a seed edge through both maps, listed as the alpha- and
    beta-cycles that cover them. */
module PermPairTools {
  import opened Basics
  import opened PermTools

  // ---------------------------------------------------------------------
  // SetDiff: the edges still waiting for a cycle on each side
  // ---------------------------------------------------------------------

  /** `missing[0]` holds edges already on a beta-cycle but not yet on an
      alpha-cycle; `missing[1]` the other way round. */
  datatype SetDiff = SetDiff(side0: set<nat>, side1: set<nat>)

  /** `SetDiff()`: both sides empty. */
  const NoneMissing := SetDiff({}, {})

  /** `missing.update(k, e)`: an element of `e` already on side 1-k is
      removed from it (it is now on both kinds of cycle); the others join
      side k. */
  function Update(d: SetDiff, k: nat, e: set<nat>): (r: SetDiff)
    requires k < 2
    ensures d.side0 !! d.side1 ==> r.side0 !! r.side1
    ensures forall x :: x !in e ==> (x in r.side0 <==> x in d.side0) && (x in r.side1 <==> x in d.side1)
    ensures d.side0 !! d.side1 && k == 1 ==> forall x :: x in e ==> x !in r.side0 && (x in r.side1 <==> x !in d.side0)
    ensures d.side0 !! d.side1 && k == 0 ==> forall x :: x in e ==> x !in r.side1 && (x in r.side0 <==> x !in d.side1)
  {
    if k == 0 then SetDiff(d.side0 + (e - d.side1), d.side1 - e)
    else SetDiff(d.side0 - e, d.side1 + (e - d.side0))
  }

  /** With the sides being the symmetric difference of the edges on alpha-
      and on beta-cycles, adding a fresh alpha-cycle (key 'a', so
      `update(1, cycle)`) or beta-cycle (`update(0, cycle)`) keeps them so. */
  lemma UpdateTracks(onA: set<nat>, onB: set<nat>, c: set<nat>)
    ensures c !! onA ==> Update(SetDiff(onB - onA, onA - onB), 1, c) == SetDiff(onB - (onA + c), (onA + c) - onB)
    ensures c !! onB ==> Update(SetDiff(onB - onA, onA - onB), 0, c) == SetDiff((onB + c) - onA, onA - (onB + c))
  {
  }

  // ---------------------------------------------------------------------
  // The state of the walk, as values
  // ---------------------------------------------------------------------

  /** The edges marked in `seen`. */
  function SeenSet(seen: seq<bool>): set<nat> {
    set i: nat | i < |seen| && seen[i]
  }

  /** The edges not yet marked in `seen`. */
  function Unseen(seen: seq<bool>): set<nat> {
    set i: nat | i < |seen| && !seen[i]
  }

  /** `bytearray(n)`: nothing seen. */
  function Falses(n: nat): (r: seq<bool>)
    ensures |r| == n && forall i :: 0 <= i < n ==> !r[i]
  {
    seq(n, _ => false)
  }

  /** `seen` after `iter_seen_cycle` has walked the cycle `c`. */
  function Mark(seen: seq<bool>, c: seq<nat>): (r: seq<bool>)
    ensures |r| == |seen|
    ensures forall i :: 0 <= i < |seen| ==> r[i] == (seen[i] || i in c)
  {
    seq(|seen|, i requires 0 <= i < |seen| => seen[i] || i in c)
  }

  /** `self.alpha_beta[key]`. */
  function Perm(alpha: seq<nat>, beta: seq<nat>, side: Side): seq<nat> {
    if side == A then alpha else beta
  }

  /** The edges already on a cycle of the given side: those seen and not
      waiting for such a cycle. */
  function Covered(seen: seq<bool>, d: SetDiff, side: Side): set<nat> {
    if side == A then SeenSet(seen) - d.side0 else SeenSet(seen) - d.side1
  }

  /** What `iter_cycles` keeps true between cycles: the sides are disjoint
      parts of the seen edges, and the edges on alpha-cycles are closed
      under alpha, those on beta-cycles under beta. */
  predicate Inv(alpha: seq<nat>, beta: seq<nat>, seen: seq<bool>, d: SetDiff) {
    && PairOk(alpha, beta) && |seen| == |alpha|
    && d.side0 !! d.side1 && d.side0 <= SeenSet(seen) && d.side1 <= SeenSet(seen)
    && Closed(alpha, Covered(seen, d, A)) && Closed(beta, Covered(seen, d, B))
  }

  /** Twice the unseen edges plus the waiting ones: every cycle walked
      lowers it by its length. */
  function Potential(seen: seq<bool>, d: SetDiff): nat {
    2 * |Unseen(seen)| + |d.side0| + |d.side1|
  }

  lemma MarkSets(seen: seq<bool>, c: seq<nat>)
    requires InRange(c, |seen|)
    ensures SeenSet(Mark(seen, c)) == SeenSet(seen) + Elems(c)
    ensures Unseen(Mark(seen, c)) == Unseen(seen) - Elems(c)
  {
  }

  lemma CardSplit(a: set<nat>, b: set<nat>)
    ensures |a| == |a - b| + |a * b|
  {
    assert a == (a - b) + (a * b);
  }

  lemma CardDisjoint(a: set<nat>, b: set<nat>)
    requires a !! b
    ensures |a + b| == |a| + |b|
  {
  }

  lemma PotentialDrop(u: set<nat>, mine: set<nat>, other: set<nat>, c: set<nat>)
    requires c != {} && c <= u + mine && u !! mine && c !! other
    ensures 2 * |u - c| + |mine - c| + |other + (c - mine)| < 2 * |u| + |mine| + |other|
  {
    assert u * c == c - mine;
    CardSplit(u, c);
    CardSplit(mine, c);
    CardSplit(c, mine);
    assert mine * c == c * mine;
    CardDisjoint(other, c - mine);
  }

  /** Closure under a map survives adding a closed set. */
  lemma ClosedUnion(p: seq<nat>, s: set<nat>, t: set<nat>)
    requires Closed(p, s) && Closed(p, t)
    ensures Closed(p, s + t)
  {
  }

  /** The set algebra of one walk: `s` the seen edges, `e` the new cycle. */
  lemma SideSets(s: set<nat>, mine: set<nat>, other: set<nat>, e: set<nat>)
    requires mine !! other && mine <= s && other <= s && e !! s - mine
    ensures mine - e !! other + (e - mine)
    ensures (s + e) - (mine - e) == (s - mine) + e
    ensures (s + e) - (other + (e - mine)) == s - other
  {
  }

  /** Walking a cycle from an edge not yet on a cycle of that side: the
      cycle is new on that side, the sides stay disjoint, the covered edges
      of that side grow by the cycle and stay closed, the other side's do
      not change, and the potential drops. `mine` is the side waiting for
      this kind of cycle, `other` the opposite one. */
  lemma WalkStep(p: seq<nat>, seen: seq<bool>, mine: set<nat>, other: set<nat>, c: seq<nat>)
    requires IsEndo(p) && |p| == |seen|
    requires mine !! other && mine <= SeenSet(seen) && other <= SeenSet(seen)
    requires Closed(p, SeenSet(seen) - mine)
    requires IsCycle(p, c) && c[0] !in SeenSet(seen) - mine
    ensures Elems(c) !! SeenSet(seen) - mine
    ensures SeenSet(Mark(seen, c)) == SeenSet(seen) + Elems(c)
    ensures mine - Elems(c) !! other + (Elems(c) - mine)
    ensures SeenSet(Mark(seen, c)) - (mine - Elems(c)) == (SeenSet(seen) - mine) + Elems(c)
    ensures SeenSet(Mark(seen, c)) - (other + (Elems(c) - mine)) == SeenSet(seen) - other
    ensures Closed(p, SeenSet(Mark(seen, c)) - (mine - Elems(c)))
    ensures 2 * |Unseen(Mark(seen, c))| + |mine - Elems(c)| + |other + (Elems(c) - mine)|
              < 2 * |Unseen(seen)| + |mine| + |other|
  {
    var s := SeenSet(seen);
    var e := Elems(c);
    CycleDisjoint(p, c, s - mine);
    CycleClosed(p, c);
    ClosedUnion(p, s - mine, e);
    assert InRange(c, |seen|) by {
      assert forall i :: 0 <= i < |c| ==> c[i] in e;
    }
    MarkSets(seen, c);
    SideSets(s, mine, other, e);
    assert c[0] in e;
    assert e <= Unseen(seen) + mine by {
      forall x | x in e ensures x in Unseen(seen) + mine {
        assert x < |seen|;
      }
    }
    PotentialDrop(Unseen(seen), mine, other, e);
  }

  /** The index `i` of `update(1 - i, ...)` in `get_key_cycle`: an alpha-
      cycle (key 'a') updates side 1, a beta-cycle side 0. */
  function Key(side: Side): nat {
    if side == A then 1 else 0
  }

  /** `get_key_cycle(key, edge)` once the walk has produced the cycle `c`
      from an edge not yet on a cycle of that side: marking its edges seen
      and updating `missing` keeps the invariant, lowers the potential, and
      adds the cycle to the covered edges of that side only. */
  lemma Advance(alpha: seq<nat>, beta: seq<nat>, seen: seq<bool>, d: SetDiff, side: Side, c: seq<nat>)
    requires Inv(alpha, beta, seen, d)
    requires IsCycle(Perm(alpha, beta, side), c) && c[0] !in Covered(seen, d, side)
    ensures Inv(alpha, beta, Mark(seen, c), Update(d, Key(side), Elems(c)))
    ensures Potential(Mark(seen, c), Update(d, Key(side), Elems(c))) < Potential(seen, d)
    ensures SeenSet(Mark(seen, c)) == SeenSet(seen) + Elems(c)
    ensures Elems(c) !! Covered(seen, d, side)
    ensures Covered(Mark(seen, c), Update(d, Key(side), Elems(c)), side) == Covered(seen, d, side) + Elems(c)
    ensures Covered(Mark(seen, c), Update(d, Key(side), Elems(c)), if side == A then B else A)
      == Covered(seen, d, if side == A then B else A)
  {
    if side == A {
      WalkStep(alpha, seen, d.side0, d.side1, c);
    } else {
      WalkStep(beta, seen, d.side1, d.side0, c);
    }
  }

  // ---------------------------------------------------------------------
  // The loops, as functions
  // ---------------------------------------------------------------------

  /** The state when `iter_cycles` stops, and the events it yielded. */
  datatype Walked = Walked(seen: seq<bool>, missing: SetDiff, events: seq<Event>)

  /** The edge the loop of `iter_cycles` walks from next, and on which side:
      the seed first, then the least edge waiting for an alpha-cycle, then
      the least edge waiting for a beta-cycle; None when nothing waits. */
  function NextWalk(seen: seq<bool>, d: SetDiff, seed: seq<nat>): (r: Option<(Side, nat)>)
    ensures r.None? <==> seed == [] && d.side0 == {} && d.side1 == {}
    ensures seed != [] ==> r == Some((A, seed[0]))
    ensures seed == [] && d.side0 != {} ==> r.Some? && r.value.0 == A && r.value.1 in d.side0
    ensures seed == [] && d.side0 == {} && d.side1 != {} ==> r.Some? && r.value.0 == B && r.value.1 in d.side1
    ensures r.Some? && seed == [] && r.value.0 == A ==> forall x :: x in d.side0 ==> r.value.1 <= x
    ensures r.Some? && seed == [] && r.value.0 == B ==> forall x :: x in d.side1 ==> r.value.1 <= x
  {
    if seed != [] then Some((A, seed[0]))
    else if d.side0 != {} then Some((A, SetMin(d.side0)))
    else if d.side1 != {} then Some((B, SetMin(d.side1)))
    else None
  }

  /** The seed, when there is one, is an edge not yet seen. */
  predicate SeedOk(seen: seq<bool>, seed: seq<nat>) {
    seed != [] ==> seed[0] < |seen| && !seen[seed[0]]
  }

  /** The loop of `iter_cycles` (and what `iter_component_cycles` passes on
      of it): walk cycles as `NextWalk` picks them until no edge waits.
      A walk that does not return is the ValueError of `iter_seen_cycle`. */
  function CycleRun(alpha: seq<nat>, beta: seq<nat>, seen: seq<bool>, d: SetDiff, seed: seq<nat>): (r: Result<Walked>)
    requires Inv(alpha, beta, seen, d) && SeedOk(seen, seed)
    ensures r.Err? ==> r.error == ValueError
    decreases Potential(seen, d)
  {
    match NextWalk(seen, d, seed)
    case None => Ok(Walked(seen, d, []))
    case Some((side, e)) =>
      assert e < |alpha| && e !in Covered(seen, d, side);
      match CycleOf(Perm(alpha, beta, side), e)
      case Err(err) => Err(err)
      case Ok(c) =>
        Advance(alpha, beta, seen, d, side, c);
        assert c[0] in Elems(c);
        match CycleRun(alpha, beta, Mark(seen, c), Update(d, Key(side), Elems(c)), [])
        case Err(err) => Err(err)
        case Ok(w) => Ok(Walked(w.seen, w.missing, [Cycle(side, c)] + w.events))
  }

  /** The loop ends with nothing missing and the invariant intact, having
      only added to `seen`, the seed included. */
  lemma {:induction false} CycleRunEnds(alpha: seq<nat>, beta: seq<nat>, seen: seq<bool>, d: SetDiff, seed: seq<nat>)
    requires Inv(alpha, beta, seen, d) && SeedOk(seen, seed)
    requires CycleRun(alpha, beta, seen, d, seed).Ok?
    ensures var w := CycleRun(alpha, beta, seen, d, seed).value;
      && Inv(alpha, beta, w.seen, w.missing) && w.missing == NoneMissing
      && |w.seen| == |seen| && (forall i :: 0 <= i < |seen| && seen[i] ==> w.seen[i])
      && (seed != [] ==> w.seen[seed[0]])
    decreases Potential(seen, d)
  {
    match NextWalk(seen, d, seed)
    case None =>
    case Some((side, e)) =>
      var c := CycleOf(Perm(alpha, beta, side), e).value;
      CycleRunStep(alpha, beta, seen, d, seed, side, e, c);
      CycleRunEnds(alpha, beta, Mark(seen, c), Update(d, Key(side), Elems(c)), []);
      assert c[0] == e;
  }

  /** Every seen edge has been seen before, or was the seed just walked. */
  lemma UnseenShrinks(seen: seq<bool>, seen': seq<bool>, e: nat)
    requires |seen'| == |seen| && e < |seen| && !seen[e] && seen'[e]
    requires forall i :: 0 <= i < |seen| && seen[i] ==> seen'[i]
    ensures |Unseen(seen')| < |Unseen(seen)|
  {
    assert e in Unseen(seen);
    assert Unseen(seen') <= Unseen(seen) - {e};
    SubsetCard(Unseen(seen'), Unseen(seen) - {e});
  }

  /** The whole of `iter_component_cycles` from a given `seen`: for each
      lowest unseen edge, ('S', edge), its component's cycles, ('E', edge). */
  function Components(alpha: seq<nat>, beta: seq<nat>, seen: seq<bool>): (r: Result<seq<Event>>)
    requires Inv(alpha, beta, seen, NoneMissing)
    ensures r.Err? ==> r.error == ValueError
    decreases |Unseen(seen)|
  {
    if false !in seen then Ok([])
    else
      var e := IndexOf(seen, false);
      match CycleRun(alpha, beta, seen, NoneMissing, [e])
      case Err(err) => Err(err)
      case Ok(w) =>
        CycleRunEnds(alpha, beta, seen, NoneMissing, [e]);
        UnseenShrinks(seen, w.seen, e);
        match Components(alpha, beta, w.seen)
        case Err(err) => Err(err)
        case Ok(rest) => Ok([Start(e)] + w.events + [End(e)] + rest)
  }

  /** Nothing seen and nothing missing satisfies the loop invariant. */
  lemma InitialInv(alpha: seq<nat>, beta: seq<nat>)
    requires PairOk(alpha, beta)
    ensures Inv(alpha, beta, Falses(|alpha|), NoneMissing)
  {
    assert SeenSet(Falses(|alpha|)) == {};
  }

  /** `tuple(iter_component_cycles((alpha, beta)))`. */
  function ComponentCycles(alpha: seq<nat>, beta: seq<nat>): Result<seq<Event>>
    requires PairOk(alpha, beta)
  {
    InitialInv(alpha, beta);
    Components(alpha, beta, Falses(|alpha|))
  }

  /** Events already yielded, in front of what the rest of a run yields. */
  function Then(events: seq<Event>, r: Result<Walked>): Result<Walked> {
    match r
    case Err(e) => Err(e)
    case Ok(w) => Ok(Walked(w.seen, w.missing, events + w.events))
  }

  function ThenEvents(events: seq<Event>, r: Result<seq<Event>>): Result<seq<Event>> {
    match r
    case Err(e) => Err(e)
    case Ok(rest) => Ok(events + rest)
  }

  /** One round of the loop of `iter_cycles`, unfolded: the state after
      `get_key_cycle` keeps the invariant, lowers the potential, and the
      rest of the run follows from it. */
  lemma CycleRunStep(alpha: seq<nat>, beta: seq<nat>, seen: seq<bool>, d: SetDiff, seed: seq<nat>,
                     side: Side, e: nat, c: seq<nat>)
    requires Inv(alpha, beta, seen, d) && SeedOk(seen, seed)
    requires NextWalk(seen, d, seed) == Some((side, e)) && CycleOf(Perm(alpha, beta, side), e) == Ok(c)
    ensures Inv(alpha, beta, Mark(seen, c), Update(d, Key(side), Elems(c)))
    ensures Potential(Mark(seen, c), Update(d, Key(side), Elems(c))) < Potential(seen, d)
    ensures CycleRun(alpha, beta, seen, d, seed) ==
      Then([Cycle(side, c)], CycleRun(alpha, beta, Mark(seen, c), Update(d, Key(side), Elems(c)), []))
  {
    assert e < |alpha| && e !in Covered(seen, d, side);
    Advance(alpha, beta, seen, d, side, c);
    assert c[0] in Elems(c);
    match CycleRun(alpha, beta, Mark(seen, c), Update(d, Key(side), Elems(c)), [])
    case Err(_) =>
    case Ok(w) =>
  }

  lemma ThenNothing(r: Result<Walked>)
    ensures Then([], r) == r
  {
    if r.Ok? {
      assert [] + r.value.events == r.value.events;
    }
  }

  /** A walk that does not come back ends the loop with ValueError. */
  lemma CycleRunFails(alpha: seq<nat>, beta: seq<nat>, seen: seq<bool>, d: SetDiff, seed: seq<nat>, side: Side, e: nat)
    requires Inv(alpha, beta, seen, d) && SeedOk(seen, seed)
    requires NextWalk(seen, d, seed) == Some((side, e))
    ensures e < |alpha|
    ensures CycleOf(Perm(alpha, beta, side), e).Err? ==> CycleRun(alpha, beta, seen, d, seed) == Err(ValueError)
  {
  }

  /** The state `iter_cycles` leaves behind when it raises ValueError. */
  datatype Halted = Halted(seen: seq<bool>, missing: SetDiff, seed: seq<nat>)

  /** Where the loop of `iter_cycles` stops if a walk fails (None if none
      does): every cycle walked before stays marked and recorded in
      `missing`, the failed walk's trail is marked but not recorded, and
      the seed is kept when its own walk failed, since `self.seed = []`
      runs only after the yield. */
  function CycleRunHalt(alpha: seq<nat>, beta: seq<nat>, seen: seq<bool>, d: SetDiff, seed: seq<nat>): Option<Halted>
    requires Inv(alpha, beta, seen, d) && SeedOk(seen, seed)
    decreases Potential(seen, d)
  {
    match NextWalk(seen, d, seed)
    case None => None
    case Some((side, e)) =>
      assert e < |alpha| && e !in Covered(seen, d, side);
      match CycleOf(Perm(alpha, beta, side), e)
      case Err(_) => Some(Halted(Mark(seen, Trail(Perm(alpha, beta, side), e)), d, seed))
      case Ok(c) =>
        Advance(alpha, beta, seen, d, side, c);
        assert c[0] in Elems(c);
        CycleRunHalt(alpha, beta, Mark(seen, c), Update(d, Key(side), Elems(c)), [])
  }

  /** The loop stops with a halted state exactly when it raises, and the
      halted state has only gained marks. */
  lemma {:induction false} CycleRunHaltErr(alpha: seq<nat>, beta: seq<nat>, seen: seq<bool>, d: SetDiff, seed: seq<nat>)
    requires Inv(alpha, beta, seen, d) && SeedOk(seen, seed)
    ensures CycleRunHalt(alpha, beta, seen, d, seed).Some? <==> CycleRun(alpha, beta, seen, d, seed).Err?
    ensures CycleRunHalt(alpha, beta, seen, d, seed).Some? ==>
      var h := CycleRunHalt(alpha, beta, seen, d, seed).value;
      |h.seen| == |seen| && forall i :: 0 <= i < |seen| && seen[i] ==> h.seen[i]
    decreases Potential(seen, d)
  {
    match NextWalk(seen, d, seed)
    case None =>
    case Some((side, e)) =>
      CycleRunFails(alpha, beta, seen, d, seed, side, e);
      match CycleOf(Perm(alpha, beta, side), e)
      case Err(_) =>
      case Ok(c) =>
        CycleRunStep(alpha, beta, seen, d, seed, side, e, c);
        CycleRunHaltStep(alpha, beta, seen, d, seed, side, e, c);
        CycleRunHaltErr(alpha, beta, Mark(seen, c), Update(d, Key(side), Elems(c)), []);
  }

  /** A walk that returns leaves where the loop halts unchanged. */
  lemma CycleRunHaltStep(alpha: seq<nat>, beta: seq<nat>, seen: seq<bool>, d: SetDiff, seed: seq<nat>,
                         side: Side, e: nat, c: seq<nat>)
    requires Inv(alpha, beta, seen, d) && SeedOk(seen, seed)
    requires NextWalk(seen, d, seed) == Some((side, e)) && CycleOf(Perm(alpha, beta, side), e) == Ok(c)
    ensures Inv(alpha, beta, Mark(seen, c), Update(d, Key(side), Elems(c)))
    ensures CycleRunHalt(alpha, beta, seen, d, seed) ==
      CycleRunHalt(alpha, beta, Mark(seen, c), Update(d, Key(side), Elems(c)), [])
  {
    assert e < |alpha| && e !in Covered(seen, d, side);
    Advance(alpha, beta, seen, d, side, c);
    assert c[0] in Elems(c);
  }

  /** A walk that does not return halts the loop with its trail marked and
      `missing` and the seed as they were. */
  lemma CycleRunHaltFails(alpha: seq<nat>, beta: seq<nat>, seen: seq<bool>, d: SetDiff, seed: seq<nat>,
                          side: Side, e: nat)
    requires Inv(alpha, beta, seen, d) && SeedOk(seen, seed)
    requires NextWalk(seen, d, seed) == Some((side, e)) && CycleOf(Perm(alpha, beta, side), e).Err?
    ensures CycleRunHalt(alpha, beta, seen, d, seed) ==
      Some(Halted(Mark(seen, Trail(Perm(alpha, beta, side), e)), d, seed))
  {
    assert e < |alpha|;
  }

  /** A round whose walk fails: the loop raises, and halts in the state
      `get_key_cycle` left, with the walk's trail marked. */
  lemma RoundFails(alpha: seq<nat>, beta: seq<nat>, seen: seq<bool>, seen': seq<bool>, d: SetDiff,
                   seed: seq<nat>, side: Side, e: nat)
    requires Inv(alpha, beta, seen, d) && SeedOk(seen, seed)
    requires NextWalk(seen, d, seed) == Some((side, e)) && CycleOf(Perm(alpha, beta, side), e).Err?
    requires |seen'| == |seen|
    requires forall i :: 0 <= i < |seen| ==> seen'[i] == (seen[i] || i in Trail(Perm(alpha, beta, side), e))
    ensures CycleRun(alpha, beta, seen, d, seed) == Err(ValueError)
    ensures CycleRunHalt(alpha, beta, seen, d, seed) == Some(Halted(seen', d, seed))
  {
    CycleRunFails(alpha, beta, seen, d, seed, side, e);
    CycleRunHaltFails(alpha, beta, seen, d, seed, side, e);
    assert seen' == Mark(seen, Trail(Perm(alpha, beta, side), e));
  }

  /** A round whose walk returns: the state after `get_key_cycle` keeps the
      invariant, lowers the potential, and the rest of the loop, run and
      halt alike, continues from it without the seed. */
  lemma RoundReturns(alpha: seq<nat>, beta: seq<nat>, seen: seq<bool>, d: SetDiff, seed: seq<nat>,
                     side: Side, e: nat, c: seq<nat>)
    requires Inv(alpha, beta, seen, d) && SeedOk(seen, seed)
    requires NextWalk(seen, d, seed) == Some((side, e)) && CycleOf(Perm(alpha, beta, side), e) == Ok(c)
    ensures Inv(alpha, beta, Mark(seen, c), Update(d, Key(side), Elems(c))) && SeedOk(Mark(seen, c), [])
    ensures Potential(Mark(seen, c), Update(d, Key(side), Elems(c))) < Potential(seen, d)
    ensures CycleRun(alpha, beta, seen, d, seed) ==
      Then([Cycle(side, c)], CycleRun(alpha, beta, Mark(seen, c), Update(d, Key(side), Elems(c)), []))
    ensures CycleRunHalt(alpha, beta, seen, d, seed) ==
      CycleRunHalt(alpha, beta, Mark(seen, c), Update(d, Key(side), Elems(c)), [])
  {
    CycleRunStep(alpha, beta, seen, d, seed, side, e, c);
    CycleRunHaltStep(alpha, beta, seen, d, seed, side, e, c);
  }

  /** The loop of `iter_cycles` after its `break`: the run from the start
      is the events yielded so far, ending in the state reached, with
      nothing missing. */
  lemma RunFinished(alpha: seq<nat>, beta: seq<nat>, seen0: seq<bool>, d0: SetDiff, seed0: seq<nat>,
                    seen: seq<bool>, d: SetDiff, seed: seq<nat>, events: seq<Event>)
    requires Inv(alpha, beta, seen0, d0) && SeedOk(seen0, seed0)
    requires Inv(alpha, beta, seen, d) && SeedOk(seen, seed) && NextWalk(seen, d, seed).None?
    requires CycleRun(alpha, beta, seen0, d0, seed0) == Then(events, CycleRun(alpha, beta, seen, d, seed))
    ensures CycleRun(alpha, beta, seen0, d0, seed0) == Ok(Walked(seen, d, events))
    ensures d == NoneMissing && seed == []
  {
    CycleRunDone(alpha, beta, seen, d, seed);
    assert events + [] == events;
  }

  /** The loop breaks when there is no seed and nothing is missing. */
  lemma CycleRunDone(alpha: seq<nat>, beta: seq<nat>, seen: seq<bool>, d: SetDiff, seed: seq<nat>)
    requires Inv(alpha, beta, seen, d) && SeedOk(seen, seed)
    requires NextWalk(seen, d, seed).None?
    ensures CycleRun(alpha, beta, seen, d, seed) == Ok(Walked(seen, d, []))
  {
  }

  lemma ThenThen(events: seq<Event>, ev: Event, r: Result<Walked>)
    ensures Then(events, Then([ev], r)) == Then(events + [ev], r)
  {
    if r.Ok? {
      assert events + ([ev] + r.value.events) == (events + [ev]) + r.value.events;
    }
  }

  /** One component of `iter_component_cycles`, unfolded. */
  lemma ComponentsStep(alpha: seq<nat>, beta: seq<nat>, seen: seq<bool>, e: nat)
    requires Inv(alpha, beta, seen, NoneMissing)
    requires e < |seen| && !seen[e] && forall j :: 0 <= j < e ==> seen[j]
    ensures SeedOk(seen, [e])
    ensures CycleRun(alpha, beta, seen, NoneMissing, [e]).Err? ==> Components(alpha, beta, seen) == Err(ValueError)
    ensures CycleRun(alpha, beta, seen, NoneMissing, [e]).Ok? ==>
      Inv(alpha, beta, CycleRun(alpha, beta, seen, NoneMissing, [e]).value.seen, NoneMissing)
    ensures CycleRun(alpha, beta, seen, NoneMissing, [e]).Ok? ==>
      var w := CycleRun(alpha, beta, seen, NoneMissing, [e]).value;
      Components(alpha, beta, seen) == ThenEvents([Start(e)] + w.events + [End(e)], Components(alpha, beta, w.seen))
  {
    assert seen[e] == false;
    assert IndexOf(seen, false) == e;
    var r := CycleRun(alpha, beta, seen, NoneMissing, [e]);
    if r.Ok? {
      CycleRunEnds(alpha, beta, seen, NoneMissing, [e]);
      match Components(alpha, beta, r.value.seen)
      case Err(_) =>
      case Ok(_) =>
    }
  }

  lemma ThenEventsNothing(r: Result<seq<Event>>)
    ensures ThenEvents([], r) == r
  {
    if r.Ok? {
      assert [] + r.value == r.value;
    }
  }

  lemma ThenEventsThen(events: seq<Event>, more: seq<Event>, r: Result<seq<Event>>)
    ensures ThenEvents(events, ThenEvents(more, r)) == ThenEvents(events + more, r)
  {
    if r.Ok? {
      assert events + (more + r.value) == (events + more) + r.value;
    }
  }

  // ---------------------------------------------------------------------
  // What a full run yields
  // ---------------------------------------------------------------------

  /** The cycles of one side ('a' or 'b'), in the order they are yielded. */
  function SideCycles(events: seq<Event>, side: Side): seq<seq<nat>> {
    if events == [] then []
    else if events[0].Cycle? && events[0].side == side then [events[0].cycle] + SideCycles(events[1..], side)
    else SideCycles(events[1..], side)
  }

  /** The tags of the ('S', edge) events, in order. */
  function Starts(events: seq<Event>): seq<nat> {
    if events == [] then []
    else if events[0].Start? then [events[0].tag] + Starts(events[1..])
    else Starts(events[1..])
  }

  /** The tags of the ('E', edge) events, in order. */
  function Ends(events: seq<Event>): seq<nat> {
    if events == [] then []
    else if events[0].End? then [events[0].tag] + Ends(events[1..])
    else Ends(events[1..])
  }

  predicate Increasing(s: seq<nat>) {
    forall i, j :: 0 <= i < j < |s| ==> s[i] < s[j]
  }

  lemma {:induction false} SideCyclesAppend(a: seq<Event>, b: seq<Event>, side: Side)
    ensures SideCycles(a + b, side) == SideCycles(a, side) + SideCycles(b, side)
  {
    if a == [] {
      assert a + b == b;
    } else {
      assert (a + b)[0] == a[0];
      assert (a + b)[1..] == a[1..] + b;
      SideCyclesAppend(a[1..], b, side);
    }
  }

  lemma {:induction false} TagsAppend(a: seq<Event>, b: seq<Event>)
    ensures Starts(a + b) == Starts(a) + Starts(b)
    ensures Ends(a + b) == Ends(a) + Ends(b)
  {
    if a == [] {
      assert a + b == b;
    } else {
      assert (a + b)[0] == a[0];
      assert (a + b)[1..] == a[1..] + b;
      TagsAppend(a[1..], b);
    }
  }

  /** The edge a round walks from is an edge of the pair not yet on a cycle
      of the side it walks. */
  lemma NextWalkFresh(alpha: seq<nat>, beta: seq<nat>, seen: seq<bool>, d: SetDiff, seed: seq<nat>, side: Side, e: nat)
    requires Inv(alpha, beta, seen, d) && SeedOk(seen, seed)
    requires NextWalk(seen, d, seed) == Some((side, e))
    ensures e < |alpha| && e !in Covered(seen, d, side)
  {
  }

  /** The loop yields only cycles, and with a seed its first one is the
      alpha-cycle through the seed. */
  lemma {:induction false} CycleRunEvents(alpha: seq<nat>, beta: seq<nat>, seen: seq<bool>, d: SetDiff, seed: seq<nat>)
    requires Inv(alpha, beta, seen, d) && SeedOk(seen, seed)
    requires CycleRun(alpha, beta, seen, d, seed).Ok?
    ensures var evs := CycleRun(alpha, beta, seen, d, seed).value.events;
      && (forall i :: 0 <= i < |evs| ==> evs[i].Cycle?)
      && (seed != [] ==> |evs| > 0 && evs[0].side == A && IsCycleFrom(alpha, seed[0], evs[0].cycle))
    decreases Potential(seen, d)
  {
    match NextWalk(seen, d, seed)
    case None =>
    case Some((side, e)) =>
      NextWalkFresh(alpha, beta, seen, d, seed, side, e);
      var c := CycleOf(Perm(alpha, beta, side), e).value;
      CycleRunStep(alpha, beta, seen, d, seed, side, e, c);
      var seen', d' := Mark(seen, c), Update(d, Key(side), Elems(c));
      CycleRunEvents(alpha, beta, seen', d', []);
      var evs := CycleRun(alpha, beta, seen, d, seed).value.events;
      var rest := CycleRun(alpha, beta, seen', d', []).value.events;
      assert evs == [Cycle(side, c)] + rest;
      forall i | 0 <= i < |evs|
        ensures evs[i].Cycle?
      {
        if i > 0 {
          assert evs[i] == rest[i - 1];
        }
      }
      if seed != [] {
        assert side == A && e == seed[0];
      }
  }

  /** Every cycle of one side that the loop yields is a genuine cycle of
      that side's map; those cycles share no edge, miss the edges already on
      a cycle of that side, and are exactly what the loop adds to them. */
  lemma {:induction false} CycleRunSides(alpha: seq<nat>, beta: seq<nat>, seen: seq<bool>, d: SetDiff, seed: seq<nat>, side: Side)
    requires Inv(alpha, beta, seen, d) && SeedOk(seen, seed)
    requires CycleRun(alpha, beta, seen, d, seed).Ok?
    ensures var w := CycleRun(alpha, beta, seen, d, seed).value;
      var cs := SideCycles(w.events, side);
      && (forall k :: 0 <= k < |cs| ==> IsCycle(Perm(alpha, beta, side), cs[k]))
      && Distinct(Flatten(cs))
      && Elems(Flatten(cs)) !! Covered(seen, d, side)
      && Covered(w.seen, w.missing, side) == Covered(seen, d, side) + Elems(Flatten(cs))
    decreases Potential(seen, d)
  {
    match NextWalk(seen, d, seed)
    case None =>
      assert Elems(Flatten(SideCycles([], side))) == {};
    case Some((s, e)) =>
      NextWalkFresh(alpha, beta, seen, d, seed, s, e);
      var c := CycleOf(Perm(alpha, beta, s), e).value;
      CycleRunStep(alpha, beta, seen, d, seed, s, e, c);
      var seen', d' := Mark(seen, c), Update(d, Key(s), Elems(c));
      CycleRunSides(alpha, beta, seen', d', [], side);
      Advance(alpha, beta, seen, d, s, c);
      var w := CycleRun(alpha, beta, seen, d, seed).value;
      var w' := CycleRun(alpha, beta, seen', d', []).value;
      assert w.seen == w'.seen && w.missing == w'.missing && w.events == [Cycle(s, c)] + w'.events;
      SideCyclesCons(s, c, w'.events, side);
      var rest := SideCycles(w'.events, side);
      if s == side {
        CycleDistinct(Perm(alpha, beta, s), c);
        SidesCons(Perm(alpha, beta, side), c, rest, Covered(seen, d, side), Covered(seen', d', side),
                  Covered(w'.seen, w'.missing, side));
      } else {
        assert side == if s == A then B else A;
        assert Covered(seen', d', side) == Covered(seen, d, side);
      }
  }

  lemma SideCyclesCons(s: Side, c: seq<nat>, events: seq<Event>, side: Side)
    ensures SideCycles([Cycle(s, c)] + events, side) == if s == side then [c] + SideCycles(events, side) else SideCycles(events, side)
  {
    assert ([Cycle(s, c)] + events)[1..] == events;
  }

  /** The set algebra of one step of `CycleRunSides`, on its own. */
  lemma SidesCons(p: seq<nat>, c: seq<nat>, rest: seq<seq<nat>>, covered: set<nat>, covered': set<nat>, final: set<nat>)
    requires IsCycle(p, c) && Distinct(c) && Elems(c) !! covered && covered' == covered + Elems(c)
    requires forall k :: 0 <= k < |rest| ==> IsCycle(p, rest[k])
    requires Distinct(Flatten(rest)) && Elems(Flatten(rest)) !! covered'
    requires final == covered' + Elems(Flatten(rest))
    ensures forall k :: 0 <= k < |[c] + rest| ==> IsCycle(p, ([c] + rest)[k])
    ensures Distinct(Flatten([c] + rest)) && Elems(Flatten([c] + rest)) !! covered
    ensures final == covered + Elems(Flatten([c] + rest))
  {
    FlattenCons(c, rest);
    DistinctAppend(c, Flatten(rest));
    assert Elems(c + Flatten(rest)) == Elems(c) + Elems(Flatten(rest));
  }

  /** Each of `cs` is a cycle of `p`. */
  predicate AllCycles(p: seq<nat>, cs: seq<seq<nat>>) {
    forall k :: 0 <= k < |cs| ==> IsCycle(p, cs[k])
  }

  /** The pieces of `cs` cover `s` with no edge twice. */
  predicate PartitionOf(cs: seq<seq<nat>>, s: set<nat>) {
    Distinct(Flatten(cs)) && Elems(Flatten(cs)) == s
  }

  lemma PartitionAppend(cs: seq<seq<nat>>, ds: seq<seq<nat>>, s: set<nat>, t: set<nat>, p: seq<nat>)
    requires PartitionOf(cs, s) && PartitionOf(ds, t) && s !! t
    requires AllCycles(p, cs) && AllCycles(p, ds)
    ensures PartitionOf(cs + ds, s + t) && AllCycles(p, cs + ds)
  {
    FlattenConcat(cs, ds);
    DistinctAppend(Flatten(cs), Flatten(ds));
    assert Elems(Flatten(cs) + Flatten(ds)) == s + t;
    forall k | 0 <= k < |cs + ds|
      ensures IsCycle(p, (cs + ds)[k])
    {
      if k >= |cs| {
        assert (cs + ds)[k] == ds[k - |cs|];
      }
    }
  }

  /** After a walk from `seen` to `seen'` that saw the edges `e` anew, the
      edges unseen before are `e` and those still unseen. */
  lemma UnseenSplit(seen: seq<bool>, seen': seq<bool>, e: set<nat>)
    requires |seen'| == |seen| && SeenSet(seen') == SeenSet(seen) + e && e !! SeenSet(seen)
    ensures Unseen(seen) == e + Unseen(seen') && e !! Unseen(seen')
  {
    forall x | x in e
      ensures x in Unseen(seen) && x !in Unseen(seen')
    {
      assert x in SeenSet(seen');
    }
    forall x | x in Unseen(seen) && x !in e
      ensures x in Unseen(seen')
    {
      assert x !in SeenSet(seen');
    }
    forall x | x in Unseen(seen')
      ensures x in Unseen(seen)
    {
      assert x !in SeenSet(seen');
    }
  }

  lemma AllSeen(seen: seq<bool>)
    requires false !in seen
    ensures Unseen(seen) == {}
  {
  }

  lemma SideCyclesBlock(e: nat, events: seq<Event>, rest: seq<Event>, side: Side)
    ensures SideCycles([Start(e)] + events + [End(e)] + rest, side) == SideCycles(events, side) + SideCycles(rest, side)
  {
    var open := [Start(e)] + events;
    assert open[1..] == events;
    assert SideCycles(open, side) == SideCycles(events, side);
    SideCyclesAppend(open, [End(e)], side);
    assert SideCycles([End(e)], side) == [];
    SideCyclesAppend(open + [End(e)], rest, side);
  }

  /** One component's share of `ComponentsCover`, as set algebra. */
  lemma CoverStep(p: seq<nat>, seen: seq<bool>, seen': seq<bool>, mid: seq<seq<nat>>, rest: seq<seq<nat>>)
    requires |seen'| == |seen|
    requires AllCycles(p, mid) && Distinct(Flatten(mid)) && Elems(Flatten(mid)) !! SeenSet(seen)
    requires SeenSet(seen') == SeenSet(seen) + Elems(Flatten(mid))
    requires AllCycles(p, rest) && PartitionOf(rest, Unseen(seen'))
    ensures AllCycles(p, mid + rest) && PartitionOf(mid + rest, Unseen(seen))
  {
    UnseenSplit(seen, seen', Elems(Flatten(mid)));
    PartitionAppend(mid, rest, Elems(Flatten(mid)), Unseen(seen'), p);
  }

  /** Over `iter_component_cycles` from `seen`, the cycles of one side are
      cycles of that side's map, and they cover the edges not yet seen with
      no edge twice. */
  lemma {:induction false} ComponentsCover(alpha: seq<nat>, beta: seq<nat>, seen: seq<bool>, side: Side)
    requires Inv(alpha, beta, seen, NoneMissing) && Components(alpha, beta, seen).Ok?
    ensures AllCycles(Perm(alpha, beta, side), SideCycles(Components(alpha, beta, seen).value, side))
    ensures PartitionOf(SideCycles(Components(alpha, beta, seen).value, side), Unseen(seen))
    decreases |Unseen(seen)|
  {
    if false !in seen {
      AllSeen(seen);
      assert Elems(Flatten(SideCycles([], side))) == {};
    } else {
      var e := IndexOf(seen, false);
      ComponentsStep(alpha, beta, seen, e);
      var w := CycleRun(alpha, beta, seen, NoneMissing, [e]).value;
      ComponentRun(alpha, beta, seen, e, side);
      ComponentsCover(alpha, beta, w.seen, side);
      var rest := Components(alpha, beta, w.seen).value;
      SideCyclesBlock(e, w.events, rest, side);
      CoverStep(Perm(alpha, beta, side), seen, w.seen, SideCycles(w.events, side), SideCycles(rest, side));
    }
  }

  /** What one component's walk contributes to `ComponentsCover`. */
  lemma ComponentRun(alpha: seq<nat>, beta: seq<nat>, seen: seq<bool>, e: nat, side: Side)
    requires Inv(alpha, beta, seen, NoneMissing) && SeedOk(seen, [e])
    requires CycleRun(alpha, beta, seen, NoneMissing, [e]).Ok?
    ensures var w := CycleRun(alpha, beta, seen, NoneMissing, [e]).value;
      var cs := SideCycles(w.events, side);
      && Inv(alpha, beta, w.seen, NoneMissing) && |w.seen| == |seen| && |Unseen(w.seen)| < |Unseen(seen)|
      && AllCycles(Perm(alpha, beta, side), cs) && Distinct(Flatten(cs)) && Elems(Flatten(cs)) !! SeenSet(seen)
      && SeenSet(w.seen) == SeenSet(seen) + Elems(Flatten(cs))
  {
    var w := CycleRun(alpha, beta, seen, NoneMissing, [e]).value;
    CycleRunEnds(alpha, beta, seen, NoneMissing, [e]);
    UnseenShrinks(seen, w.seen, e);
    CycleRunSides(alpha, beta, seen, NoneMissing, [e], side);
    assert Covered(w.seen, w.missing, side) == SeenSet(w.seen) && Covered(seen, NoneMissing, side) == SeenSet(seen);
  }

  /** Over a full run of `iter_component_cycles`, every edge lies on exactly
      one yielded 'a' cycle and on exactly one 'b' cycle, and these are
      cycles of alpha and of beta respectively. */
  lemma ComponentCyclesCover(alpha: seq<nat>, beta: seq<nat>, side: Side)
    requires PairOk(alpha, beta) && ComponentCycles(alpha, beta).Ok?
    ensures AllCycles(Perm(alpha, beta, side), SideCycles(ComponentCycles(alpha, beta).value, side))
    ensures PartitionOf(SideCycles(ComponentCycles(alpha, beta).value, side), RangeSet(|alpha|))
  {
    InitialInv(alpha, beta);
    ComponentsCover(alpha, beta, Falses(|alpha|), side);
    assert Unseen(Falses(|alpha|)) == RangeSet(|alpha|);
  }

  /** The walk of one component: it keeps the invariant, sees the seed and
      loses nothing seen, yields only cycles, the first being the alpha-cycle
      through the seed. */
  lemma ComponentWalk(alpha: seq<nat>, beta: seq<nat>, seen: seq<bool>, e: nat)
    requires Inv(alpha, beta, seen, NoneMissing) && SeedOk(seen, [e])
    requires CycleRun(alpha, beta, seen, NoneMissing, [e]).Ok?
    ensures var w := CycleRun(alpha, beta, seen, NoneMissing, [e]).value;
      && Inv(alpha, beta, w.seen, NoneMissing) && |w.seen| == |seen| && |Unseen(w.seen)| < |Unseen(seen)|
      && (forall i :: 0 <= i < |seen| && seen[i] ==> w.seen[i]) && w.seen[e]
      && (forall i :: 0 <= i < |w.events| ==> w.events[i].Cycle?)
      && |w.events| > 0 && w.events[0].side == A && IsCycleFrom(alpha, e, w.events[0].cycle)
  {
    var w := CycleRun(alpha, beta, seen, NoneMissing, [e]).value;
    CycleRunEnds(alpha, beta, seen, NoneMissing, [e]);
    UnseenShrinks(seen, w.seen, e);
    CycleRunEvents(alpha, beta, seen, NoneMissing, [e]);
  }

  lemma {:induction false} CyclesHaveNoTags(events: seq<Event>)
    requires forall i :: 0 <= i < |events| ==> events[i].Cycle?
    ensures Starts(events) == [] && Ends(events) == []
  {
    if events != [] {
      CyclesHaveNoTags(events[1..]);
    }
  }

  lemma TagsBlock(e: nat, events: seq<Event>, rest: seq<Event>)
    requires forall i :: 0 <= i < |events| ==> events[i].Cycle?
    ensures Starts([Start(e)] + events + [End(e)] + rest) == [e] + Starts(rest)
    ensures Ends([Start(e)] + events + [End(e)] + rest) == [e] + Ends(rest)
  {
    var open := [Start(e)] + events;
    var block := open + [End(e)];
    OpenTags(e, events);
    CloseTags(e);
    TagsAppend(open, [End(e)]);
    assert Starts(block) == [e] && Ends(block) == [e];
    TagsAppend(block, rest);
  }

  lemma OpenTags(e: nat, events: seq<Event>)
    requires forall i :: 0 <= i < |events| ==> events[i].Cycle?
    ensures Starts([Start(e)] + events) == [e] && Ends([Start(e)] + events) == []
  {
    CyclesHaveNoTags(events);
    assert ([Start(e)] + events)[1..] == events;
  }

  lemma CloseTags(e: nat)
    ensures Starts([End(e)]) == [] && Ends([End(e)]) == [e]
  {
    assert [End(e)][1..] == [];
  }

  lemma IncreasingCons(e: nat, s: seq<nat>)
    requires Increasing(s) && forall k :: 0 <= k < |s| ==> e < s[k]
    ensures Increasing([e] + s)
  {
    forall i, j | 0 <= i < j < |[e] + s|
      ensures ([e] + s)[i] < ([e] + s)[j]
    {
      assert ([e] + s)[j] == s[j - 1];
    }
  }

  /** Each component is bracketed by ('S', e) and ('E', e) for the same
      edge e, in the same order; these edges are unseen ones in strictly
      increasing order, the first being the lowest unseen edge; nothing is
      yielded exactly when every edge is seen. */
  lemma {:induction false} ComponentsTags(alpha: seq<nat>, beta: seq<nat>, seen: seq<bool>)
    requires Inv(alpha, beta, seen, NoneMissing) && Components(alpha, beta, seen).Ok?
    ensures var evs := Components(alpha, beta, seen).value;
      && Starts(evs) == Ends(evs) && Increasing(Starts(evs))
      && (forall k :: 0 <= k < |Starts(evs)| ==> Starts(evs)[k] in Unseen(seen))
      && (evs == [] <==> false !in seen)
      && (false in seen ==> evs[0] == Start(IndexOf(seen, false)))
    decreases |Unseen(seen)|
  {
    if false in seen {
      var e := IndexOf(seen, false);
      ComponentsStep(alpha, beta, seen, e);
      var w := CycleRun(alpha, beta, seen, NoneMissing, [e]).value;
      ComponentWalk(alpha, beta, seen, e);
      ComponentsTags(alpha, beta, w.seen);
      var rest := Components(alpha, beta, w.seen).value;
      TagsBlock(e, w.events, rest);
      TagsStep(seen, w.seen, e, Starts(rest));
    }
  }

  /** The edge of a new component is below every later one: those are
      unseen after its walk, and everything up to it is seen by then. */
  lemma TagsStep(seen: seq<bool>, seen': seq<bool>, e: nat, tags: seq<nat>)
    requires |seen'| == |seen| && e < |seen| && !seen[e] && seen'[e]
    requires forall j :: 0 <= j < e ==> seen[j]
    requires forall i :: 0 <= i < |seen| && seen[i] ==> seen'[i]
    requires Increasing(tags) && forall k :: 0 <= k < |tags| ==> tags[k] in Unseen(seen')
    ensures Increasing([e] + tags)
    ensures forall k :: 0 <= k < |[e] + tags| ==> ([e] + tags)[k] in Unseen(seen)
  {
    forall k | 0 <= k < |tags|
      ensures e < tags[k] && tags[k] in Unseen(seen)
    {
      assert tags[k] in Unseen(seen');
    }
    IncreasingCons(e, tags);
    assert e in Unseen(seen);
    forall k | 0 <= k < |[e] + tags|
      ensures ([e] + tags)[k] in Unseen(seen)
    {
      if k > 0 {
        assert ([e] + tags)[k] == tags[k - 1];
      }
    }
  }

  /** Every ('S', e) is followed by the alpha-cycle through e. */
  predicate SeedFirst(alpha: seq<nat>, events: seq<Event>) {
    forall i :: 0 <= i < |events| && events[i].Start? ==>
      && i + 1 < |events| && events[i + 1].Cycle? && events[i + 1].side == A
      && IsCycleFrom(alpha, events[i].tag, events[i + 1].cycle)
  }

  lemma SeedFirstBlock(alpha: seq<nat>, e: nat, events: seq<Event>, rest: seq<Event>)
    requires forall i :: 0 <= i < |events| ==> events[i].Cycle?
    requires |events| > 0 && events[0].side == A && IsCycleFrom(alpha, e, events[0].cycle)
    requires SeedFirst(alpha, rest)
    ensures SeedFirst(alpha, [Start(e)] + events + [End(e)] + rest)
  {
    var block := [Start(e)] + events + [End(e)];
    var all := block + rest;
    forall i | 0 <= i < |all| && all[i].Start?
      ensures i + 1 < |all| && all[i + 1].Cycle? && all[i + 1].side == A
      ensures IsCycleFrom(alpha, all[i].tag, all[i + 1].cycle)
    {
      if i >= |block| {
        assert all[i] == rest[i - |block|];
        assert all[i + 1] == rest[i + 1 - |block|];
      } else if i > 0 {
        assert false;
      } else {
        assert all[1] == events[0];
      }
    }
  }

  /** Over `iter_component_cycles` from `seen`, each component starts with
      the alpha-cycle through its seed. */
  lemma {:induction false} ComponentsSeedFirst(alpha: seq<nat>, beta: seq<nat>, seen: seq<bool>)
    requires Inv(alpha, beta, seen, NoneMissing) && Components(alpha, beta, seen).Ok?
    ensures SeedFirst(alpha, Components(alpha, beta, seen).value)
    decreases |Unseen(seen)|
  {
    if false in seen {
      var e := IndexOf(seen, false);
      ComponentsStep(alpha, beta, seen, e);
      var w := CycleRun(alpha, beta, seen, NoneMissing, [e]).value;
      ComponentWalk(alpha, beta, seen, e);
      ComponentsSeedFirst(alpha, beta, w.seen);
      SeedFirstBlock(alpha, e, w.events, Components(alpha, beta, w.seen).value);
    }
  }

  /** The shape of the whole of `iter_component_cycles(permpair)`: nothing
      for an empty pair, otherwise ('S', 0) first; ('S', e) ... ('E', e)
      brackets with strictly increasing edges, each component opened by the
      alpha-cycle through its seed. */
  lemma ComponentCyclesShape(alpha: seq<nat>, beta: seq<nat>)
    requires PairOk(alpha, beta) && ComponentCycles(alpha, beta).Ok?
    ensures var evs := ComponentCycles(alpha, beta).value;
      && (evs == [] <==> |alpha| == 0)
      && (|alpha| > 0 ==> evs[0] == Start(0))
      && Starts(evs) == Ends(evs) && Increasing(Starts(evs))
      && SeedFirst(alpha, evs)
  {
    var seen := Falses(|alpha|);
    InitialInv(alpha, beta);
    ComponentsTags(alpha, beta, seen);
    ComponentsSeedFirst(alpha, beta, seen);
    if |alpha| > 0 {
      assert seen[0] == false;
      assert IndexOf(seen, false) == 0;
    }
  }

  /** For a pair of permutations every walk returns, so nothing raises. */
  lemma {:induction false} CycleRunPermOk(alpha: seq<nat>, beta: seq<nat>, seen: seq<bool>, d: SetDiff, seed: seq<nat>)
    requires Inv(alpha, beta, seen, d) && SeedOk(seen, seed)
    requires IsPermutation(alpha) && IsPermutation(beta)
    ensures CycleRun(alpha, beta, seen, d, seed).Ok?
    decreases Potential(seen, d)
  {
    match NextWalk(seen, d, seed)
    case None =>
    case Some((side, e)) =>
      NextWalkFresh(alpha, beta, seen, d, seed, side, e);
      PermReturns(Perm(alpha, beta, side), e);
      var c := CycleOf(Perm(alpha, beta, side), e).value;
      CycleRunStep(alpha, beta, seen, d, seed, side, e, c);
      CycleRunPermOk(alpha, beta, Mark(seen, c), Update(d, Key(side), Elems(c)), []);
  }

  lemma {:induction false} ComponentsPermOk(alpha: seq<nat>, beta: seq<nat>, seen: seq<bool>)
    requires Inv(alpha, beta, seen, NoneMissing) && IsPermutation(alpha) && IsPermutation(beta)
    ensures Components(alpha, beta, seen).Ok?
    decreases |Unseen(seen)|
  {
    if false in seen {
      var e := IndexOf(seen, false);
      ComponentsStep(alpha, beta, seen, e);
      CycleRunPermOk(alpha, beta, seen, NoneMissing, [e]);
      ComponentWalk(alpha, beta, seen, e);
      ComponentsPermOk(alpha, beta, CycleRun(alpha, beta, seen, NoneMissing, [e]).value.seen);
    }
  }

  /** `iter_component_cycles` runs to the end on any pair of permutations
      of the same length. */
  lemma PermPairOk(alpha: seq<nat>, beta: seq<nat>)
    requires IsPermutation(alpha) && IsPermutation(beta) && |alpha| == |beta|
    ensures ComponentCycles(alpha, beta).Ok?
  {
    InitialInv(alpha, beta);
    ComponentsPermOk(alpha, beta, Falses(|alpha|));
  }

  // ---------------------------------------------------------------------
  // The doctests of `iter_component_cycles`
  // ---------------------------------------------------------------------

  /** The events for the identity pair on edges k, ..., n-1: every edge is
      a component of its own, with a fixed point on each side. */
  function IdentityEvents(k: nat, n: nat): seq<Event>
    decreases n - k
  {
    if k >= n then [] else [Start(k), Cycle(A, [k]), Cycle(B, [k]), End(k)] + IdentityEvents(k + 1, n)
  }

  lemma SetMinOf(s: set<nat>, m: nat)
    requires m in s && forall y :: y in s ==> m <= y
    ensures SetMin(s) == m
  {
  }

  /** A component made of one alpha-cycle and one beta-cycle on the same
      edges, the seed being the least of them: the seed opens both. */
  lemma TwoCycleRun(alpha: seq<nat>, beta: seq<nat>, seen: seq<bool>, e: nat, ca: seq<nat>, cb: seq<nat>)
    requires Inv(alpha, beta, seen, NoneMissing) && SeedOk(seen, [e])
    requires IsCycleFrom(alpha, e, ca) && IsCycleFrom(beta, e, cb) && Elems(cb) == Elems(ca)
    requires forall x :: x in Elems(ca) ==> e <= x
    ensures CycleRun(alpha, beta, seen, NoneMissing, [e])
      == Ok(Walked(Mark(seen, ca), NoneMissing, [Cycle(A, ca), Cycle(B, cb)]))
  {
    TwoCycleFirst(alpha, beta, seen, e, ca);
    TwoCycleSecond(alpha, beta, Mark(seen, ca), e, ca, cb);
    assert [Cycle(A, ca)] + [Cycle(B, cb)] == [Cycle(A, ca), Cycle(B, cb)];
  }

  /** The first round of `TwoCycleRun`: the alpha-cycle from the seed leaves
      its edges waiting for beta. */
  lemma TwoCycleFirst(alpha: seq<nat>, beta: seq<nat>, seen: seq<bool>, e: nat, ca: seq<nat>)
    requires Inv(alpha, beta, seen, NoneMissing) && SeedOk(seen, [e])
    requires IsCycleFrom(alpha, e, ca)
    ensures Inv(alpha, beta, Mark(seen, ca), SetDiff({}, Elems(ca)))
    ensures forall x :: x in Elems(ca) ==> x < |Mark(seen, ca)| && Mark(seen, ca)[x]
    ensures CycleRun(alpha, beta, seen, NoneMissing, [e])
      == Then([Cycle(A, ca)], CycleRun(alpha, beta, Mark(seen, ca), SetDiff({}, Elems(ca)), []))
  {
    WalkCycle(alpha, beta, seen, NoneMissing, [e], A, e, ca);
    AlphaOpens(Elems(ca));
  }

  lemma AlphaOpens(E: set<nat>)
    ensures Update(NoneMissing, 1, E) == SetDiff({}, E)
  {
  }

  /** The second round of `TwoCycleRun`: the beta-cycle from the least
      waiting edge closes the component. */
  lemma TwoCycleSecond(alpha: seq<nat>, beta: seq<nat>, s1: seq<bool>, e: nat, ca: seq<nat>, cb: seq<nat>)
    requires Inv(alpha, beta, s1, SetDiff({}, Elems(ca)))
    requires IsCycleFrom(alpha, e, ca) && IsCycleFrom(beta, e, cb) && Elems(cb) == Elems(ca)
    requires forall x :: x in Elems(ca) ==> e <= x
    requires forall x :: x in Elems(ca) ==> x < |s1| && s1[x]
    ensures CycleRun(alpha, beta, s1, SetDiff({}, Elems(ca)), []) == Ok(Walked(s1, NoneMissing, [Cycle(B, cb)]))
  {
    var d1 := SetDiff({}, Elems(ca));
    WaitingForBeta(s1, Elems(ca), e);
    WalkCycle(alpha, beta, s1, d1, [], B, e, cb);
    BetaCloses(s1, Elems(ca), cb);
    CycleRunDone(alpha, beta, s1, NoneMissing, []);
    assert [Cycle(B, cb)] + [] == [Cycle(B, cb)];
  }

  lemma WaitingForBeta(s1: seq<bool>, E: set<nat>, e: nat)
    requires e in E && forall x :: x in E ==> e <= x
    ensures NextWalk(s1, SetDiff({}, E), []) == Some((B, e))
  {
    SetMinOf(E, e);
  }

  lemma BetaCloses(s1: seq<bool>, E: set<nat>, cb: seq<nat>)
    requires Elems(cb) == E && forall x :: x in E ==> x < |s1| && s1[x]
    ensures Update(SetDiff({}, E), 0, Elems(cb)) == NoneMissing
    ensures Mark(s1, cb) == s1
  {
    assert Mark(s1, cb) == s1;
  }

  lemma IdentityInv(alpha: seq<nat>, beta: seq<nat>, seen: seq<bool>)
    requires PairOk(alpha, beta) && forall i :: 0 <= i < |alpha| ==> alpha[i] == i && beta[i] == i
    requires |seen| == |alpha|
    ensures Inv(alpha, beta, seen, NoneMissing)
  {
    assert Closed(alpha, SeenSet(seen)) && Closed(beta, SeenSet(seen));
  }

  lemma IdentityStep(alpha: seq<nat>, beta: seq<nat>, seen: seq<bool>, k: nat)
    requires PairOk(alpha, beta) && forall i :: 0 <= i < |alpha| ==> alpha[i] == i && beta[i] == i
    requires |seen| == |alpha| && k < |alpha| && forall i :: 0 <= i < |seen| ==> (seen[i] <==> i < k)
    ensures Inv(alpha, beta, seen, NoneMissing) && Inv(alpha, beta, Mark(seen, [k]), NoneMissing)
    ensures Components(alpha, beta, seen)
      == ThenEvents([Start(k), Cycle(A, [k]), Cycle(B, [k]), End(k)], Components(alpha, beta, Mark(seen, [k])))
  {
    IdentityInv(alpha, beta, seen);
    IdentityInv(alpha, beta, Mark(seen, [k]));
    assert seen[k] == false;
    assert IndexOf(seen, false) == k;
    assert IsCycleFrom(alpha, k, [k]) && IsCycleFrom(beta, k, [k]);
    TwoCycleRun(alpha, beta, seen, k, [k], [k]);
    ComponentsStep(alpha, beta, seen, k);
    IdentityBlock(k);
  }

  lemma IdentityBlock(k: nat)
    ensures [Start(k)] + [Cycle(A, [k]), Cycle(B, [k])] + [End(k)] == [Start(k), Cycle(A, [k]), Cycle(B, [k]), End(k)]
  {
  }

  lemma {:induction false} IdentityFrom(alpha: seq<nat>, beta: seq<nat>, seen: seq<bool>, k: nat)
    requires PairOk(alpha, beta) && forall i :: 0 <= i < |alpha| ==> alpha[i] == i && beta[i] == i
    requires |seen| == |alpha| && k <= |alpha| && forall i :: 0 <= i < |seen| ==> (seen[i] <==> i < k)
    ensures Inv(alpha, beta, seen, NoneMissing)
    ensures Components(alpha, beta, seen) == Ok(IdentityEvents(k, |alpha|))
    decreases |alpha| - k
  {
    IdentityInv(alpha, beta, seen);
    if k < |alpha| {
      IdentityStep(alpha, beta, seen, k);
      var seen' := Mark(seen, [k]);
      forall i | 0 <= i < |seen'|
        ensures seen'[i] <==> i < k + 1
      {
        assert i in [k] <==> i == k;
      }
      IdentityFrom(alpha, beta, seen', k + 1);
    } else {
      assert false !in seen;
    }
  }

  /** Both maps the identity: each edge is a component of its own, in
      increasing order. */
  lemma IdentityComponents(alpha: seq<nat>, beta: seq<nat>)
    requires |alpha| == |beta| && forall i :: 0 <= i < |alpha| ==> alpha[i] == i && beta[i] == i
    ensures ComponentCycles(alpha, beta) == Ok(IdentityEvents(0, |alpha|))
  {
    IdentityFrom(alpha, beta, Falses(|alpha|), 0);
  }

  /** doit('', ''), doit('0', '0') and doit('01', '01'). */
  lemma IdentityDoctest()
    ensures IdentityEvents(0, 0) == []
    ensures IdentityEvents(0, 1) == [Start(0), Cycle(A, [0]), Cycle(B, [0]), End(0)]
    ensures IdentityEvents(0, 2) == [Start(0), Cycle(A, [0]), Cycle(B, [0]), End(0),
                                     Start(1), Cycle(A, [1]), Cycle(B, [1]), End(1)]
  {
  }

  /** Edges waiting for a walk on `side` only. */
  function Waiting(side: Side, e: set<nat>): SetDiff {
    if side == A then SetDiff(e, {}) else SetDiff({}, e)
  }

  /** One fixed-point cycle per edge of `l`, walked on `side`. */
  function FixedCycles(side: Side, l: seq<nat>): (r: seq<Event>)
    ensures |r| == |l|
  {
    if l == [] then [] else [Cycle(side, [l[0]])] + FixedCycles(side, l[1..])
  }

  /** Seen edges waiting on one side, each a fixed point of that side's map:
      the run walks them one by one, least first, and ends with nothing
      waiting. */
  lemma {:induction false} FixedRun(alpha: seq<nat>, beta: seq<nat>, seen: seq<bool>, side: Side, l: seq<nat>)
    requires Inv(alpha, beta, seen, Waiting(side, Elems(l))) && Increasing(l)
    requires forall i :: 0 <= i < |l| ==> l[i] < |seen| && seen[l[i]] && Perm(alpha, beta, side)[l[i]] == l[i]
    ensures CycleRun(alpha, beta, seen, Waiting(side, Elems(l)), [])
      == Ok(Walked(seen, NoneMissing, FixedCycles(side, l)))
  {
    if l == [] {
      assert Waiting(side, Elems(l)) == NoneMissing;
      CycleRunDone(alpha, beta, seen, NoneMissing, []);
    } else {
      FixedStep(seen, side, l);
      assert IsCycleFrom(Perm(alpha, beta, side), l[0], [l[0]]);
      WalkCycle(alpha, beta, seen, Waiting(side, Elems(l)), [], side, l[0], [l[0]]);
      FixedRun(alpha, beta, seen, side, l[1..]);
    }
  }

  /** The bookkeeping of one `FixedRun` round, apart from the run. */
  lemma FixedStep(seen: seq<bool>, side: Side, l: seq<nat>)
    requires l != [] && Increasing(l)
    requires forall i :: 0 <= i < |l| ==> l[i] < |seen| && seen[l[i]]
    ensures NextWalk(seen, Waiting(side, Elems(l)), []) == Some((side, l[0]))
    ensures Update(Waiting(side, Elems(l)), Key(side), Elems([l[0]])) == Waiting(side, Elems(l[1..]))
    ensures Mark(seen, [l[0]]) == seen
    ensures Increasing(l[1..])
  {
    assert forall x :: x in Elems(l) ==> l[0] <= x;
    SetMinOf(Elems(l), l[0]);
    assert Elems(l[1..]) == Elems(l) - {l[0]} by {
      assert l == [l[0]] + l[1..];
    }
    assert Elems([l[0]]) == {l[0]};
    assert Mark(seen, [l[0]]) == seen;
  }

  /** Both maps a single cycle through every edge: one component, its
      alpha-cycle and then its beta-cycle. */
  lemma TransitiveComponent(alpha: seq<nat>, beta: seq<nat>, ca: seq<nat>, cb: seq<nat>)
    requires PairOk(alpha, beta) && |alpha| > 0
    requires IsCycleFrom(alpha, 0, ca) && IsCycleFrom(beta, 0, cb) && Elems(cb) == Elems(ca)
    requires forall i :: 0 <= i < |alpha| ==> i in ca
    ensures ComponentCycles(alpha, beta) == Ok([Start(0), Cycle(A, ca), Cycle(B, cb), End(0)])
  {
    InitialInv(alpha, beta);
    var seen := Falses(|alpha|);
    TwoCycleRun(alpha, beta, seen, 0, ca, cb);
    FullMark(seen, ca);
    LastComponent(alpha, beta, seen, 0, [Cycle(A, ca), Cycle(B, cb)], Mark(seen, ca));
    FourBlock(0, Cycle(A, ca), Cycle(B, cb));
  }

  lemma FullMark(seen: seq<bool>, c: seq<nat>)
    requires forall i :: 0 <= i < |seen| ==> i in c
    ensures false !in Mark(seen, c)
  {
  }

  lemma FourBlock(e: nat, x: Event, y: Event)
    ensures [Start(e)] + [x, y] + [End(e)] == [Start(e), x, y, End(e)]
  {
  }

  /** doit('120', '201'). */
  lemma RotationsDoctest(alpha: seq<nat>, beta: seq<nat>)
    requires |alpha| == 3 && alpha[0] == 1 && alpha[1] == 2 && alpha[2] == 0
    requires |beta| == 3 && beta[0] == 2 && beta[1] == 0 && beta[2] == 1
    ensures ComponentCycles(alpha, beta) == Ok([Start(0), Cycle(A, [0, 1, 2]), Cycle(B, [0, 2, 1]), End(0)])
  {
    var ca, cb := [0, 1, 2], [0, 2, 1];
    assert IsCycleFrom(alpha, 0, ca) && IsCycleFrom(beta, 0, cb);
    assert Elems(cb) == Elems(ca);
    TransitiveComponent(alpha, beta, ca, cb);
  }

  /** Alpha a single cycle through every edge, beta the identity: one
      component, the alpha-cycle and then every edge as a beta fixed point,
      in increasing order. */
  lemma AlphaTransitiveComponent(alpha: seq<nat>, beta: seq<nat>, ca: seq<nat>, l: seq<nat>)
    requires PairOk(alpha, beta) && |alpha| > 0 && forall i :: 0 <= i < |beta| ==> beta[i] == i
    requires IsCycleFrom(alpha, 0, ca) && forall i :: 0 <= i < |alpha| ==> i in ca
    requires Increasing(l) && Elems(l) == Elems(ca)
    ensures ComponentCycles(alpha, beta) == Ok([Start(0)] + ([Cycle(A, ca)] + FixedCycles(B, l)) + [End(0)])
  {
    InitialInv(alpha, beta);
    var seen := Falses(|alpha|);
    TwoCycleFirst(alpha, beta, seen, 0, ca);
    var s1 := Mark(seen, ca);
    FullMark(seen, ca);
    assert Waiting(B, Elems(l)) == SetDiff({}, Elems(ca));
    FixedReady(s1, Perm(alpha, beta, B), l, ca);
    FixedRun(alpha, beta, s1, B, l);
    LastComponent(alpha, beta, seen, 0, [Cycle(A, ca)] + FixedCycles(B, l), s1);
  }

  /** Alpha the identity, beta a single cycle through every edge: one
      component, the fixed point of edge 0, the beta-cycle, and then the
      other edges as alpha fixed points, in increasing order. */
  lemma BetaTransitiveComponent(alpha: seq<nat>, beta: seq<nat>, cb: seq<nat>, l: seq<nat>)
    requires PairOk(alpha, beta) && |alpha| > 0 && forall i :: 0 <= i < |alpha| ==> alpha[i] == i
    requires IsCycleFrom(beta, 0, cb) && forall i :: 0 <= i < |beta| ==> i in cb
    requires Increasing(l) && Elems(l) == Elems(cb) - {0}
    ensures ComponentCycles(alpha, beta)
      == Ok([Start(0)] + ([Cycle(A, [0])] + ([Cycle(B, cb)] + FixedCycles(A, l))) + [End(0)])
  {
    InitialInv(alpha, beta);
    var seen := Falses(|alpha|);
    assert IsCycleFrom(alpha, 0, [0]);
    TwoCycleFirst(alpha, beta, seen, 0, [0]);
    var s1 := Mark(seen, [0]);
    var r2 := BetaAfterFixedPoint(alpha, beta, s1, cb, l);
    assert CycleRun(alpha, beta, seen, NoneMissing, [0]) == Then([Cycle(A, [0])], r2);
    FullMark(s1, cb);
    LastComponent(alpha, beta, seen, 0, [Cycle(A, [0])] + ([Cycle(B, cb)] + FixedCycles(A, l)), Mark(s1, cb));
  }

  /** The rest of the run of `BetaTransitiveComponent` after the first
      alpha fixed point. */
  lemma BetaAfterFixedPoint(alpha: seq<nat>, beta: seq<nat>, s1: seq<bool>, cb: seq<nat>, l: seq<nat>)
    returns (r: Result<Walked>)
    requires Inv(alpha, beta, s1, SetDiff({}, Elems([0]))) && forall i :: 0 <= i < |alpha| ==> alpha[i] == i
    requires IsCycleFrom(beta, 0, cb) && forall i :: 0 <= i < |beta| ==> i in cb
    requires Increasing(l) && Elems(l) == Elems(cb) - {0}
    ensures r == CycleRun(alpha, beta, s1, SetDiff({}, Elems([0])), [])
    ensures r == Ok(Walked(Mark(s1, cb), NoneMissing, [Cycle(B, cb)] + FixedCycles(A, l)))
  {
    WaitingForBeta(s1, Elems([0]), 0);
    WalkCycle(alpha, beta, s1, SetDiff({}, Elems([0])), [], B, 0, cb);
    BetaOpens(Elems(cb));
    FullMark(s1, cb);
    FixedReady(Mark(s1, cb), Perm(alpha, beta, A), l, cb);
    FixedRun(alpha, beta, Mark(s1, cb), A, l);
    r := CycleRun(alpha, beta, s1, SetDiff({}, Elems([0])), []);
  }

  lemma FixedReady(seen: seq<bool>, p: seq<nat>, l: seq<nat>, c: seq<nat>)
    requires false !in seen && |p| == |seen| && forall i :: 0 <= i < |p| ==> p[i] == i
    requires Elems(l) <= Elems(c) && forall i :: 0 <= i < |c| ==> c[i] < |p|
    ensures forall i :: 0 <= i < |l| ==> l[i] < |seen| && seen[l[i]] && p[l[i]] == l[i]
  {
    forall i | 0 <= i < |l|
      ensures l[i] < |seen| && seen[l[i]]
    {
      assert l[i] in Elems(c);
    }
  }

  lemma BetaOpens(E: set<nat>)
    requires 0 in E
    ensures Update(SetDiff({}, Elems([0])), 0, E) == Waiting(A, E - {0})
  {
    assert Elems([0]) == {0};
  }

  /** doit('120', '012'). */
  lemma AlphaRotationDoctest(alpha: seq<nat>, beta: seq<nat>)
    requires |alpha| == 3 && alpha[0] == 1 && alpha[1] == 2 && alpha[2] == 0
    requires |beta| == 3 && beta[0] == 0 && beta[1] == 1 && beta[2] == 2
    ensures ComponentCycles(alpha, beta)
      == Ok([Start(0), Cycle(A, [0, 1, 2]), Cycle(B, [0]), Cycle(B, [1]), Cycle(B, [2]), End(0)])
  {
    var ca := [0, 1, 2];
    assert IsCycleFrom(alpha, 0, ca);
    AlphaTransitiveComponent(alpha, beta, ca, ca);
    assert FixedCycles(B, ca) == [Cycle(B, [0]), Cycle(B, [1]), Cycle(B, [2])];
    SixBlock(Start(0), Cycle(A, ca), Cycle(B, [0]), Cycle(B, [1]), Cycle(B, [2]), End(0));
  }

  /** doit('012', '201'). */
  lemma BetaRotationDoctest(alpha: seq<nat>, beta: seq<nat>)
    requires |alpha| == 3 && alpha[0] == 0 && alpha[1] == 1 && alpha[2] == 2
    requires |beta| == 3 && beta[0] == 2 && beta[1] == 0 && beta[2] == 1
    ensures ComponentCycles(alpha, beta)
      == Ok([Start(0), Cycle(A, [0]), Cycle(B, [0, 2, 1]), Cycle(A, [1]), Cycle(A, [2]), End(0)])
  {
    var cb, l := [0, 2, 1], [1, 2];
    assert IsCycleFrom(beta, 0, cb);
    assert Elems(l) == Elems(cb) - {0};
    BetaTransitiveComponent(alpha, beta, cb, l);
    assert FixedCycles(A, l) == [Cycle(A, [1]), Cycle(A, [2])];
    SixBlock(Start(0), Cycle(A, [0]), Cycle(B, cb), Cycle(A, [1]), Cycle(A, [2]), End(0));
  }

  lemma SixBlock(s: Event, x: Event, y: Event, z: Event, w: Event, e: Event)
    ensures [s] + ([x] + [y, z, w]) + [e] == [s, x, y, z, w, e]
    ensures [s] + ([x] + ([y] + [z, w])) + [e] == [s, x, y, z, w, e]
  {
  }

  /** One round of the loop on a known cycle: `iter_cycle` yields exactly
      it, and the rest of the run follows from the updated state. */
  lemma WalkCycle(alpha: seq<nat>, beta: seq<nat>, seen: seq<bool>, d: SetDiff, seed: seq<nat>, side: Side, e: nat, c: seq<nat>)
    requires Inv(alpha, beta, seen, d) && SeedOk(seen, seed)
    requires NextWalk(seen, d, seed) == Some((side, e)) && IsCycleFrom(Perm(alpha, beta, side), e, c)
    ensures Inv(alpha, beta, Mark(seen, c), Update(d, Key(side), Elems(c)))
    ensures CycleRun(alpha, beta, seen, d, seed)
      == Then([Cycle(side, c)], CycleRun(alpha, beta, Mark(seen, c), Update(d, Key(side), Elems(c)), []))
  {
    NextWalkFresh(alpha, beta, seen, d, seed, side, e);
    CycleOfExact(Perm(alpha, beta, side), e, c);
    CycleRunStep(alpha, beta, seen, d, seed, side, e, c);
  }

  /** A component whose walk yields `events` and sees every edge is the
      whole output. */
  lemma LastComponent(alpha: seq<nat>, beta: seq<nat>, seen: seq<bool>, e: nat, events: seq<Event>, seen': seq<bool>)
    requires Inv(alpha, beta, seen, NoneMissing) && e < |seen| && !seen[e] && forall j :: 0 <= j < e ==> seen[j]
    requires CycleRun(alpha, beta, seen, NoneMissing, [e]) == Ok(Walked(seen', NoneMissing, events))
    requires false !in seen'
    ensures Components(alpha, beta, seen) == Ok([Start(e)] + events + [End(e)])
  {
    ComponentsStep(alpha, beta, seen, e);
    assert [Start(e)] + events + [End(e)] + [] == [Start(e)] + events + [End(e)];
  }

  // ---------------------------------------------------------------------
  // The state device
  // ---------------------------------------------------------------------

  /** 'COMPONENT': allowed to start the next component; 'CYCLE': allowed to
      walk the cycles of the current one. */
  datatype Mode = ComponentMode | CycleMode

  class IterCyclesState {
    const alpha: seq<nat>
    const beta: seq<nat>
    const seen: array<bool>
    var mode: Mode
    var missing: SetDiff
    var seed: seq<nat>

    ghost predicate Valid()
      reads this, seen
    {
      && Inv(alpha, beta, seen[..], missing)
      && (mode == ComponentMode ==> missing == NoneMissing)
      && (mode == CycleMode ==> SeedOk(seen[..], seed))
    }

    /** `IterCyclesState(permpair)`: nothing seen, nothing missing, no seed. */
    constructor (alpha: seq<nat>, beta: seq<nat>)
      requires PairOk(alpha, beta)
      ensures Valid() && fresh(seen)
      ensures this.alpha == alpha && this.beta == beta
      ensures seen[..] == Falses(|alpha|) && mode == ComponentMode && missing == NoneMissing && seed == []
    {
      this.alpha := alpha;
      this.beta := beta;
      seen := new bool[|alpha|](_ => false);
      mode := ComponentMode;
      missing := NoneMissing;
      seed := [];
      new;
      assert seen[..] == Falses(|alpha|);
      InitialInv(alpha, beta);
    }

    /** One step of `iter_components()`: StateError unless in 'COMPONENT'
        mode; otherwise the lowest unseen edge becomes the seed and the mode
        'CYCLE', or, with every edge seen, the generator ends (None). */
    method NextComponent() returns (r: Result<Option<nat>>)
      requires Valid()
      modifies this
      ensures Valid() && missing == old(missing)
      ensures old(mode) == CycleMode ==> r == Err(StateError) && mode == CycleMode && seed == old(seed)
      ensures old(mode) == ComponentMode && false in seen[..] ==>
        r == Ok(Some(IndexOf(seen[..], false))) && seed == [IndexOf(seen[..], false)] && mode == CycleMode
      ensures old(mode) == ComponentMode && false !in seen[..] ==>
        r == Ok(None) && mode == ComponentMode && seed == old(seed)
    {
      if mode != ComponentMode {
        return Err(StateError);
      }
      var edge := FindFalse(seen, 0);
      if edge == -1 {
        return Ok(None);
      }
      assert seen[..][edge] == false;
      assert IndexOf(seen[..], false) == edge;
      seed := [edge];
      mode := CycleMode;
      return Ok(Some(edge));
    }

    /** `get_key_cycle(key, edge)`: walk the cycle of alpha (key 'a') or
        beta (key 'b') through `edge`, marking it seen, and record it in
        `missing` with `update(1 - i, set(cycle))`. */
    method GetKeyCycle(side: Side, edge: nat) returns (r: Result<Event>)
      requires PairOk(alpha, beta) && seen.Length == |alpha| && edge < |alpha|
      modifies this, seen
      ensures mode == old(mode) && seed == old(seed)
      ensures r.Ok? <==> CycleOf(Perm(alpha, beta, side), edge).Ok?
      ensures r.Ok? ==> r.value == Cycle(side, CycleOf(Perm(alpha, beta, side), edge).value)
      ensures r.Ok? ==> seen[..] == Mark(old(seen[..]), r.value.cycle)
      ensures r.Ok? ==> missing == Update(old(missing), Key(side), Elems(r.value.cycle))
      ensures r.Err? ==> r.error == ValueError && missing == old(missing)
      ensures r.Err? ==> forall i :: 0 <= i < seen.Length ==>
        seen[i] == (old(seen[i]) || i in Trail(Perm(alpha, beta, side), edge))
    {
      var perm := if side == A then alpha else beta;
      var cycle := IterSeenCycle(seen, perm, edge);
      if cycle.Err? {
        return Err(cycle.error);
      }
      assert seen[..] == Mark(old(seen[..]), cycle.value);
      var i := if side == A then 0 else 1;
      missing := Update(missing, 1 - i, Elems(cycle.value));
      return Ok(Cycle(side, cycle.value));
    }

    /** One round of the `while True` loop of `iter_cycles()`: walk from
        the seed, else from the least edge waiting for an alpha-cycle, else
        from the least edge waiting for a beta-cycle (clearing the seed once
        used); None is the `break` when nothing waits. */
    method Round() returns (r: Option<Result<Event>>)
      requires Inv(alpha, beta, seen[..], missing) && SeedOk(seen[..], seed)
      modifies this, seen
      ensures mode == old(mode)
      ensures r.None? <==> NextWalk(old(seen[..]), old(missing), old(seed)).None?
      ensures r.None? ==> seen[..] == old(seen[..]) && missing == old(missing) && seed == old(seed)
      ensures r.Some? && r.value.Err? ==>
        r.value.error == ValueError && CycleRun(alpha, beta, old(seen[..]), old(missing), old(seed)) == Err(ValueError)
      ensures r.Some? && r.value.Err? ==>
        && missing == old(missing) && seed == old(seed)
        && CycleRunHalt(alpha, beta, old(seen[..]), old(missing), old(seed)) == Some(Halted(seen[..], missing, seed))
      ensures r.Some? && r.value.Ok? ==>
        && Inv(alpha, beta, seen[..], missing) && seed == [] && SeedOk(seen[..], seed)
        && Potential(seen[..], missing) < Potential(old(seen[..]), old(missing))
        && CycleRun(alpha, beta, old(seen[..]), old(missing), old(seed))
             == Then([r.value.value], CycleRun(alpha, beta, seen[..], missing, seed))
        && CycleRunHalt(alpha, beta, old(seen[..]), old(missing), old(seed))
             == CycleRunHalt(alpha, beta, seen[..], missing, seed)
    {
      var side: Side;
      var e: nat;
      if seed != [] {
        side, e := A, seed[0];
      } else if missing.side0 != {} {
        side, e := A, SetMin(missing.side0);
      } else if missing.side1 != {} {
        side, e := B, SetMin(missing.side1);
      } else {
        return None;
      }
      assert NextWalk(seen[..], missing, seed) == Some((side, e));
      ghost var before := seen[..];
      ghost var d := missing;
      CycleRunFails(alpha, beta, before, d, seed, side, e);
      var ev := GetKeyCycle(side, e);
      if ev.Err? {
        RoundFails(alpha, beta, before, seen[..], d, seed, side, e);
        return Some(Err(ev.error));
      }
      var c := ev.value.cycle;
      RoundReturns(alpha, beta, before, d, seed, side, e, c);
      seed := [];
      return Some(Ok(ev.value));
    }

    /** `iter_cycles()`: StateError unless in 'CYCLE' mode; otherwise walk
        the component's cycles as `CycleRun` describes and return to
        'COMPONENT' mode. */
    method IterCycles() returns (r: Result<seq<Event>>)
      requires Valid()
      modifies this, seen
      ensures old(mode) == ComponentMode ==>
        r == Err(StateError) && mode == ComponentMode && missing == old(missing) && seed == old(seed)
        && seen[..] == old(seen[..])
      ensures old(mode) == CycleMode && CycleRun(alpha, beta, old(seen[..]), old(missing), old(seed)).Err? ==>
        r == Err(ValueError) && mode == CycleMode
        && CycleRunHalt(alpha, beta, old(seen[..]), old(missing), old(seed)) == Some(Halted(seen[..], missing, seed))
      ensures old(mode) == CycleMode && CycleRun(alpha, beta, old(seen[..]), old(missing), old(seed)).Ok? ==>
        var w := CycleRun(alpha, beta, old(seen[..]), old(missing), old(seed)).value;
        r == Ok(w.events) && seen[..] == w.seen && missing == w.missing && seed == [] && mode == ComponentMode
        && Valid()
    {
      if mode != CycleMode {
        return Err(StateError);
      }
      ghost var start := CycleRun(alpha, beta, seen[..], missing, seed);
      ThenNothing(start);
      ghost var halt := CycleRunHalt(alpha, beta, seen[..], missing, seed);
      ghost var seen0, missing0, seed0 := seen[..], missing, seed;
      var events: seq<Event> := [];
      while true
        invariant Inv(alpha, beta, seen[..], missing) && SeedOk(seen[..], seed) && mode == CycleMode
        invariant start == Then(events, CycleRun(alpha, beta, seen[..], missing, seed))
        invariant halt == CycleRunHalt(alpha, beta, seen[..], missing, seed)
        decreases Potential(seen[..], missing)
      {
        var step := Round();
        if step.None? {
          break;
        }
        if step.value.Err? {
          return Err(step.value.error);
        }
        ThenThen(events, step.value.value, CycleRun(alpha, beta, seen[..], missing, seed));
        events := events + [step.value.value];
        assert start == Then(events, CycleRun(alpha, beta, seen[..], missing, seed));
        assert halt == CycleRunHalt(alpha, beta, seen[..], missing, seed);
      }
      RunFinished(alpha, beta, seen0, missing0, seed0, seen[..], missing, seed, events);
      mode := ComponentMode;
      return Ok(events);
    }
  }

  /** `iter_component_cycles(permpair)`. */
  method IterComponentCycles(alpha: seq<nat>, beta: seq<nat>) returns (r: Result<seq<Event>>)
    requires PairOk(alpha, beta)
    ensures r == ComponentCycles(alpha, beta)
  {
    var state := new IterCyclesState(alpha, beta);
    var events: seq<Event> := [];
    ThenEventsNothing(ComponentCycles(alpha, beta));
    while true
      invariant fresh(state) && fresh(state.seen)
      invariant state.Valid() && state.mode == ComponentMode && state.alpha == alpha && state.beta == beta
      invariant ComponentCycles(alpha, beta) == ThenEvents(events, Components(alpha, beta, state.seen[..]))
      decreases |Unseen(state.seen[..])|
    {
      ghost var before := state.seen[..];
      var next := state.NextComponent();
      if next.value.None? {
        assert events + [] == events;
        return Ok(events);
      }
      var edge := next.value.value;
      ComponentsStep(alpha, beta, before, edge);
      ghost var run := CycleRun(alpha, beta, before, NoneMissing, [edge]);
      var cycles := state.IterCycles();
      if cycles.Err? {
        assert run.Err?;
        return Err(cycles.error);
      }
      ghost var w := run.value;
      CycleRunEnds(alpha, beta, before, NoneMissing, [edge]);
      UnseenShrinks(before, w.seen, edge);
      assert state.seen[..] == w.seen && cycles.value == w.events;
      ThenEventsThen(events, [Start(edge)] + w.events + [End(edge)], Components(alpha, beta, w.seen));
      events := events + ([Start(edge)] + cycles.value + [End(edge)]);
    }
  }

  /** The first event of a run that begins with a known step. */
  lemma ThenHead(ev: Event, rest: Result<Walked>, w: Walked)
    requires Then([ev], rest) == Ok(w) && w.events != []
    ensures ev == w.events[0]
  {
  }

  /** On a single edge fixed by both maps, the run from that edge starts
      with its alpha fixed point. */
  lemma OneEdgeRun(alpha: seq<nat>, beta: seq<nat>, seen: seq<bool>, e: nat)
    requires e == 0 && |alpha| == 1 && alpha[0] == e && |beta| == 1 && beta[0] == e
    requires |seen| == 1 && !seen[e]
    ensures CycleRun(alpha, beta, seen, NoneMissing, [e]).Ok?
    ensures CycleRun(alpha, beta, seen, NoneMissing, [e]).value.events != []
    ensures CycleRun(alpha, beta, seen, NoneMissing, [e]).value.events[0] == Cycle(A, [e])
  {
    OneEdgeInv(alpha, beta, seen, e);
    TwoCycleRun(alpha, beta, seen, e, [e], [e]);
  }

  /** The one-edge pair fixed by both maps, nothing seen: the loop invariant
      holds and [e] is the cycle of each map through e. */
  lemma OneEdgeInv(alpha: seq<nat>, beta: seq<nat>, seen: seq<bool>, e: nat)
    requires e == 0 && |alpha| == 1 && alpha[0] == e && |beta| == 1 && beta[0] == e
    requires |seen| == 1 && !seen[e]
    ensures Inv(alpha, beta, seen, NoneMissing) && SeedOk(seen, [e])
    ensures IsCycleFrom(alpha, e, [e]) && IsCycleFrom(beta, e, [e])
    ensures forall x :: x in Elems([e]) ==> e <= x
  {
    assert SeenSet(seen) == {} by {
      forall i: nat | i < |seen|
        ensures !seen[i]
      {
        assert i == e;
      }
    }
    assert Covered(seen, NoneMissing, A) == {} && Covered(seen, NoneMissing, B) == {};
    assert IsEndo(alpha) && IsEndo(beta);
  }

  /** The doctest of `IterCyclesState` on `range(0)` and `range(1)`, and the
      state exceptions: `iter_cycles()` before a component is chosen, and
      `iter_components()` again while a component's cycles are pending. */
  method IterCyclesStateDoctest()
    returns (empty: Result<Option<nat>>, early: Result<seq<Event>>, first: Result<Option<nat>>,
             cycle: Option<Result<Event>>, again: Result<Option<nat>>)
    ensures empty == Ok(None) && early == Err(StateError)
    ensures first == Ok(Some(0)) && cycle == Some(Ok(Cycle(A, [0]))) && again == Err(StateError)
  {
    var none := new IterCyclesState([], []);
    empty := none.NextComponent();
    var one := new IterCyclesState([0], [0]);
    early := one.IterCycles();
    first := one.NextComponent();
    OneEdgeRun(one.alpha, one.beta, one.seen[..], 0);
    ghost var run := CycleRun(one.alpha, one.beta, one.seen[..], one.missing, one.seed);
    cycle := one.Round();
    ThenHead(cycle.value.value, CycleRun(one.alpha, one.beta, one.seen[..], one.missing, one.seed), run.value);
    again := one.NextComponent();
  }
}
