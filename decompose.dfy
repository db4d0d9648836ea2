/** The draft decomposer `iter_decompose`: per round, the alpha-cycle from
    the lowest unseen edge and one beta-cycle from the least edge of that
    alpha-cycle, bracketed by ('S', i) and ('E', i) with a round counter i. */
module Decompose {
  import opened Basics
  import PermTools
  import PermPairTools

  // ---------------------------------------------------------------------
  // iter_cycle without a step bound
  // ---------------------------------------------------------------------

  /** `iter_cycle(perm, v)`: yield v, perm[v], ... until the walk is back at
      v. Only a permutation guarantees that it comes back. */
  method IterCycle(perm: seq<nat>, v: nat) returns (c: seq<nat>)
    requires IsPermutation(perm) && v < |perm|
    ensures PermTools.CycleOf(perm, v) == Ok(c)
    ensures PermTools.IsCycleFrom(perm, v, c)
  {
    PermTools.PermReturns(perm, v);
    ghost var t := PermTools.ReturnTime(perm, v, 1);
    c := [];
    var curr := v;
    while true
      invariant curr == PermTools.Pow(perm, v, |c|)
      invariant c == PermTools.Orbit(perm, v, |c|)
      invariant |c| < t <= |perm|
      decreases t - |c|
    {
      c := c + [curr];
      curr := perm[curr];
      assert c == PermTools.Orbit(perm, v, |c|);
      assert curr == PermTools.Pow(perm, v, |c|);
      if curr == v {
        assert t == |c|;
        return;
      }
    }
  }

  /** `for tmp in cycle: seen[tmp] = True`. */
  method MarkCycle(seen: array<bool>, c: seq<nat>)
    requires forall i :: 0 <= i < |c| ==> c[i] < seen.Length
    modifies seen
    ensures seen[..] == PermPairTools.Mark(old(seen[..]), c)
  {
    ghost var before := seen[..];
    for j := 0 to |c|
      invariant forall k :: 0 <= k < seen.Length ==> seen[k] == (before[k] || k in c[..j])
    {
      seen[c[j]] := true;
      assert c[..j + 1] == c[..j] + [c[j]];
    }
    assert c[..|c|] == c;
  }

  // ---------------------------------------------------------------------
  // What a run yields
  // ---------------------------------------------------------------------

  /** The two cycles of one round. */
  datatype Piece = Piece(a: seq<nat>, b: seq<nat>)

  predicate PairPerms(alpha: seq<nat>, beta: seq<nat>) {
    IsPermutation(alpha) && IsPermutation(beta) && |alpha| == |beta|
  }

  /** The alpha-cycle from the lowest unseen edge: `tuple(iter_cycle(alpha, n))`. */
  function AlphaPiece(alpha: seq<nat>, seen: seq<bool>): (c: seq<nat>)
    requires IsPermutation(alpha) && |seen| == |alpha| && false in seen
    ensures |c| >= 1 && c[0] == IndexOf(seen, false) && forall i :: 0 <= i < |c| ==> c[i] < |alpha|
  {
    PermTools.PermReturns(alpha, IndexOf(seen, false));
    PermTools.CycleOf(alpha, IndexOf(seen, false)).value
  }

  /** `min(a_support - b_support)` right after the alpha-cycle `ca`: the
      least edge of `ca`. */
  function MinOf(ca: seq<nat>): (m: nat)
    requires ca != []
    ensures m in ca && forall i :: 0 <= i < |ca| ==> m <= ca[i]
  {
    assert ca[0] in Elems(ca);
    assert forall i :: 0 <= i < |ca| ==> ca[i] in Elems(ca);
    SetMin(Elems(ca))
  }

  /** The beta-cycle of a round, from the least edge of its alpha-cycle. */
  function BetaPiece(beta: seq<nat>, ca: seq<nat>): (c: seq<nat>)
    requires IsPermutation(beta) && ca != [] && forall i :: 0 <= i < |ca| ==> ca[i] < |beta|
    ensures |c| >= 1 && forall i :: 0 <= i < |c| ==> c[i] < |beta|
  {
    PermTools.PermReturns(beta, MinOf(ca));
    PermTools.CycleOf(beta, MinOf(ca)).value
  }

  /** The two cycles of a round are cycles of alpha and beta: the alpha-cycle
      through the lowest unseen edge, the beta-cycle through the least edge
      of that alpha-cycle. */
  lemma PieceCycles(alpha: seq<nat>, beta: seq<nat>, seen: seq<bool>)
    requires PairPerms(alpha, beta) && |seen| == |alpha| && false in seen
    ensures PermTools.IsCycleFrom(alpha, IndexOf(seen, false), AlphaPiece(alpha, seen))
    ensures PermTools.IsCycleFrom(beta, MinOf(AlphaPiece(alpha, seen)), BetaPiece(beta, AlphaPiece(alpha, seen)))
  {
    PermTools.PermReturns(alpha, IndexOf(seen, false));
    PermTools.PermReturns(beta, MinOf(AlphaPiece(alpha, seen)));
  }

  /** The rounds that remain once `seen` marks what earlier rounds walked. */
  function Pieces(alpha: seq<nat>, beta: seq<nat>, seen: seq<bool>): seq<Piece>
    requires PairPerms(alpha, beta) && |seen| == |alpha|
    decreases |PermPairTools.Unseen(seen)|
  {
    if false !in seen then []
    else
      var ca := AlphaPiece(alpha, seen);
      var cb := BetaPiece(beta, ca);
      var seen' := After(alpha, beta, seen);
      PermPairTools.UnseenShrinks(seen, seen', IndexOf(seen, false));
      [Piece(ca, cb)] + Pieces(alpha, beta, seen')
  }

  /** The events of the rounds `ps`, numbered from `i`. */
  function Emit(ps: seq<Piece>, i: nat): seq<Event> {
    if ps == [] then []
    else [Start(i), Cycle(A, ps[0].a), Cycle(B, ps[0].b), End(i)] + Emit(ps[1..], i + 1)
  }

  /** One round of `Pieces` and `Emit` unfolded. */
  lemma RoundEmit(alpha: seq<nat>, beta: seq<nat>, seen: seq<bool>, i: nat)
    requires PairPerms(alpha, beta) && |seen| == |alpha| && false in seen
    ensures Emit(Pieces(alpha, beta, seen), i)
      == [Start(i), Cycle(A, AlphaPiece(alpha, seen)), Cycle(B, BetaPiece(beta, AlphaPiece(alpha, seen))), End(i)]
         + Emit(Pieces(alpha, beta, After(alpha, beta, seen)), i + 1)
  {
  }

  /** `seen` after a round has marked both its cycles. */
  function After(alpha: seq<nat>, beta: seq<nat>, seen: seq<bool>): (r: seq<bool>)
    requires PairPerms(alpha, beta) && |seen| == |alpha| && false in seen
    ensures |r| == |seen|
  {
    var ca := AlphaPiece(alpha, seen);
    PermPairTools.Mark(PermPairTools.Mark(seen, ca), BetaPiece(beta, ca))
  }

  lemma Regroup(events: seq<Event>, block: seq<Event>, rest: seq<Event>)
    ensures events + (block + rest) == (events + block) + rest
  {
  }

  /** `tuple(iter_decompose(alpha, beta))`: AssertionError when the lengths
      differ. */
  function Decomposition(alpha: seq<nat>, beta: seq<nat>): Result<seq<Event>>
    requires IsPermutation(alpha) && IsPermutation(beta)
  {
    if |alpha| != |beta| then Err(AssertionError)
    else Ok(Emit(Pieces(alpha, beta, PermPairTools.Falses(|alpha|)), 0))
  }

  // ---------------------------------------------------------------------
  // iter_decompose
  // ---------------------------------------------------------------------

  /** The body of the `for i` loop of `iter_decompose` once `n` is the
      lowest unseen edge: the events of round i, marking both cycles seen. */
  method Round(alpha: seq<nat>, beta: seq<nat>, seen: array<bool>, n: nat, i: nat) returns (block: seq<Event>)
    requires PairPerms(alpha, beta) && seen.Length == |alpha|
    requires n < seen.Length && !seen[n] && forall j :: 0 <= j < n ==> seen[j]
    modifies seen
    ensures RoundDone(alpha, beta, old(seen[..]), seen[..], i, block)
  {
    ghost var before := seen[..];
    assert IndexOf(before, false) == n by {
      assert before[n] == false;
    }
    block := [Start(i)];
    ghost var cbG: seq<nat> := [];
    var aSupport: set<nat> := {};
    var bSupport: set<nat> := {};
    var ca := IterCycle(alpha, n);
    assert ca == AlphaPiece(alpha, before);
    block := block + [Cycle(A, ca)];
    MarkCycle(seen, ca);
    aSupport := aSupport + Elems(ca);
    var bMissing := aSupport - bSupport;
    assert bMissing == Elems(ca);
    if bMissing != {} {
      var b := SetMin(bMissing);
      var cb := IterCycle(beta, b);
      assert cb == BetaPiece(beta, ca);
      block := block + [Cycle(B, cb)];
      cbG := cb;
      MarkCycle(seen, cb);
      bSupport := bSupport + Elems(cb);
    }
    block := block + [End(i)];
    assert false in before;
    assert seen[..] == After(alpha, beta, before);
    assert cbG == BetaPiece(beta, ca);
    Block4(Start(i), Cycle(A, ca), Cycle(B, cbG), End(i));
  }

  /** `iter_decompose(alpha, beta)`: at most len(alpha) rounds, each ending
      early when every edge is seen. */
  method IterDecompose(alpha: seq<nat>, beta: seq<nat>) returns (r: Result<seq<Event>>)
    requires IsPermutation(alpha) && IsPermutation(beta)
    ensures r == Decomposition(alpha, beta)
  {
    if |alpha| != |beta| {
      return Err(AssertionError);
    }
    var seen := new bool[|alpha|](_ => false);
    assert seen[..] == PermPairTools.Falses(|alpha|);
    var events := Rounds(alpha, beta, seen);
    return Ok(events);
  }

  /** The `for i` loop of `iter_decompose` on a `seen` with nothing marked:
      the events of every round, in order. */
  method Rounds(alpha: seq<nat>, beta: seq<nat>, seen: array<bool>) returns (events: seq<Event>)
    requires PairPerms(alpha, beta) && seen.Length == |alpha| && seen[..] == PermPairTools.Falses(|alpha|)
    modifies seen
    ensures events == Emit(Pieces(alpha, beta, PermPairTools.Falses(|alpha|)), 0)
  {
    ghost var all := Emit(Pieces(alpha, beta, seen[..]), 0);
    UnseenBound(seen[..]);
    events := [];
    for i := 0 to |alpha|
      invariant seen.Length == |alpha| && Accounted(alpha, beta, all, events, seen[..], i)
    {
      var n := PermTools.FindFalse(seen, 0);
      if n == -1 {
        NoneUnseen(seen);
        Finished(alpha, beta, all, events, seen[..], i);
        return;
      }
      ghost var before := seen[..];
      var block := Round(alpha, beta, seen, n, i);
      RoundStep(alpha, beta, before, seen[..], i, events, block, all);
      events := events + block;
      assert seen.Length == |alpha| && Accounted(alpha, beta, all, events, seen[..], i + 1);
    }
    Finished(alpha, beta, all, events, seen[..], |alpha|);
  }

  /** What round i hands on: `block` is its events and `after` the marks
      once both of its cycles are walked. */
  predicate RoundDone(alpha: seq<nat>, beta: seq<nat>, before: seq<bool>, after: seq<bool>, i: nat, block: seq<Event>) {
    && PairPerms(alpha, beta) && |before| == |alpha| && false in before
    && after == After(alpha, beta, before)
    && block == [Start(i), Cycle(A, AlphaPiece(alpha, before)),
                 Cycle(B, BetaPiece(beta, AlphaPiece(alpha, before))), End(i)]
  }

  /** The loop invariant of `IterDecompose`: the events so far and the
      rounds still to come make up the whole output, and each round has
      marked at least one new edge. */
  predicate Accounted(alpha: seq<nat>, beta: seq<nat>, all: seq<Event>, events: seq<Event>, seen: seq<bool>, i: nat) {
    && PairPerms(alpha, beta) && |seen| == |alpha|
    && all == events + Emit(Pieces(alpha, beta, seen), i)
    && |PermPairTools.Unseen(seen)| <= |alpha| - i
  }

  /** The loop invariant of `IterDecompose` carried over one round. */
  lemma RoundStep(alpha: seq<nat>, beta: seq<nat>, cur: seq<bool>, next: seq<bool>, i: nat,
                  events: seq<Event>, block: seq<Event>, all: seq<Event>)
    requires RoundDone(alpha, beta, cur, next, i, block) && Accounted(alpha, beta, all, events, cur, i)
    ensures Accounted(alpha, beta, all, events + block, next, i + 1)
  {
    var n := IndexOf(cur, false);
    PermPairTools.UnseenShrinks(cur, next, n);
    RoundEmit(alpha, beta, cur, i);
    Regroup(events, block, Emit(Pieces(alpha, beta, next), i + 1));
  }

  /** The loop ends, by `return` or after len(alpha) rounds, with every
      edge seen and so every round emitted. */
  lemma Finished(alpha: seq<nat>, beta: seq<nat>, all: seq<Event>, events: seq<Event>, seen: seq<bool>, i: nat)
    requires Accounted(alpha, beta, all, events, seen, i) && (false !in seen || i >= |alpha|)
    ensures all == events
  {
    UnseenEmpty(seen);
    assert events + [] == events;
  }

  lemma UnseenBound(seen: seq<bool>)
    ensures |PermPairTools.Unseen(seen)| <= |seen|
  {
    assert PermPairTools.Unseen(seen) <= RangeSet(|seen|);
    SubsetCard(PermPairTools.Unseen(seen), RangeSet(|seen|));
    RangeSetCard(|seen|);
  }

  lemma NoneUnseen(seen: array<bool>)
    requires forall j :: 0 <= j < seen.Length ==> seen[j]
    ensures false !in seen[..]
  {
  }

  lemma UnseenEmpty(seen: seq<bool>)
    ensures false in seen <==> PermPairTools.Unseen(seen) != {}
  {
    if false in seen {
      assert IndexOf(seen, false) in PermPairTools.Unseen(seen);
    }
  }

  lemma Block4(s: Event, x: Event, y: Event, e: Event)
    ensures [s] + [x] + [y] + [e] == [s, x, y, e]
  {
  }

  // ---------------------------------------------------------------------
  // What the rounds are
  // ---------------------------------------------------------------------

  /** The alpha-cycles of the rounds `ps`, in order. */
  function Alphas(ps: seq<Piece>): (r: seq<seq<nat>>)
    ensures |r| == |ps| && forall k :: 0 <= k < |ps| ==> r[k] == ps[k].a
  {
    if ps == [] then [] else [ps[0].a] + Alphas(ps[1..])
  }

  /** The beta-cycles of the rounds `ps`, in order. */
  function Betas(ps: seq<Piece>): (r: seq<seq<nat>>)
    ensures |r| == |ps| && forall k :: 0 <= k < |ps| ==> r[k] == ps[k].b
  {
    if ps == [] then [] else [ps[0].b] + Betas(ps[1..])
  }

  /** The first edge of each of `cs`. */
  function Heads(cs: seq<seq<nat>>): (r: seq<nat>)
    requires forall k :: 0 <= k < |cs| ==> cs[k] != []
    ensures |r| == |cs| && forall k :: 0 <= k < |cs| ==> r[k] == cs[k][0]
  {
    if cs == [] then [] else [cs[0][0]] + Heads(cs[1..])
  }

  lemma AlphasNonEmpty(alpha: seq<nat>, beta: seq<nat>, seen: seq<bool>)
    requires PairPerms(alpha, beta) && |seen| == |alpha|
    ensures forall k :: 0 <= k < |Alphas(Pieces(alpha, beta, seen))| ==> Alphas(Pieces(alpha, beta, seen))[k] != []
  {
    PiecesRounds(alpha, beta, seen);
  }

  lemma HeadsCons(c: seq<nat>, cs: seq<seq<nat>>)
    requires c != [] && forall k :: 0 <= k < |cs| ==> cs[k] != []
    ensures Heads([c] + cs) == [c[0]] + Heads(cs)
  {
    assert ([c] + cs)[1..] == cs;
  }

  /** i, i+1, ..., i+k-1: the round counters of k rounds from i. */
  function Counter(i: nat, k: nat): (r: seq<nat>)
    ensures |r| == k && forall j :: 0 <= j < k ==> r[j] == i + j
    decreases k
  {
    if k == 0 then [] else [i] + Counter(i + 1, k - 1)
  }

  /** Each round's cycles: a cycle of alpha, and the cycle of beta through
      the least edge of that alpha-cycle. */
  predicate RoundCycles(alpha: seq<nat>, beta: seq<nat>, ps: seq<Piece>) {
    forall k :: 0 <= k < |ps| ==>
      PermTools.IsCycle(alpha, ps[k].a) && PermTools.IsCycleFrom(beta, MinOf(ps[k].a), ps[k].b)
  }

  lemma RoundCyclesCons(alpha: seq<nat>, beta: seq<nat>, p: Piece, ps: seq<Piece>)
    requires PermTools.IsCycle(alpha, p.a) && PermTools.IsCycleFrom(beta, MinOf(p.a), p.b)
    requires RoundCycles(alpha, beta, ps)
    ensures RoundCycles(alpha, beta, [p] + ps)
  {
    assert forall k :: 0 < k <= |ps| ==> ([p] + ps)[k] == ps[k - 1];
  }

  /** The facts about one round that the lemmas below build on: its alpha-cycle
      starts at the lowest unseen edge, and `After` marks exactly its two
      cycles on top of `seen`. */
  lemma RoundFacts(alpha: seq<nat>, beta: seq<nat>, seen: seq<bool>)
    requires PairPerms(alpha, beta) && |seen| == |alpha| && false in seen
    ensures var ca := AlphaPiece(alpha, seen);
      var cb := BetaPiece(beta, ca);
      var n := IndexOf(seen, false);
      && PermTools.IsCycleFrom(alpha, n, ca) && PermTools.IsCycleFrom(beta, MinOf(ca), cb)
      && (forall x :: 0 <= x < |seen| ==> After(alpha, beta, seen)[x] == (seen[x] || x in ca || x in cb))
      && n in ca
  {
    PieceCycles(alpha, beta, seen);
  }

  /** Every round walks a cycle of alpha and the beta-cycle through its least
      edge, and there are no more rounds than unseen edges (so `for i in
      range(len(alpha))` never runs out before every edge is seen). */
  lemma {:induction false} PiecesRounds(alpha: seq<nat>, beta: seq<nat>, seen: seq<bool>)
    requires PairPerms(alpha, beta) && |seen| == |alpha|
    ensures RoundCycles(alpha, beta, Pieces(alpha, beta, seen))
    ensures |Pieces(alpha, beta, seen)| <= |PermPairTools.Unseen(seen)|
    decreases |PermPairTools.Unseen(seen)|
  {
    if false in seen {
      var next := After(alpha, beta, seen);
      var ca := AlphaPiece(alpha, seen);
      RoundFacts(alpha, beta, seen);
      PermPairTools.UnseenShrinks(seen, next, IndexOf(seen, false));
      PiecesRounds(alpha, beta, next);
      RoundCyclesCons(alpha, beta, Piece(ca, BetaPiece(beta, ca)), Pieces(alpha, beta, next));
    }
  }

  /** The alpha-cycles of the rounds never share an edge with each other, nor
      with an alpha-closed set of edges seen beforehand. */
  lemma {:induction false} PiecesAlphaDisjoint(alpha: seq<nat>, beta: seq<nat>, seen: seq<bool>, done: set<nat>)
    requires PairPerms(alpha, beta) && |seen| == |alpha|
    requires Closed(alpha, done) && done <= PermPairTools.SeenSet(seen)
    ensures Distinct(Flatten(Alphas(Pieces(alpha, beta, seen))))
    ensures Elems(Flatten(Alphas(Pieces(alpha, beta, seen)))) !! done
    decreases |PermPairTools.Unseen(seen)|
  {
    if false in seen {
      var next := After(alpha, beta, seen);
      var ca := AlphaPiece(alpha, seen);
      RoundFacts(alpha, beta, seen);
      PermPairTools.UnseenShrinks(seen, next, IndexOf(seen, false));
      PermTools.CycleDisjoint(alpha, ca, done);
      PermTools.CycleClosed(alpha, ca);
      PermTools.CycleDistinct(alpha, ca);
      PermPairTools.ClosedUnion(alpha, done, Elems(ca));
      PiecesAlphaDisjoint(alpha, beta, next, done + Elems(ca));
      var rest := Flatten(Alphas(Pieces(alpha, beta, next)));
      PiecesCons(alpha, beta, seen);
      FlattenCons(ca, Alphas(Pieces(alpha, beta, next)));
      DistinctAppend(ca, rest);
    }
  }

  /** Every edge unseen before the rounds lies on one of their alpha- or
      beta-cycles. */
  lemma {:induction false} PiecesCover(alpha: seq<nat>, beta: seq<nat>, seen: seq<bool>)
    requires PairPerms(alpha, beta) && |seen| == |alpha|
    ensures PermPairTools.Unseen(seen)
      <= Elems(Flatten(Alphas(Pieces(alpha, beta, seen)))) + Elems(Flatten(Betas(Pieces(alpha, beta, seen))))
    decreases |PermPairTools.Unseen(seen)|
  {
    if false in seen {
      var next := After(alpha, beta, seen);
      var ca := AlphaPiece(alpha, seen);
      var cb := BetaPiece(beta, ca);
      RoundFacts(alpha, beta, seen);
      PermPairTools.UnseenShrinks(seen, next, IndexOf(seen, false));
      PiecesCover(alpha, beta, next);
      PiecesCons(alpha, beta, seen);
      FlattenCons(ca, Alphas(Pieces(alpha, beta, next)));
      FlattenCons(cb, Betas(Pieces(alpha, beta, next)));
      UnseenAfter(seen, next, ca, cb);
      CoverStep(PermPairTools.Unseen(seen), PermPairTools.Unseen(next), ca, cb,
        Flatten(Alphas(Pieces(alpha, beta, next))), Flatten(Betas(Pieces(alpha, beta, next))));
    }
  }

  lemma CoverStep(u: set<nat>, u': set<nat>, ca: seq<nat>, cb: seq<nat>, ra: seq<nat>, rb: seq<nat>)
    requires u <= Elems(ca) + Elems(cb) + u' && u' <= Elems(ra) + Elems(rb)
    ensures u <= Elems(ca + ra) + Elems(cb + rb)
  {
    assert Elems(ca + ra) == Elems(ca) + Elems(ra);
    assert Elems(cb + rb) == Elems(cb) + Elems(rb);
  }

  /** One round of `Pieces` split off the front of its alpha- and
      beta-cycles. */
  lemma PiecesCons(alpha: seq<nat>, beta: seq<nat>, seen: seq<bool>)
    requires PairPerms(alpha, beta) && |seen| == |alpha| && false in seen
    ensures var ca := AlphaPiece(alpha, seen);
      var next := After(alpha, beta, seen);
      && Alphas(Pieces(alpha, beta, seen)) == [ca] + Alphas(Pieces(alpha, beta, next))
      && Betas(Pieces(alpha, beta, seen)) == [BetaPiece(beta, ca)] + Betas(Pieces(alpha, beta, next))
  {
    var ps := Pieces(alpha, beta, seen);
    assert ps[1..] == Pieces(alpha, beta, After(alpha, beta, seen));
  }

  lemma UnseenAfter(seen: seq<bool>, next: seq<bool>, ca: seq<nat>, cb: seq<nat>)
    requires |next| == |seen| && forall x :: 0 <= x < |seen| ==> next[x] == (seen[x] || x in ca || x in cb)
    ensures PermPairTools.Unseen(seen) <= Elems(ca) + Elems(cb) + PermPairTools.Unseen(next)
  {
  }

  /** The rounds start at unseen edges in increasing order, the first at the
      lowest unseen edge. */
  lemma {:induction false} PiecesSeeds(alpha: seq<nat>, beta: seq<nat>, seen: seq<bool>)
    requires PairPerms(alpha, beta) && |seen| == |alpha|
    ensures forall k :: 0 <= k < |Alphas(Pieces(alpha, beta, seen))| ==> Alphas(Pieces(alpha, beta, seen))[k] != []
    ensures PermPairTools.Increasing(Heads(Alphas(Pieces(alpha, beta, seen))))
    ensures forall k :: 0 <= k < |Pieces(alpha, beta, seen)| ==>
      Heads(Alphas(Pieces(alpha, beta, seen)))[k] in PermPairTools.Unseen(seen)
    ensures false in seen ==> Pieces(alpha, beta, seen) != [] && Pieces(alpha, beta, seen)[0].a[0] == IndexOf(seen, false)
    decreases |PermPairTools.Unseen(seen)|
  {
    AlphasNonEmpty(alpha, beta, seen);
    if false in seen {
      var next := After(alpha, beta, seen);
      var n := IndexOf(seen, false);
      var ca := AlphaPiece(alpha, seen);
      RoundFacts(alpha, beta, seen);
      PermPairTools.UnseenShrinks(seen, next, n);
      PiecesSeeds(alpha, beta, next);
      PiecesCons(alpha, beta, seen);
      var tags := Heads(Alphas(Pieces(alpha, beta, next)));
      PermPairTools.TagsStep(seen, next, n, tags);
      HeadsCons(ca, Alphas(Pieces(alpha, beta, next)));
    }
  }

  // ---------------------------------------------------------------------
  // The events of the rounds
  // ---------------------------------------------------------------------

  /** Four events per round: the round counters in order on the ('S', i)
      and ('E', i) events, and the rounds' cycles on the 'a' and 'b'
      events. */
  lemma {:induction false} EmitShape(ps: seq<Piece>, i: nat)
    ensures |Emit(ps, i)| == 4 * |ps|
    ensures PermPairTools.SideCycles(Emit(ps, i), A) == Alphas(ps)
    ensures PermPairTools.SideCycles(Emit(ps, i), B) == Betas(ps)
    ensures PermPairTools.Starts(Emit(ps, i)) == Counter(i, |ps|)
    ensures PermPairTools.Ends(Emit(ps, i)) == Counter(i, |ps|)
  {
    if ps != [] {
      var block := [Start(i), Cycle(A, ps[0].a), Cycle(B, ps[0].b), End(i)];
      var rest := Emit(ps[1..], i + 1);
      EmitShape(ps[1..], i + 1);
      BlockShape(i, ps[0].a, ps[0].b);
      PermPairTools.SideCyclesAppend(block, rest, A);
      PermPairTools.SideCyclesAppend(block, rest, B);
      PermPairTools.TagsAppend(block, rest);
    }
  }

  lemma BlockShape(i: nat, a: seq<nat>, b: seq<nat>)
    ensures var block := [Start(i), Cycle(A, a), Cycle(B, b), End(i)];
      && PermPairTools.SideCycles(block, A) == [a] && PermPairTools.SideCycles(block, B) == [b]
      && PermPairTools.Starts(block) == [i] && PermPairTools.Ends(block) == [i]
  {
    var t3 := [End(i)];
    EventCons(End(i), []);
    assert [End(i)] + [] == t3;
    var t2 := [Cycle(B, b)] + t3;
    EventCons(Cycle(B, b), t3);
    var t1 := [Cycle(A, a)] + t2;
    EventCons(Cycle(A, a), t2);
    var block := [Start(i)] + t1;
    EventCons(Start(i), t1);
    assert block == [Start(i), Cycle(A, a), Cycle(B, b), End(i)];
  }

  /** What one event in front adds to each of the four projections. */
  lemma EventCons(ev: Event, rest: seq<Event>)
    ensures PermPairTools.SideCycles([ev] + rest, A)
      == (if ev.Cycle? && ev.side == A then [ev.cycle] else []) + PermPairTools.SideCycles(rest, A)
    ensures PermPairTools.SideCycles([ev] + rest, B)
      == (if ev.Cycle? && ev.side == B then [ev.cycle] else []) + PermPairTools.SideCycles(rest, B)
    ensures PermPairTools.Starts([ev] + rest) == (if ev.Start? then [ev.tag] else []) + PermPairTools.Starts(rest)
    ensures PermPairTools.Ends([ev] + rest) == (if ev.End? then [ev.tag] else []) + PermPairTools.Ends(rest)
  {
    assert ([ev] + rest)[1..] == rest;
    assert [] + PermPairTools.SideCycles(rest, A) == PermPairTools.SideCycles(rest, A);
    assert [] + PermPairTools.SideCycles(rest, B) == PermPairTools.SideCycles(rest, B);
    assert [] + PermPairTools.Starts(rest) == PermPairTools.Starts(rest);
    assert [] + PermPairTools.Ends(rest) == PermPairTools.Ends(rest);
  }

  // ---------------------------------------------------------------------
  // What iter_decompose yields
  // ---------------------------------------------------------------------

  /** On two permutations of the same edges `iter_decompose` never fails; it
      yields four events per round, the ('S', i) and ('E', i) events
      numbered 0, 1, ... in order, over at most len(alpha) rounds. */
  lemma DecompositionShape(alpha: seq<nat>, beta: seq<nat>)
    requires PairPerms(alpha, beta)
    ensures Decomposition(alpha, beta).Ok?
    ensures var evs := Decomposition(alpha, beta).value;
      var k := |PermPairTools.SideCycles(evs, A)|;
      && |evs| == 4 * k && k <= |alpha| && |PermPairTools.SideCycles(evs, B)| == k
      && PermPairTools.Starts(evs) == Range(k) && PermPairTools.Ends(evs) == Range(k)
  {
    var seen := PermPairTools.Falses(|alpha|);
    var ps := Pieces(alpha, beta, seen);
    EmitShape(ps, 0);
    PiecesRounds(alpha, beta, seen);
    UnseenBound(seen);
    assert Counter(0, |ps|) == Range(|ps|);
  }

  /** Each round yields a cycle of alpha and the cycle of beta through the
      least edge of that alpha-cycle, and no two alpha-cycles share an edge. */
  lemma DecompositionCycles(alpha: seq<nat>, beta: seq<nat>)
    requires PairPerms(alpha, beta)
    ensures var evs := Decomposition(alpha, beta).value;
      var cas, cbs := PermPairTools.SideCycles(evs, A), PermPairTools.SideCycles(evs, B);
      && |cbs| == |cas|
      && (forall k :: 0 <= k < |cas| ==>
            PermTools.IsCycle(alpha, cas[k]) && PermTools.IsCycleFrom(beta, MinOf(cas[k]), cbs[k]))
      && Distinct(Flatten(cas))
  {
    var seen := PermPairTools.Falses(|alpha|);
    var ps := Pieces(alpha, beta, seen);
    EmitShape(ps, 0);
    PiecesRounds(alpha, beta, seen);
    PiecesAlphaDisjoint(alpha, beta, seen, {});
  }

  /** Between them the yielded cycles cover every edge, and nothing else. */
  lemma DecompositionCovers(alpha: seq<nat>, beta: seq<nat>)
    requires PairPerms(alpha, beta)
    ensures var evs := Decomposition(alpha, beta).value;
      Elems(Flatten(PermPairTools.SideCycles(evs, A))) + Elems(Flatten(PermPairTools.SideCycles(evs, B)))
        == RangeSet(|alpha|)
  {
    var seen := PermPairTools.Falses(|alpha|);
    var ps := Pieces(alpha, beta, seen);
    assert Decomposition(alpha, beta).value == Emit(ps, 0);
    EmitShape(ps, 0);
    PiecesCover(alpha, beta, seen);
    PiecesRounds(alpha, beta, seen);
    assert PermPairTools.Unseen(seen) == RangeSet(|alpha|);
    PiecesBelow(alpha, beta, ps);
  }

  /** The rounds' cycles hold only edges. */
  lemma PiecesBelow(alpha: seq<nat>, beta: seq<nat>, ps: seq<Piece>)
    requires |beta| == |alpha| && RoundCycles(alpha, beta, ps)
    ensures Elems(Flatten(Alphas(ps))) <= RangeSet(|alpha|)
    ensures Elems(Flatten(Betas(ps))) <= RangeSet(|alpha|)
  {
    var cas, cbs := Alphas(ps), Betas(ps);
    forall k, i | 0 <= k < |cas| && 0 <= i < |cas[k]|
      ensures cas[k][i] < |alpha|
    {
      assert cas[k] == ps[k].a;
    }
    forall k, i | 0 <= k < |cbs| && 0 <= i < |cbs[k]|
      ensures cbs[k][i] < |alpha|
    {
      assert cbs[k] == ps[k].b;
    }
    FlattenBelow(cas, |alpha|);
    FlattenBelow(cbs, |alpha|);
  }

  /** The rounds start at edges in increasing order, the first at edge 0:
      each round is seeded by the lowest edge no earlier round has seen. */
  lemma DecompositionSeeds(alpha: seq<nat>, beta: seq<nat>)
    requires PairPerms(alpha, beta)
    ensures var cas := PermPairTools.SideCycles(Decomposition(alpha, beta).value, A);
      && (forall k :: 0 <= k < |cas| ==> cas[k] != [])
      && PermPairTools.Increasing(Heads(cas))
      && (|alpha| > 0 ==> |cas| > 0 && cas[0][0] == 0)
  {
    var seen := PermPairTools.Falses(|alpha|);
    var ps := Pieces(alpha, beta, seen);
    EmitShape(ps, 0);
    PiecesSeeds(alpha, beta, seen);
    if |alpha| > 0 {
      assert seen[0] == false;
    }
  }

  // ---------------------------------------------------------------------
  // Examples
  // ---------------------------------------------------------------------

  /** A single round takes every edge when the alpha-cycle and the
      beta-cycle from edge 0 cover all edges between them. */
  lemma OneRound(alpha: seq<nat>, beta: seq<nat>, ca: seq<nat>, cb: seq<nat>)
    requires PairPerms(alpha, beta) && |alpha| > 0
    requires PermTools.IsCycleFrom(alpha, 0, ca) && PermTools.IsCycleFrom(beta, 0, cb)
    requires forall x :: 0 <= x < |alpha| ==> x in ca || x in cb
    ensures Decomposition(alpha, beta) == Ok([Start(0), Cycle(A, ca), Cycle(B, cb), End(0)])
  {
    var seen := PermPairTools.Falses(|alpha|);
    assert seen[0] == false;
    assert IndexOf(seen, false) == 0;
    PermTools.CycleOfExact(alpha, 0, ca);
    PermTools.CycleOfExact(beta, 0, cb);
    assert MinOf(ca) == 0;
    RoundFacts(alpha, beta, seen);
    var next := After(alpha, beta, seen);
    assert false !in next;
    assert Pieces(alpha, beta, next) == [];
    assert AlphaPiece(alpha, seen) == ca && BetaPiece(beta, ca) == cb;
    RoundEmit(alpha, beta, seen, 0);
    assert Emit(Pieces(alpha, beta, next), 1) == [];
    assert Emit(Pieces(alpha, beta, seen), 0) == [Start(0), Cycle(A, ca), Cycle(B, cb), End(0)] + [];
    assert Decomposition(alpha, beta) == Ok(Emit(Pieces(alpha, beta, seen), 0));
    assert [Start(0), Cycle(A, ca), Cycle(B, cb), End(0)] + [] == [Start(0), Cycle(A, ca), Cycle(B, cb), End(0)];
  }

  /** `TID((), ())` is empty. */
  lemma EmptyDoctest()
    ensures Decomposition([], []) == Ok([])
  {
    assert PermPairTools.Falses(0) == [];
  }

  /** `TID((0,), (0,))`. */
  lemma OneEdgeDoctest(alpha: seq<nat>, beta: seq<nat>)
    requires |alpha| == 1 && alpha[0] == 0 && |beta| == 1 && beta[0] == 0
    ensures PairPerms(alpha, beta)
    ensures Decomposition(alpha, beta) == Ok([Start(0), Cycle(A, [0]), Cycle(B, [0]), End(0)])
  {
    assert PermTools.IsCycleFrom(alpha, 0, [0]);
    assert PermTools.IsCycleFrom(beta, 0, [0]);
    OneRound(alpha, beta, [0], [0]);
  }

  /** `TID((1, 0), (1, 0))`. */
  lemma SwapDoctest(alpha: seq<nat>, beta: seq<nat>)
    requires |alpha| == 2 && alpha[0] == 1 && alpha[1] == 0
    requires |beta| == 2 && beta[0] == 1 && beta[1] == 0
    ensures PairPerms(alpha, beta)
    ensures Decomposition(alpha, beta) == Ok([Start(0), Cycle(A, [0, 1]), Cycle(B, [0, 1]), End(0)])
  {
    assert PermTools.IsCycleFrom(alpha, 0, [0, 1]);
    assert PermTools.IsCycleFrom(beta, 0, [0, 1]);
    OneRound(alpha, beta, [0, 1], [0, 1]);
  }

  /** `TIC((0,), 0)`. */
  method IterCycleDoctest() returns (c: seq<nat>)
    ensures c == [0]
  {
    c := IterCycle([0], 0);
    assert c[0] == 0;
  }

  /** On alpha = (0)(1), beta = (0 1) the single round yields the alpha-cycle
      (0) and the beta-cycle (0, 1), which marks edge 1 as seen: the
      alpha-cycle (1) is never yielded. */
  lemma DraftDropsAlphaCycle(alpha: seq<nat>, beta: seq<nat>)
    requires |alpha| == 2 && alpha[0] == 0 && alpha[1] == 1
    requires |beta| == 2 && beta[0] == 1 && beta[1] == 0
    ensures PairPerms(alpha, beta)
    ensures Decomposition(alpha, beta) == Ok([Start(0), Cycle(A, [0]), Cycle(B, [0, 1]), End(0)])
    ensures PermTools.IsCycle(alpha, [1])
    ensures Cycle(A, [1]) !in Decomposition(alpha, beta).value
  {
    assert PermTools.IsCycleFrom(alpha, 0, [0]);
    assert PermTools.IsCycleFrom(beta, 0, [0, 1]);
    OneRound(alpha, beta, [0], [0, 1]);
  }

  /** The same pair under `iter_component_cycles`, which alternates until
      the component is closed: the alpha-cycle (1) is yielded. */
  lemma ComponentsKeepAlphaCycle(alpha: seq<nat>, beta: seq<nat>)
    requires |alpha| == 2 && alpha[0] == 0 && alpha[1] == 1
    requires |beta| == 2 && beta[0] == 1 && beta[1] == 0
    ensures PairOk(alpha, beta)
    ensures PermPairTools.ComponentCycles(alpha, beta)
      == Ok([Start(0), Cycle(A, [0]), Cycle(B, [0, 1]), Cycle(A, [1]), End(0)])
  {
    var cb, l := [0, 1], [1];
    assert PermTools.IsCycleFrom(beta, 0, cb);
    assert Elems(l) == Elems(cb) - {0};
    PermPairTools.BetaTransitiveComponent(alpha, beta, cb, l);
    assert PermPairTools.FixedCycles(A, l) == [Cycle(A, [1])];
    FiveBlock(Start(0), Cycle(A, [0]), Cycle(B, cb), Cycle(A, [1]), End(0));
  }

  lemma FiveBlock(s: Event, x: Event, y: Event, z: Event, e: Event)
    ensures [s] + ([x] + ([y] + [z])) + [e] == [s, x, y, z, e]
  {
  }
}
