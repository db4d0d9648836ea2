/** Shared vocabulary of the model: the error kinds the Python code raises,
    Option/Result wrappers, and facts about sequences of edge indices. */
module Basics {

  /** The exceptions the modelled code raises. `AssertionError` is the
      failing `assert` statement of the draft decomposer. */
  datatype Error = ValueError | IndexError | StateError | AssertionError

  datatype Option<T> = None | Some(value: T)

  /** A value, or the exception that Python would have raised instead. */
  datatype Result<T> = Ok(value: T) | Err(error: Error)

  /** The two permutations of a pair: 'a' is alpha, 'b' is beta. */
  datatype Side = A | B

  /** An element of a decomposition event stream: ('S', x), ('a'|'b', cycle), ('E', x). */
  datatype Event = Start(tag: nat) | Cycle(side: Side, cycle: seq<nat>) | End(tag: nat)

  predicate Distinct<T(==)>(s: seq<T>) {
    forall i, j :: 0 <= i < j < |s| ==> s[i] != s[j]
  }

  /** Every entry of `s` is an index below `n`. */
  predicate InRange(s: seq<nat>, n: nat) {
    forall i :: 0 <= i < |s| ==> s[i] < n
  }

  /** `p` maps {0, ..., |p|-1} into itself: indexing `p` by its own values never fails. */
  predicate IsEndo(p: seq<nat>) {
    InRange(p, |p|)
  }

  /** `p` is a rearrangement of 0, ..., |p|-1. */
  predicate IsPermutation(p: seq<nat>) {
    IsEndo(p) && Distinct(p)
  }

  /** The data of a dessin as the modelled code indexes it: two maps on the same edges. */
  predicate PairOk(alpha: seq<nat>, beta: seq<nat>) {
    |alpha| == |beta| && IsEndo(alpha) && IsEndo(beta)
  }

  function Range(n: nat): (r: seq<nat>)
    ensures |r| == n && forall i :: 0 <= i < n ==> r[i] == i
  {
    seq(n, i requires 0 <= i => i)
  }

  /** The edge set {0, ..., n-1}. */
  function RangeSet(n: nat): (r: set<nat>)
    ensures forall i: nat :: i in r <==> i < n
  {
    if n == 0 then {} else RangeSet(n - 1) + {n - 1}
  }

  function Elems<T>(s: seq<T>): set<T> {
    set x | x in s
  }

  /** A set of edges closed under the map `p`. */
  predicate Closed(p: seq<nat>, s: set<nat>) {
    forall x :: x in s ==> x < |p| && p[x] in s
  }

  function Flatten<T>(ss: seq<seq<T>>): seq<T> {
    if ss == [] then [] else ss[0] + Flatten(ss[1..])
  }

  function Last<T>(s: seq<T>): T
    requires s != []
  {
    s[|s| - 1]
  }

  /** The position of the first occurrence of `x` in `s`. */
  function IndexOf<T(==)>(s: seq<T>, x: T): (r: nat)
    requires x in s
    ensures r < |s| && s[r] == x && forall j :: 0 <= j < r ==> s[j] != x
  {
    if s[0] == x then 0 else 1 + IndexOf(s[1..], x)
  }

  /** The least element of a non-empty set (Python's `min` on a set). */
  function SetMin(s: set<nat>): (m: nat)
    requires s != {}
    ensures m in s && forall y :: y in s ==> m <= y
  {
    SetMinExists(s);
    var m :| m in s && forall y :: y in s ==> m <= y;
    m
  }

  lemma SetMinExists(s: set<nat>)
    requires s != {}
    ensures exists m :: m in s && forall y :: y in s ==> m <= y
  {
    var x :| x in s;
    SetMinBelow(s, x);
  }

  lemma {:induction false} SetMinBelow(s: set<nat>, x: nat)
    requires x in s
    ensures exists m :: m in s && forall y :: y in s ==> m <= y
    decreases x
  {
    if !forall y :: y in s ==> x <= y {
      var y :| y in s && y < x;
      SetMinBelow(s, y);
    }
  }

  lemma {:induction false} RangeSetCard(n: nat)
    ensures |RangeSet(n)| == n
  {
    if n == 0 {
      assert RangeSet(0) == {};
    } else {
      RangeSetCard(n - 1);
      assert n - 1 !in RangeSet(n - 1);
    }
  }

  lemma {:induction false} DistinctCard<T>(s: seq<T>)
    requires Distinct(s)
    ensures |Elems(s)| == |s|
  {
    if s == [] {
      assert Elems(s) == {};
    } else {
      var t := s[..|s| - 1];
      assert Distinct(t);
      DistinctCard(t);
      assert Elems(s) == Elems(t) + {s[|s| - 1]};
      assert s[|s| - 1] !in Elems(t);
    }
  }

  /** Pigeonhole: distinct indices below `n` are at most `n` many. */
  lemma DistinctBound(s: seq<nat>, n: nat)
    requires Distinct(s) && InRange(s, n)
    ensures |s| <= n
  {
    DistinctCard(s);
    RangeSetCard(n);
    assert Elems(s) <= RangeSet(n);
    SubsetCard(Elems(s), RangeSet(n));
  }

  lemma SubsetCard<T>(a: set<T>, b: set<T>)
    requires a <= b
    ensures |a| <= |b|
    ensures |a| == |b| ==> a == b
  {
    assert b == a + (b - a);
    assert a !! (b - a);
    if |a| == |b| {
      assert |b - a| == 0;
    }
  }

  /** Distinct indices below `n`, `n` of them, are all of 0, ..., n-1. */
  lemma FullCover(s: seq<nat>, n: nat)
    requires Distinct(s) && InRange(s, n) && |s| == n
    ensures Elems(s) == RangeSet(n)
  {
    DistinctCard(s);
    RangeSetCard(n);
    assert Elems(s) <= RangeSet(n);
    SubsetCard(Elems(s), RangeSet(n));
  }

  lemma DistinctAppend<T>(s: seq<T>, t: seq<T>)
    requires Distinct(s) && Distinct(t) && Elems(s) !! Elems(t)
    ensures Distinct(s + t)
  {
    forall i, j | 0 <= i < j < |s + t|
      ensures (s + t)[i] != (s + t)[j]
    {
      if j >= |s| && i < |s| {
        assert (s + t)[i] in Elems(s);
        assert (s + t)[j] in Elems(t);
      }
    }
  }

  lemma {:induction false} FlattenAppend<T>(ss: seq<seq<T>>, c: seq<T>)
    ensures Flatten(ss + [c]) == Flatten(ss) + c
  {
    if ss == [] {
      assert [] + [c] == [c];
      assert Flatten([c]) == c + Flatten([c][1..]);
    } else {
      assert (ss + [c])[1..] == ss[1..] + [c];
      FlattenAppend(ss[1..], c);
    }
  }

  lemma {:induction false} FlattenMember<T>(ss: seq<seq<T>>, k: nat, j: nat)
    requires k < |ss| && j < |ss[k]|
    ensures ss[k][j] in Flatten(ss)
  {
    if k > 0 {
      FlattenMember(ss[1..], k - 1, j);
    }
  }

  lemma {:induction false} FlattenLength<T>(ss: seq<seq<T>>)
    ensures |Flatten(ss)| == TotalLength(ss)
  {
    if ss != [] {
      FlattenLength(ss[1..]);
    }
  }

  /** `sum(map(len, ss))`. */
  function TotalLength<T>(ss: seq<seq<T>>): nat {
    if ss == [] then 0 else |ss[0]| + TotalLength(ss[1..])
  }

  lemma {:induction false} IndexOfPrefix<T>(s: seq<T>, t: seq<T>, x: T)
    requires x in s
    ensures x in s + t && IndexOf(s + t, x) == IndexOf(s, x)
  {
    if s[0] != x {
      assert (s + t)[1..] == s[1..] + t;
      IndexOfPrefix(s[1..], t, x);
    }
  }

  /** Every entry of a flattened sequence comes from one of its pieces. */
  lemma {:induction false} FlattenMemberInv<T>(ss: seq<seq<T>>, x: T)
    requires x in Flatten(ss)
    ensures exists k, j :: 0 <= k < |ss| && 0 <= j < |ss[k]| && ss[k][j] == x
  {
    if x in ss[0] {
      var j :| 0 <= j < |ss[0]| && ss[0][j] == x;
      assert ss[0][j] == x;
    } else {
      FlattenMemberInv(ss[1..], x);
      var k, j :| 0 <= k < |ss[1..]| && 0 <= j < |ss[1..][k]| && ss[1..][k][j] == x;
      assert ss[k + 1][j] == x;
    }
  }

  /** The two halves of a repetition-free concatenation are repetition-free
      and share no entry. */
  lemma DistinctSplit<T>(s: seq<T>, t: seq<T>)
    requires Distinct(s + t)
    ensures Distinct(s) && Distinct(t) && Elems(s) !! Elems(t)
  {
    assert forall i :: 0 <= i < |s| ==> (s + t)[i] == s[i];
    assert forall j :: 0 <= j < |t| ==> (s + t)[|s| + j] == t[j];
  }

  /** A sequence whose entries are exactly 0, ..., n-1 contains each of them. */
  lemma CoverMembers(s: seq<nat>, n: nat)
    requires Elems(s) == RangeSet(n)
    ensures forall i :: 0 <= i < n ==> i in s
  {
    forall i | 0 <= i < n ensures i in s {
      assert i in RangeSet(n);
    }
  }

  lemma {:induction false} FlattenConcat<T>(ss: seq<seq<T>>, tt: seq<seq<T>>)
    ensures Flatten(ss + tt) == Flatten(ss) + Flatten(tt)
  {
    if ss == [] {
      assert ss + tt == tt;
    } else {
      assert (ss + tt)[1..] == ss[1..] + tt;
      FlattenConcat(ss[1..], tt);
    }
  }

  lemma FlattenCons<T>(c: seq<T>, ss: seq<seq<T>>)
    ensures Flatten([c] + ss) == c + Flatten(ss)
  {
    assert ([c] + ss)[1..] == ss;
  }

  /** Pieces whose entries are all below `n` hold only indices below `n`. */
  lemma {:induction false} FlattenBelow(cs: seq<seq<nat>>, n: nat)
    requires forall k, i :: 0 <= k < |cs| && 0 <= i < |cs[k]| ==> cs[k][i] < n
    ensures Elems(Flatten(cs)) <= RangeSet(n)
  {
    if cs != [] {
      FlattenBelow(cs[1..], n);
      assert forall i :: 0 <= i < |cs[0]| ==> cs[0][i] < n;
    }
  }
}
