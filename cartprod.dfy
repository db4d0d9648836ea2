/** `iter_cartprod(*perms)`: the product of permutations acting
    component-wise on the Cartesian product of their index sets, with the
    tuples numbered in mixed radix like the wheels of a milometer. */
module CartProd {
  import opened Basics

  /** The number of tuples: the product of the lengths. */
  function Size(ps: seq<seq<nat>>): nat {
    if ps == [] then 1 else |ps[0]| * Size(ps[1..])
  }

  /** `t` with `a` added to every entry. */
  function Shift(a: nat, t: seq<nat>): (r: seq<nat>)
    ensures |r| == |t| && forall j :: 0 <= j < |t| ==> r[j] == a + t[j]
  {
    seq(|t|, j requires 0 <= j < |t| => a + t[j])
  }

  /** The product as the mixed-radix numbering describes it: the tuples
      whose first index is i form the i-th block, and every entry of that
      block is p[i] in the place value of the first wheel plus the product
      of the remaining permutations. */
  function Cart(ps: seq<seq<nat>>): seq<nat>
    decreases |ps|
  {
    if ps == [] then [0]
    else
      var rest := Cart(ps[1..]);
      var m := Size(ps[1..]);
      Flatten(seq(|ps[0]|, i requires 0 <= i < |ps[0]| => Shift(m * ps[0][i], rest)))
  }

  /** `tuple(n * i for i in perm)`. */
  function Scale(n: nat, p: seq<nat>): (r: seq<nat>)
    ensures |r| == |p| && forall i :: 0 <= i < |p| ==> r[i] == n * p[i]
  {
    seq(|p|, i requires 0 <= i < |p| => n * p[i])
  }

  /** `map(sum, itertools.product(*ss))`: the sums of the tuples, the last
      factor varying fastest. */
  function ProductSums(ss: seq<seq<nat>>): seq<nat>
    decreases |ss|
  {
    if ss == [] then [0]
    else
      var rest := ProductSums(ss[1..]);
      Flatten(seq(|ss[0]|, i requires 0 <= i < |ss[0]| => Shift(ss[0][i], rest)))
  }

  // ---------------------------------------------------------------------
  // Blocks of equal length
  // ---------------------------------------------------------------------

  predicate Uniform(bs: seq<seq<nat>>, m: nat) {
    forall i :: 0 <= i < |bs| ==> |bs[i]| == m
  }

  /** The position of entry j of block i lies inside n blocks of length m. */
  lemma BlockIndex(n: nat, m: nat, i: nat, j: nat)
    requires i < n && j < m
    ensures i * m + j < n * m
  {
    MulMono(m, i + 1, n);
    assert (i + 1) * m == i * m + m;
  }

  lemma {:induction false} FlattenUniformLength(bs: seq<seq<nat>>, m: nat)
    requires Uniform(bs, m)
    ensures |Flatten(bs)| == |bs| * m
  {
    if bs != [] {
      FlattenUniformLength(bs[1..], m);
      assert Flatten(bs) == bs[0] + Flatten(bs[1..]);
      MulSucc(|bs|, m);
    }
  }

  /** Entry j of block i sits at position i * m + j of the flattening. */
  lemma {:induction false} FlattenUniformAt(bs: seq<seq<nat>>, m: nat, i: nat, j: nat)
    requires Uniform(bs, m) && i < |bs| && j < m
    ensures i * m + j < |Flatten(bs)| && Flatten(bs)[i * m + j] == bs[i][j]
  {
    FlattenUniformLength(bs, m);
    BlockIndex(|bs|, m, i, j);
    var k := i * m + j;
    assert Flatten(bs) == bs[0] + Flatten(bs[1..]);
    assert |bs[0]| == m;
    if i > 0 {
      FlattenUniformAt(bs[1..], m, i - 1, j);
      MulSucc(i, m);
      var k' := (i - 1) * m + j;
      assert k == m + k';
      assert Flatten(bs)[k] == Flatten(bs[1..])[k'];
      assert bs[1..][i - 1] == bs[i];
    } else {
      assert k == j;
    }
  }

  lemma MulSucc(i: nat, m: nat)
    requires i > 0
    ensures i * m == m + (i - 1) * m
  {
  }

  /** Place values: a whole block below b lies at or under m * b. */
  lemma BelowNext(m: nat, a: nat, b: nat)
    requires a < b
    ensures m * a + m <= m * b
  {
    MulMono(m, a + 1, b);
    assert m * (a + 1) == m * a + m;
  }

  lemma MulMono(m: nat, a: nat, b: nat)
    requires a <= b
    ensures m * a <= m * b
  {
  }

  // ---------------------------------------------------------------------
  // The product, entry by entry
  // ---------------------------------------------------------------------

  /** The blocks of `Cart(ps)`: block i is the rest shifted by p[i] in the
      place value of the first wheel. */
  function Blocks(ps: seq<seq<nat>>): (bs: seq<seq<nat>>)
    requires ps != []
    ensures |bs| == |ps[0]|
    ensures Flatten(bs) == Cart(ps)
  {
    seq(|ps[0]|, i requires 0 <= i < |ps[0]| => Shift(Size(ps[1..]) * ps[0][i], Cart(ps[1..])))
  }

  /** There is one output per tuple of indices. */
  lemma {:induction false} CartLength(ps: seq<seq<nat>>)
    ensures |Cart(ps)| == Size(ps)
    decreases |ps|
  {
    if ps != [] {
      CartLength(ps[1..]);
      FlattenUniformLength(Blocks(ps), Size(ps[1..]));
    }
  }

  /** Mixed radix: the tuple (i, rest) is number i * m + j, where m is the
      number of tuples of the remaining permutations and j the number of
      `rest`; it is sent to p[i] * m plus the image of `rest`. */
  lemma CartAt(ps: seq<seq<nat>>, i: nat, j: nat)
    requires ps != [] && i < |ps[0]| && j < Size(ps[1..])
    ensures |Cart(ps[1..])| == Size(ps[1..])
    ensures i * Size(ps[1..]) + j < |Cart(ps)|
    ensures Cart(ps)[i * Size(ps[1..]) + j] == Size(ps[1..]) * ps[0][i] + Cart(ps[1..])[j]
  {
    CartLength(ps[1..]);
    FlattenUniformAt(Blocks(ps), Size(ps[1..]), i, j);
  }

  /** A single permutation is its own product. */
  lemma CartSingle(q: seq<nat>)
    ensures Cart([q]) == q
  {
    var ps := [q];
    assert ps[1..] == [];
    assert Size(ps[1..]) == 1;
    CartLength(ps);
    forall j | 0 <= j < |q| ensures Cart(ps)[j] == q[j] {
      CartAt(ps, j, 0);
    }
  }

  /** Two factors, with n = len(q): entry i * n + j is n * p[i] + q[j]. */
  lemma CartPair(p: seq<nat>, q: seq<nat>, i: nat, j: nat)
    requires i < |p| && j < |q|
    ensures |Cart([p, q])| == |p| * |q|
    ensures i * |q| + j < |p| * |q|
    ensures Cart([p, q])[i * |q| + j] == |q| * p[i] + q[j]
  {
    var ps := [p, q];
    assert ps[1..] == [q];
    assert [q][1..] == [];
    CartSingle(q);
    CartLength(ps);
    CartAt(ps, i, j);
  }

  // ---------------------------------------------------------------------
  // The product of permutations is a permutation
  // ---------------------------------------------------------------------

  lemma {:induction false} DistinctBlocks(bs: seq<seq<nat>>)
    requires forall k :: 0 <= k < |bs| ==> Distinct(bs[k])
    requires forall k, l :: 0 <= k < l < |bs| ==> Elems(bs[k]) !! Elems(bs[l])
    ensures Distinct(Flatten(bs))
  {
    if bs != [] {
      var tail := bs[1..];
      DistinctBlocks(tail);
      forall x | x in Elems(Flatten(tail)) ensures x !in Elems(bs[0]) {
        FlattenMemberInv(tail, x);
        var k, j :| 0 <= k < |tail| && 0 <= j < |tail[k]| && tail[k][j] == x;
        assert x in Elems(bs[k + 1]);
      }
      DistinctAppend(bs[0], Flatten(tail));
    }
  }

  /** The entries of block i lie in [m * p[i], m * p[i] + m). */
  lemma BlockRange(ps: seq<seq<nat>>, i: nat, x: nat)
    requires ps != [] && i < |ps[0]| && IsPermutation(Cart(ps[1..]))
    requires x in Elems(Blocks(ps)[i])
    ensures Size(ps[1..]) * ps[0][i] <= x < Size(ps[1..]) * ps[0][i] + Size(ps[1..])
  {
    CartLength(ps[1..]);
    var j :| 0 <= j < |Blocks(ps)[i]| && Blocks(ps)[i][j] == x;
  }

  /** Blocks for different first indices share no entry, because p sends
      different indices to different places. */
  lemma BlocksDisjoint(ps: seq<seq<nat>>, k: nat, l: nat)
    requires ps != [] && Distinct(ps[0]) && IsPermutation(Cart(ps[1..])) && k < l < |ps[0]|
    ensures Elems(Blocks(ps)[k]) !! Elems(Blocks(ps)[l])
  {
    var p, m := ps[0], Size(ps[1..]);
    forall x | x in Elems(Blocks(ps)[k]) ensures x !in Elems(Blocks(ps)[l]) {
      BlockRange(ps, k, x);
      if x in Elems(Blocks(ps)[l]) {
        BlockRange(ps, l, x);
        if p[k] < p[l] {
          BelowNext(m, p[k], p[l]);
        } else {
          assert p[k] != p[l];
          BelowNext(m, p[l], p[k]);
        }
      }
    }
  }

  /** Every entry of the product is a tuple number. */
  lemma CartBound(ps: seq<seq<nat>>, x: nat)
    requires ps != [] && IsPermutation(ps[0]) && IsPermutation(Cart(ps[1..]))
    requires x in Cart(ps)
    ensures x < |ps[0]| * Size(ps[1..])
  {
    var bs := Blocks(ps);
    FlattenMemberInv(bs, x);
    var k, j :| 0 <= k < |bs| && 0 <= j < |bs[k]| && bs[k][j] == x;
    assert x in Elems(bs[k]);
    BlockRange(ps, k, x);
    BelowNext(Size(ps[1..]), ps[0][k], |ps[0]|);
  }

  /** The component-wise product of permutations permutes the tuples. */
  lemma {:induction false} CartPermutation(ps: seq<seq<nat>>)
    requires forall k :: 0 <= k < |ps| ==> IsPermutation(ps[k])
    ensures IsPermutation(Cart(ps))
    decreases |ps|
  {
    CartLength(ps);
    if ps == [] {
      assert Cart(ps) == [0];
    } else {
      var bs := Blocks(ps);
      CartPermutation(ps[1..]);
      CartLength(ps[1..]);
      forall k, l | 0 <= k < l < |bs| ensures Elems(bs[k]) !! Elems(bs[l]) {
        BlocksDisjoint(ps, k, l);
      }
      DistinctBlocks(bs);
      forall u | 0 <= u < |Cart(ps)| ensures Cart(ps)[u] < |Cart(ps)| {
        CartBound(ps, Cart(ps)[u]);
      }
    }
  }

  // ---------------------------------------------------------------------
  // The generator
  // ---------------------------------------------------------------------

  /** `tuple(tuple(n * i for i in perm) for n, perm in zip(factors, perms))`. */
  function ScaledAll(factors: seq<nat>, ps: seq<seq<nat>>): (ss: seq<seq<nat>>)
    requires |factors| == |ps|
    ensures |ss| == |ps| && forall k :: 0 <= k < |ps| ==> ss[k] == Scale(factors[k], ps[k])
  {
    seq(|ps|, k requires 0 <= k < |ps| => Scale(factors[k], ps[k]))
  }

  lemma SizeStep(ps: seq<seq<nat>>, i: nat)
    requires i < |ps|
    ensures Size(ps[i..]) == |ps[i]| * Size(ps[i + 1..])
  {
    assert ps[i..][1..] == ps[i + 1..];
  }

  /** With each factor the number of tuples of the permutations after it,
      summing the scaled tuples numbers them in mixed radix. */
  lemma {:induction false} ScaledProduct(ps: seq<seq<nat>>, factors: seq<nat>)
    requires |factors| == |ps|
    requires forall k :: 0 <= k < |ps| ==> factors[k] == Size(ps[k + 1..])
    ensures ProductSums(ScaledAll(factors, ps)) == Cart(ps)
    decreases |ps|
  {
    if ps != [] {
      var ss := ScaledAll(factors, ps);
      assert ss[1..] == ScaledAll(factors[1..], ps[1..]);
      forall k | 0 <= k < |ps[1..]| ensures factors[1..][k] == Size(ps[1..][k + 1..]) {
        assert ps[1..][k + 1..] == ps[k + 2..];
      }
      ScaledProduct(ps[1..], factors[1..]);
      var rest := ProductSums(ss[1..]);
      var blocks := seq(|ss[0]|, i requires 0 <= i < |ss[0]| => Shift(ss[0][i], rest));
      assert ProductSums(ss) == Flatten(blocks);
      assert blocks == Blocks(ps) by {
        assert factors[0] == Size(ps[1..]);
        forall i | 0 <= i < |ss[0]| ensures blocks[i] == Blocks(ps)[i] {
          assert ss[0][i] == Size(ps[1..]) * ps[0][i];
        }
      }
    }
  }

  /** `iter_cartprod(*perms)`, run to the end. The factors are built by
      walking the permutations from the last one, appending the running
      product of the lengths seen, and reversing; then each permutation
      is scaled by its factor and the sums of the product tuples are the
      output. */
  method IterCartprod(perms: seq<seq<nat>>) returns (r: seq<nat>)
    ensures r == Cart(perms)
  {
    var n := |perms|;
    var prev := 1;
    var factors: seq<nat> := [];
    for t := 0 to n
      invariant |factors| == t
      invariant prev == Size(perms[n - t..])
      invariant forall u :: 0 <= u < t ==> factors[u] == Size(perms[n - u..])
    {
      factors := factors + [prev];
      SizeStep(perms, n - 1 - t);
      prev := prev * |perms[n - 1 - t]|;
    }
    factors := seq(n, k requires 0 <= k < n => factors[n - 1 - k]);
    ScaledProduct(perms, factors);
    r := ProductSums(ScaledAll(factors, perms));
  }

  /** The doctest: '210' times '0123' is '89ab45670123'. */
  lemma CartDoctest(p: seq<nat>, q: seq<nat>)
    requires |p| == 3 && p[0] == 2 && p[1] == 1 && p[2] == 0
    requires |q| == 4 && q[0] == 0 && q[1] == 1 && q[2] == 2 && q[3] == 3
    ensures Cart([p, q]) == [8, 9, 10, 11, 4, 5, 6, 7, 0, 1, 2, 3]
  {
    var c := Cart([p, q]);
    CartPair(p, q, 0, 0);
    CartPair(p, q, 0, 1);
    CartPair(p, q, 0, 2);
    CartPair(p, q, 0, 3);
    CartPair(p, q, 1, 0);
    CartPair(p, q, 1, 1);
    CartPair(p, q, 1, 2);
    CartPair(p, q, 1, 3);
    CartPair(p, q, 2, 0);
    CartPair(p, q, 2, 1);
    CartPair(p, q, 2, 2);
    CartPair(p, q, 2, 3);
    assert c[0] == 8 && c[1] == 9 && c[2] == 10 && c[3] == 11;
    assert c[4] == 4 && c[5] == 5 && c[6] == 6 && c[7] == 7;
    assert c[8] == 0 && c[9] == 1 && c[10] == 2 && c[11] == 3;
  }
}
