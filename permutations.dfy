/** The Myrvold–Ruskey linear-time ranking and unranking of permutations
    ("Ranking and unranking permutations in linear time", Information
    Processing Letters 79, 2001), stated as functions on sequences.

    A permutation of length n holds each of 0 .. n-1 exactly once. The
    functions below say what `_mr_unrank1` and `_mr_rank1` leave behind; the
    in-place methods that work on arrays are in module RankEngine and are
    proved against these functions. The ordering is NOT lexicographic: the
    identity permutation has rank n! - 1. */
module Permutations {
  import opened Arith

  /** [0, 1, ..., n-1], the array `get_permutation` starts from. */
  function Identity(n: nat): (id: seq<nat>)
    ensures |id| == n
    ensures forall i :: 0 <= i < n ==> id[i] == i
  {
    if n == 0 then [] else Identity(n - 1) + [n - 1]
  }

  /** No value occurs twice. */
  predicate Distinct(p: seq<nat>)
  {
    forall i, j :: 0 <= i < j < |p| ==> p[i] != p[j]
  }

  /** Each of 0 .. |p|-1 occurs exactly once (bounded and injective; onto by PermutationIsOnto). */
  predicate IsPermutation(p: seq<nat>)
  {
    (forall i :: 0 <= i < |p| ==> p[i] < |p|) && Distinct(p)
  }

  /** `q` is the inverse array of `p`: `q[p[i]] == i` and `p[q[x]] == x`. */
  predicate IsInverse(p: seq<nat>, q: seq<nat>)
  {
    && |p| == |q|
    && (forall i :: 0 <= i < |p| ==> p[i] < |q| && q[p[i]] == i)
    && (forall x :: 0 <= x < |q| ==> q[x] < |p| && p[q[x]] == x)
  }

  /** Exchange the cells at `i` and `j` (the SWAP of the original program). */
  function Swap(v: seq<nat>, i: nat, j: nat): (w: seq<nat>)
    requires i < |v| && j < |v|
    ensures |w| == |v| && w[i] == v[j] && w[j] == v[i]
    ensures forall m :: 0 <= m < |v| && m != i && m != j ==> w[m] == v[m]
  {
    v[i := v[j]][j := v[i]]
  }

  /** Where a swap of cells `a` and `b` sends the index `x`. */
  function Transpose(x: nat, a: nat, b: nat): nat
  {
    if x == a then b else if x == b then a else x
  }

  /** Position of `x` in `p`. */
  function IndexOf(p: seq<nat>, x: nat): (j: nat)
    requires x in p
    ensures j < |p| && p[j] == x
  {
    if p[0] == x then 0 else 1 + IndexOf(p[1..], x)
  }

  /** What `_mr_unrank1(r, |v|, vec)` leaves in cells 0 .. |v|-1 of `vec`
      when they held `v`: swap cell `r mod k` with cell `k-1`, then carry on
      with `r div k` on the first `k-1` cells. */
  function UnrankFrom(r: nat, v: seq<nat>): (w: seq<nat>)
    ensures |w| == |v|
    decreases |v|
  {
    if |v| == 0 then v
    else
      var k := |v|;
      var s := Swap(v, r % k, k - 1);
      UnrankFrom(r / k, s[..k - 1]) + [s[k - 1]]
  }

  /** The permutation `get_permutation(r, n, vec)` leaves in `vec`. */
  function Unrank(r: nat, n: nat): (p: seq<nat>)
    ensures |p| == n
  {
    UnrankFrom(r, Identity(n))
  }

  /** One level of `_mr_rank1`: swap the value `n-1` into the last cell and
      keep the first `n-1` cells. The cell that held `n-1` now holds the old
      last value; the result is a permutation of 0 .. n-2. */
  function Reduce(p: seq<nat>): (p': seq<nat>)
    requires IsPermutation(p) && |p| > 0
    ensures IsPermutation(p') && |p'| == |p| - 1
    ensures forall i :: 0 <= i < |p| - 1 ==>
              p'[i] == if p[i] == |p| - 1 then p[|p| - 1] else p[i]
  {
    var n := |p|;
    PermutationIsOnto(p);
    var w := Swap(p, n - 1, IndexOf(p, n - 1));
    DropFixedLast(w);
    w[..n - 1]
  }

  /** What `_mr_rank1` returns for a permutation: take `s`, the last value,
      reduce to the first `n-1` cells, rank them and return `sub_rank * n + s`.
      Every rank lies in [0, n!). */
  function Rank(p: seq<nat>): (r: nat)
    requires IsPermutation(p)
    ensures r < Factorial(|p|)
    decreases |p|
  {
    var n := |p|;
    if n < 2 then 0
    else
      var sub := Rank(Reduce(p));
      FactorialDigitBound(sub, p[n - 1], n);
      sub * n + p[n - 1]
  }

  // ---------------------------------------------------------------------
  // Permutations and the pigeonhole principle

  /** The set of values held by `p`. */
  function Values(p: seq<nat>): set<nat>
  {
    set x | x in p
  }

  /** The set {0, ..., n-1}. */
  function Below(n: nat): set<nat>
  {
    Values(Identity(n))
  }

  lemma {:induction false} ValuesCard(p: seq<nat>)
    requires Distinct(p)
    ensures |Values(p)| == |p|
  {
    if p != [] {
      var n := |p|;
      var init := p[..n - 1];
      assert Distinct(init);
      ValuesCard(init);
      assert Values(p) == Values(init) + {p[n - 1]} by {
        assert p == init + [p[n - 1]];
      }
      assert p[n - 1] !in Values(init);
    }
  }

  lemma BelowCard(n: nat)
    ensures |Below(n)| == n
    ensures forall x :: 0 <= x < n <==> x in Below(n)
  {
    ValuesCard(Identity(n));
    forall x | 0 <= x < n
      ensures x in Below(n)
    {
      assert Identity(n)[x] == x;
    }
  }

  /** Pigeonhole: a permutation (bounded and injective) takes every value below its length. */
  lemma PermutationIsOnto(p: seq<nat>)
    requires IsPermutation(p)
    ensures forall x :: 0 <= x < |p| ==> x in p
  {
    var vals, all := Values(p), Below(|p|);
    ValuesCard(p);
    BelowCard(|p|);
    assert vals <= all;
    assert |all - vals| == 0 by {
      assert all == vals + (all - vals);
      assert vals !! (all - vals);
    }
    forall x | 0 <= x < |p|
      ensures x in p
    {
      assert x in all;
    }
  }

  /** Once `n-1` sits in the last cell, the other cells form a permutation of 0 .. n-2. */
  lemma DropFixedLast(p: seq<nat>)
    requires IsPermutation(p) && |p| > 0 && p[|p| - 1] == |p| - 1
    ensures IsPermutation(p[..|p| - 1])
  {
    var n := |p|;
    forall i | 0 <= i < n - 1
      ensures p[i] < n - 1
    {
      assert p[i] != p[n - 1];
    }
  }

  /** A sequence with an inverse array is a permutation. */
  lemma InverseGivesPermutation(p: seq<nat>, q: seq<nat>)
    requires IsInverse(p, q)
    ensures IsPermutation(p)
  {
    forall i, j | 0 <= i < j < |p|
      ensures p[i] != p[j]
    {
      assert q[p[i]] == i && q[p[j]] == j;
    }
  }

  // ---------------------------------------------------------------------
  // Unranking: what it keeps and where it moves values

  /** Unranking only moves cells around: the result is `v` read through the
      position shuffle that the same rank produces from the identity. */
  lemma {:induction false} UnrankFromRelabels(r: nat, v: seq<nat>, i: nat)
    requires i < |v|
    ensures UnrankFrom(r, Identity(|v|))[i] < |v|
    ensures UnrankFrom(r, v)[i] == v[UnrankFrom(r, Identity(|v|))[i]]
    decreases |v|
  {
    var k := |v|;
    var a, q := r % k, r / k;
    var s := Swap(v, a, k - 1);
    var t := Swap(Identity(k), a, k - 1);
    assert UnrankFrom(r, v) == UnrankFrom(q, s[..k - 1]) + [s[k - 1]];
    assert UnrankFrom(r, Identity(k)) == UnrankFrom(q, t[..k - 1]) + [t[k - 1]];
    if i < k - 1 {
      assert Identity(|t[..k - 1]|) == Identity(|s[..k - 1]|);
      UnrankFromRelabels(q, s[..k - 1], i);
      UnrankFromRelabels(q, t[..k - 1], i);
    }
  }

  /** Unranking from distinct values keeps them distinct and introduces no new value. */
  lemma {:induction false} UnrankFromShuffles(r: nat, v: seq<nat>)
    ensures forall i :: 0 <= i < |v| ==> UnrankFrom(r, v)[i] in v
    ensures Distinct(v) ==> Distinct(UnrankFrom(r, v))
    decreases |v|
  {
    if |v| > 0 {
      var k := |v|;
      var s := Swap(v, r % k, k - 1);
      var init := s[..k - 1];
      UnrankFromShuffles(r / k, init);
      var w := UnrankFrom(r, v);
      assert w == UnrankFrom(r / k, init) + [s[k - 1]];
      forall i | 0 <= i < k
        ensures w[i] in v
      {
        if i < k - 1 {
          assert w[i] in init;
        }
      }
      if Distinct(v) {
        assert Distinct(s);
        assert Distinct(init);
        forall i, j | 0 <= i < j < k
          ensures w[i] != w[j]
        {
          if j == k - 1 {
            assert w[i] in init;
          }
        }
      }
    }
  }

  /** Unranking always yields a permutation of 0 .. n-1, whatever the rank. */
  lemma UnrankIsPermutation(r: nat, n: nat)
    ensures IsPermutation(Unrank(r, n))
  {
    var id := Identity(n);
    UnrankFromShuffles(r, id);
    var p := Unrank(r, n);
    forall i | 0 <= i < n
      ensures p[i] < n
    {
      assert p[i] in id;
    }
  }

  /** A rank at or above |v|! unranks like the rank reduced modulo |v|!. */
  lemma {:induction false} UnrankFromMod(r: nat, v: seq<nat>)
    ensures UnrankFrom(r, v) == UnrankFrom(r % Factorial(|v|), v)
    decreases |v|
  {
    if |v| > 0 {
      var k := |v|;
      var f := Factorial(k - 1);
      var r' := r % Factorial(k);
      ModProductDigits(r, k, f);
      var s := Swap(v, r % k, k - 1);
      UnrankFromMod(r / k, s[..k - 1]);
    }
  }

  /** get_permutation wraps an out-of-range rank modulo n!. */
  lemma UnrankWraps(r: nat, n: nat)
    ensures Unrank(r, n) == Unrank(r % Factorial(n), n)
  {
    UnrankFromMod(r, Identity(n));
  }

  // ---------------------------------------------------------------------
  // The bijection between [0, n!) and the permutations of 0 .. n-1

  /** Unranking on n values, written as its first level and the unranking
      of `r div n` on the first n-1 cells. */
  lemma UnrankUnfold(r: nat, n: nat)
    requires 1 <= n
    ensures Unrank(r, n) ==
              UnrankFrom(r / n, Swap(Identity(n), r % n, n - 1)[..n - 1]) + [Swap(Identity(n), r % n, n - 1)[n - 1]]
  {
    DivModNat(r, n);
    assert |Identity(n)| == n;
  }

  /** One level of unranking: the last cell of `p`, the unranking of `r`
      on n values, receives `a = r mod n`, and the first `n-1` cells are
      `sigma`, the unranking of `q = r div n` on n-1 values, with the values
      `a` and `n-1` exchanged. */
  lemma UnrankPeel(r: nat, n: nat, q: nat, a: nat, sigma: seq<nat>, p: seq<nat>)
    requires 1 <= n && q == r / n && a == r % n
    requires sigma == Unrank(q, n - 1) && p == Unrank(r, n)
    ensures p[n - 1] == a
    ensures forall i :: 0 <= i < n - 1 ==> sigma[i] < n - 1 && p[i] == Transpose(sigma[i], a, n - 1)
  {
    UnrankLast(r, n);
    forall i | 0 <= i < n - 1
      ensures sigma[i] < n - 1 && p[i] == Transpose(sigma[i], a, n - 1)
    {
      UnrankPeelAt(r, n, i);
    }
  }

  lemma UnrankLast(r: nat, n: nat)
    requires 1 <= n
    ensures Unrank(r, n)[n - 1] == r % n
  {
    UnrankUnfold(r, n);
  }

  lemma UnrankPeelAt(r: nat, n: nat, i: nat)
    requires 1 <= n && i < n - 1
    ensures Unrank(r / n, n - 1)[i] < n - 1
    ensures Unrank(r, n)[i] == Transpose(Unrank(r / n, n - 1)[i], r % n, n - 1)
  {
    DivModNat(r, n);
    var t := Swap(Identity(n), r % n, n - 1);
    var init := t[..n - 1];
    UnrankUnfold(r, n);
    assert Identity(|init|) == Identity(n - 1);
    UnrankFromRelabels(r / n, init, i);
  }

  /** Ranking's first level undoes unranking's first level. */
  lemma ReduceOfUnrank(r: nat, n: nat)
    requires 2 <= n
    ensures IsPermutation(Unrank(r, n))
    ensures Reduce(Unrank(r, n)) == Unrank(r / n, n - 1)
  {
    DivModNat(r, n);
    UnrankIsPermutation(r, n);
    UnrankPeel(r, n, r / n, r % n, Unrank(r / n, n - 1), Unrank(r, n));
  }

  /** Ranking the permutation unranked from r gives back r. */
  lemma {:induction false} RankOfUnrank(r: nat, n: nat)
    requires r < Factorial(n)
    ensures IsPermutation(Unrank(r, n)) && Rank(Unrank(r, n)) == r
    decreases n
  {
    UnrankIsPermutation(r, n);
    if n >= 2 {
      DivModNat(r, n);
      var p, q := Unrank(r, n), r / n;
      ReduceOfUnrank(r, n);
      UnrankLast(r, n);
      FactorialDigits(r, n);
      RankOfUnrank(q, n - 1);
      assert Rank(p) == Rank(Reduce(p)) * n + p[n - 1];
    } else if n == 1 {
      assert r == 0;
    }
  }

  /** Unranking the rank of a permutation gives back the permutation. */
  lemma {:induction false} UnrankOfRank(p: seq<nat>)
    requires IsPermutation(p)
    ensures Unrank(Rank(p), |p|) == p
    decreases |p|
  {
    var n := |p|;
    if n == 1 {
      assert p == [0];
      assert Unrank(0, 1) == [0] by {
        assert Swap([0], 0, 0) == [0];
      }
    } else if n >= 2 {
      UnrankOfRank(Reduce(p));
      UnrankOfRankStep(p);
    }
  }

  /** The inductive step of UnrankOfRank: if unranking inverts ranking on
      the reduced permutation, it inverts it on the whole one. */
  lemma UnrankOfRankStep(p: seq<nat>)
    requires IsPermutation(p) && 2 <= |p|
    requires Unrank(Rank(Reduce(p)), |p| - 1) == Reduce(p)
    ensures Unrank(Rank(p), |p|) == p
  {
    var n := |p|;
    var p' := Reduce(p);
    var r, sub, s := Rank(p), Rank(p'), p[n - 1];
    assert r / n == sub && r % n == s by {
      assert r == sub * n + s;
      DivModUnique(r, n, sub, s);
    }
    var u := Unrank(r, n);
    UnrankPeel(r, n, sub, s, p', u);
    forall i | 0 <= i < n
      ensures u[i] == p[i]
    {
      if i < n - 1 && p[i] != n - 1 {
        assert p[i] != p[n - 1];
      }
    }
    assert u == p;
  }

  /** Different permutations of the same length have different ranks. */
  lemma RankInjective(p: seq<nat>, q: seq<nat>)
    requires IsPermutation(p) && IsPermutation(q) && |p| == |q|
    requires Rank(p) == Rank(q)
    ensures p == q
  {
    UnrankOfRank(p);
    UnrankOfRank(q);
  }

  /** Every rank in [0, n!) is the rank of exactly the permutation it unranks to. */
  lemma UnrankInjective(r: nat, r': nat, n: nat)
    requires r < Factorial(n) && r' < Factorial(n)
    requires Unrank(r, n) == Unrank(r', n)
    ensures r == r'
  {
    RankOfUnrank(r, n);
    RankOfUnrank(r', n);
  }

  // ---------------------------------------------------------------------
  // The ordering, on concrete cases

  /** The identity permutation has the LARGEST rank, n! - 1. */
  lemma {:induction false} RankOfIdentity(n: nat)
    requires 1 <= n
    ensures IsPermutation(Identity(n)) && Rank(Identity(n)) == Factorial(n) - 1
  {
    IdentityIsPermutation(n);
    if n >= 2 {
      var id, id' := Identity(n), Identity(n - 1);
      IdentityIsPermutation(n - 1);
      var sub := Rank(id');
      assert sub == Factorial(n - 1) - 1 by {
        RankOfIdentity(n - 1);
      }
      assert Rank(id) == sub * n + (n - 1) by {
        assert Reduce(id) == id' by {
          assert forall i :: 0 <= i < n - 1 ==> Reduce(id)[i] == id'[i];
        }
      }
      assert sub * n + (n - 1) == Factorial(n) - 1 by {
        FactorialTop(n);
      }
    }
  }

  lemma IdentityIsPermutation(n: nat)
    ensures IsPermutation(Identity(n))
  {
  }

  lemma UnrankZeroOfFour()
    ensures Unrank(0, 4) == [1, 2, 3, 0]
  {
    assert Identity(4) == [0, 1, 2, 3];
    assert UnrankFrom(0, [1]) == [1] by {
      assert Swap([1], 0, 0)[..0] == [];
    }
    assert UnrankFrom(0, [2, 1]) == [1, 2] by {
      assert Swap([2, 1], 0, 1)[..1] == [1];
    }
    assert UnrankFrom(0, [3, 1, 2]) == [1, 2, 3] by {
      assert Swap([3, 1, 2], 0, 2)[..2] == [2, 1];
    }
    assert Swap([0, 1, 2, 3], 0, 3)[..3] == [3, 1, 2];
  }

  lemma RankOfReversedFour()
    ensures IsPermutation([3, 2, 1, 0]) && Rank([3, 2, 1, 0]) == 16
  {
    var p := [3, 2, 1, 0];
    assert IndexOf(p, 3) == 0;
    assert Swap(p, 3, 0)[..3] == [0, 2, 1];
    assert IndexOf([0, 2, 1], 2) == 1;
    assert Swap([0, 2, 1], 2, 1)[..2] == [0, 1];
    assert IndexOf([0, 1], 1) == 1;
    assert Swap([0, 1], 1, 1)[..1] == [0];
    assert Rank([0, 1]) == 1;
    assert Rank([0, 2, 1]) == 4;
  }
}
