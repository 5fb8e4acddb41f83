/** The permutation engine as the original program runs it: recursive
    procedures that permute a shared array (and, for ranking, its inverse
    array) in place by swaps, and the two entry points that set those arrays
    up. Big integers are `nat`; each method is proved against the functions
    of module Permutations. */
module RankEngine {
  import opened Arith
  import opened Permutations

  /** `_mr_unrank1`: divide the rank by n, swap `vec[r]` with `vec[n-1]`,
      and recurse on the first n-1 cells with the quotient. Cells from n on
      are not touched. */
  method MrUnrank1(rank: nat, n: nat, vec: array<nat>)
    requires n <= vec.Length
    modifies vec
    ensures vec[..n] == UnrankFrom(rank, old(vec[..n]))
    ensures vec[n..] == old(vec[n..])
    decreases n
  {
    if n < 1 {
      return;
    }
    ghost var v0 := vec[..n];
    DivModNat(rank, n);
    var q, r := rank / n, rank % n;
    var tmp := vec[r];
    vec[r] := vec[n - 1];
    vec[n - 1] := tmp;
    ghost var s := Swap(v0, r, n - 1);
    assert vec[..n] == s;
    label swapped:
    MrUnrank1(q, n - 1, vec);
    assert vec[n - 1..] == old@swapped(vec[n - 1..]);
    assert vec[n - 1] == s[n - 1];
    assert vec[..n - 1] == UnrankFrom(q, s[..n - 1]) by {
      assert old@swapped(vec[..n - 1]) == s[..n - 1];
    }
    assert vec[..n] == vec[..n - 1] + [vec[n - 1]];
    assert vec[n..] == old(vec[n..]) by {
      assert vec[n..] == old@swapped(vec[n - 1..])[1..];
    }
  }

  /** `get_permutation`: fill `vec` with the identity 0 .. n-1, then unrank
      into it. The result is always a permutation, and ranks at or above n!
      wrap around modulo n!. */
  method GetPermutation(rank: nat, n: nat, vec: array<nat>)
    requires n <= vec.Length
    modifies vec
    ensures vec[..n] == Unrank(rank, n)
    ensures IsPermutation(vec[..n]) && vec[..n] == Unrank(rank % Factorial(n), n)
    ensures vec[n..] == old(vec[n..])
  {
    for i := 0 to n
      invariant forall k :: 0 <= k < i ==> vec[k] == k
      invariant vec[n..] == old(vec[n..])
    {
      vec[i] := i;
    }
    assert vec[..n] == Identity(n);
    MrUnrank1(rank, n, vec);
    UnrankIsPermutation(rank, n);
    UnrankWraps(rank, n);
  }

  /** `_mr_rank1`: with `inv` the inverse of the first n cells of `v`, take
      s = v[n-1], swap v[n-1] with v[inv[n-1]], swap inv[s] with inv[n-1],
      rank the first n-1 cells and return `sub_rank * n + s`. Afterwards both
      arrays hold the identity in their first n cells. */
  method MrRank1(n: nat, v: array<nat>, inv: array<nat>) returns (rank: nat)
    requires v != inv
    requires n <= v.Length && n <= inv.Length
    requires IsInverse(v[..n], inv[..n])
    modifies v, inv
    ensures IsPermutation(old(v[..n])) && rank == Rank(old(v[..n]))
    ensures v[..n] == Identity(n) && inv[..n] == Identity(n)
    ensures v[n..] == old(v[n..]) && inv[n..] == old(inv[n..])
    decreases n
  {
    if n < 2 {
      SmallInverse(v[..n], inv[..n]);
      return 0;
    }
    ghost var a, b := v[..], inv[..];
    var s := SwapToTop(n, v, inv);
    RankLevelOnArrays(n, a, b, v[..], inv[..]);
    ghost var a', b' := v[..], inv[..];
    var subRank := MrRank1(n - 1, v, inv);
    FactorialDigitBound(subRank, s, n);
    rank := subRank * n + s;
    IdentityExtends(n, a', v[..]);
    IdentityExtends(n, b', inv[..]);
  }

  /** The swaps of one `_mr_rank1` level: `s` is the last value; the cell
      that holds n-1 (found through the inverse) trades places with the last
      cell, and the inverse array trades entries `s` and n-1 to match. */
  method SwapToTop(n: nat, v: array<nat>, inv: array<nat>) returns (s: nat)
    requires v != inv
    requires 1 <= n <= v.Length && n <= inv.Length
    requires IsInverse(v[..n], inv[..n])
    modifies v, inv
    ensures s == old(v[n - 1])
    ensures
      var j := old(inv[n - 1]);
      v[..] == old(v[..])[n - 1 := old(v[j])][j := s]
    ensures inv[..] == old(inv[..])[s := old(inv[n - 1])][n - 1 := old(inv[s])]
  {
    assert v[n - 1] == v[..n][n - 1] && inv[n - 1] == inv[..n][n - 1];
    s := v[n - 1];
    var j := inv[n - 1];
    var tmp := v[n - 1];
    v[n - 1] := v[j];
    v[j] := tmp;
    var t := inv[s];
    inv[s] := inv[n - 1];
    inv[n - 1] := t;
  }

  /** With fewer than two cells, the only inverse pair is the identity. */
  lemma SmallInverse(p: seq<nat>, q: seq<nat>)
    requires IsInverse(p, q) && |p| < 2
    ensures IsPermutation(p) && Rank(p) == 0
    ensures p == Identity(|p|) && q == Identity(|p|)
  {
    InverseGivesPermutation(p, q);
  }

  /** After the recursive call: the first n-1 cells became the identity and
      the rest, whose first cell holds n-1, stayed; so the first n cells are
      the identity and the cells from n on are unchanged. */
  lemma IdentityExtends(n: nat, before: seq<nat>, after: seq<nat>)
    requires 1 <= n <= |before| && |after| == |before|
    requires before[n - 1] == n - 1
    requires after[..n - 1] == Identity(n - 1) && after[n - 1..] == before[n - 1..]
    ensures after[..n] == Identity(n) && after[n..] == before[n..]
  {
    assert after[n - 1] == after[n - 1..][0];
    assert after[n..] == after[n - 1..][1..];
  }

  /** One `_mr_rank1` level stated on whole-array snapshots: `a`, `b` before
      and `a2`, `b2` after the swaps. */
  lemma RankLevelOnArrays(n: nat, a: seq<nat>, b: seq<nat>, a2: seq<nat>, b2: seq<nat>)
    requires 2 <= n <= |a| && n <= |b|
    requires IsInverse(a[..n], b[..n])
    requires
      var s, j := a[n - 1], b[n - 1];
      s < n && j < n &&
      a2 == a[n - 1 := a[j]][j := s] && b2 == b[s := b[n - 1]][n - 1 := b[s]]
    ensures IsPermutation(a[..n])
    ensures a2[n - 1] == n - 1 && b2[n - 1] == n - 1
    ensures a2[n..] == a[n..] && b2[n..] == b[n..]
    ensures IsInverse(a2[..n - 1], b2[..n - 1])
    ensures Rank(a[..n]) == Rank(a2[..n - 1]) * n + a[n - 1]
  {
    var p, q := a[..n], b[..n];
    var s, j := a[n - 1], b[n - 1];
    assert a2[..n] == p[n - 1 := p[j]][j := s];
    assert b2[..n] == q[s := q[n - 1]][n - 1 := q[s]];
    RankLevel(p, q, a2[..n], b2[..n]);
    assert a2[..n][..n - 1] == a2[..n - 1];
    assert b2[..n][..n - 1] == b2[..n - 1];
  }

  /** One level of `_mr_rank1` on values: after the two swaps the last
      cells hold n-1, the first n-1 cells hold the reduced permutation and
      its inverse, and the rank of the whole is the rank of the reduced part
      times n plus the old last value. */
  lemma RankLevel(p: seq<nat>, q: seq<nat>, p2: seq<nat>, q2: seq<nat>)
    requires IsInverse(p, q) && 2 <= |p|
    requires
      var n, s, j := |p|, p[|p| - 1], q[|p| - 1];
      p2 == p[n - 1 := p[j]][j := s] && q2 == q[s := q[n - 1]][n - 1 := q[s]]
    ensures IsPermutation(p) && |p2| == |q2| == |p|
    ensures p2[|p| - 1] == |p| - 1 && q2[|p| - 1] == |p| - 1
    ensures IsInverse(p2[..|p| - 1], q2[..|p| - 1])
    ensures IsPermutation(p2[..|p| - 1])
    ensures Rank(p) == Rank(p2[..|p| - 1]) * |p| + p[|p| - 1]
  {
    ReducedSwap(p, q, p2);
    ReducedInverse(p, q, q2);
    RankStep(p);
  }

  /** `_mr_rank1`'s return value, one level unfolded. */
  lemma RankStep(p: seq<nat>)
    requires IsPermutation(p) && 2 <= |p|
    ensures Rank(p) == Rank(Reduce(p)) * |p| + p[|p| - 1]
  {
  }

  /** The value swap of one `_mr_rank1` level: moving n-1 into the last cell
      leaves the reduced permutation in the first n-1 cells. */
  lemma ReducedSwap(p: seq<nat>, q: seq<nat>, p': seq<nat>)
    requires IsInverse(p, q) && 2 <= |p|
    requires
      var n, j := |p|, q[|p| - 1];
      p' == p[n - 1 := p[j]][j := p[n - 1]]
    ensures IsPermutation(p)
    ensures p'[|p| - 1] == |p| - 1
    ensures p'[..|p| - 1] == Reduce(p)
  {
    InverseGivesPermutation(p, q);
    var n, j := |p|, q[|p| - 1];
    assert p[j] == n - 1;
    forall i | 0 <= i < n - 1
      ensures p'[i] == Reduce(p)[i]
    {
      if p[i] != n - 1 {
        assert i != j;
      }
    }
  }

  /** The inverse bookkeeping of one `_mr_rank1` level: after the two swaps
      the inverse array still inverts the reduced permutation, and the last
      cell of both arrays holds n-1. */
  lemma ReducedInverse(p: seq<nat>, q: seq<nat>, q': seq<nat>)
    requires IsInverse(p, q) && 2 <= |p|
    requires
      var n, s := |p|, p[|p| - 1];
      q' == q[s := q[n - 1]][n - 1 := q[s]]
    ensures IsPermutation(p)
    ensures q'[|p| - 1] == |p| - 1
    ensures IsInverse(Reduce(p), q'[..|p| - 1])
  {
    InverseGivesPermutation(p, q);
    var n, s := |p|, p[|p| - 1];
    var p' := Reduce(p);
    var j := q[n - 1];
    assert p[j] == n - 1;
    forall i | 0 <= i < n - 1
      ensures p'[i] < n - 1 && q'[p'[i]] == i
    {
      if i == j {
        assert p'[i] == s;
      } else {
        assert p[i] != s;
      }
    }
    forall x | 0 <= x < n - 1
      ensures q'[x] < n - 1 && p'[q'[x]] == x
    {
      if x == s {
        assert q'[x] == j;
      } else {
        assert p[q[x]] == x;
        assert q[x] != n - 1;
      }
    }
  }

  /** `get_rank`: copy the caller's array into `v`, build the inverse array,
      and rank the copy. The caller's array is left unchanged (no modifies
      clause) and the rank lies in [0, n!). */
  method GetRank(n: nat, vec: array<nat>) returns (rank: nat)
    requires n <= vec.Length
    requires IsPermutation(vec[..n])
    ensures rank == Rank(vec[..n])
    ensures rank < Factorial(n)
  {
    var inv := new nat[n];
    var v := new nat[n];
    for i := 0 to n
      invariant v[..i] == vec[..i]
      invariant forall k :: 0 <= k < i ==> inv[vec[k]] == k
    {
      v[i] := vec[i];
      inv[vec[i]] := i;
    }
    ghost var p := vec[..n];
    assert v[..] == p;
    PermutationIsOnto(p);
    forall x | 0 <= x < n
      ensures inv[x] < n && v[inv[x]] == x
    {
      var k := IndexOf(p, x);
      assert inv[p[k]] == k;
    }
    assert IsInverse(v[..n], inv[..n]);
    rank := MrRank1(n, v, inv);
  }
}
