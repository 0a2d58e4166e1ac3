/**
  `nchoosek` and the lexicographic pair iterator `next_pair` (common.cpp).
  A pair (u, v) of vertices with u < v < n stands for a possible edge; the
  iterator steps through all of them in lexicographic order.
*/
module Counting {

  /**
    C++ `/` on integers: the quotient is truncated toward zero, so the
    remainder `a - q * b` has the sign of a and is smaller than b in magnitude.
  */
  function TruncDiv(a: int, b: int): (q: int)
    requires b > 0
    ensures a >= 0 ==> 0 <= a - q * b < b
    ensures a < 0 ==> -b < a - q * b <= 0
  {
    if a >= 0 then a / b else -((-a) / b)
  }

  /**
    `nchoosek(n, k)` as written: 1 for k = 0, otherwise
    `n * nchoosek(n - 1, k - 1) / k`. A negative k never reaches the base case,
    so k is a nat. The 64-bit overflow of the product is not modelled.
  */
  function NChooseK(n: int, k: nat): (r: int)
    ensures 0 <= n < k ==> r == 0
    ensures 0 <= k <= n ==> r >= 1
    decreases k
  {
    if k == 0 then 1
    else
      ProductBound(n, k, NChooseK(n - 1, k - 1));
      TruncDiv(n * NChooseK(n - 1, k - 1), k)
  }

  /** A factor of at least 1 keeps n at least k. */
  lemma ProductBound(n: int, k: int, c: int)
    ensures 0 <= k <= n && c >= 1 ==> n * c >= k
  {
    if 0 <= k <= n && c >= 1 {
      assert n * c >= n * 1;
    }
  }

  /** The binomial coefficient, by Pascal's rule: the reference for `NChooseK`. */
  function Binomial(n: nat, k: nat): nat
  {
    if k == 0 then 1
    else if n == 0 then 0
    else Binomial(n - 1, k - 1) + Binomial(n - 1, k)
  }

  /** The absorption identity k * C(n, k) == n * C(n - 1, k - 1). */
  lemma {:induction false} Absorption(n: nat, k: nat)
    requires n >= 1 && k >= 1
    ensures k * Binomial(n, k) == n * Binomial(n - 1, k - 1)
  {
    if n == 1 {
      if k >= 2 {
        assert Binomial(0, k - 1) == 0;
        assert Binomial(0, k) == 0;
      }
    } else if k == 1 {
      Absorption(n - 1, 1);
      assert Binomial(n, 1) == Binomial(n - 1, 0) + Binomial(n - 1, 1);
    } else {
      Absorption(n - 1, k);
      Absorption(n - 1, k - 1);
      var a := Binomial(n - 1, k - 1);
      var b := Binomial(n - 1, k);
      var c := Binomial(n - 2, k - 2);
      var d := Binomial(n - 2, k - 1);
      assert Binomial(n, k) == a + b;
      assert a == c + d;
      assert (k - 1) * a == (n - 1) * c;
      assert k * b == (n - 1) * d;
      Distribute(k, a, b);
      Distribute(k - 1, a, 0);
      assert k * a == (k - 1) * a + a by { Distribute(a, k - 1, 1); }
      Distribute(n - 1, c, d);
      assert n * a == (n - 1) * a + a by { Distribute(a, n - 1, 1); }
    }
  }

  lemma Distribute(x: int, y: int, z: int)
    ensures x * (y + z) == x * y + x * z
    ensures (y + z) * x == y * x + z * x
  {
  }

  lemma CancelFactor(k: nat, c: nat)
    requires k > 0
    ensures (k * c) / k == c
  {
    var q := (k * c) / k;
    var r := (k * c) % k;
    assert k * c == k * q + r && 0 <= r < k;
    Distribute(k, c - q, q);
    if q < c {
      NonNegProduct(k, c - q - 1);
      Distribute(k, c - q - 1, 1);
    }
  }

  lemma NonNegProduct(x: nat, y: nat)
    ensures x * y >= 0
  {
  }

  /** For n >= 0 the truncating recursion computes exactly the binomial coefficient. */
  lemma {:induction false} NChooseKIsBinomial(n: nat, k: nat)
    ensures NChooseK(n, k) == Binomial(n, k)
  {
    if k > 0 {
      if n == 0 {
        assert NChooseK(0, k) == TruncDiv(0 * NChooseK(-1, k - 1), k);
      } else {
        NChooseKIsBinomial(n - 1, k - 1);
        Absorption(n, k);
        var c := Binomial(n, k);
        var e := n * NChooseK(n - 1, k - 1);
        assert e == k * c;
        CancelFactor(k, c);
        assert NChooseK(n, k) == TruncDiv(e, k);
      }
    }
  }

  /** `nchoosek(n, 2)`, the number of vertex pairs, is n(n-1)/2. */
  lemma NChooseTwo(n: nat)
    ensures NChooseK(n, 2) == n * (n - 1) / 2
  {
    if n == 0 {
      assert NChooseK(0, 2) == TruncDiv(0 * NChooseK(-1, 1), 2);
    } else {
      assert NChooseK(n - 1, 1) == n - 1;
      assert n * (n - 1) >= 0;
    }
  }

  // ---------------------------------------------------------------------------
  // Pairs and next_pair

  /** (u, v) is a pair of vertices below n with u < v. */
  predicate IsPair(n: int, u: int, v: int)
  {
    0 <= u < v < n
  }

  predicate LexLess(u: int, v: int, u': int, v': int)
  {
    u < u' || (u == u' && v < v')
  }

  /** The last pair in lexicographic order; the iterator stops there. */
  predicate IsLastPair(n: int, u: int, v: int)
  {
    u == n - 2 && v == n - 1
  }

  /**
    `next_pair(u, v, n)`: if v < n - 1 then v is incremented, otherwise u is
    incremented and v set to the new u plus one. The reference parameters become
    the results.
  */
  method NextPair(u: int, v: int, n: int) returns (u': int, v': int)
    ensures (u', v') == Step(n, (u, v))
    ensures u < v ==> u' < v'
    ensures IsPair(n, u, v) && !IsLastPair(n, u, v) ==>
      IsPair(n, u', v') && LexLess(u, v, u', v') &&
      forall x, y :: IsPair(n, x, y) && LexLess(u, v, x, y) ==> !LexLess(x, y, u', v')
  {
    if v < n - 1 {
      u' := u;
      v' := v + 1;
      return;
    }
    u' := u + 1;
    v' := u' + 1;
  }

  /**
    The step of `next_pair` as a value: v moves up while it is below n - 1,
    otherwise u moves up and v restarts just above it.
  */
  function Step(n: int, p: (int, int)): (int, int)
  {
    if p.1 < n - 1 then (p.0, p.1 + 1) else (p.0 + 1, p.0 + 2)
  }

  /** The pair held after k calls of `next_pair`, starting from (0, 1). */
  function PairAfter(n: int, k: nat): (int, int)
  {
    if k == 0 then (0, 1) else Step(n, PairAfter(n, k - 1))
  }

  /** Number of pairs whose first vertex is below u: the rank of (u, u + 1). */
  function RowStart(n: nat, u: nat): nat
    requires u <= n
  {
    if u == 0 then 0 else RowStart(n, u - 1) + (n - u)
  }

  /** Lexicographic rank of the pair (u, v) among the pairs below n. */
  function Rank(n: nat, u: nat, v: nat): nat
    requires IsPair(n, u, v)
  {
    RowStart(n, u) + (v - u - 1)
  }

  lemma {:induction false} RowStartClosed(n: nat, u: nat)
    requires u <= n
    ensures 2 * RowStart(n, u) == u * (2 * n - 1 - u)
  {
    if u > 0 {
      RowStartClosed(n, u - 1);
      assert 2 * RowStart(n, u) == (u - 1) * (2 * n - u) + 2 * (n - u);
    }
  }

  /** The pairs have ranks 0 .. n(n-1)/2 - 1. */
  lemma RankBound(n: nat, u: nat, v: nat)
    requires IsPair(n, u, v)
    ensures Rank(n, u, v) < NChooseK(n, 2)
  {
    RowStartClosed(n, u);
    RowStartClosed(n, n - 1);
    NChooseTwo(n);
    RowStartMonotone(n, u + 1, n - 1);
    assert RowStart(n, u + 1) == RowStart(n, u) + (n - u - 1);
    assert 2 * RowStart(n, n - 1) == (n - 1) * n;
  }

  lemma {:induction false} RowStartMonotone(n: nat, u: nat, w: nat)
    requires u <= w <= n
    ensures RowStart(n, u) <= RowStart(n, w)
    decreases w - u
  {
    if u < w {
      RowStartMonotone(n, u, w - 1);
    }
  }

  /** After Rank(u, v) calls, starting from (0, 1), the iterator holds (u, v). */
  lemma {:induction false} PairAfterRank(n: nat, u: nat, v: nat)
    requires IsPair(n, u, v)
    ensures PairAfter(n, Rank(n, u, v)) == (u, v)
    decreases Rank(n, u, v)
  {
    if v > u + 1 {
      PairAfterRank(n, u, v - 1);
      assert Rank(n, u, v) == Rank(n, u, v - 1) + 1;
    } else if u > 0 {
      PairAfterRank(n, u - 1, n - 1);
      assert Rank(n, u, v) == Rank(n, u - 1, n - 1) + 1;
    }
  }

  /**
    The k-th pair visited is the unique pair of rank k: every pair u < v < n
    is visited, and at step Rank(u, v).
  */
  lemma {:induction false} PairAfterIsPair(n: nat, k: nat)
    requires k < NChooseK(n, 2)
    ensures IsPair(n, PairAfter(n, k).0, PairAfter(n, k).1)
    ensures Rank(n, PairAfter(n, k).0, PairAfter(n, k).1) == k
  {
    NChooseTwo(n);
    if k == 0 {
      assert n >= 2;
    } else {
      PairAfterIsPair(n, k - 1);
      var (u, v) := PairAfter(n, k - 1);
      if IsLastPair(n, u, v) {
        RowStartClosed(n, n - 2);
        assert false;
      }
      if v < n - 1 {
        assert Rank(n, u, v + 1) == k;
      } else {
        assert RowStart(n, u + 1) == RowStart(n, u) + (n - u - 1);
      }
    }
  }

  /**
    Starting at (0, 1), the pairs visited by the first nchoosek(n, 2) states of
    the iterator are all pairs u < v < n, each exactly once, in strictly
    increasing lexicographic order.
  */
  lemma PairIteration(n: nat)
    ensures forall k :: 0 <= k < NChooseK(n, 2) ==>
      IsPair(n, PairAfter(n, k).0, PairAfter(n, k).1)
    ensures forall u, v :: IsPair(n, u, v) ==>
      Rank(n, u, v) < NChooseK(n, 2) && PairAfter(n, Rank(n, u, v)) == (u, v)
    ensures forall j, k :: 0 <= j < k < NChooseK(n, 2) ==>
      LexLess(PairAfter(n, j).0, PairAfter(n, j).1, PairAfter(n, k).0, PairAfter(n, k).1)
  {
    forall k | 0 <= k < NChooseK(n, 2)
      ensures IsPair(n, PairAfter(n, k).0, PairAfter(n, k).1)
    {
      PairAfterIsPair(n, k);
    }
    forall u, v | IsPair(n, u, v)
      ensures Rank(n, u, v) < NChooseK(n, 2) && PairAfter(n, Rank(n, u, v)) == (u, v)
    {
      RankBound(n, u, v);
      PairAfterRank(n, u, v);
    }
    forall j, k | 0 <= j < k < NChooseK(n, 2)
      ensures LexLess(PairAfter(n, j).0, PairAfter(n, j).1, PairAfter(n, k).0, PairAfter(n, k).1)
    {
      PairAfterIsPair(n, j);
      PairAfterIsPair(n, k);
      RankOrder(n, PairAfter(n, j).0, PairAfter(n, j).1, PairAfter(n, k).0, PairAfter(n, k).1);
    }
  }

  /** Rank is strictly monotone in the lexicographic order. */
  lemma RankOrder(n: nat, u: nat, v: nat, u': nat, v': nat)
    requires IsPair(n, u, v) && IsPair(n, u', v')
    requires Rank(n, u, v) < Rank(n, u', v')
    ensures LexLess(u, v, u', v')
  {
    if u' < u {
      RowStartMonotone(n, u' + 1, u);
      assert false;
    }
  }
}
