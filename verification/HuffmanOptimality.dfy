/**
 Huffman's procedure is optimal: no code of the counted symbols, prefix-free or
 merely satisfying Kraft's inequality, codes the data in fewer bits.
 */
module HuffmanOptimality {
  import opened Products
  import opened Bytes
  import opened HuffmanTree

  /** Kraft sum of the counted symbols in units of 2^-scale. */
  function Space(freq: seq<nat>, len: seq<nat>, scale: nat, n: nat): nat
    requires n <= |freq| && n <= |len| && Below(freq, len, scale)
    decreases n
  {
    if n == 0 then 0 else Space(freq, len, scale, n - 1) + if freq[n - 1] > 0 then Pow2(scale - len[n - 1]) else 0
  }

  predicate Below(freq: seq<nat>, len: seq<nat>, scale: nat) {
    forall i :: 0 <= i < |freq| && i < |len| && freq[i] > 0 ==> len[i] <= scale
  }

  /** The lengths satisfy Kraft's inequality. */
  predicate FitsSpace(freq: seq<nat>, len: seq<nat>, scale: nat) {
    |len| == |freq| && Below(freq, len, scale) && Space(freq, len, scale, |freq|) <= Pow2(scale)
  }

  lemma {:induction false} SpaceSet(freq: seq<nat>, len: seq<nat>, scale: nat, i: nat, v: nat, n: nat)
    requires i < |freq| == |len| && n <= |freq| && Below(freq, len, scale) && v <= scale && freq[i] > 0
    ensures Below(freq, len[i := v], scale)
    ensures Space(freq, len[i := v], scale, n) as int
            == Space(freq, len, scale, n) + if i < n then Pow2(scale - v) as int - Pow2(scale - len[i]) else 0
    decreases n
  {
    hide Pow2;
    if n > 0 {
      SpaceSet(freq, len, scale, i, v, n - 1);
    }
  }

  /** Taking a symbol out frees its part of the code space. */
  lemma {:induction false} SpaceWithout(freq: seq<nat>, len: seq<nat>, scale: nat, i: nat, n: nat)
    requires i < |freq| == |len| && n <= |freq| && Below(freq, len, scale) && freq[i] > 0
    ensures Below(freq[i := 0], len, scale)
    ensures Space(freq[i := 0], len, scale, n) as int
            == Space(freq, len, scale, n) - if i < n then Pow2(scale - len[i]) as int else 0
    decreases n
  {
    hide Pow2;
    if n > 0 {
      SpaceWithout(freq, len, scale, i, n - 1);
    }
  }

  lemma {:induction false} SpaceKeepsCount(freq: seq<nat>, len: seq<nat>, scale: nat, i: nat, v: nat, n: nat)
    requires i < |freq| == |len| && n <= |freq| && Below(freq, len, scale) && freq[i] > 0 && v > 0
    ensures Below(freq[i := v], len, scale)
    ensures Space(freq[i := v], len, scale, n) == Space(freq, len, scale, n)
    decreases n
  {
    hide Pow2;
    if n > 0 {
      SpaceKeepsCount(freq, len, scale, i, v, n - 1);
    }
  }

  lemma {:induction false} Rescale(freq: seq<nat>, len: seq<nat>, small: nat, scale: nat, n: nat)
    requires |freq| == |len| && n <= |freq| && small <= scale && Below(freq, len, small)
    ensures Below(freq, len, scale)
    ensures Space(freq, len, scale, n) == Space(freq, len, small, n) * Pow2(scale - small)
    decreases n
  {
    hide Pow2;
    if n > 0 {
      Rescale(freq, len, small, scale, n - 1);
      if freq[n - 1] > 0 {
        Pow2Add(small - len[n - 1], scale - small);
        MulSum(Space(freq, len, small, n - 1), Pow2(small - len[n - 1]), Pow2(scale - small));
      }
    }
  }

  lemma {:induction false} SpaceAtLeast(freq: seq<nat>, len: seq<nat>, scale: nat, i: nat, n: nat)
    requires |freq| == |len| && i < n <= |freq| && Below(freq, len, scale) && freq[i] > 0
    ensures Space(freq, len, scale, n) >= Pow2(scale - len[i])
    decreases n
  {
    hide Pow2;
    if i < n - 1 {
      SpaceAtLeast(freq, len, scale, i, n - 1);
    }
  }

  lemma {:induction false} CostSet(freq: seq<nat>, len: seq<nat>, i: nat, v: nat, n: nat)
    requires i < |freq| == |len| && n <= |freq|
    ensures Cost(freq, len[i := v], n) as int == Cost(freq, len, n) + if i < n then freq[i] * v - freq[i] * len[i] else 0
    decreases n
  {
    if n > 0 {
      CostSet(freq, len, i, v, n - 1);
    }
  }

  lemma {:induction false} CostCount(freq: seq<nat>, len: seq<nat>, i: nat, v: nat, n: nat)
    requires i < |freq| == |len| && n <= |freq|
    ensures Cost(freq[i := v], len, n) as int == Cost(freq, len, n) + if i < n then v * len[i] - freq[i] * len[i] else 0
    decreases n
  {
    if n > 0 {
      CostCount(freq, len, i, v, n - 1);
    }
  }

  /** A counted symbol other than `skip` with the longest code word. */
  function Longest(freq: seq<nat>, len: seq<nat>, skip: int, n: nat): (x: int)
    requires n <= |freq| && n <= |len|
    ensures -1 <= x < n
    ensures x >= 0 ==> freq[x] > 0 && x != skip
    ensures forall i :: 0 <= i < n && freq[i] > 0 && i != skip ==> x >= 0 && len[i] <= len[x]
    decreases n
  {
    if n == 0 then -1 else
    var x := Longest(freq, len, skip, n - 1);
    if freq[n - 1] > 0 && n - 1 != skip && (x < 0 || len[n - 1] > len[x]) then n - 1 else x
  }

  lemma SwapGain(a: nat, b: nat, p: nat, q: nat)
    requires a <= b && p <= q
    ensures a * q + b * p <= a * p + b * q
  {
    MulMonotone(a, b, q - p);
  }

  /** Giving the longer word to the rarer symbol costs nothing and takes no space. */
  lemma Swap(freq: seq<nat>, len: seq<nat>, scale: nat, c: nat, x: nat) returns (r: seq<nat>)
    requires FitsSpace(freq, len, scale) && c < |freq| && x < |freq| && freq[c] > 0 && freq[x] > 0
    requires freq[c] <= freq[x] && len[c] <= len[x]
    ensures r == len[c := len[x]][x := len[c]]
    ensures FitsSpace(freq, r, scale) && Cost(freq, r, |freq|) <= Cost(freq, len, |freq|)
  {
    hide Pow2, Space, Cost;
    r := len[c := len[x]][x := len[c]];
    if c == x {
      assert r == len;
    } else {
      SpaceSet(freq, len, scale, c, len[x], |freq|);
      SpaceSet(freq, len[c := len[x]], scale, x, len[c], |freq|);
      CostSet(freq, len, c, len[x], |freq|);
      CostSet(freq, len[c := len[x]], x, len[c], |freq|);
      SwapGain(freq[c], freq[x], len[c], len[x]);
    }
  }

  /** The longest word may be shortened to the length of the next longest. */
  lemma Shorten(freq: seq<nat>, len: seq<nat>, scale: nat, c1: nat, c2: nat) returns (r: seq<nat>)
    requires FitsSpace(freq, len, scale) && c1 < |freq| && c2 < |freq| && c1 != c2 && freq[c1] > 0 && freq[c2] > 0
    requires len[c2] <= len[c1]
    requires forall i :: 0 <= i < |freq| && freq[i] > 0 && i != c1 ==> len[i] <= len[c2]
    ensures r == len[c1 := len[c2]]
    ensures FitsSpace(freq, r, scale) && Cost(freq, r, |freq|) <= Cost(freq, len, |freq|)
  {
    hide Pow2, Space, Cost;
    var n, m, others := |freq|, len[c2], freq[c1 := 0];
    r := len[c1 := m];
    SpaceWithout(freq, len, scale, c1, n);
    Rescale(others, len, m, scale, n);
    SpaceSet(freq, len, scale, c1, m, n);
    CostSet(freq, len, c1, m, n);
    MulMonotone(m, len[c1], freq[c1]);
    Pow2Add(m, scale - m);
    var q, p, t := Space(others, len, m, n), Pow2(scale - m), Pow2(m);
    assert q * p < t * p;
    CancelOrder(q, t, p);
    MulMonotone(q + 1, t, p);
    MulSum(q, 1, p);
  }

  /** Two longest words of equal length become one word of the merged symbol. */
  lemma Join(freq: seq<nat>, len: seq<nat>, scale: nat, c1: nat, c2: nat) returns (r: seq<nat>)
    requires FitsSpace(freq, len, scale) && c1 < |freq| && c2 < |freq| && c1 != c2 && freq[c1] > 0 && freq[c2] > 0
    requires len[c1] == len[c2]
    ensures FitsSpace(MergeCounts(freq, c1, c2), r, scale)
    ensures Cost(MergeCounts(freq, c1, c2), r, |freq|) + freq[c1] + freq[c2] == Cost(freq, len, |freq|)
  {
    var n, m := |freq|, len[c1];
    var p := Pow2(scale - m);
    assert m > 0 ==> Pow2(scale - (m - 1)) == 2 * p;
    hide Pow2, Space, Cost;
    SpaceWithout(freq, len, scale, c2, n);
    var f1 := freq[c2 := 0];
    SpaceAtLeast(f1, len, scale, c1, n);
    assert m > 0;
    SpaceSet(f1, len, scale, c1, m - 1, n);
    r := len[c1 := m - 1];
    var f2 := f1[c1 := freq[c1] + freq[c2]];
    SpaceKeepsCount(f1, r, scale, c1, freq[c1] + freq[c2], n);
    assert f2 == MergeCounts(freq, c1, c2);
    CostSet(freq, len, c1, m - 1, n);
    CostCount(freq, r, c2, 0, n);
    CostCount(f1, r, c1, freq[c1] + freq[c2], n);
    JoinCost(freq[c1], freq[c2], m);
  }

  lemma JoinCost(a: nat, b: nat, m: nat)
    requires m > 0
    ensures a * (m - 1) == a * m - a && (a + b) * (m - 1) == a * m + b * m - a - b
  {
    MulSum(a, b, m - 1);
  }

  /** No lengths within Kraft's inequality cost less than the merges. */
  lemma {:induction false} LowerBound(freq: seq<nat>, len: seq<nat>, scale: nat)
    requires |freq| == SYMBOLS && FitsSpace(freq, len, scale)
    ensures Remaining(freq) <= Cost(freq, len, |freq|)
    decreases Roots(freq, |freq|)
  {
    hide FitsSpace, Cost, Remaining, Roots, Pick, Longest;
    var n := |freq|;
    RemainingStep(freq);
    var c1 := Pick(freq, -1, n);
    var c2 := Pick(freq, c1, n);
    if c2 >= 0 {
      assert |len| == n by { SameLength(freq, len, scale); }
      var l1 := Swap(freq, len, scale, c1, Longest(freq, len, -1, n));
      var y := Longest(freq, l1, c1, n);
      var l2 := Swap(freq, l1, scale, c2, y);
      var l3 := Shorten(freq, l2, scale, c1, c2);
      var l4 := Join(freq, l3, scale, c1, c2);
      MergeLess(freq, c1, c2, n);
      LowerBound(MergeCounts(freq, c1, c2), l4, scale);
    }
  }

  lemma SameLength(freq: seq<nat>, len: seq<nat>, scale: nat)
    requires FitsSpace(freq, len, scale)
    ensures |len| == |freq|
  {
  }

  /** The sizes found by merging code the data in the fewest bits. */
  lemma Optimal(orig: seq<nat>, sizes: seq<nat>, len: seq<nat>, scale: nat)
    requires |orig| == SYMBOLS == |sizes| && Cost(orig, sizes, SYMBOLS) == Remaining(orig)
    requires FitsSpace(orig, len, scale)
    ensures Cost(orig, sizes, SYMBOLS) <= Cost(orig, len, SYMBOLS)
  {
    hide Cost, Remaining;
    LowerBound(orig, len, scale);
  }
}
