/**
 Huffman's merging procedure as jpeg_gen_optimal_table runs it (section K.2 of
 ITU-T T.81): trees as chains through an array of links.
 */
module HuffmanTree {

  const SYMBOLS := 257

  // ----- choosing the smallest count

  /** The symbol with the smallest nonzero count below `n`, other than `skip`; the larger symbol on ties. */
  function Pick(freq: seq<nat>, skip: int, n: nat): (c: int)
    requires n <= |freq|
    ensures -1 <= c < n
    ensures c >= 0 ==> freq[c] > 0 && c != skip
    ensures forall i :: 0 <= i < n && freq[i] > 0 && i != skip ==> c >= 0 && freq[c] <= freq[i]
    decreases n
  {
    if n == 0 then -1 else
    var c := Pick(freq, skip, n - 1);
    if freq[n - 1] > 0 && n - 1 != skip && (c < 0 || freq[n - 1] <= freq[c]) then n - 1 else c
  }

  const MAX_COUNT := 1000000000

  method FindSmallest(freq: array<nat>, skip: int) returns (c: int)
    requires freq.Length == SYMBOLS
    requires forall i :: 0 <= i < SYMBOLS ==> freq[i] <= MAX_COUNT
    ensures c == Pick(freq[..], skip, SYMBOLS)
  {
    c := -1;
    var v := MAX_COUNT;
    var i := 0;
    while i <= 256
      invariant 0 <= i <= 257 && c == Pick(freq[..], skip, i) && v == if c < 0 then MAX_COUNT else freq[c]
    {
      if freq[i] != 0 && freq[i] <= v && i != skip {
        v := freq[i];
        c := i;
      }
      i := i + 1;
    }
  }

  // ----- trees

  /** Sum of the values of the leaves of tree `c`; `own` names the tree of each symbol. */
  function LeafSum(own: seq<int>, c: int, val: seq<nat>, n: nat): nat
    requires n <= |own| && n <= |val|
    decreases n
  {
    if n == 0 then 0 else LeafSum(own, c, val, n - 1) + if own[n - 1] == c then val[n - 1] else 0
  }

  function Half(n: nat): (h: real)
    ensures h > 0.0
    decreases n
  {
    if n == 0 then 1.0 else Half(n - 1) / 2.0
  }

  /** Kraft sum of the leaves of tree `c`. */
  function Kraft(own: seq<int>, c: int, sizes: seq<nat>, n: nat): real
    requires n <= |own| && n <= |sizes|
    decreases n
  {
    if n == 0 then 0.0 else Kraft(own, c, sizes, n - 1) + if own[n - 1] == c then Half(sizes[n - 1]) else 0.0
  }

  /** The links lead through the chain and end there. */
  predicate Linked(others: seq<int>, ch: seq<nat>) {
    && (forall k :: 0 <= k < |ch| ==> ch[k] < |others|)
    && (forall k :: 0 <= k < |ch| - 1 ==> others[ch[k]] == ch[k + 1])
    && (ch != [] ==> others[ch[|ch| - 1]] == -1)
    && (forall i, j :: 0 <= i < j < |ch| ==> ch[i] != ch[j])
  }

  /** Chains of leaves, one for each root; roots are the symbols with nonzero count. */
  ghost predicate Chains(freq: seq<nat>, others: seq<int>, own: seq<int>, chains: seq<seq<nat>>) {
    && |freq| == SYMBOLS && |others| == SYMBOLS && |own| == SYMBOLS && |chains| == SYMBOLS
    && (forall c :: 0 <= c < SYMBOLS ==> Linked(others, chains[c]) && (freq[c] > 0 <==> chains[c] != []))
    && (forall c :: 0 <= c < SYMBOLS && chains[c] != [] ==> chains[c][0] == c)
    && (forall c, s :: 0 <= c < SYMBOLS && 0 <= s < SYMBOLS ==> (s in chains[c] <==> own[s] == c))
    && (forall s :: 0 <= s < SYMBOLS ==> -1 <= own[s] < SYMBOLS)
  }

  function Merged(own: seq<int>, c1: int, c2: int): (r: seq<int>)
    ensures |r| == |own|
  {
    seq(|own|, s requires 0 <= s < |own| => if own[s] == c2 then c1 else own[s])
  }

  /** Chaining one tree onto another gives chains again. */
  lemma ChainsMerged(freq: seq<nat>, others: seq<int>, own: seq<int>, chains: seq<seq<nat>>, c1: nat, c2: nat, last: nat)
    requires Chains(freq, others, own, chains) && c1 < SYMBOLS && c2 < SYMBOLS && c1 != c2
    requires freq[c1] > 0 && freq[c2] > 0 && last == chains[c1][|chains[c1]| - 1]
    ensures last < SYMBOLS
    ensures Chains(freq[c1 := freq[c1] + freq[c2]][c2 := 0], others[last := c2], Merged(own, c1, c2),
                   chains[c1 := chains[c1] + chains[c2]][c2 := []])
  {
    var freq', others' := freq[c1 := freq[c1] + freq[c2]][c2 := 0], others[last := c2];
    var own', chains' := Merged(own, c1, c2), chains[c1 := chains[c1] + chains[c2]][c2 := []];
    var a, b := chains[c1], chains[c2];
    assert last in a && own[last] == c1;
    forall c | 0 <= c < SYMBOLS ensures Linked(others', chains'[c]) {
      if c == c1 {
        forall i, j | 0 <= i < j < |a + b| ensures (a + b)[i] != (a + b)[j] {
          if i < |a| <= j {
            assert a[i] in a && own[a[i]] == c1;
            assert b[j - |a|] in b && own[b[j - |a|]] == c2;
          } else if |a| <= i {
            assert b[i - |a|] != b[j - |a|];
          }
        }
        forall k | 0 <= k < |a + b| - 1 ensures others'[(a + b)[k]] == (a + b)[k + 1] {
          if k >= |a| {
            assert b[k - |a|] in b;
          }
        }
        assert b[|b| - 1] in b;
      } else if c != c2 {
        assert last !in chains[c];
      }
    }
  }

  lemma {:induction false} LeafSumMerged(own: seq<int>, c1: int, c2: int, val: seq<nat>, n: nat)
    requires n <= |own| && n <= |val| && c1 != c2
    ensures LeafSum(Merged(own, c1, c2), c1, val, n) == LeafSum(own, c1, val, n) + LeafSum(own, c2, val, n)
    ensures forall c :: c != c1 && c != c2 ==> LeafSum(Merged(own, c1, c2), c, val, n) == LeafSum(own, c, val, n)
    decreases n
  {
    if n > 0 {
      LeafSumMerged(own, c1, c2, val, n - 1);
    }
  }

  lemma {:induction false} KraftMerged(own: seq<int>, c1: int, c2: int, sizes: seq<nat>, n: nat)
    requires n <= |own| && n <= |sizes| && c1 != c2
    ensures Kraft(Merged(own, c1, c2), c1, sizes, n) == Kraft(own, c1, sizes, n) + Kraft(own, c2, sizes, n)
    ensures forall c :: c != c1 && c != c2 ==> Kraft(Merged(own, c1, c2), c, sizes, n) == Kraft(own, c, sizes, n)
    decreases n
  {
    if n > 0 {
      KraftMerged(own, c1, c2, sizes, n - 1);
    }
  }

  /** The sizes of two trees one level deeper. */
  function Deeper(own: seq<int>, c1: int, c2: int, sizes: seq<nat>): (r: seq<nat>)
    requires |own| == |sizes|
    ensures |r| == |sizes|
  {
    seq(|sizes|, s requires 0 <= s < |sizes| => if own[s] == c1 || own[s] == c2 then sizes[s] + 1 else sizes[s])
  }

  lemma {:induction false} KraftDeeper(own: seq<int>, c1: int, c2: int, sizes: seq<nat>, c: int, n: nat)
    requires |own| == |sizes| && n <= |own|
    ensures Kraft(own, c, Deeper(own, c1, c2, sizes), n)
            == if c == c1 || c == c2 then Kraft(own, c, sizes, n) / 2.0 else Kraft(own, c, sizes, n)
    decreases n
  {
    if n > 0 {
      KraftDeeper(own, c1, c2, sizes, c, n - 1);
    }
  }

  /** Every tree is a complete code, and its root holds the sum of its leaves' counts. */
  predicate Trees(orig: seq<nat>, freq: seq<nat>, own: seq<int>, sizes: seq<nat>) {
    && |orig| == SYMBOLS && |freq| == SYMBOLS && |own| == SYMBOLS && |sizes| == SYMBOLS
    && (forall c :: 0 <= c < SYMBOLS && freq[c] > 0 ==> Kraft(own, c, sizes, SYMBOLS) == 1.0)
    && (forall c :: 0 <= c < SYMBOLS && freq[c] > 0 ==> LeafSum(own, c, orig, SYMBOLS) == freq[c])
    && (forall c :: 0 <= c < SYMBOLS && freq[c] > 0 ==> own[c] == c)
    && (forall s :: 0 <= s < SYMBOLS ==> -1 <= own[s] && (own[s] == -1 <==> orig[s] == 0))
    && (forall s :: 0 <= s < SYMBOLS && own[s] == -1 ==> sizes[s] == 0)
    && (forall s :: 0 <= s < SYMBOLS && own[s] >= 0 ==> own[s] < SYMBOLS && freq[own[s]] > 0)
    && (forall s :: 0 <= s < SYMBOLS && own[s] >= 0 && own[s] != s ==> sizes[s] > 0 && sizes[own[s]] > 0)
  }

  lemma TreesMerged(orig: seq<nat>, freq: seq<nat>, own: seq<int>, sizes: seq<nat>, c1: nat, c2: nat)
    requires Trees(orig, freq, own, sizes) && c1 < SYMBOLS && c2 < SYMBOLS && c1 != c2 && freq[c1] > 0 && freq[c2] > 0
    ensures Trees(orig, freq[c1 := freq[c1] + freq[c2]][c2 := 0], Merged(own, c1, c2), Deeper(own, c1, c2, sizes))
  {
    hide Kraft, LeafSum;
    var freq' := freq[c1 := freq[c1] + freq[c2]][c2 := 0];
    var own', sizes' := Merged(own, c1, c2), Deeper(own, c1, c2, sizes);
    LeafSumMerged(own, c1, c2, orig, SYMBOLS);
    KraftMerged(own, c1, c2, sizes', SYMBOLS);
    forall c {:trigger Kraft(own, c, sizes', SYMBOLS)} | true
      ensures Kraft(own, c, sizes', SYMBOLS)
              == if c == c1 || c == c2 then Kraft(own, c, sizes, SYMBOLS) / 2.0 else Kraft(own, c, sizes, SYMBOLS)
    {
      KraftDeeper(own, c1, c2, sizes, c, SYMBOLS);
    }
    forall c | 0 <= c < SYMBOLS && freq'[c] > 0
      ensures Kraft(own', c, sizes', SYMBOLS) == 1.0
      ensures LeafSum(own', c, orig, SYMBOLS) == freq'[c]
    {
      if c == c1 {
        assert Kraft(own, c1, sizes', SYMBOLS) == 0.5 && Kraft(own, c2, sizes', SYMBOLS) == 0.5;
      }
    }
  }

  // ----- how deep trees get

  /** Fibonacci numbers: the least count at the root of a tree with a leaf at depth `d`. */
  function Least(d: nat): (g: nat)
    ensures g > 0
    decreases d
  {
    if d == 0 then 1 else if d == 1 then 2 else Least(d - 1) + Least(d - 2)
  }

  predicate DepthsOk(freq: seq<nat>, own: seq<int>, sizes: seq<nat>) {
    && |freq| == SYMBOLS && |own| == SYMBOLS && |sizes| == SYMBOLS
    && (forall s :: 0 <= s < SYMBOLS ==> own[s] < SYMBOLS)
    && (forall s :: 0 <= s < SYMBOLS && own[s] >= 0 ==> freq[own[s]] >= Least(sizes[s]))
    && (forall s, q :: 0 <= s < SYMBOLS && own[s] >= 0 && sizes[s] > 0 && 0 <= q < SYMBOLS && freq[q] > 0 ==>
          freq[q] >= Least(sizes[s] - 1))
  }

  /** Merging the two smallest keeps every count at least a Fibonacci number of the depth. */
  lemma DepthsMerged(freq: seq<nat>, own: seq<int>, sizes: seq<nat>, c1: nat, c2: nat)
    requires DepthsOk(freq, own, sizes) && c1 < SYMBOLS && c2 < SYMBOLS && c1 != c2 && freq[c1] > 0 && freq[c2] > 0
    requires forall q :: 0 <= q < SYMBOLS && freq[q] > 0 && q != c1 && q != c2 ==> freq[c1] <= freq[q] && freq[c2] <= freq[q]
    ensures DepthsOk(freq[c1 := freq[c1] + freq[c2]][c2 := 0], Merged(own, c1, c2), Deeper(own, c1, c2, sizes))
  {
    hide Least;
    LeastStep();
    var freq', own', sizes' := freq[c1 := freq[c1] + freq[c2]][c2 := 0], Merged(own, c1, c2), Deeper(own, c1, c2, sizes);
    forall s | 0 <= s < SYMBOLS && own'[s] >= 0 ensures freq'[own'[s]] >= Least(sizes'[s]) {
      if own[s] == c1 || own[s] == c2 {
        LeastNext(sizes[s], freq[own[s]], freq[if own[s] == c1 then c2 else c1]);
      }
    }
  }

  lemma LeastStep()
    ensures Least(0) == 1 && Least(1) == 2
  {
  }

  lemma LeastNext(d: nat, own: nat, other: nat)
    requires own >= Least(d) && other > 0 && (d > 0 ==> other >= Least(d - 1))
    ensures own + other >= Least(d + 1)
  {
  }

  // ----- what is still to be merged

  function Roots(freq: seq<nat>, n: nat): nat
    requires n <= |freq|
    decreases n
  {
    if n == 0 then 0 else Roots(freq, n - 1) + if freq[n - 1] > 0 then 1 else 0
  }

  lemma {:induction false} RootsSet(freq: seq<nat>, i: nat, v: nat, n: nat)
    requires i < |freq| && n <= |freq|
    ensures Roots(freq[i := v], n)
            == Roots(freq, n) + if i >= n || ((v > 0) == (freq[i] > 0)) then 0 else if v > 0 then 1 else -1
    decreases n
  {
    if n > 0 {
      RootsSet(freq, i, v, n - 1);
    }
  }

  function MergeCounts(freq: seq<nat>, c1: nat, c2: nat): (r: seq<nat>)
    requires c1 < |freq| && c2 < |freq|
    ensures |r| == |freq|
  {
    freq[c1 := freq[c1] + freq[c2]][c2 := 0]
  }

  lemma MergeLess(freq: seq<nat>, c1: nat, c2: nat, n: nat)
    requires n == |freq| && c1 < n && c2 < n && c1 != c2 && freq[c1] > 0 && freq[c2] > 0
    ensures Roots(MergeCounts(freq, c1, c2), n) == Roots(freq, n) - 1
  {
    hide Roots;
    RootsSet(freq, c1, freq[c1] + freq[c2], n);
    RootsSet(freq[c1 := freq[c1] + freq[c2]], c2, 0, n);
  }

  /** Sum of the counts of all merges to come: the cost of the code in bits. */
  function Remaining(freq: seq<nat>): nat
    requires |freq| == SYMBOLS
    decreases Roots(freq, |freq|)
  {
    var c1 := Pick(freq, -1, SYMBOLS);
    var c2 := Pick(freq, c1, SYMBOLS);
    if c2 < 0 then 0 else
    MergeLess(freq, c1, c2, |freq|);
    freq[c1] + freq[c2] + Remaining(MergeCounts(freq, c1, c2))
  }

  /** Length of the data coded with code words of the given sizes. */
  function Cost(val: seq<nat>, sizes: seq<nat>, n: nat): nat
    requires n <= |val| && n <= |sizes|
    decreases n
  {
    if n == 0 then 0 else Cost(val, sizes, n - 1) + val[n - 1] * sizes[n - 1]
  }

  lemma {:induction false} CostDeeper(own: seq<int>, c1: int, c2: int, val: seq<nat>, sizes: seq<nat>, n: nat)
    requires |own| == |sizes| && n <= |own| && n <= |val| && c1 != c2
    ensures Cost(val, Deeper(own, c1, c2, sizes), n)
            == Cost(val, sizes, n) + LeafSum(own, c1, val, n) + LeafSum(own, c2, val, n)
    decreases n
  {
    if n > 0 {
      CostDeeper(own, c1, c2, val, sizes, n - 1);
      assert val[n - 1] * (sizes[n - 1] + 1) == val[n - 1] * sizes[n - 1] + val[n - 1];
    }
  }

  function Sum(val: seq<nat>, n: nat): nat
    requires n <= |val|
    decreases n
  {
    if n == 0 then 0 else Sum(val, n - 1) + val[n - 1]
  }

  lemma {:induction false} SumSet(val: seq<nat>, i: nat, v: nat, n: nat)
    requires i < |val| && n <= |val|
    ensures Sum(val[i := v], n) == Sum(val, n) + if i < n then v - val[i] else 0
    decreases n
  {
    if n > 0 {
      SumSet(val, i, v, n - 1);
    }
  }

  lemma {:induction false} SumBounds(val: seq<nat>, n: nat)
    requires n <= |val|
    ensures forall i :: 0 <= i < n ==> val[i] <= Sum(val, n)
    decreases n
  {
    if n > 0 {
      SumBounds(val, n - 1);
    }
  }

  lemma SumMerged(freq: seq<nat>, c1: nat, c2: nat, n: nat)
    requires n == |freq| && c1 < n && c2 < n && c1 != c2
    ensures Sum(MergeCounts(freq, c1, c2), n) == Sum(freq, n)
  {
    SumSet(freq, c1, freq[c1] + freq[c2], n);
    SumSet(freq[c1 := freq[c1] + freq[c2]], c2, 0, n);
  }

  // ----- the procedure

  lemma ChainLink(others: seq<int>, ch: seq<nat>, k: nat)
    requires Linked(others, ch) && k < |ch|
    ensures ch[k] < |others| && others[ch[k]] == if k < |ch| - 1 then ch[k + 1] else -1
  {
  }

  /** Adds one to the size of every leaf of a chain and returns the last. */
  method IncrementChain(codesize: array<nat>, others: array<int>, c: nat, ghost ch: seq<nat>) returns (last: nat)
    requires codesize.Length == SYMBOLS && others.Length == SYMBOLS && codesize as object != others as object
    requires ch != [] && ch[0] == c && Linked(others[..], ch)
    modifies codesize
    ensures last == ch[|ch| - 1]
    ensures forall s :: 0 <= s < SYMBOLS ==> codesize[s] == old(codesize[s]) + if s in ch then 1 else 0
  {
    ghost var links := others[..];
    last := c;
    codesize[last] := codesize[last] + 1;
    ghost var k := 0;
    while others[last] >= 0
      invariant others[..] == links && 0 <= k < |ch| && last == ch[k]
      invariant forall s :: 0 <= s < SYMBOLS ==> codesize[s] == old(codesize[s]) + if s in ch[..k + 1] then 1 else 0
      decreases |ch| - k
    {
      assert links[ch[k]] == others[last] >= 0;
      assert k < |ch| - 1 && links[ch[k]] == ch[k + 1];
      last := others[last];
      k := k + 1;
      assert ch[..k + 1] == ch[..k] + [last];
      assert forall i :: 0 <= i < k ==> ch[i] != ch[k];
      codesize[last] := codesize[last] + 1;
    }
    assert links[ch[k]] == others[last] < 0;
    ChainLink(links, ch, k);
    assert ch[..|ch|] == ch;
  }

  /** One tree for each counted symbol. */
  function OwnTrees(freq: seq<nat>): (own: seq<int>)
    ensures |own| == |freq|
  {
    seq(|freq|, s requires 0 <= s < |freq| => if freq[s] > 0 then s else -1)
  }

  function OwnChains(freq: seq<nat>): (r: seq<seq<nat>>)
    ensures |r| == |freq|
  {
    seq(|freq|, c requires 0 <= c < |freq| => if freq[c] > 0 then [c] else [])
  }

  lemma {:induction false} OwnSums(freq: seq<nat>, sizes: seq<nat>, c: nat, n: nat)
    requires n <= |freq| == |sizes| && c < |freq| && freq[c] > 0 && forall s :: 0 <= s < |sizes| ==> sizes[s] == 0
    ensures LeafSum(OwnTrees(freq), c, freq, n) == (if c < n then freq[c] else 0)
    ensures Kraft(OwnTrees(freq), c, sizes, n) == if c < n then 1.0 else 0.0
    decreases n
  {
    if n > 0 {
      OwnSums(freq, sizes, c, n - 1);
    }
  }

  lemma StartTrees(freq: seq<nat>, sizes: seq<nat>)
    requires |freq| == SYMBOLS && |sizes| == SYMBOLS && forall s :: 0 <= s < SYMBOLS ==> sizes[s] == 0
    ensures Trees(freq, freq, OwnTrees(freq), sizes) && DepthsOk(freq, OwnTrees(freq), sizes)
  {
    hide LeafSum, Kraft;
    forall c | 0 <= c < SYMBOLS && freq[c] > 0
      ensures LeafSum(OwnTrees(freq), c, freq, SYMBOLS) == freq[c] && Kraft(OwnTrees(freq), c, sizes, SYMBOLS) == 1.0
    {
      OwnSums(freq, sizes, c, SYMBOLS);
    }
  }

  lemma {:induction false} CostZero(val: seq<nat>, sizes: seq<nat>, n: nat)
    requires n <= |val| && n <= |sizes| && forall s :: 0 <= s < n ==> sizes[s] == 0
    ensures Cost(val, sizes, n) == 0
    decreases n
  {
    if n > 0 {
      CostZero(val, sizes, n - 1);
    }
  }

  /** What holds when all counts are in one tree: a complete code of the counted symbols. */
  predicate CompleteCode(orig: seq<nat>, sizes: seq<nat>) {
    && |orig| == SYMBOLS && |sizes| == SYMBOLS
    && CodeSum(sizes, SYMBOLS) == 1.0
    && forall s :: 0 <= s < SYMBOLS ==> (sizes[s] > 0 <==> orig[s] > 0)
  }

  /** Kraft sum of all symbols with a code word. */
  function CodeSum(sizes: seq<nat>, n: nat): real
    requires n <= |sizes|
    decreases n
  {
    if n == 0 then 0.0 else CodeSum(sizes, n - 1) + if sizes[n - 1] > 0 then Half(sizes[n - 1]) else 0.0
  }

  lemma {:induction false} WholeKraft(own: seq<int>, c: int, sizes: seq<nat>, n: nat)
    requires n <= |own| && n <= |sizes| && forall s :: 0 <= s < n ==> (own[s] == c <==> sizes[s] > 0)
    ensures Kraft(own, c, sizes, n) == CodeSum(sizes, n)
    decreases n
  {
    if n > 0 {
      WholeKraft(own, c, sizes, n - 1);
    }
  }

  lemma {:induction false} WholeSum(own: seq<int>, c: int, val: seq<nat>, n: nat)
    requires n <= |own| && n <= |val| && forall s :: 0 <= s < n && own[s] != c ==> val[s] == 0
    ensures LeafSum(own, c, val, n) == Sum(val, n)
    decreases n
  {
    if n > 0 {
      WholeSum(own, c, val, n - 1);
    }
  }

  /** With one root left, the tree is a complete code of all counted symbols. */
  lemma OneTree(orig: seq<nat>, freq: seq<nat>, own: seq<int>, sizes: seq<nat>, c: nat)
    requires Trees(orig, freq, own, sizes) && DepthsOk(freq, own, sizes) && c < SYMBOLS && freq[c] > 0
    requires forall i :: 0 <= i < SYMBOLS && i != c ==> freq[i] == 0
    requires exists s :: 0 <= s < SYMBOLS && s != c && orig[s] > 0
    ensures CompleteCode(orig, sizes)
    ensures forall s :: 0 <= s < SYMBOLS ==> Least(sizes[s]) <= Sum(orig, SYMBOLS)
  {
    hide Kraft, LeafSum, CodeSum, Least, Sum;
    assert forall s :: 0 <= s < SYMBOLS && own[s] >= 0 ==> own[s] == c;
    var r :| 0 <= r < SYMBOLS && r != c && orig[r] > 0;
    assert own[r] == c && own[c] == c;
    WholeKraft(own, c, sizes, SYMBOLS);
    WholeSum(own, c, orig, SYMBOLS);
    SumBounds(orig, SYMBOLS);
    LeastStep();
  }

  /** What holds between merges. */
  ghost predicate Merging(orig: seq<nat>, freq: seq<nat>, others: seq<int>, sizes: seq<nat>,
                          own: seq<int>, chains: seq<seq<nat>>) {
    && |orig| == SYMBOLS && |freq| == SYMBOLS && |sizes| == SYMBOLS
    && |others| == SYMBOLS && |own| == SYMBOLS && |chains| == SYMBOLS
    && Chains(freq, others, own, chains) && Trees(orig, freq, own, sizes) && DepthsOk(freq, own, sizes)
    && Sum(freq, SYMBOLS) == Sum(orig, SYMBOLS)
    && Cost(orig, sizes, SYMBOLS) + Remaining(freq) == Remaining(orig)
    && SomeRoot(freq)
  }

  predicate SomeRoot(freq: seq<nat>) {
    exists i :: 0 <= i < |freq| && freq[i] > 0
  }

  lemma StillSomeRoot(freq: seq<nat>, c1: nat, c2: nat)
    requires c1 < |freq| && c2 < |freq| && c1 != c2 && freq[c1] > 0
    ensures SomeRoot(MergeCounts(freq, c1, c2))
  {
    assert MergeCounts(freq, c1, c2)[c1] > 0;
  }

  lemma FirstPick(freq: seq<nat>, n: nat)
    requires SomeRoot(freq) && n == |freq|
    ensures 0 <= Pick(freq, -1, n) < n
  {
    hide Pick;
    var i :| 0 <= i < |freq| && freq[i] > 0;
  }

  /** One merge. */
  lemma MergingNext(orig: seq<nat>, freq: seq<nat>, others: seq<int>, sizes: seq<nat>,
                    own: seq<int>, chains: seq<seq<nat>>, c1: nat, c2: nat)
    requires Merging(orig, freq, others, sizes, own, chains)
    requires c1 == Pick(freq, -1, SYMBOLS) && c2 == Pick(freq, c1, SYMBOLS)
    ensures |chains| == SYMBOLS && |others| == SYMBOLS && |own| == SYMBOLS && c1 < SYMBOLS && c2 < SYMBOLS
    ensures c1 != c2 && freq[c1] > 0 && freq[c2] > 0
    ensures Linked(others, chains[c1]) && chains[c1] != [] && chains[c1][0] == c1
    ensures var last := chains[c1][|chains[c1]| - 1];
            && last < SYMBOLS && Linked(others[last := c2], chains[c2]) && chains[c2] != [] && chains[c2][0] == c2
            && Merging(orig, MergeCounts(freq, c1, c2), others[last := c2], Deeper(own, c1, c2, sizes),
                       Merged(own, c1, c2), chains[c1 := chains[c1] + chains[c2]][c2 := []])
    ensures forall s :: 0 <= s < SYMBOLS ==>
              (s in chains[c1] <==> own[s] == c1) && (s in chains[c2] <==> own[s] == c2)
    ensures Roots(MergeCounts(freq, c1, c2), SYMBOLS) < Roots(freq, SYMBOLS)
  {
    hide Pick, Remaining, Roots, Sum, Cost, LeafSum, Chains, Trees, DepthsOk;
    var a := chains[c1];
    ChainFacts(freq, others, own, chains, c1);
    ChainFacts(freq, others, own, chains, c2);
    ChainsMerged(freq, others, own, chains, c1, c2, a[|a| - 1]);
    SecondChain(freq, others, own, chains, c1, c2);
    TreesMerged(orig, freq, own, sizes, c1, c2);
    DepthsMerged(freq, own, sizes, c1, c2);
    TreeSums(orig, freq, own, sizes);
    CostDeeper(own, c1, c2, orig, sizes, SYMBOLS);
    RemainingStep(freq);
    MergeLess(freq, c1, c2, |freq|);
    SumMerged(freq, c1, c2, SYMBOLS);
    StillSomeRoot(freq, c1, c2);
  }

  /** The end of the procedure. */
  lemma MergingDone(orig: seq<nat>, freq: seq<nat>, others: seq<int>, sizes: seq<nat>, own: seq<int>, chains: seq<seq<nat>>)
    requires Merging(orig, freq, others, sizes, own, chains)
    requires exists r, s :: 0 <= r < s < SYMBOLS && orig[r] > 0 && orig[s] > 0
    requires Pick(freq, Pick(freq, -1, SYMBOLS), SYMBOLS) < 0
    ensures CompleteCode(orig, sizes) && Cost(orig, sizes, SYMBOLS) == Remaining(orig)
    ensures forall s :: 0 <= s < SYMBOLS ==> Least(sizes[s]) <= Sum(orig, SYMBOLS)
  {
    hide Pick, Remaining, Roots, Sum, Cost, LeafSum, Chains, Trees, DepthsOk, CompleteCode, Least;
    FirstPick(freq, SYMBOLS);
    RemainingStep(freq);
    OneTree(orig, freq, own, sizes, Pick(freq, -1, SYMBOLS));
  }

  lemma MergingStart(orig: seq<nat>, others: seq<int>, sizes: seq<nat>)
    requires |orig| == SYMBOLS && |sizes| == SYMBOLS && forall s :: 0 <= s < SYMBOLS ==> sizes[s] == 0
    requires |others| == SYMBOLS && forall s :: 0 <= s < SYMBOLS ==> others[s] == -1
    requires SomeRoot(orig)
    ensures Merging(orig, orig, others, sizes, OwnTrees(orig), OwnChains(orig))
  {
    hide Pick, Remaining, Sum, Cost, LeafSum, Chains, Trees, DepthsOk;
    StartTrees(orig, sizes);
    StartChains(orig, others);
    CostZero(orig, sizes, SYMBOLS);
  }

  lemma CountsBounded(orig: seq<nat>, freq: seq<nat>, others: seq<int>, sizes: seq<nat>, own: seq<int>, chains: seq<seq<nat>>)
    requires Merging(orig, freq, others, sizes, own, chains) && Sum(orig, SYMBOLS) <= MAX_COUNT
    ensures forall i :: 0 <= i < SYMBOLS ==> freq[i] <= MAX_COUNT
    ensures Pick(freq, -1, SYMBOLS) >= 0
  {
    hide Pick, Remaining, Sum, Cost, LeafSum, Chains, Trees, DepthsOk;
    SumBounds(freq, SYMBOLS);
    FirstPick(freq, SYMBOLS);
  }

  /**
   Merges the two smallest counts until one is left. The sizes form a complete
   code of the counted symbols whose cost is the sum of all merged counts, and no
   size is larger than the Fibonacci bound allows.
   */
  method BuildTree(freq: array<nat>, codesize: array<nat>, others: array<int>)
    requires freq.Length == SYMBOLS && codesize.Length == SYMBOLS && others.Length == SYMBOLS
    requires freq != codesize && freq as object != others as object && codesize as object != others as object
    requires Sum(freq[..], SYMBOLS) <= MAX_COUNT
    requires exists r, s :: 0 <= r < s < SYMBOLS && freq[r] > 0 && freq[s] > 0
    requires forall s :: 0 <= s < SYMBOLS ==> codesize[s] == 0
    modifies freq, codesize, others
    ensures CompleteCode(old(freq[..]), codesize[..])
    ensures Cost(old(freq[..]), codesize[..], SYMBOLS) == Remaining(old(freq[..]))
    ensures forall s :: 0 <= s < SYMBOLS ==> Least(codesize[s]) <= Sum(old(freq[..]), SYMBOLS)
  {
    hide Sum, Cost, Remaining, Roots, Pick, Merging, CompleteCode, Least, Linked;
    ghost var orig := freq[..];
    ghost var own, chains := OwnTrees(orig), OwnChains(orig);
    for i := 0 to 257
      invariant forall s :: 0 <= s < i ==> others[s] == -1
      invariant freq[..] == orig && forall s :: 0 <= s < SYMBOLS ==> codesize[s] == 0
    {
      others[i] := -1;
    }
    MergingStart(orig, others[..], codesize[..]);
    while true
      invariant Merging(orig, freq[..], others[..], codesize[..], own, chains)
      decreases Roots(freq[..], SYMBOLS)
    {
      ghost var was, sizes, links := freq[..], codesize[..], others[..];
      CountsBounded(orig, was, links, sizes, own, chains);
      var c1 := FindSmallest(freq, -1);
      var c2 := FindSmallest(freq, c1);
      if c2 < 0 {
        MergingDone(orig, was, links, sizes, own, chains);
        break;
      }
      MergingNext(orig, was, links, sizes, own, chains, c1, c2);
      freq[c1] := freq[c1] + freq[c2];
      freq[c2] := 0;
      var last := IncrementChain(codesize, others, c1, chains[c1]);
      others[last] := c2;
      assert others[..] == links[last := c2];
      last := IncrementChain(codesize, others, c2, chains[c2]);
      assert freq[..] == MergeCounts(was, c1, c2);
      assert codesize[..] == Deeper(own, c1, c2, sizes);
      chains := chains[c1 := chains[c1] + chains[c2]][c2 := []];
      own := Merged(own, c1, c2);
    }
  }

  lemma RemainingStep(freq: seq<nat>)
    requires |freq| == SYMBOLS
    ensures var c1 := Pick(freq, -1, SYMBOLS);
            var c2 := Pick(freq, c1, SYMBOLS);
            Remaining(freq) == if c2 < 0 then 0 else freq[c1] + freq[c2] + Remaining(MergeCounts(freq, c1, c2))
  {
  }

  lemma StartChains(freq: seq<nat>, others: seq<int>)
    requires |freq| == SYMBOLS && |others| == SYMBOLS && forall s :: 0 <= s < SYMBOLS ==> others[s] == -1
    ensures Chains(freq, others, OwnTrees(freq), OwnChains(freq))
  {
  }

  lemma ChainFacts(freq: seq<nat>, others: seq<int>, own: seq<int>, chains: seq<seq<nat>>, c: nat)
    requires Chains(freq, others, own, chains) && c < SYMBOLS && freq[c] > 0
    ensures chains[c] != [] && chains[c][0] == c && Linked(others, chains[c])
    ensures forall s :: 0 <= s < SYMBOLS ==> (s in chains[c] <==> own[s] == c)
  {
  }

  /** Linking the end of the first chain leaves the second as it was. */
  lemma SecondChain(freq: seq<nat>, others: seq<int>, own: seq<int>, chains: seq<seq<nat>>, c1: nat, c2: nat)
    requires Chains(freq, others, own, chains) && c1 < SYMBOLS && c2 < SYMBOLS && c1 != c2 && freq[c1] > 0 && freq[c2] > 0
    ensures var last := chains[c1][|chains[c1]| - 1];
            last < SYMBOLS && Linked(others[last := c2], chains[c2])
  {
    var a, b := chains[c1], chains[c2];
    var last := a[|a| - 1];
    assert last in a && own[last] == c1;
    assert last !in b;
  }

  lemma TreeSums(orig: seq<nat>, freq: seq<nat>, own: seq<int>, sizes: seq<nat>)
    requires Trees(orig, freq, own, sizes)
    ensures |sizes| == SYMBOLS && |own| == SYMBOLS
    ensures forall c :: 0 <= c < SYMBOLS && freq[c] > 0 ==> LeafSum(own, c, orig, SYMBOLS) == freq[c]
  {
  }
}
