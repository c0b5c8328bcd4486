/**
 jpeg_gen_optimal_table as a whole: the table made from symbol counts is always
 usable, covers exactly the counted symbols, and comes from an optimal code.
 */
module HuffmanTables {
  import opened Products
  import opened Bytes
  import opened HuffmanCode
  import opened HuffmanTree
  import opened HuffmanWords
  import opened LengthLimiting
  import opened SymbolList

  lemma {:induction false} CountedRoots(freq: seq<nat>, n: nat)
    requires n <= |freq|
    ensures |Counted(freq, n)| == Roots(freq, n)
    decreases n
  {
    hide Counted, Rising;
    if n == 0 {
      NoneCounted(freq);
    } else {
      CountedRoots(freq, n - 1);
      CountedStep(freq, n - 1);
    }
  }

  lemma NoneCounted(freq: seq<nat>)
    ensures Counted(freq, 0) == []
  {
  }

  lemma {:induction false} CodedRoots(freq: seq<nat>, sizes: seq<nat>, n: nat)
    requires n <= |freq| && n <= |sizes| && forall s :: 0 <= s < n ==> (sizes[s] > 0 <==> freq[s] > 0)
    ensures Coded(sizes, n) == Roots(freq, n)
    decreases n
  {
    if n > 0 {
      CodedRoots(freq, sizes, n - 1);
    }
  }

  lemma {:induction false} RootsSame(f: seq<nat>, g: seq<nat>, n: nat)
    requires n <= |f| && n <= |g| && forall s :: 0 <= s < n ==> f[s] == g[s]
    ensures Roots(f, n) == Roots(g, n)
    decreases n
  {
    if n > 0 {
      RootsSame(f, g, n - 1);
    }
  }

  lemma {:induction false} TotalPrefix(b: seq<byte>, m: nat, l: nat)
    requires l < m <= |b|
    ensures Total(b[..m], l) == Total(b, l)
    decreases l
  {
    if l > 0 {
      TotalPrefix(b, m, l - 1);
    }
  }

  // ----- from leaves of a tree to code space

  lemma StartConcat(a: seq<nat>, b: seq<nat>, p: nat)
    requires Lengths(a) && Lengths(b) && p <= |b|
    ensures Lengths(a + b) && Start(a + b, |a| + p) == Start(a, |a|) + Start(b, p)
    decreases p
  {
    hide Weight;
    if p > 0 {
      StartConcat(a, b, p - 1);
      assert (a + b)[|a| + p - 1] == b[p - 1];
    } else {
      StartPrefix(a, b, |a|);
    }
  }

  lemma {:induction false} StartPrefix(a: seq<nat>, b: seq<nat>, p: nat)
    requires Lengths(a) && Lengths(a + b) && p <= |a|
    ensures Start(a + b, p) == Start(a, p)
    decreases p
  {
    hide Weight;
    if p > 0 {
      StartPrefix(a, b, p - 1);
    }
  }

  lemma {:induction false} StartTimes(l: nat, n: nat, p: nat)
    requires 1 <= l <= MAX_LENGTH && p <= n
    ensures Lengths(Times(l, n)) && Start(Times(l, n), p) == p * Weight(l)
    decreases p
  {
    hide Weight;
    if p > 0 {
      StartTimes(l, n, p - 1);
      MulSum(p - 1, 1, Weight(l));
    }
  }

  /** Leaves counted at depth `l` are code space in units of 2^-l. */
  lemma {:induction false} StartUnits(b: seq<byte>, l: nat)
    requires l < |b| == 17 && b[0] == 0
    ensures Lengths(Sizes(b, l)) && Start(Sizes(b, l), Total(b, l)) == Units(b, l) * Weight(l)
    decreases l
  {
    hide Weight, Start, Lengths;
    if l > 0 {
      StartUnits(b, l - 1);
      StartTimes(l, b[l], b[l]);
      StartConcat(Sizes(b, l - 1), Times(l, b[l]), b[l]);
      NextLength(Units(b, l - 1), l - 1);
      MulSum(2 * Units(b, l - 1), b[l], Weight(l));
    } else {
      StartNone();
    }
  }

  lemma StartNone()
    ensures Lengths([]) && Start([], 0) == 0
  {
  }

  lemma {:induction false} UnitsAbove(b: seq<byte>, i: nat, l: nat)
    requires i <= l < |b| && forall k :: i < k <= l ==> b[k] == 0
    ensures Units(b, l) == Units(b, i) * Pow2(l - i)
    decreases l
  {
    if i < l {
      UnitsAbove(b, i, l - 1);
      MulSwap(Units(b, i), 2, Pow2(l - 1 - i));
      assert Units(b, l) == 2 * Units(b, l - 1) == 2 * (Units(b, i) * Pow2(l - 1 - i));
    }
  }

  /** Without its last word a full tree leaves the word of all ones unused. */
  lemma DroppedFits(b: seq<byte>, c: seq<byte>, i: nat)
    requires Full(b, i) && 0 < i <= 16 && b[i] > 0 && c == b[i := b[i] - 1]
    ensures c[0] == 0 && Units(c[..17], 16) < Pow2(16)
  {
    hide Units, Pow2;
    UnitsNext(b, i);
    UnitsNext(c, i);
    assert b[..i] == c[..i];
    UnitsSame(b, c, i - 1);
    var d := c[..17];
    assert d[..i + 1] == c[..i + 1];
    UnitsSame(c, d, i);
    UnitsAbove(d, i, 16);
    Pow2Add(i, 16 - i);
    MulMonotone(Units(d, i) + 1, Pow2(i), Pow2(16 - i));
    MulSum(Units(d, i), 1, Pow2(16 - i));
  }

  lemma DroppedTotal(b: seq<byte>, c: seq<byte>, i: nat)
    requires |b| == MAX_CLEN + 1 && 0 < i <= 16 && b[i] > 0 && c == b[i := b[i] - 1]
    requires forall k :: 16 < k <= MAX_CLEN ==> b[k] == 0
    ensures Total(c[..17], 16) == Words(b) - 1
  {
    hide Total;
    var m := |b| - 1;
    TotalSet(b, i, b[i] - 1, m);
    TotalTail(c, 16, m);
    TotalPrefix(c, 17, 16);
  }

  lemma DroppedOk(b: seq<byte>, c: seq<byte>, i: nat)
    requires Full(b, i) && 0 < i <= 16 && b[i] > 0 && c == b[i := b[i] - 1] && Words(b) <= 255
    ensures CountsOk(c[..17]) && Total(c[..17], 16) == Words(b) - 1
  {
    hide Total, Sizes, Units;
    DroppedFits(b, c, i);
    DroppedTotal(b, c, i);
    StartUnits(c[..17], 16);
  }

  lemma UnitsFull(b: seq<byte>, sizes: seq<nat>)
    requires |b| == MAX_CLEN + 1 && b[0] == 0 && |sizes| == SYMBOLS
    requires Weigh(b, MAX_CLEN) == CodeSum(sizes, SYMBOLS) == 1.0
    ensures Full(b, MAX_CLEN)
  {
    hide Weigh, CodeSum, Units, Pow2, Half;
    WeighUnits(b, MAX_CLEN);
    HalfPow2(MAX_CLEN);
    RealCancel(Units(b, MAX_CLEN), Pow2(MAX_CLEN), Half(MAX_CLEN));
  }

  // ----- the Fibonacci bound

  const SAFE_COUNT := 9227465

  lemma {:induction false} LeastGrows(d: nat, e: nat)
    requires d <= e
    ensures Least(d) <= Least(e)
    decreases e
  {
    if d < e {
      LeastGrows(d, e - 1);
    }
  }

  lemma LeastFour(d: nat)
    ensures Least(d + 4) == 3 * Least(d + 1) + 2 * Least(d)
    ensures Least(d + 5) == 5 * Least(d + 1) + 3 * Least(d)
  {
    assert Least(d + 2) == Least(d + 1) + Least(d);
    assert Least(d + 3) == Least(d + 2) + Least(d + 1);
    assert Least(d + 4) == Least(d + 3) + Least(d + 2);
  }

  lemma LeastDeep(z: nat)
    requires z == 0
    ensures Least(z + 33) == SAFE_COUNT
  {
    LeastStep();
    hide Least;
    LeastFour(z);
    LeastFour(z + 4);
    LeastFour(z + 8);
    LeastFour(z + 12);
    LeastFour(z + 16);
    LeastFour(z + 20);
    LeastFour(z + 24);
    LeastFour(z + 28);
  }

  lemma DeepIsLarge(d: nat, z: nat)
    requires z == 0 && d > MAX_CLEN
    ensures Least(d) >= SAFE_COUNT
  {
    hide Least;
    LeastDeep(z);
    LeastGrows(z + 33, d);
  }

  /** Fewer than 9227465 counts cannot make a code longer than 32 bits. */
  lemma NeverTooDeep(sizes: seq<nat>, total: nat)
    requires forall s :: 0 <= s < |sizes| ==> Least(sizes[s]) <= total
    requires total < SAFE_COUNT
    ensures forall s :: 0 <= s < |sizes| ==> sizes[s] <= MAX_CLEN
  {
    hide Least;
    forall s | 0 <= s < |sizes| ensures sizes[s] <= MAX_CLEN {
      if sizes[s] > MAX_CLEN {
        DeepIsLarge(sizes[s], 0);
      }
    }
  }

  // ----- the whole procedure

  /** What the list of symbols and the counts of lengths promise. */
  predicate OptimalTable(counts: seq<nat>, bits: seq<byte>, vals: seq<byte>) {
    && |counts| == SYMBOLS && |bits| == 17 && |vals| == 256
    && CountsOk(bits) && Total(bits, 16) <= 254
    && Sorted(counts, vals[..Total(bits, 16)])
    && (forall s :: 0 <= s < 256 ==> (s in vals[..Total(bits, 16)] <==> counts[s] > 0))
  }

  /** The table is accepted, as long as the counted symbols are in range. */
  lemma OptimalUsable(counts: seq<nat>, bits: seq<byte>, vals: seq<byte>, isDC: bool)
    requires OptimalTable(counts, bits, vals)
    requires forall s :: MaxSymbol(isDC) < s < 256 ==> counts[s] == 0
    ensures Usable(bits, vals, isDC)
  {
    hide Total, CountsOk;
    var n := Total(bits, 16);
    forall p | 0 <= p < n ensures vals[p] <= MaxSymbol(isDC) {
      assert vals[..n][p] in vals[..n];
    }
    forall p, q | 0 <= p < q < n ensures vals[p] != vals[q] {
      assert Before(counts, vals[..n][p], vals[..n][q]);
    }
  }

  /** More frequent symbols never get longer code words. */
  lemma FrequentShort(counts: seq<nat>, bits: seq<byte>, vals: seq<byte>, t: Table, a: byte, b: byte)
    requires OptimalTable(counts, bits, vals) && Derived(t, bits, vals) && counts[a] > counts[b] > 0
    ensures HasWord(t, a) && HasWord(t, b) && t.si[a] <= t.si[b]
  {
    hide Total, CountsOk, Sizes, Sorted, Derived, OptimalTable, Listed, HasWord;
    var p := ListPosition(counts, bits, vals, a);
    var q := ListPosition(counts, bits, vals, b);
    PositionsOrdered(counts, vals[..Total(bits, 16)], p, q);
    SizesOrdered(t, bits, vals, p, q);
  }

  lemma ListPosition(counts: seq<nat>, bits: seq<byte>, vals: seq<byte>, s: byte) returns (p: nat)
    requires OptimalTable(counts, bits, vals) && counts[s] > 0
    ensures |counts| == SYMBOLS && |vals| == 256 && |bits| == 17
    ensures p < Total(bits, 16) <= 254 && vals[p] == s && vals[..Total(bits, 16)][p] == s && Sorted(counts, vals[..Total(bits, 16)])
  {
    hide Total, CountsOk, Sorted;
    var n := Total(bits, 16);
    assert s in vals[..n];
    p :| 0 <= p < n && vals[..n][p] == s;
  }

  lemma SizesOrdered(t: Table, bits: seq<byte>, vals: seq<byte>, p: nat, q: nat)
    requires Derived(t, bits, vals) && p < q < Total(bits, 16)
    ensures HasWord(t, vals[p]) && HasWord(t, vals[q]) && t.si[vals[p]] <= t.si[vals[q]]
  {
    hide Total, Sizes, Start;
    SizesAre(bits, 16);
  }

  lemma PositionsOrdered(counts: seq<nat>, xs: seq<nat>, p: nat, q: nat)
    requires Sorted(counts, xs) && p < |xs| && q < |xs| && xs[p] < |counts| && xs[q] < |counts|
    requires counts[xs[p]] > counts[xs[q]]
    ensures p < q
  {
  }

  lemma CountsSummed(freq: seq<nat>, counts: seq<nat>)
    requires |freq| == SYMBOLS && counts == freq[256 := 1]
    ensures Sum(counts, SYMBOLS) == Sum(freq, 256) + 1
    ensures Roots(counts, SYMBOLS) == Roots(freq, 256) + 1
    ensures Roots(counts, 256) == Roots(freq, 256)
  {
    SumSame(freq, counts, SYMBOLS - 1);
    RootsSame(freq, counts, SYMBOLS - 1);
    SumLast(counts, SYMBOLS - 1);
  }

  lemma SumLast(counts: seq<nat>, n: nat)
    requires n < |counts|
    ensures Sum(counts, n + 1) == Sum(counts, n) + counts[n]
    ensures Roots(counts, n + 1) == Roots(counts, n) + if counts[n] > 0 then 1 else 0
  {
  }

  lemma {:induction false} SumSame(f: seq<nat>, g: seq<nat>, n: nat)
    requires n <= |f| && n <= |g| && forall s :: 0 <= s < n ==> f[s] == g[s]
    ensures Sum(f, n) == Sum(g, n)
    decreases n
  {
    if n > 0 {
      SumSame(f, g, n - 1);
    }
  }

  /**
   Makes the table for the counts. It fails only if the tree is deeper than 32,
   which takes at least 9227465 counted symbols.
   */
  method GenOptimalTable(freq: array<nat>) returns (ok: bool, bits: seq<byte>, huffval: array<byte>, ghost sizes: seq<nat>)
    requires freq.Length == SYMBOLS && exists s :: 0 <= s < 256 && freq[s] > 0
    requires Roots(freq[..], 256) <= 254 && Sum(freq[..], 256) < MAX_COUNT
    modifies freq
    ensures fresh(huffval) && huffval.Length == 256
    ensures var counts := old(freq[..])[256 := 1];
            && CompleteCode(counts, sizes) && Cost(counts, sizes, SYMBOLS) == Remaining(counts)
            && (ok <==> forall s :: 0 <= s < SYMBOLS ==> sizes[s] <= MAX_CLEN)
            && (Sum(old(freq[..]), 256) + 1 < SAFE_COUNT ==> ok)
            && (ok ==> OptimalTable(counts, bits, huffval[..]) && Total(bits, 16) == Roots(old(freq[..]), 256))
  {
    hide Roots, Sum, CompleteCode, Cost, Remaining, Counted, Total, Coded, CodeSum, Weigh, Units, CountsOk, Least, Full, Sorted;
    ghost var was := freq[..];
    ghost var counts := was[256 := 1];
    freq[256] := 1;
    assert freq[..] == counts;
    CountsSummed(was, counts);
    var others := new int[SYMBOLS](_ => 0);
    var n;
    huffval, n := SortSymbols(freq, others);
    ghost var list := huffval[..n];
    CountedRoots(counts, SYMBOLS - 1);
    var codesize := new nat[SYMBOLS](_ => 0);
    BuildTree(freq, codesize, others);
    sizes := codesize[..];
    assert huffval[..n] == list;
    CompleteFacts(counts, sizes);
    CodedRoots(counts, sizes, SYMBOLS);
    DepthFacts(sizes, Sum(counts, SYMBOLS));
    var lengths;
    ok, lengths := CountSizes(codesize);
    if !ok {
      bits := [];
      return;
    }
    UnitsFull(lengths[..], sizes);
    var fine := LimitLengths(lengths);
    ghost var before := lengths[..];
    ghost var i := DropLast(lengths);
    FullShort(before);
    DroppedOk(before, lengths[..], i);
    bits := lengths[..17];
  }

  lemma CompleteFacts(counts: seq<nat>, sizes: seq<nat>)
    requires CompleteCode(counts, sizes)
    ensures |sizes| == SYMBOLS && |counts| == SYMBOLS && CodeSum(sizes, SYMBOLS) == 1.0
    ensures forall s :: 0 <= s < SYMBOLS ==> (sizes[s] > 0 <==> counts[s] > 0)
  {
  }

  lemma DepthFacts(sizes: seq<nat>, total: nat)
    requires forall s :: 0 <= s < |sizes| ==> Least(sizes[s]) <= total
    ensures total < SAFE_COUNT ==> forall s :: 0 <= s < |sizes| ==> sizes[s] <= MAX_CLEN
  {
    if total < SAFE_COUNT {
      NeverTooDeep(sizes, total);
    }
  }

  lemma FullShort(b: seq<byte>)
    requires Full(b, 16)
    ensures forall k :: 16 < k <= MAX_CLEN ==> b[k] == 0
  {
  }
}
