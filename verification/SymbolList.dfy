/**
 The list of counted symbols in order of descending frequency, built and sorted in
 an array of links (jpeg_gen_optimal_table in jchuff.c).
 */
module SymbolList {
  import opened Bytes
  import opened HuffmanTree

  /** The order of the list: more frequent first, then by symbol. */
  predicate Before(freq: seq<nat>, a: nat, b: nat) {
    a < |freq| && b < |freq| && (freq[a] > freq[b] || (freq[a] == freq[b] && a < b))
  }

  predicate Sorted(freq: seq<nat>, xs: seq<nat>) {
    forall p, q :: 0 <= p < q < |xs| ==> Before(freq, xs[p], xs[q])
  }

  predicate Rising(xs: seq<nat>) {
    forall p, q :: 0 <= p < q < |xs| ==> xs[p] < xs[q]
  }

  /** Counted symbols below `n`, in rising order. */
  function Counted(freq: seq<nat>, n: nat): (xs: seq<nat>)
    requires n <= |freq|
    ensures forall x :: x in xs ==> x < n
    ensures forall x :: 0 <= x < n ==> (x in xs <==> freq[x] > 0)
    ensures Rising(xs) && |xs| <= n
    decreases n
  {
    if n == 0 then [] else
    var xs := Counted(freq, n - 1);
    assert forall k :: 0 <= k < |xs| ==> xs[k] in xs;
    xs + if freq[n - 1] > 0 then [n - 1] else []
  }

  /** All links of a chain but the last one's. */
  predicate Joined(others: seq<int>, ch: seq<nat>) {
    && (forall k :: 0 <= k < |ch| ==> ch[k] < |others|)
    && (forall k :: 0 <= k < |ch| - 1 ==> others[ch[k]] == ch[k + 1])
  }

  lemma JoinNext(others: seq<int>, ch: seq<nat>, x: nat)
    requires Joined(others, ch) && ch != [] && x < |others|
    requires forall i, j :: 0 <= i < j < |ch| ==> ch[i] != ch[j]
    ensures Joined(others[ch[|ch| - 1] := x], ch + [x])
  {
    var links, c := others[ch[|ch| - 1] := x], ch + [x];
    forall k | 0 <= k < |c| - 1 ensures links[c[k]] == c[k + 1] {
    }
  }

  /** The chain of the list: the starting index, then the symbols. */
  function Chain(xs: seq<nat>): seq<nat> {
    [256] + xs
  }

  lemma ChainDistinct(xs: seq<nat>)
    requires Rising(xs) && forall x :: x in xs ==> x < 256
    ensures forall i, j :: 0 <= i < j < |Chain(xs)| ==> Chain(xs)[i] != Chain(xs)[j]
    ensures forall k :: 0 <= k < |Chain(xs)| ==> Chain(xs)[k] < 257
  {
    forall i, j | 0 <= i < j < |Chain(xs)| ensures Chain(xs)[i] != Chain(xs)[j] {
      assert Chain(xs)[j] == xs[j - 1] && xs[j - 1] in xs;
      if i > 0 {
        assert Chain(xs)[i] == xs[i - 1];
      }
    }
    forall k | 0 <= k < |Chain(xs)| ensures Chain(xs)[k] < 257 {
      if k > 0 {
        assert Chain(xs)[k] == xs[k - 1] && xs[k - 1] in xs;
      }
    }
  }

  /** Links the counted symbols in rising order; symbol 256 stops the search. */
  method BuildList(freq: array<nat>, others: array<int>) returns (ghost xs: seq<nat>)
    requires freq.Length == SYMBOLS && others.Length == SYMBOLS && freq as object != others as object && freq[256] > 0
    modifies others
    ensures xs == Counted(freq[..], 256) && Linked(others[..], Chain(xs))
  {
    hide Counted;
    ghost var f := freq[..];
    var j := 256;
    var i := 0;
    xs := [];
    assert Counted(f, 0) == [] by { CountedStep(f, 0); }
    while true
      invariant 0 <= i <= 256 && freq[..] == f && xs == Counted(f, i)
      invariant Joined(others[..], Chain(xs)) && j == Chain(xs)[|xs|]
      decreases 257 - i
    {
      CountedStep(f, i);
      if freq[i] == 0 {
        i := i + 1;
        continue;
      }
      if i > 255 {
        break;
      }
      ChainDistinct(xs);
      JoinNext(others[..], Chain(xs), i);
      ghost var next := others[..][j := i];
      others[j] := i;
      assert others[..] == next;
      assert Chain(xs) + [i] == Chain(xs + [i]);
      j := i;
      xs := xs + [i];
      i := i + 1;
    }
    ChainDistinct(xs);
    others[j] := -1;
    assert Linked(others[..], Chain(xs));
  }

  lemma CountedStep(freq: seq<nat>, n: nat)
    requires n < |freq|
    ensures Counted(freq, 0) == []
    ensures Counted(freq, n + 1) == Counted(freq, n) + if freq[n] > 0 then [n] else []
  {
  }

  /** Position `p` holds the symbol that comes first in the order. */
  predicate FirstOf(freq: seq<nat>, xs: seq<nat>, p: nat) {
    p < |xs| && forall q :: 0 <= q < |xs| && q != p ==> Before(freq, xs[p], xs[q])
  }

  predicate FirstUpTo(freq: seq<nat>, xs: seq<nat>, p: nat, k: nat) {
    p <= k < |xs| && forall q :: 0 <= q <= k && q != p ==> Before(freq, xs[p], xs[q])
  }

  lemma FirstNext(freq: seq<nat>, xs: seq<nat>, p: nat, k: nat)
    requires Rising(xs) && FirstUpTo(freq, xs, p, k) && k + 1 < |xs| && xs[p] < |freq| && xs[k + 1] < |freq|
    ensures FirstUpTo(freq, xs, if freq[xs[k + 1]] > freq[xs[p]] then k + 1 else p, k + 1)
  {
  }

  lemma FirstFound(freq: seq<nat>, xs: seq<nat>, p: nat)
    requires xs != [] && FirstUpTo(freq, xs, p, |xs| - 1)
    ensures FirstOf(freq, xs, p)
  {
  }

  /** Finds the most frequent symbol of the list and the link that leads to it. */
  method FindFirst(freq: array<nat>, others: array<int>, ghost xs: seq<nat>) returns (i: nat, j: nat, ghost p: nat)
    requires freq.Length == SYMBOLS && others.Length == SYMBOLS
    requires Linked(others[..], Chain(xs)) && xs != [] && Rising(xs) && forall x :: x in xs ==> x < 256
    ensures FirstOf(freq[..], xs, p) && i == xs[p] && j == Chain(xs)[p]
  {
    hide Linked, FirstOf;
    ghost var f, links, ch := freq[..], others[..], Chain(xs);
    ChainDistinct(xs);
    ChainLink(links, ch, 0);
    assert ch[1] == xs[0] && xs[0] in xs;
    var c1: int := others[256];
    var v := freq[c1];
    i, j, p := c1, 256, 0;
    ghost var k := 0;
    ChainLink(links, ch, 1);
    var c2 := others[c1];
    while c2 >= 0
      invariant freq[..] == f && others[..] == links
      invariant 0 <= k < |xs| && c1 == xs[k] < 256 && c2 == others[c1]
      invariant 0 <= p <= k && i == xs[p] < 256 && j == ch[p] && v == freq[i]
      invariant FirstUpTo(f, xs, p, k)
      decreases |xs| - k
    {
      hide FirstUpTo, Rising;
      ChainLink(links, ch, k + 1);
      assert ch[k + 2] == xs[k + 1];
      assert xs[k + 1] in xs;
      FirstNext(f, xs, p, k);
      if freq[c2] > v {
        v := freq[c2];
        i := c2;
        j := c1;
        p := k + 1;
      }
      c1 := c2;
      k := k + 1;
      ChainLink(links, ch, k + 1);
      c2 := others[c1];
    }
    ChainLink(links, ch, k + 1);
    FirstFound(f, xs, p);
  }

  function Without(xs: seq<nat>, p: nat): seq<nat>
    requires p < |xs|
  {
    xs[..p] + xs[p + 1..]
  }

  lemma WithoutIs(xs: seq<nat>, p: nat)
    requires p < |xs|
    ensures |Without(xs, p)| == |xs| - 1
    ensures forall q :: 0 <= q < |xs| - 1 ==> Without(xs, p)[q] == if q < p then xs[q] else xs[q + 1]
    ensures forall s :: s in xs <==> s == xs[p] || s in Without(xs, p)
  {
    assert xs == xs[..p] + [xs[p]] + xs[p + 1..];
  }

  lemma WithoutAt(xs: seq<nat>, p: nat, q: nat)
    requires p < |xs| && q < |xs| - 1
    ensures |Without(xs, p)| == |xs| - 1 && Without(xs, p)[q] == xs[if q < p then q else q + 1]
  {
  }

  lemma ChainWithout(xs: seq<nat>, p: nat, k: nat)
    requires p < |xs| && k < |xs|
    ensures |Chain(Without(xs, p))| == |xs| && |Chain(xs)| == |xs| + 1
    ensures Chain(Without(xs, p))[k] == Chain(xs)[if k <= p then k else k + 1]
  {
    WithoutIs(xs, p);
  }

  lemma Unlink(others: seq<int>, xs: seq<nat>, p: nat)
    requires |others| == SYMBOLS && Linked(others, Chain(xs)) && p < |xs|
    ensures Chain(xs)[p] < SYMBOLS && xs[p] < SYMBOLS
    ensures Linked(others[Chain(xs)[p] := others[xs[p]]], Chain(Without(xs, p)))
  {
    var ch, ys := Chain(xs), Chain(Without(xs, p));
    hide Linked, Chain, Without;
    LinkedParts(others, ch);
    ChainWithout(xs, p, p);
    assert ch[p + 1] == xs[p] by { ChainNext(xs, p); }
    var links := others[ch[p] := others[xs[p]]];
    forall k | 0 <= k < |ys| ensures ys[k] < |links| {
      ChainWithout(xs, p, k);
    }
    forall k | 0 <= k < |ys| - 1 ensures links[ys[k]] == ys[k + 1] {
      ChainWithout(xs, p, k);
      ChainWithout(xs, p, k + 1);
      ChainLink(others, ch, k);
      ChainLink(others, ch, k + 1);
    }
    ChainWithout(xs, p, |ys| - 1);
    ChainLink(others, ch, |ys| - 1);
    ChainLink(others, ch, |ys|);
    forall i, j | 0 <= i < j < |ys| ensures ys[i] != ys[j] {
      ChainWithout(xs, p, i);
      ChainWithout(xs, p, j);
    }
    AssembleLinked(links, ys);
  }

  lemma ChainNext(xs: seq<nat>, p: nat)
    requires p < |xs|
    ensures Chain(xs)[p + 1] == xs[p]
  {
  }

  lemma LinkedParts(others: seq<int>, ch: seq<nat>)
    requires Linked(others, ch)
    ensures forall k :: 0 <= k < |ch| ==> ch[k] < |others|
    ensures forall i, j :: 0 <= i < j < |ch| ==> ch[i] != ch[j]
  {
  }

  lemma AssembleLinked(others: seq<int>, ch: seq<nat>)
    requires forall k :: 0 <= k < |ch| ==> ch[k] < |others|
    requires forall k :: 0 <= k < |ch| - 1 ==> others[ch[k]] == ch[k + 1]
    requires ch != [] ==> others[ch[|ch| - 1]] == -1
    requires forall i, j :: 0 <= i < j < |ch| ==> ch[i] != ch[j]
    ensures Linked(others, ch)
  {
  }

  /** Taking the first symbol keeps what is taken ahead of what is left. */
  predicate Taken(freq: seq<nat>, out: seq<nat>, xs: seq<nat>) {
    && Sorted(freq, out) && Rising(xs)
    && (forall p, q :: 0 <= p < |out| && 0 <= q < |xs| ==> Before(freq, out[p], xs[q]))
    && (forall s :: 0 <= s < 256 && s < |freq| ==> (s in out || s in xs <==> freq[s] > 0))
    && (forall s :: s in xs ==> s < 256) && (forall s :: s in out ==> s < 256)
  }

  lemma TakeFirst(freq: seq<nat>, out: seq<nat>, xs: seq<nat>, p: nat)
    requires Taken(freq, out, xs) && FirstOf(freq, xs, p)
    ensures Taken(freq, out + [xs[p]], Without(xs, p))
  {
    hide Before, Without;
    WithoutIs(xs, p);
    assert xs[p] in xs;
    var more, ys := out + [xs[p]], Without(xs, p);
    forall i, j | 0 <= i < j < |more| ensures Before(freq, more[i], more[j]) {
      assert more[i] == out[i];
    }
    forall i, j | 0 <= i < |more| && 0 <= j < |ys| ensures Before(freq, more[i], ys[j]) {
      WithoutAt(xs, p, j);
    }
    forall i, j | 0 <= i < j < |ys| ensures ys[i] < ys[j] {
      WithoutAt(xs, p, i);
      WithoutAt(xs, p, j);
    }
    assert forall s :: s in more <==> s in out || s == xs[p];
  }

  /** Lists the counted symbols in order of descending frequency. */
  method SortSymbols(freq: array<nat>, others: array<int>) returns (huffval: array<byte>, n: nat)
    requires freq.Length == SYMBOLS && others.Length == SYMBOLS && freq as object != others as object && freq[256] > 0
    modifies others
    ensures fresh(huffval) && huffval.Length == 256 && n <= 256
    ensures Sorted(freq[..], huffval[..n]) && n == |Counted(freq[..], 256)|
    ensures forall s :: 0 <= s < 256 ==> (s in huffval[..n] <==> freq[s] > 0)
  {
    hide Counted, Linked, Taken, FirstOf;
    huffval := new byte[256](_ => 0);
    ghost var f := freq[..];
    ghost var xs := BuildList(freq, others);
    ghost var total := |xs|;
    assert Taken(f, [], xs) by { TakeNone(f); }
    n := 0;
    ChainStart(others[..], xs);
    while others[256] >= 0
      invariant freq[..] == f && n + |xs| == total <= 256
      invariant Linked(others[..], Chain(xs)) && Taken(f, huffval[..n], xs)
      invariant others[256] >= 0 <==> xs != []
      decreases |xs|
    {
      TakenFacts(f, huffval[..n], xs);
      var i, j;
      ghost var p;
      i, j, p := FindFirst(freq, others, xs);
      FirstIn(f, xs, p);
      Unlink(others[..], xs, p);
      TakeFirst(f, huffval[..n], xs, p);
      ghost var next, list := others[..][j := others[i]], huffval[..n] + [i];
      others[j] := others[i];
      assert others[..] == next;
      huffval[n] := i;
      n := n + 1;
      assert huffval[..n] == list;
      xs := Without(xs, p);
      ChainStart(others[..], xs);
    }
    AllTaken(f, huffval[..n]);
  }

  lemma ChainStart(others: seq<int>, xs: seq<nat>)
    requires |others| == SYMBOLS && Linked(others, Chain(xs))
    ensures others[256] == if xs == [] then -1 else xs[0]
  {
    ChainLink(others, Chain(xs), 0);
  }

  lemma TakeNone(freq: seq<nat>)
    requires |freq| == SYMBOLS
    ensures Taken(freq, [], Counted(freq, 256))
  {
    hide Counted;
  }

  lemma TakenFacts(freq: seq<nat>, out: seq<nat>, xs: seq<nat>)
    requires Taken(freq, out, xs)
    ensures Rising(xs) && forall x :: x in xs ==> x < 256
  {
  }

  lemma FirstIn(freq: seq<nat>, xs: seq<nat>, p: nat)
    requires FirstOf(freq, xs, p)
    ensures p < |xs| && xs[p] in xs
  {
  }

  lemma AllTaken(freq: seq<nat>, out: seq<nat>)
    requires |freq| == SYMBOLS && Taken(freq, out, [])
    ensures Sorted(freq, out) && forall s :: 0 <= s < 256 ==> (s in out <==> freq[s] > 0)
  {
  }
}
