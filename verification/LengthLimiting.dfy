/**
 From code sizes to a table of at most 16 bits (the second half of
 jpeg_gen_optimal_table; section K.2 of ITU-T T.81): counting, limiting, and
 removal of the pseudo-symbol that reserves the word of all ones.
 */
module LengthLimiting {
  import opened Bytes
  import opened HuffmanTree
  import opened HuffmanCode

  const MAX_CLEN := 32

  /** Leaves of a tree counted at depth `l`: each inner slot splits in two. */
  function Units(b: seq<byte>, l: nat): nat
    requires l < |b|
    decreases l
  {
    if l == 0 then b[0] else 2 * Units(b, l - 1) + b[l]
  }

  lemma {:induction false} TotalSet(b: seq<byte>, k: nat, v: byte, l: nat)
    requires k < |b| && l < |b| && k > 0
    ensures Total(b[k := v], l) == Total(b, l) + if k <= l then v - b[k] else 0
    decreases l
  {
    if l > 0 {
      TotalSet(b, k, v, l - 1);
    }
  }

  lemma {:induction false} TotalBounds(b: seq<byte>, l: nat)
    requires l < |b|
    ensures forall k :: 1 <= k <= l ==> b[k] <= Total(b, l)
    decreases l
  {
    if l > 0 {
      TotalBounds(b, l - 1);
    }
  }

  /** Number of words of all lengths. */
  function Words(b: seq<byte>): nat
    requires b != []
  {
    Total(b, |b| - 1)
  }

  // ----- counting

  function Coded(sizes: seq<nat>, n: nat): nat
    requires n <= |sizes|
    decreases n
  {
    if n == 0 then 0 else Coded(sizes, n - 1) + if sizes[n - 1] > 0 then 1 else 0
  }

  /** Kraft sum by length. */
  function Weigh(b: seq<byte>, l: nat): real
    requires l < |b|
    decreases l
  {
    if l == 0 then 0.0 else Weigh(b, l - 1) + b[l] as real * Half(l)
  }

  lemma {:induction false} WeighMore(b: seq<byte>, k: nat, l: nat)
    requires 0 < k < |b| && l < |b| && b[k] < 255
    ensures Weigh(b[k := b[k] + 1], l) == Weigh(b, l) + if k <= l then Half(k) else 0.0
    decreases l
  {
    hide Half;
    if l > 0 {
      WeighMore(b, k, l - 1);
      if l == k {
        AddOne(b[k], Half(k));
      }
    }
  }

  lemma AddOne(n: nat, h: real)
    ensures (n + 1) as real * h == n as real * h + h
  {
  }

  lemma {:induction false} WeighUnits(b: seq<byte>, l: nat)
    requires l < |b| && b[0] == 0
    ensures Weigh(b, l) == Units(b, l) as real * Half(l)
    decreases l
  {
    if l > 0 {
      WeighUnits(b, l - 1);
      HalfStep(Units(b, l - 1), b[l], Half(l));
    }
  }

  lemma HalfStep(u: nat, n: nat, h: real)
    ensures u as real * (2.0 * h) + n as real * h == (2 * u + n) as real * h
  {
  }

  lemma {:induction false} HalfPow2(l: nat)
    ensures Pow2(l) as real * Half(l) == 1.0
    decreases l
  {
    if l > 0 {
      HalfPow2(l - 1);
      HalfStep(Pow2(l - 1), 0, Half(l));
    }
  }

  lemma RealLess(a: nat, b: nat, h: real)
    requires h > 0.0 && a < b
    ensures a as real * h < b as real * h
  {
    assert b as real * h == a as real * h + (b - a) as real * h;
  }

  lemma RealCancel(a: nat, b: nat, h: real)
    requires h > 0.0 && a as real * h == b as real * h
    ensures a == b
  {
    if a < b {
      RealLess(a, b, h);
    } else if b < a {
      RealLess(b, a, h);
    }
  }

  lemma ZeroCounts(b: seq<byte>, l: nat)
    requires l < |b| && forall k :: 0 <= k <= l ==> b[k] == 0
    ensures Total(b, l) == 0 && Weigh(b, l) == 0.0
    decreases l
  {
    if l > 0 {
      ZeroCounts(b, l - 1);
    }
  }

  lemma {:induction false} CodedGrows(sizes: seq<nat>, m: nat, n: nat)
    requires m <= n <= |sizes|
    ensures Coded(sizes, m) <= Coded(sizes, n)
    decreases n
  {
    if m < n {
      CodedGrows(sizes, m, n - 1);
    }
  }

  /** Counts the symbols of each code length. No count can wrap around. */
  method CountSizes(codesize: array<nat>) returns (ok: bool, bits: array<byte>)
    requires codesize.Length == SYMBOLS && Coded(codesize[..], SYMBOLS) <= 255
    ensures fresh(bits) && bits.Length == MAX_CLEN + 1
    ensures ok <==> forall s :: 0 <= s < SYMBOLS ==> codesize[s] <= MAX_CLEN
    ensures ok ==> bits[0] == 0 && Words(bits[..]) == Coded(codesize[..], SYMBOLS)
    ensures ok ==> Weigh(bits[..], MAX_CLEN) == CodeSum(codesize[..], SYMBOLS)
  {
    hide Half, Total, Weigh, Coded, CodeSum;
    bits := new byte[MAX_CLEN + 1](_ => 0);
    ghost var sizes := codesize[..];
    ZeroCounts(bits[..], MAX_CLEN);
    CodedNone(sizes);
    var i := 0;
    while i <= 256
      invariant 0 <= i <= 257 && bits[0] == 0 && codesize[..] == sizes
      invariant forall s :: 0 <= s < i ==> codesize[s] <= MAX_CLEN
      invariant Words(bits[..]) == Coded(sizes, i)
      invariant Weigh(bits[..], MAX_CLEN) == CodeSum(sizes, i)
    {
      CodedStep(sizes, i);
      CodedGrows(sizes, i + 1, 257);
      if codesize[i] != 0 {
        if codesize[i] > MAX_CLEN {
          return false, bits;
        }
        var k := codesize[i];
        TotalBounds(bits[..], MAX_CLEN);
        WeighMore(bits[..], k, MAX_CLEN);
        TotalSet(bits[..], k, bits[k] + 1, MAX_CLEN);
        ghost var next := bits[..][k := bits[k] + 1];
        bits[k] := bits[k] + 1;
        assert bits[..] == next;
      }
      i := i + 1;
    }
    ok := true;
  }

  lemma CodedNone(sizes: seq<nat>)
    ensures Coded(sizes, 0) == 0 && CodeSum(sizes, 0) == 0.0
  {
  }

  lemma CodedStep(sizes: seq<nat>, n: nat)
    requires n < |sizes|
    ensures Coded(sizes, n + 1) == Coded(sizes, n) + if sizes[n] > 0 then 1 else 0
    ensures CodeSum(sizes, n + 1) == CodeSum(sizes, n) + if sizes[n] > 0 then Half(sizes[n]) else 0.0
  {
  }

  // ----- limiting

  /** A full tree of depth at most `i`. */
  predicate Full(b: seq<byte>, i: nat) {
    && |b| == MAX_CLEN + 1 && i <= MAX_CLEN && b[0] == 0
    && (forall k :: i < k <= MAX_CLEN ==> b[k] == 0)
    && Units(b, i) == Pow2(i)
  }

  /** Two longest words go; one gets their prefix, another pairs with a word made longer. */
  predicate Moved(b: seq<byte>, c: seq<byte>, i: nat, j: nat) {
    && |c| == |b|
    && forall k :: 0 <= k < |b| ==> c[k] == MovedCount(b, i, j, k)
  }

  function MovedCount(b: seq<byte>, i: nat, j: nat, k: nat): int
    requires k < |b|
  {
    var n: int := b[k];
    n - (if k == i then 2 else 0) + (if k == i - 1 then 1 else 0) + (if k == j + 1 then 2 else 0) - (if k == j then 1 else 0)
  }

  lemma {:induction false} UnitsSame(b: seq<byte>, c: seq<byte>, l: nat)
    requires l < |b| && l < |c| && b[..l + 1] == c[..l + 1]
    ensures Units(b, l) == Units(c, l)
    decreases l
  {
    assert b[l] == b[..l + 1][l] && c[l] == c[..l + 1][l];
    if l > 0 {
      assert b[..l] == b[..l + 1][..l] && c[..l] == c[..l + 1][..l];
      UnitsSame(b, c, l - 1);
    }
  }

  lemma {:induction false} UnitsBetween(b: seq<byte>, c: seq<byte>, j: nat, l: nat)
    requires j <= l < |b| && l < |c| && Units(b, j) == Units(c, j) && forall k :: j < k <= l ==> b[k] == c[k]
    ensures Units(b, l) == Units(c, l)
    decreases l
  {
    if j < l {
      UnitsBetween(b, c, j, l - 1);
    }
  }

  /** Moving words keeps the tree full. */
  lemma MoveKeeps(b: seq<byte>, c: seq<byte>, i: nat, j: nat)
    requires 0 < j && j + 2 <= i < |b| && Moved(b, c, i, j)
    ensures Units(c, i) == Units(b, i)
  {
    hide Units;
    assert b[..j] == c[..j];
    UnitsSame(b, c, j - 1);
    UnitsNext(b, j);
    UnitsNext(c, j);
    UnitsNext(b, j + 1);
    UnitsNext(c, j + 1);
    if j + 1 < i - 1 {
      UnitsBetween(b, c, j + 1, i - 2);
      UnitsNext(b, i - 1);
      UnitsNext(c, i - 1);
    }
    UnitsNext(b, i);
    UnitsNext(c, i);
  }

  lemma UnitsNext(b: seq<byte>, l: nat)
    requires 0 < l < |b|
    ensures Units(b, l) == 2 * Units(b, l - 1) + b[l]
  {
  }

  lemma {:induction false} UnitsZero(b: seq<byte>, l: nat)
    requires l < |b| && forall k :: 0 <= k <= l ==> b[k] == 0
    ensures Units(b, l) == 0
    decreases l
  {
    if l > 0 {
      UnitsZero(b, l - 1);
    }
  }

  /** In a full tree deeper than 16 with at most 255 leaves some word is short enough to be split. */
  lemma SplitExists(b: seq<byte>, i: nat)
    requires Full(b, i) && i > 16 && Words(b) <= 255
    ensures exists j :: 0 < j <= i - 2 && b[j] > 0
  {
    hide Pow2, Total, Units;
    if forall j :: 0 < j <= i - 2 ==> b[j] == 0 {
      UnitsZero(b, i - 2);
      UnitsNext(b, i - 1);
      UnitsNext(b, i);
      TotalBounds(b, MAX_CLEN);
      Pow2Monotone(16, i);
      Pow2Masks();
    }
  }

  /** Words of the greatest length come in pairs. */
  lemma Paired(b: seq<byte>, i: nat)
    requires Full(b, i) && i > 0 && b[i] > 0
    ensures b[i] >= 2
  {
    UnitsNext(b, i);
    assert Pow2(i) == 2 * Pow2(i - 1);
  }

  lemma Shallower(b: seq<byte>, i: nat)
    requires Full(b, i) && i > 0 && b[i] == 0
    ensures Full(b, i - 1)
  {
    UnitsNext(b, i);
    assert Pow2(i) == 2 * Pow2(i - 1);
  }

  lemma MoveTotal(b: seq<byte>, c: seq<byte>, i: nat, j: nat)
    requires 0 < j && j + 2 <= i <= MAX_CLEN && |b| == MAX_CLEN + 1 && Moved(b, c, i, j)
    requires b[i] >= 2 && b[j] > 0 && Words(b) <= 255
    ensures Words(c) == Words(b)
  {
    hide Total;
    var b1 := b[i := b[i] - 2];
    TotalSet(b, i, b[i] - 2, MAX_CLEN);
    var b2 := b1[j := b1[j] - 1];
    TotalSet(b1, j, b1[j] - 1, MAX_CLEN);
    TotalBounds(b2, MAX_CLEN);
    var b3 := b2[i - 1 := b2[i - 1] + 1];
    TotalSet(b2, i - 1, b2[i - 1] + 1, MAX_CLEN);
    TotalBounds(b3, MAX_CLEN);
    var b4 := b3[j + 1 := b3[j + 1] + 2];
    TotalSet(b3, j + 1, b3[j + 1] + 2, MAX_CLEN);
    assert b4 == c;
  }

  /** While words are removed in pairs, no count wraps around. */
  lemma NoWrap(b: seq<byte>, i: nat, j: nat)
    requires 0 < j && j + 2 <= i <= MAX_CLEN && |b| == MAX_CLEN + 1
    requires b[i] >= 2 && b[j] > 0 && Words(b) <= 255
    ensures b[i - 1] < 253 && b[j + 1] < 253
  {
    hide Total;
    var b1 := b[i := b[i] - 2];
    TotalSet(b, i, b[i] - 2, MAX_CLEN);
    TotalSet(b1, j, b1[j] - 1, MAX_CLEN);
    var b2 := b1[j := b1[j] - 1];
    TotalBounds(b2, MAX_CLEN);
    assert b2[i - 1] == b[i - 1] && b2[j + 1] == b[j + 1];
  }

  lemma MoveFull(b: seq<byte>, c: seq<byte>, i: nat, j: nat)
    requires Full(b, i) && 0 < j && j + 2 <= i && b[i] >= 2 && b[j] > 0 && Moved(b, c, i, j) && Words(b) <= 255
    ensures Full(c, i) && Words(c) == Words(b) && c[i] == b[i] - 2
  {
    hide Units, Total;
    MoveKeeps(b, c, i, j);
    MoveTotal(b, c, i, j);
  }

  /** One move, in place. */
  method MoveWords(bits: array<byte>, i: nat) returns (ok: bool)
    requires bits.Length == MAX_CLEN + 1 && Full(bits[..], i) && i > 16 && bits[i] > 0 && Words(bits[..]) <= 255
    modifies bits
    ensures ok && Full(bits[..], i) && Words(bits[..]) == old(Words(bits[..]))
    ensures bits[i] < old(bits[i])
  {
    hide Units, Total, Pow2;
    ghost var b := bits[..];
    Paired(b, i);
    SplitExists(b, i);
    var j := i - 2;
    while bits[j] == 0
      invariant 0 <= j <= i - 2 && bits[..] == b
      invariant forall k :: j < k <= i - 2 ==> b[k] == 0
      decreases j
    {
      if j == 0 {
        return false;
      }
      j := j - 1;
    }
    assert b[j] > 0;
    NoWrap(b, i, j);
    bits[i] := bits[i] - 2;
    bits[i - 1] := bits[i - 1] + 1;
    bits[j + 1] := bits[j + 1] + 2;
    bits[j] := bits[j] - 1;
    MoveFull(b, bits[..], i, j);
    ok := true;
  }

  /**
   Limits code lengths to 16 bits. The tree stays full, the number of words stays
   the same, no count wraps around and the error exit is never taken.
   */
  method LimitLengths(bits: array<byte>) returns (ok: bool)
    requires bits.Length == MAX_CLEN + 1 && Full(bits[..], MAX_CLEN) && Words(bits[..]) <= 255
    modifies bits
    ensures ok && Full(bits[..], 16) && Words(bits[..]) == old(Words(bits[..]))
  {
    hide Full, Total;
    var i := MAX_CLEN;
    while i > 16
      invariant 16 <= i <= MAX_CLEN && Full(bits[..], i)
      invariant Words(bits[..]) == old(Words(bits[..]))
    {
      while bits[i] > 0
        invariant Full(bits[..], i) && Words(bits[..]) == old(Words(bits[..]))
        decreases bits[i]
      {
        ok := MoveWords(bits, i);
        if !ok {
          return;
        }
      }
      Shallower(bits[..], i);
      i := i - 1;
    }
    ok := true;
  }

  // ----- removing the pseudo-symbol

  lemma {:induction false} TotalTail(b: seq<byte>, i: nat, l: nat)
    requires i <= l < |b| && forall k :: i < k <= l ==> b[k] == 0
    ensures Total(b, l) == Total(b, i)
    decreases l
  {
    if i < l {
      TotalTail(b, i, l - 1);
    }
  }

  /** Removes the word of all ones: the last of the longest. */
  method DropLast(bits: array<byte>) returns (ghost i: nat)
    requires bits.Length == MAX_CLEN + 1 && Full(bits[..], 16)
    modifies bits
    ensures 0 < i <= 16 && old(bits[i]) > 0 && bits[..] == old(bits[..])[i := old(bits[i]) - 1]
    ensures Full(old(bits[..]), i)
  {
    hide Units, Pow2;
    NotEmpty(bits[..]);
    var l := 16;
    while bits[l] == 0
      invariant 0 <= l <= 16 && Full(bits[..], l) && bits[..] == old(bits[..])
      decreases l
    {
      Shallower(bits[..], l);
      l := l - 1;
    }
    bits[l] := bits[l] - 1;
    i := l;
  }

  lemma NotEmpty(b: seq<byte>)
    requires |b| == MAX_CLEN + 1
    ensures !Full(b, 0)
  {
  }
}
