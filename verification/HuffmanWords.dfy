/**
 Code words as strings of bits: an accepted table is a prefix-free code without a
 word of all ones, so what is coded with it can be read back.
 */
module HuffmanWords {
  import opened Products
  import opened Bytes
  import opened HuffmanCode

  type bit = x: int | 0 <= x < 2

  /** The low `n` bits of a number, most significant first. */
  function Bits(code: nat, n: nat): (s: seq<bit>)
    ensures |s| == n
    decreases n
  {
    if n == 0 then [] else Bits(code / 2, n - 1) + [code % 2]
  }

  function Number(s: seq<bit>): nat
    decreases |s|
  {
    if s == [] then 0 else 2 * Number(s[..|s| - 1]) + s[|s| - 1]
  }

  function Ones(n: nat): (s: seq<bit>)
    ensures |s| == n
  {
    seq(n, i => 1)
  }

  lemma {:induction false} NumberBits(code: nat, n: nat)
    requires code < Pow2(n)
    ensures Number(Bits(code, n)) == code
    decreases n
  {
    if n > 0 {
      NumberBits(code / 2, n - 1);
      assert Bits(code, n)[..n - 1] == Bits(code / 2, n - 1);
    }
  }

  lemma {:induction false} NumberBound(s: seq<bit>)
    ensures Number(s) < Pow2(|s|)
    decreases |s|
  {
    if s != [] {
      NumberBound(s[..|s| - 1]);
    }
  }

  lemma {:induction false} NumberConcat(a: seq<bit>, b: seq<bit>)
    ensures Number(a + b) == Number(a) * Pow2(|b|) + Number(b)
    decreases |b|
  {
    if b == [] {
      assert a + b == a;
    } else {
      var n := |b| - 1;
      assert (a + b)[..|a + b| - 1] == a + b[..n];
      NumberConcat(a, b[..n]);
      assert Pow2(|b|) == 2 * Pow2(n);
      MulAssoc(Number(a), 2, Pow2(n));
      MulSwap(Number(a), 2, Pow2(n));
    }
  }

  lemma {:induction false} NumberOnes(n: nat)
    ensures Number(Ones(n)) == Pow2(n) - 1
    decreases n
  {
    if n > 0 {
      NumberOnes(n - 1);
      assert Ones(n)[..n - 1] == Ones(n - 1);
    }
  }

  /** A derived table: code words and their lengths by symbol. */
  datatype Table = Table(co: seq<nat>, si: seq<nat>)

  /** The table derived from the counts and the symbol list. */
  predicate Derived(t: Table, bits: seq<byte>, vals: seq<byte>) {
    && |t.co| == 256 && |t.si| == 256 && |bits| == 17 && |vals| == 256
    && CountsOk(bits) && Symbols(vals, Total(bits, 16), 255)
    && Listed(t.co, t.si, vals, Sizes(bits, 16), Total(bits, 16))
  }

  predicate HasWord(t: Table, s: byte) {
    |t.co| == 256 && |t.si| == 256 && t.si[s] > 0
  }

  function Word(t: Table, s: byte): seq<bit>
    requires HasWord(t, s)
  {
    Bits(t.co[s], t.si[s])
  }

  /** A symbol with a word is in the list. */
  lemma Position(t: Table, bits: seq<byte>, vals: seq<byte>, s: byte) returns (p: nat)
    requires Derived(t, bits, vals) && HasWord(t, s)
    ensures p < Total(bits, 16) && vals[p] == s
    ensures t.si[s] == Sizes(bits, 16)[p] <= 16 && CodeAt(Sizes(bits, 16), p, t.co[s])
  {
    hide CodeAt, Sizes, Total;
    assert !forall q :: 0 <= q < Total(bits, 16) ==> vals[q] != s;
    p :| 0 <= p < Total(bits, 16) && vals[p] == s;
    SizesAre(bits, 16);
  }

  /** Every word is as long as its symbol's length, and its code fits. */
  lemma WordFits(t: Table, bits: seq<byte>, vals: seq<byte>, s: byte)
    requires Derived(t, bits, vals) && HasWord(t, s)
    ensures 1 <= t.si[s] <= 16 && t.co[s] + 1 < Pow2(t.si[s])
    ensures Number(Word(t, s)) == t.co[s]
  {
    hide Pow2, Start, Sizes, Total, Bits, Number;
    var sizes := Sizes(bits, 16);
    var p := Position(t, bits, vals, s);
    StartStep(sizes, p, t.co[s]);
    StartGrows(sizes, p + 1, |sizes|);
    CodeFits(t.co[s] + 1, sizes[p]);
    NumberBits(t.co[s], t.si[s]);
  }

  /** A prefix begins the same part of the code space. */
  lemma PrefixSpace(a: seq<bit>, b: seq<bit>)
    requires a <= b && |b| <= 16
    ensures Number(a) * Weight(|a|) <= Number(b) * Weight(|b|) < (Number(a) + 1) * Weight(|a|)
  {
    hide Pow2, Number;
    var c := b[|a|..];
    assert b == a + c;
    NumberConcat(a, c);
    NumberBound(c);
    Pow2Add(|c|, 16 - |b|);
    var x, p, q := Number(a), Pow2(|c|), Pow2(16 - |b|);
    MulAssoc(x, p, q);
    MulSum(x * p, Number(c), q);
    MulSum(x, 1, p * q);
    MulMonotone(0, Number(c), q);
    MulMonotone(Number(c) + 1, p, q);
    MulSum(Number(c), 1, q);
  }

  /** No word is a prefix of another. */
  lemma PrefixFree(t: Table, bits: seq<byte>, vals: seq<byte>, s: byte, r: byte)
    requires Derived(t, bits, vals) && HasWord(t, s) && HasWord(t, r) && Word(t, s) <= Word(t, r)
    ensures s == r
  {
    hide Pow2, Start, Sizes, Total, Bits, Number, Weight;
    var sizes := Sizes(bits, 16);
    var p := Position(t, bits, vals, s);
    var q := Position(t, bits, vals, r);
    WordFits(t, bits, vals, s);
    WordFits(t, bits, vals, r);
    PrefixSpace(Word(t, s), Word(t, r));
    StartStep(sizes, p, t.co[s]);
    if p < q {
      StartGrows(sizes, p, q);
      assert Start(sizes, q) == t.co[r] * Weight(sizes[q]);
      MulSum(t.co[s], 1, Weight(sizes[p]));
    } else if q < p {
      StartGrows(sizes, q, p);
    }
  }

  /** A table of which no word is a prefix of another. */
  predicate PrefixCode(t: Table) {
    forall x: byte, y: byte :: HasWord(t, x) && HasWord(t, y) && Word(t, x) <= Word(t, y) ==> x == y
  }

  lemma DerivedPrefixCode(t: Table, bits: seq<byte>, vals: seq<byte>)
    requires Derived(t, bits, vals)
    ensures PrefixCode(t)
  {
    hide Derived, Word;
    forall x: byte, y: byte | HasWord(t, x) && HasWord(t, y) && Word(t, x) <= Word(t, y) ensures x == y {
      PrefixFree(t, bits, vals, x, y);
    }
  }

  /** No word consists of ones alone, so padding with ones never looks like a word. */
  lemma PaddingHasNoWord(t: Table, bits: seq<byte>, vals: seq<byte>, s: byte, n: nat)
    requires Derived(t, bits, vals) && HasWord(t, s)
    ensures !(Word(t, s) <= Ones(n))
  {
    WordFits(t, bits, vals, s);
    hide Bits, Number, Pow2;
    if Word(t, s) <= Ones(n) {
      assert Word(t, s) == Ones(t.si[s]);
      NumberOnes(t.si[s]);
    }
  }

  // ----- coding and decoding

  predicate AllCoded(t: Table, xs: seq<byte>) {
    forall i :: 0 <= i < |xs| ==> HasWord(t, xs[i])
  }

  function Spell(t: Table, xs: seq<byte>): seq<bit>
    requires AllCoded(t, xs)
    decreases |xs|
  {
    if xs == [] then [] else Word(t, xs[0]) + Spell(t, xs[1..])
  }

  lemma BothPrefixes(a: seq<bit>, b: seq<bit>, x: seq<bit>, y: seq<bit>)
    requires a + x == b + y
    ensures |a| <= |b| ==> a <= b
    ensures |b| <= |a| ==> b <= a
  {
    assert |a| <= |b| ==> a == (a + x)[..|a|] && (b + y)[..|a|] == b[..|a|];
    assert |b| <= |a| ==> b == (b + y)[..|b|] && (a + x)[..|b|] == a[..|b|];
  }

  lemma SameTail(a: seq<bit>, x: seq<bit>, y: seq<bit>)
    requires a + x == a + y
    ensures x == y
  {
    assert x == (a + x)[|a|..] && y == (a + y)[|a|..];
  }

  /** A string of code words, padded with ones, comes from one list of symbols only. */
  lemma {:induction false} UniqueDecoding(t: Table, bits: seq<byte>, vals: seq<byte>, xs: seq<byte>, ys: seq<byte>, m: nat, n: nat)
    requires Derived(t, bits, vals) && AllCoded(t, xs) && AllCoded(t, ys)
    requires Spell(t, xs) + Ones(m) == Spell(t, ys) + Ones(n)
    ensures xs == ys
    decreases |xs| + |ys|
  {
    hide Derived, Word;
    if xs != [] && ys != [] {
      var a, b := Word(t, xs[0]), Word(t, ys[0]);
      var x, y := Spell(t, xs[1..]) + Ones(m), Spell(t, ys[1..]) + Ones(n);
      assert Spell(t, xs) + Ones(m) == a + x && Spell(t, ys) + Ones(n) == b + y;
      BothPrefixes(a, b, x, y);
      if |a| <= |b| {
        PrefixFree(t, bits, vals, xs[0], ys[0]);
      } else {
        PrefixFree(t, bits, vals, ys[0], xs[0]);
      }
      SameTail(a, x, y);
      UniqueDecoding(t, bits, vals, xs[1..], ys[1..], m, n);
    } else if xs != [] {
      WordIsNotPadding(t, bits, vals, xs, m, n);
    } else if ys != [] {
      WordIsNotPadding(t, bits, vals, ys, n, m);
    }
  }

  lemma WordIsNotPadding(t: Table, bits: seq<byte>, vals: seq<byte>, xs: seq<byte>, m: nat, n: nat)
    requires Derived(t, bits, vals) && AllCoded(t, xs) && xs != []
    ensures Spell(t, xs) + Ones(m) != [] + Ones(n)
  {
    hide Derived, Word;
    var a := Word(t, xs[0]);
    if Spell(t, xs) + Ones(m) == [] + Ones(n) {
      var rest := Spell(t, xs[1..]) + Ones(m);
      assert Spell(t, xs) + Ones(m) == a + rest;
      assert |a + rest| == |[] + Ones(n)| == n;
      BothPrefixes(a, Ones(n), rest, []);
      PaddingHasNoWord(t, bits, vals, xs[0], n);
    }
  }
}
