/**
 Canonical Huffman codes (Annex C of ITU-T T.81; jpeg_make_c_derived_tbl in
 jchuff.c): which tables are accepted, and why accepted ones can be decoded.
 */
module HuffmanCode {
  import opened Products
  import opened Bytes

  const MAX_LENGTH := 16

  /** Sum of the counts of lengths 1 to `l`. */
  function Total(bits: seq<byte>, l: nat): nat
    requires l < |bits|
    decreases l
  {
    if l == 0 then 0 else Total(bits, l - 1) + bits[l]
  }

  /** The code length of each symbol, in order of increasing length. */
  function Sizes(bits: seq<byte>, l: nat): (s: seq<nat>)
    requires l < |bits|
    ensures |s| == Total(bits, l)
    decreases l
  {
    if l == 0 then [] else Sizes(bits, l - 1) + Times(l, bits[l])
  }

  function Times(x: nat, n: nat): (s: seq<nat>)
    ensures |s| == n && forall i :: 0 <= i < n ==> s[i] == x
  {
    seq(n, i => x)
  }

  /** Part of the code space, in units of 2^-16, that a code word of length `l` takes. */
  function Weight(l: nat): (w: nat)
    requires l <= MAX_LENGTH
    ensures w > 0
  {
    Pow2(MAX_LENGTH - l)
  }

  predicate Lengths(sizes: seq<nat>) {
    forall i :: 0 <= i < |sizes| ==> 1 <= sizes[i] <= MAX_LENGTH
  }

  predicate Ascending(sizes: seq<nat>) {
    forall i, j :: 0 <= i < j < |sizes| ==> sizes[i] <= sizes[j]
  }

  /** Code space taken by the first `p` code words. */
  function Start(sizes: seq<nat>, p: nat): nat
    requires p <= |sizes| && Lengths(sizes)
    decreases p
  {
    if p == 0 then 0 else Start(sizes, p - 1) + Weight(sizes[p - 1])
  }

  /** The counts leave room, at the end of the code space, for the word of all ones. */
  predicate CountsOk(bits: seq<byte>)
    requires |bits| == 17
  {
    Total(bits, 16) <= 256 && Lengths(Sizes(bits, 16)) && Start(Sizes(bits, 16), Total(bits, 16)) < Pow2(16)
  }

  predicate Symbols(vals: seq<byte>, n: nat, maxSymbol: nat)
    requires n <= |vals|
  {
    && (forall p :: 0 <= p < n ==> vals[p] <= maxSymbol)
    && (forall p, q :: 0 <= p < q < n ==> vals[p] != vals[q])
  }

  function MaxSymbol(isDC: bool): nat {
    if isDC then 15 else 255
  }

  /** The tables that can be used for coding. */
  predicate Usable(bits: seq<byte>, vals: seq<byte>, isDC: bool)
    requires |bits| == 17 && |vals| == 256
  {
    CountsOk(bits) && Symbols(vals, Total(bits, 16), MaxSymbol(isDC))
  }

  lemma {:induction false} SizesAre(bits: seq<byte>, l: nat)
    requires l < |bits| <= 17
    ensures Lengths(Sizes(bits, l)) && Ascending(Sizes(bits, l))
    ensures forall i :: 0 <= i < |Sizes(bits, l)| ==> Sizes(bits, l)[i] <= l
    decreases l
  {
    if l > 0 {
      SizesAre(bits, l - 1);
    }
  }

  lemma {:induction false} StartGrows(sizes: seq<nat>, p: nat, q: nat)
    requires p <= q <= |sizes| && Lengths(sizes)
    ensures Start(sizes, p) <= Start(sizes, q)
    ensures p < q ==> Start(sizes, p) + Weight(sizes[p]) <= Start(sizes, q)
    decreases q
  {
    if p < q {
      StartGrows(sizes, p, q - 1);
    }
  }

  /** The next code word begins where the last one ended, whatever its length. */
  lemma NextLength(code: nat, si: nat)
    requires si < MAX_LENGTH
    ensures (2 * code) * Weight(si + 1) == code * Weight(si)
  {
    var w := Weight(si + 1);
    assert Weight(si) == 2 * w;
    hide Pow2, Weight;
    MulAssoc(code, 2, w);
    MulSwap(code, 2, w);
  }

  lemma CodeFits(code: nat, si: nat)
    requires si <= MAX_LENGTH
    ensures code >= Pow2(si) <==> code * Weight(si) >= Pow2(16)
  {
    Pow2Add(si, MAX_LENGTH - si);
    if code >= Pow2(si) {
      MulMonotone(Pow2(si), code, Weight(si));
    } else {
      MulMonotone(code + 1, Pow2(si), Weight(si));
      MulSum(code, 1, Weight(si));
    }
  }

  /** The code word of the symbol at position `p` begins where the earlier ones end. */
  predicate CodeAt(sizes: seq<nat>, p: nat, code: nat)
    requires p < |sizes| && Lengths(sizes)
  {
    code * Weight(sizes[p]) == Start(sizes, p)
  }

  // ----- jpeg_make_c_derived_tbl

  /** Lists the code length of each symbol. */
  method ListSizes(bits: seq<byte>, huffsize: array<nat>) returns (ok: bool, lastp: nat)
    requires |bits| == 17 && huffsize.Length == 257
    modifies huffsize
    ensures ok <==> Total(bits, 16) <= 256
    ensures ok ==> lastp == Total(bits, 16) && huffsize[..lastp] == Sizes(bits, 16) && huffsize[lastp] == 0
  {
    hide Total, Sizes;
    var p := 0;
    var l := 1;
    NoSizes(bits);
    while l <= 16
      invariant 1 <= l <= 17 && p == Total(bits, l - 1) <= 256
      invariant huffsize[..p] == Sizes(bits, l - 1)
    {
      NextSizes(bits, l);
      var i: int := bits[l];
      if i < 0 || p + i > 256 {
        TotalGrows(bits, l, 16);
        return false, 0;
      }
      ghost var was := p;
      while i > 0
        invariant 0 <= i <= bits[l] && p == was + (bits[l] - i)
        invariant huffsize[..p] == Sizes(bits, l - 1) + Times(l, bits[l] - i)
      {
        huffsize[p] := l;
        p := p + 1;
        i := i - 1;
        assert huffsize[..p] == huffsize[..p - 1] + [l];
      }
      l := l + 1;
    }
    huffsize[p] := 0;
    return true, p;
  }

  lemma NoSizes(bits: seq<byte>)
    requires |bits| == 17
    ensures Total(bits, 0) == 0 && Sizes(bits, 0) == []
  {
  }

  lemma NextSizes(bits: seq<byte>, l: nat)
    requires 1 <= l < |bits|
    ensures Total(bits, l) == Total(bits, l - 1) + bits[l]
    ensures Sizes(bits, l) == Sizes(bits, l - 1) + Times(l, bits[l])
  {
  }

  lemma {:induction false} TotalGrows(bits: seq<byte>, l: nat, m: nat)
    requires l <= m < |bits|
    ensures Total(bits, l) <= Total(bits, m)
    decreases m
  {
    if l < m {
      TotalGrows(bits, l, m - 1);
    }
  }

  /** Assigns the code words, and fails if the word of all ones would be reached. */
  method AssignCodes(huffsize: array<nat>, huffcode: array<nat>, lastp: nat) returns (ok: bool)
    requires huffsize.Length == 257 && huffcode.Length == 257 && huffsize != huffcode
    requires lastp <= 256 && huffsize[lastp] == 0 && Lengths(huffsize[..lastp]) && Ascending(huffsize[..lastp])
    modifies huffcode
    ensures ok <==> Start(huffsize[..lastp], lastp) < Pow2(16)
    ensures ok ==> forall p :: 0 <= p < lastp ==> CodeAt(huffsize[..lastp], p, huffcode[p])
  {
    hide Pow2, CodeAt, Weight;
    ghost var sizes := huffsize[..lastp];
    var code: nat, si := 0, huffsize[0];
    var p := 0;
    while p < lastp
      invariant 0 <= p <= lastp && si <= 17 && (p < lastp ==> 1 <= si <= sizes[p])
      invariant p < lastp ==> code * Weight(si) == Start(sizes, p)
      invariant Start(sizes, p) < Pow2(16)
      invariant forall q :: 0 <= q < p ==> CodeAt(sizes, q, huffcode[q])
      decreases lastp - p, 17 - si
    {
      ghost var first := p;
      while huffsize[p] == si
        invariant first <= p <= lastp && 1 <= si <= 16 && (p < lastp ==> si <= sizes[p])
        invariant code * Weight(si) == Start(sizes, p)
        invariant forall q :: 0 <= q < p ==> CodeAt(sizes, q, huffcode[q])
        decreases lastp - p
      {
        huffcode[p] := code;
        assert CodeAt(sizes, p, code) by { CodeStands(sizes, p, code); }
        StartStep(sizes, p, code);
        p := p + 1;
        code := code + 1;
      }
      CodeFits(code, si);
      if code >= Pow2(si) {
        StartGrows(sizes, p, lastp);
        return false;
      }
      if p < lastp {
        NextLength(code, si);
      }
      code := 2 * code;
      si := si + 1;
    }
    ok := true;
  }

  lemma CodeStands(sizes: seq<nat>, p: nat, code: nat)
    requires p < |sizes| && Lengths(sizes) && code * Weight(sizes[p]) == Start(sizes, p)
    ensures CodeAt(sizes, p, code)
  {
  }

  lemma StartStep(sizes: seq<nat>, p: nat, code: nat)
    requires p < |sizes| && Lengths(sizes) && code * Weight(sizes[p]) == Start(sizes, p)
    ensures (code + 1) * Weight(sizes[p]) == Start(sizes, p + 1)
  {
    MulSum(code, 1, Weight(sizes[p]));
  }

  /** The table lists exactly the first `n` symbols, with their lengths and code words. */
  predicate Listed(co: seq<nat>, si: seq<nat>, vals: seq<byte>, sizes: seq<nat>, n: nat)
    requires |co| == 256 && |si| == 256 && n <= |sizes| && n <= |vals| && Lengths(sizes)
  {
    && (forall p :: 0 <= p < n ==> si[vals[p]] == sizes[p] && CodeAt(sizes, p, co[vals[p]]))
    && (forall s :: 0 <= s < 256 && (forall p :: 0 <= p < n ==> vals[p] != s) ==> si[s] == 0)
  }

  /** Derives code words and lengths by symbol; a length of 0 marks symbols without a code. */
  method DeriveTable(bits: seq<byte>, vals: seq<byte>, isDC: bool, ehufco: array<nat>, ehufsi: array<nat>) returns (ok: bool)
    requires |bits| == 17 && |vals| == 256 && ehufco.Length == 256 && ehufsi.Length == 256 && ehufco != ehufsi
    modifies ehufco, ehufsi
    ensures ok <==> Usable(bits, vals, isDC)
    ensures ok ==> Lengths(Sizes(bits, 16)) && Listed(ehufco[..], ehufsi[..], vals, Sizes(bits, 16), Total(bits, 16))
  {
    hide Pow2, CodeAt, Start, Total, Sizes;
    var huffsize, huffcode := new nat[257](_ => 0), new nat[257](_ => 0);
    SizesAre(bits, 16);
    var lastp: nat;
    ok, lastp := ListSizes(bits, huffsize);
    if !ok {
      return;
    }
    ok := AssignCodes(huffsize, huffcode, lastp);
    if !ok {
      return;
    }
    ghost var sizes := Sizes(bits, 16);
    for i := 0 to 256
      invariant huffsize[..lastp] == sizes && forall q :: 0 <= q < lastp ==> CodeAt(sizes, q, huffcode[q])
      invariant forall s :: 0 <= s < i ==> ehufsi[s] == 0
    {
      ehufsi[i] := 0;
    }
    var maxsymbol := MaxSymbol(isDC);
    var p := 0;
    while p < lastp
      invariant 0 <= p <= lastp && Symbols(vals, p, maxsymbol)
      invariant Listed(ehufco[..], ehufsi[..], vals, sizes, p)
      invariant huffsize[..lastp] == sizes && forall q :: 0 <= q < lastp ==> CodeAt(sizes, q, huffcode[q])
    {
      var i := vals[p];
      if i < 0 || i > maxsymbol || ehufsi[i] != 0 {
        return false;
      }
      assert huffsize[p] == huffsize[..lastp][p];
      ehufco[i] := huffcode[p];
      ehufsi[i] := huffsize[p];
      p := p + 1;
    }
    ok := true;
  }
}
