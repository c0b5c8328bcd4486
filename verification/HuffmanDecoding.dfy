/**
 Decoding a code word (jpeg_make_d_derived_tbl and jpeg_huff_decode in jdhuff.c;
 figures F.15 and F.16 of ITU-T T.81): one comparison for each bit, with the largest
 code of each length, finds the word that comes next.
 */
module HuffmanDecoding {
  import opened Products
  import opened Bytes
  import opened HuffmanCode
  import opened HuffmanWords
  import opened HuffmanBits
  import opened HuffmanReading

  const SENTINEL := 0xFFFFF

  /** Codes in order of increasing length, as the standard assigns them. */
  predicate Canonical(bits: seq<byte>, codes: seq<nat>) {
    && |bits| == 17 && CountsOk(bits) && |codes| == Total(bits, 16)
    && forall p :: 0 <= p < |codes| ==> CodeAt(Sizes(bits, 16), p, codes[p])
  }

  /** Per length: the largest code, or -1, and what added to a code gives its symbol's place in the list. */
  predicate DecodesFrom(bits: seq<byte>, codes: seq<nat>, maxcode: seq<int>, valoffset: seq<int>) {
    && |bits| == 17 && |codes| == Total(bits, 16) && |maxcode| == 18 && |valoffset| == 17 && maxcode[17] == SENTINEL
    && forall l :: 1 <= l <= 16 ==> LengthDecodes(bits, codes, maxcode[l], valoffset[l], l)
  }

  predicate LengthDecodes(bits: seq<byte>, codes: seq<nat>, max: int, offset: int, l: nat)
    requires |bits| == 17 && |codes| == Total(bits, 16) && 1 <= l <= 16
  {
    TotalGrows(bits, l, 16);
    if bits[l] == 0 then max == -1
    else offset == Total(bits, l - 1) - codes[Total(bits, l - 1)] && max == codes[Total(bits, l) - 1]
  }

  /** Fails where the counts are no code, or a DC symbol is too large; otherwise the decoder's arrays. */
  method MakeDecoder(bits: seq<byte>, vals: seq<byte>, isDC: bool)
    returns (ok: bool, maxcode: array<int>, valoffset: array<int>, ghost codes: seq<nat>)
    requires |bits| == 17 && |vals| == 256
    ensures fresh(maxcode) && fresh(valoffset)
    ensures ok <==> CountsOk(bits) && (isDC ==> forall i :: 0 <= i < Total(bits, 16) ==> vals[i] <= 15)
    ensures ok ==> Canonical(bits, codes) && DecodesFrom(bits, codes, maxcode[..], valoffset[..])
  {
    hide Total, Sizes, Start, CodeAt, Pow2;
    maxcode, valoffset := new int[18](_ => 0), new int[17](_ => 0);
    var huffsize, huffcode := new nat[257](_ => 0), new nat[257](_ => 0);
    codes := [];
    SizesAre(bits, 16);
    var lastp: nat;
    ok, lastp := ListSizes(bits, huffsize);
    if !ok {
      return;
    }
    ok := AssignCodes(huffsize, huffcode, lastp);
    if !ok {
      return;
    }
    codes := huffcode[..lastp];
    assert Canonical(bits, codes);
    FillDecoder(bits, huffcode, codes, maxcode, valoffset);
    if isDC {
      var i := 0;
      while i < lastp
        invariant 0 <= i <= lastp && forall j :: 0 <= j < i ==> vals[j] <= 15
      {
        var sym := vals[i];
        if sym < 0 || sym > 15 {
          ok := false;
          return;
        }
        i := i + 1;
      }
    }
  }

  /** The arrays, length by length. */
  method FillDecoder(bits: seq<byte>, huffcode: array<nat>, ghost codes: seq<nat>, maxcode: array<int>, valoffset: array<int>)
    requires |bits| == 17 && huffcode.Length == 257 && maxcode.Length == 18 && valoffset.Length == 17 && maxcode != valoffset
    requires |codes| == Total(bits, 16) <= 256 && huffcode[..|codes|] == codes
    modifies maxcode, valoffset
    ensures DecodesFrom(bits, codes, maxcode[..], valoffset[..])
  {
    hide Total, LengthDecodes;
    var p: nat := 0;
    var l := 1;
    NoSizes(bits);
    while l <= 16
      invariant 1 <= l <= 17 && p == Total(bits, l - 1) && |codes| == Total(bits, 16)
      invariant forall j :: 1 <= j < l ==> LengthDecodes(bits, codes, maxcode[j], valoffset[j], j)
    {
      NextSizes(bits, l);
      TotalGrows(bits, l, 16);
      if bits[l] != 0 {
        valoffset[l] := p - huffcode[p];
        p := p + bits[l];
        maxcode[l] := huffcode[p - 1];
      } else {
        maxcode[l] := -1;
      }
      LengthIs(bits, codes, maxcode[l], valoffset[l], l);
      l := l + 1;
    }
    maxcode[17] := SENTINEL;
  }

  lemma LengthIs(bits: seq<byte>, codes: seq<nat>, max: int, offset: int, l: nat)
    requires |bits| == 17 && |codes| == Total(bits, 16) && 1 <= l <= 16
    requires Total(bits, l) == Total(bits, l - 1) + bits[l] <= |codes|
    requires if bits[l] == 0 then max == -1
             else offset == Total(bits, l - 1) - codes[Total(bits, l - 1)] && max == codes[Total(bits, l) - 1]
    ensures LengthDecodes(bits, codes, max, offset, l)
  {
  }

  // ----- codes of one length

  lemma {:induction false} SizeAt(bits: seq<byte>, l: nat, m: nat, p: nat)
    requires 1 <= l <= m <= 16 && |bits| == 17
    requires p < Total(bits, m)
    ensures Sizes(bits, m)[p] == l <==> Total(bits, l - 1) <= p < Total(bits, l)
    decreases m
  {
    TotalGrows(bits, l, m);
    TotalGrows(bits, l - 1, l);
    SizesAre(bits, m);
    if l < m {
      if p < Total(bits, m - 1) {
        SizeAt(bits, l, m - 1, p);
      } else {
        TotalGrows(bits, l, m - 1);
      }
    } else if p < Total(bits, m - 1) {
      SizesAre(bits, m - 1);
    }
  }

  /** Codes of one length are consecutive. */
  lemma {:induction false} Consecutive(bits: seq<byte>, codes: seq<nat>, l: nat, p: nat)
    requires Canonical(bits, codes) && 1 <= l <= 16 && Total(bits, l - 1) <= p < Total(bits, l)
    ensures p < |codes| && Total(bits, l - 1) < |codes|
    ensures codes[p] == codes[Total(bits, l - 1)] + (p - Total(bits, l - 1))
    decreases p
  {
    hide Total, Sizes, Start, Weight;
    TotalGrows(bits, l, 16);
    var first, sizes := Total(bits, l - 1), Sizes(bits, 16);
    if p > first {
      Consecutive(bits, codes, l, p - 1);
      SizeAt(bits, l, 16, p);
      SizeAt(bits, l, 16, p - 1);
      StartStep(sizes, p - 1, codes[p - 1]);
      CancelRight(codes[p], codes[p - 1] + 1, Weight(l));
    }
  }

  /** All codes up to this length lie below. */
  predicate Past(bits: seq<byte>, code: nat, l: nat, n: nat)
    requires |bits| == 17 && CountsOk(bits) && l <= 16 && n <= 16
  {
    TotalGrows(bits, n, 16);
    Start(Sizes(bits, 16), Total(bits, n)) <= code * Weight(l)
  }

  lemma PastNext(bits: seq<byte>, code: nat, l: nat, b: bit)
    requires |bits| == 17 && CountsOk(bits) && l < 16 && Past(bits, code, l, l)
    ensures Past(bits, 2 * code + b, l + 1, l)
  {
    hide Start, Sizes, Total, Weight;
    NextLength(code, l);
    MulMonotone(2 * code, 2 * code + b, Weight(l + 1));
  }

  /** A code not above the largest of its length, and past the shorter ones, is one of them. */
  lemma CodeFound(bits: seq<byte>, codes: seq<nat>, max: int, offset: int, code: nat, l: nat) returns (p: nat)
    requires Canonical(bits, codes) && 1 <= l <= 16 && Past(bits, code, l, l - 1)
    requires LengthDecodes(bits, codes, max, offset, l) && code <= max
    ensures p == code + offset && p < |codes| && codes[p] == code && Sizes(bits, 16)[p] == l
  {
    hide Total, Sizes, Start, Weight;
    TotalGrows(bits, l, 16);
    NextSizes(bits, l);
    var first := Total(bits, l - 1);
    SizeAt(bits, l, 16, first);
    assert CodeAt(Sizes(bits, 16), first, codes[first]);
    assert codes[first] * Weight(l) <= code * Weight(l);
    if code < codes[first] {
      MulMonotone(code + 1, codes[first], Weight(l));
      MulSum(code, 1, Weight(l));
    }
    Consecutive(bits, codes, l, Total(bits, l) - 1);
    p := first + (code - codes[first]);
    Consecutive(bits, codes, l, p);
    SizeAt(bits, l, 16, p);
  }

  /** A code above the largest of its length is past them, and is none of them. */
  lemma CodeMissed(bits: seq<byte>, codes: seq<nat>, max: int, offset: int, code: nat, l: nat)
    requires Canonical(bits, codes) && 1 <= l <= 16 && Past(bits, code, l, l - 1)
    requires LengthDecodes(bits, codes, max, offset, l) && code > max
    ensures Past(bits, code, l, l)
    ensures forall p :: 0 <= p < |codes| && Sizes(bits, 16)[p] == l ==> codes[p] != code
  {
    hide Total, Sizes, Start, Weight;
    TotalGrows(bits, l, 16);
    NextSizes(bits, l);
    forall p | 0 <= p < |codes| && Sizes(bits, 16)[p] == l ensures codes[p] < code {
      SizeAt(bits, l, 16, p);
      Consecutive(bits, codes, l, p);
      Consecutive(bits, codes, l, Total(bits, l) - 1);
    }
    if bits[l] > 0 {
      var last := Total(bits, l) - 1;
      SizeAt(bits, l, 16, last);
      StartStep(Sizes(bits, 16), last, codes[last]);
      MulMonotone(codes[last] + 1, code, Weight(l));
    }
  }

  // ----- words

  /** The words of the table are the codes of the list. */
  lemma WordAt(t: Table, bits: seq<byte>, vals: seq<byte>, codes: seq<nat>, p: nat)
    requires Derived(t, bits, vals) && Canonical(bits, codes) && p < |codes|
    ensures HasWord(t, vals[p]) && Word(t, vals[p]) == Bits(codes[p], Sizes(bits, 16)[p])
  {
    hide Total, Sizes, Start, Bits;
    SizesAre(bits, 16);
    CancelRight(t.co[vals[p]], codes[p], Weight(Sizes(bits, 16)[p]));
  }

  lemma WordNumber(t: Table, bits: seq<byte>, vals: seq<byte>, codes: seq<nat>, y: byte) returns (p: nat)
    requires Derived(t, bits, vals) && Canonical(bits, codes) && HasWord(t, y)
    ensures p < |codes| && vals[p] == y && Sizes(bits, 16)[p] == t.si[y] && codes[p] == Number(Word(t, y))
  {
    p := Position(t, bits, vals, y);
    WordFits(t, bits, vals, y);
    hide Total, Sizes, Start, Bits, Number;
    SizesAre(bits, 16);
    CancelRight(t.co[y], codes[p], Weight(Sizes(bits, 16)[p]));
  }

  lemma NextHit(t: Table, bits: seq<byte>, vals: seq<byte>, codes: seq<nat>, s: seq<bit>, l: nat, p: nat)
    requires Derived(t, bits, vals) && Canonical(bits, codes) && 1 <= l <= 16 && l <= |s|
    requires p < |codes| && codes[p] == Number(s[..l]) && Sizes(bits, 16)[p] == l
    ensures NextSymbol(t, s, l) == Got(vals[p], s[l..])
  {
    hide Derived, Canonical, Sizes, Total, Word, Bits, Number;
    CanonicalSize(bits, codes);
    DerivedCounts(t, bits, vals);
    WordAt(t, bits, vals, codes, p);
    BitsOfNumber(s[..l]);
    assert HasWord(t, vals[p]) && Word(t, vals[p]) == s[..l];
    var x := SymbolAt(t, s[..l], 256);
    PrefixFree(t, bits, vals, x, vals[p]);
  }

  lemma NextMiss(t: Table, bits: seq<byte>, vals: seq<byte>, codes: seq<nat>, s: seq<bit>, l: nat)
    requires Derived(t, bits, vals) && Canonical(bits, codes) && 1 <= l <= 16 && l <= |s|
    requires forall p :: 0 <= p < |codes| && Sizes(bits, 16)[p] == l ==> codes[p] != Number(s[..l])
    ensures NextSymbol(t, s, l) == NextSymbol(t, s, l + 1)
  {
    hide Derived, Canonical, Sizes, Total, Number;
    var x := SymbolAt(t, s[..l], 256);
    if x >= 0 {
      var p := WordNumber(t, bits, vals, codes, x);
    }
  }

  lemma NumberNext(s: seq<bit>, l: nat)
    requires l < |s|
    ensures Number(s[..l + 1]) == 2 * Number(s[..l]) + s[l]
  {
    assert s[..l + 1][..l] == s[..l];
  }

  /**
   Collects bits until the code is not above the largest of its length, and looks the
   symbol up: this is the symbol whose word comes next, if any does.
   */
  method DecodeSymbol(maxcode: array<int>, valoffset: array<int>, vals: seq<byte>, s: seq<bit>,
                      ghost t: Table, ghost bits: seq<byte>, ghost codes: seq<nat>)
    returns (g: Got<byte>)
    requires Derived(t, bits, vals) && Canonical(bits, codes) && DecodesFrom(bits, codes, maxcode[..], valoffset[..])
    ensures g == NextSymbol(t, s, 1)
  {
    hide Derived, Canonical, Sizes, Total, Number, NextSymbol, LengthDecodes, Past, CountsOk;
    DerivedCounts(t, bits, vals);
    if s == [] {
      NoneNext(t, s, 1);
      return Nothing;
    }
    var code: nat, l := s[0], 1;
    FirstBit(bits, s);
    assert forall j :: 1 <= j <= 16 ==> LengthDecodes(bits, codes, maxcode[..][j], valoffset[..][j], j);
    while code > maxcode[l]
      invariant 1 <= l <= 17 && l <= |s| && (l <= 16 ==> Past(bits, code, l, l - 1))
      invariant code == Number(s[..l]) && NextSymbol(t, s, 1) == NextSymbol(t, s, l)
      invariant l == 17 ==> code <= SENTINEL
      decreases 17 - l
    {
      CodeMissed(bits, codes, maxcode[l], valoffset[l], code, l);
      NextMiss(t, bits, vals, codes, s, l);
      if l == |s| {
        NoneNext(t, s, l + 1);
        return Nothing;
      }
      if l < 16 {
        PastNext(bits, code, l, s[l]);
      }
      NumberNext(s, l);
      CodeBound(s, l + 1);
      code := 2 * code + s[l];
      l := l + 1;
    }
    if l > 16 {
      NoneNext(t, s, l);
      return Nothing;
    }
    ghost var p := CodeFound(bits, codes, maxcode[l], valoffset[l], code, l);
    NextHit(t, bits, vals, codes, s, l, p);
    CanonicalSize(bits, codes);
    g := Got(vals[code + valoffset[l]], s[l..]);
  }

  lemma CodeBound(s: seq<bit>, l: nat)
    requires l <= |s| && l <= 17
    ensures Number(s[..l]) <= SENTINEL
  {
    NumberBound(s[..l]);
    Pow2Monotone(l, 19);
    Pow2Masks();
  }

  lemma CanonicalSize(bits: seq<byte>, codes: seq<nat>)
    requires Canonical(bits, codes)
    ensures |codes| <= 256
  {
  }

  lemma DerivedCounts(t: Table, bits: seq<byte>, vals: seq<byte>)
    requires Derived(t, bits, vals)
    ensures |bits| == 17 && |vals| == 256 && CountsOk(bits)
  {
  }

  lemma NoneNext(t: Table, s: seq<bit>, l: nat)
    requires l > 16 || l > |s|
    ensures NextSymbol(t, s, l) == Nothing
  {
  }

  lemma FirstBit(bits: seq<byte>, s: seq<bit>)
    requires s != [] && |bits| == 17 && CountsOk(bits)
    ensures Number(s[..1]) == s[0] && Past(bits, s[0], 1, 0)
  {
    assert s[..1][..0] == [];
  }
}
