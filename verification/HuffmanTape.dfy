/**
 A segment as its reader finds it: the bits of the items not yet read, and padding.
 What the sequential coder sends for a block is read back.
 */
module HuffmanTape {
  import opened Bytes
  import opened BlockModel
  import opened ScanModel
  import opened HuffmanWords
  import opened HuffmanBits
  import opened HuffmanItems
  import opened HuffmanStream
  import opened HuffmanEncoder
  import opened HuffmanReading

  datatype Tape = Tape(codes: Codes, items: seq<Item>, pad: seq<bit>)

  predicate ValidTape(tp: Tape) {
    && ValidCodes(tp.codes) && TablesOk(tp.codes.dc, tp.codes.ac)
    && (forall i :: 0 <= i < NUM_HUFF_TBLS ==> PrefixCode(tp.codes.dc[i]) && PrefixCode(tp.codes.ac[i]))
    && Covered(tp.codes.dc, tp.codes.ac, tp.items)
  }

  lemma CoveredFrom(tp: Tape, n: nat)
    requires ValidTape(tp) && n <= |tp.items|
    ensures Covered(tp.codes.dc, tp.codes.ac, tp.items[n..])
  {
  }

  /** The bits left when `n` items have been read. */
  function Left(tp: Tape, n: nat): seq<bit>
    requires ValidTape(tp) && n <= |tp.items|
  {
    CoveredFrom(tp, n);
    SpellItems(tp.codes.dc, tp.codes.ac, tp.items[n..]) + tp.pad
  }

  lemma {:induction false} SpellFirst(dc: seq<Table>, ac: seq<Table>, x: Item, ys: seq<Item>)
    requires TablesOk(dc, ac) && Covered(dc, ac, [x] + ys)
    ensures Writable(dc, ac, x) && Covered(dc, ac, ys)
    ensures SpellItems(dc, ac, [x] + ys) == SpellItem(dc, ac, x) + SpellItems(dc, ac, ys)
    decreases |ys|
  {
    hide SpellItem, Writable;
    CoveredTail(dc, ac, [x], ys);
    assert [x][0] == x;
    if ys == [] {
      assert [x] + ys == [x] && [x][..0] == [];
      assert SpellItems(dc, ac, [x]) == [] + SpellItem(dc, ac, x);
    } else {
      var n := |ys| - 1;
      var all := [x] + ys;
      assert all[..n + 1] == [x] + ys[..n] && all[n + 1] == ys[n];
      CoveredTail(dc, ac, [x] + ys[..n], [ys[n]]);
      assert [x] + ys[..n] + [ys[n]] == all;
      SpellFirst(dc, ac, x, ys[..n]);
      SeqAssoc(SpellItem(dc, ac, x), SpellItems(dc, ac, ys[..n]), SpellItem(dc, ac, ys[n]));
    }
  }

  lemma LeftStep(tp: Tape, n: nat)
    requires ValidTape(tp) && n < |tp.items|
    ensures Writable(tp.codes.dc, tp.codes.ac, tp.items[n])
    ensures Left(tp, n) == SpellItem(tp.codes.dc, tp.codes.ac, tp.items[n]) + Left(tp, n + 1)
  {
    hide SpellItems, SpellItem, Writable, PrefixCode;
    CoveredFrom(tp, n);
    CoveredFrom(tp, n + 1);
    assert tp.items[n..] == [tp.items[n]] + tp.items[n + 1..];
    SpellFirst(tp.codes.dc, tp.codes.ac, tp.items[n], tp.items[n + 1..]);
    SeqAssoc(SpellItem(tp.codes.dc, tp.codes.ac, tp.items[n]),
             SpellItems(tp.codes.dc, tp.codes.ac, tp.items[n + 1..]), tp.pad);
  }

  /** A word at the front is found. */
  lemma {:induction false} WordFound(t: Table, x: byte, rest: seq<bit>, l: nat)
    requires TableOk(t) && PrefixCode(t) && HasWord(t, x) && 1 <= l <= t.si[x]
    ensures NextSymbol(t, Word(t, x) + rest, l) == Got(x, rest)
    decreases t.si[x] - l
  {
    var w := Word(t, x);
    var s := w + rest;
    var y := SymbolAt(t, s[..l], 256);
    assert s[..l] == w[..l] && w[..t.si[x]] == w;
    if l < t.si[x] {
      assert y < 0;
      WordFound(t, x, rest, l + 1);
    } else {
      assert y >= 0;
      assert Word(t, y) <= w;
      assert s[l..] == rest;
    }
  }

  /** The items from `n` on begin with these. */
  predicate At(tp: Tape, n: nat, items: seq<Item>) {
    n + |items| <= |tp.items| && tp.items[n..n + |items|] == items
  }

  lemma AtBoth(tp: Tape, n: nat, a: seq<Item>, b: seq<Item>)
    requires At(tp, n, a + b)
    ensures At(tp, n, a) && At(tp, n + |a|, b)
  {
    assert tp.items[n..n + |a|] == (a + b)[..|a|];
    assert tp.items[n + |a|..n + |a + b|] == (a + b)[|a|..];
  }

  lemma AtFirst(tp: Tape, n: nat, x: Item, b: seq<Item>)
    requires At(tp, n, [x] + b)
    ensures n < |tp.items| && tp.items[n] == x && At(tp, n + 1, b)
  {
    AtBoth(tp, n, [x], b);
    assert tp.items[n..n + 1][0] == x;
  }

  function CodeOf(tp: Tape, dc: bool, tbl: nat): Table
    requires ValidTape(tp) && tbl < NUM_HUFF_TBLS
  {
    (if dc then tp.codes.dc else tp.codes.ac)[tbl]
  }

  lemma TakeSymbol(tp: Tape, n: nat, dc: bool, tbl: nat, x: byte)
    requires ValidTape(tp) && n < |tp.items| && tp.items[n] == Symbol(dc, tbl, x)
    ensures tbl < NUM_HUFF_TBLS && NextSymbol(CodeOf(tp, dc, tbl), Left(tp, n), 1) == Got(x, Left(tp, n + 1))
  {
    LeftStep(tp, n);
    hide Left, SpellItems, PrefixCode, Word, NextSymbol;
    WordFound(CodeOf(tp, dc, tbl), x, Left(tp, n + 1), 1);
  }

  lemma TakePlain(tp: Tape, n: nat, code: nat, size: nat)
    requires ValidTape(tp) && n < |tp.items| && tp.items[n] == Plain(code, size)
    ensures NextBits(Left(tp, n), size) == Got(code % Pow2(size), Left(tp, n + 1))
  {
    LeftStep(tp, n);
    hide Left, SpellItems, PrefixCode, Bits, Number, Pow2;
    NumberOfBits(code, size);
    var w, rest := Bits(code, size), Left(tp, n + 1);
    assert (w + rest)[..size] == w && (w + rest)[size..] == rest;
  }

  lemma TakeBit(tp: Tape, n: nat, b: bit)
    requires ValidTape(tp) && n < |tp.items| && tp.items[n] == Plain(b, 1)
    ensures Left(tp, n) != [] && Left(tp, n)[0] == b && Left(tp, n)[1..] == Left(tp, n + 1)
  {
    LeftStep(tp, n);
    assert Bits(b, 1) == [b];
    hide Left, SpellItems, PrefixCode;
    var rest := Left(tp, n + 1);
    assert ([b] + rest)[1..] == rest;
  }

  lemma TakeValue(tp: Tape, n: nat, v: int)
    requires ValidTape(tp) && n < |tp.items| && tp.items[n] == Plain(ValueBits(v, Width(Abs(v))), Width(Abs(v)))
    ensures NextValue(Left(tp, n), Width(Abs(v))) == Got(v, Left(tp, n + 1))
  {
    hide Left, ValueOf, ValueBits, Pow2, NextBits, ValidTape, Width;
    var w := Width(Abs(v));
    TakePlain(tp, n, ValueBits(v, w), w);
    assert ValueBits(v, w) % Pow2(w) == ValueBits(v, w);
    ValueRoundTrip(v);
  }

  lemma NoBits(s: seq<bit>)
    ensures NextValue(s, 0) == Got(0, s)
  {
    assert s[..0] == [] && s[0..] == s;
  }

  // ----- sequential blocks

  lemma DiffRead(tp: Tape, n: nat, tbl: nat, diff: int)
    requires ValidTape(tp) && tbl < NUM_HUFF_TBLS && DcFits(diff) && At(tp, n, DcItems(tbl, diff))
    ensures NextDiff(CodeOf(tp, true, tbl), Left(tp, n)) == Got(diff, Left(tp, n + |DcItems(tbl, diff)|))
  {
    hide Left, ValueBits, NextSymbol, NextValue, ValidTape, At;
    var w := Width(Abs(diff));
    var tail := if w > 0 then [Plain(ValueBits(diff, w), w)] else [];
    AtFirst(tp, n, Symbol(true, tbl, w), tail);
    TakeSymbol(tp, n, true, tbl, w);
    if w > 0 {
      assert tail == [Plain(ValueBits(diff, w), w)] + [];
      AtFirst(tp, n + 1, tail[0], []);
      TakeValue(tp, n + 1, diff);
    } else {
      NoBits(Left(tp, n + 1));
    }
  }

  lemma ZrlStep(tp: Tape, n: nat, tbl: nat, z: Block, p: nat, se: nat, al: nat)
    requires ValidTape(tp) && tbl < NUM_HUFF_TBLS && n < |tp.items| && tp.items[n] == Symbol(false, tbl, 0xF0) && p <= se < 64
    ensures var t := CodeOf(tp, false, tbl);
            && ReadAc(t, Left(tp, n), z, p, se) == ReadAc(t, Left(tp, n + 1), z, p + 16, se)
            && ReadFirst(t, Left(tp, n), z, p, se, al) == ReadFirst(t, Left(tp, n + 1), z, p + 16, se, al)
  {
    hide Left, NextSymbol, ValidTape, CodeOf, ReadAc, ReadFirst;
    TakeSymbol(tp, n, false, tbl, 0xF0);
    SkipSixteen(CodeOf(tp, false, tbl), Left(tp, n), Left(tp, n + 1), z, p, se, al);
  }

  lemma SkipSixteen(t: Table, s: seq<bit>, s1: seq<bit>, z: Block, p: nat, se: nat, al: nat)
    requires p <= se < 64 && NextSymbol(t, s, 1) == Got(0xF0, s1)
    ensures ReadAc(t, s, z, p, se) == ReadAc(t, s1, z, p + 16, se)
    ensures ReadFirst(t, s, z, p, se, al) == ReadFirst(t, s1, z, p + 16, se, al)
  {
    hide NextSymbol, NextValue, NextBits, Pow2, ToCoef;
  }

  lemma {:induction false} ZrlsRead(tp: Tape, n: nat, tbl: nat, cnt: nat, z: Block, p: nat, se: nat, al: nat)
    requires ValidTape(tp) && tbl < NUM_HUFF_TBLS && At(tp, n, Zrls(tbl, cnt)) && p + 16 * cnt <= se < 64
    ensures var t := CodeOf(tp, false, tbl);
            && ReadAc(t, Left(tp, n), z, p, se) == ReadAc(t, Left(tp, n + cnt), z, p + 16 * cnt, se)
            && ReadFirst(t, Left(tp, n), z, p, se, al) == ReadFirst(t, Left(tp, n + cnt), z, p + 16 * cnt, se, al)
    decreases cnt
  {
    hide Left, ReadAc, ReadFirst, ValidTape, CodeOf;
    if cnt > 0 {
      assert Zrls(tbl, cnt) == [Symbol(false, tbl, 0xF0)] + Zrls(tbl, cnt - 1);
      AtFirst(tp, n, Symbol(false, tbl, 0xF0), Zrls(tbl, cnt - 1));
      ZrlStep(tp, n, tbl, z, p, se, al);
      ZrlsRead(tp, n + 1, tbl, cnt - 1, z, p + 16, se, al);
    }
  }

  lemma RunItems(tp: Tape, n: nat, tbl: nat, r: nat, v: int)
    requires AcFits(v) && At(tp, n, RunValue(tbl, r, v))
    ensures var q, w := r / 16, Width(Abs(v));
            && |RunValue(tbl, r, v)| == q + 2 && At(tp, n, Zrls(tbl, q)) && n + q + 1 < |tp.items|
            && tp.items[n + q] == Symbol(false, tbl, r % 16 * 16 + w)
            && tp.items[n + q + 1] == Plain(ValueBits(v, w), w)
  {
    hide At, ValueBits, Width, Zrls;
    var w, q := Width(Abs(v)), r / 16;
    var x, y := Symbol(false, tbl, r % 16 * 16 + w), Plain(ValueBits(v, w), w);
    assert [x, y] == [x] + [y] && [y] == [y] + [];
    AtBoth(tp, n, Zrls(tbl, q), [x, y]);
    AtFirst(tp, n + q, x, [y]);
    AtFirst(tp, n + q + 1, y, []);
  }

  /** A value after a run of zeros is put where it belongs. */
  lemma RunRead(tp: Tape, n: nat, tbl: nat, r: nat, v: int, z: Block, p: nat, se: nat, al: nat)
    requires ValidTape(tp) && tbl < NUM_HUFF_TBLS && p + r <= se < 64 && v != 0 && AcFits(v)
    requires At(tp, n, RunValue(tbl, r, v))
    ensures n + |RunValue(tbl, r, v)| <= |tp.items|
    ensures var t, m := CodeOf(tp, false, tbl), n + |RunValue(tbl, r, v)|;
            && ReadAc(t, Left(tp, n), z, p, se) == ReadAc(t, Left(tp, m), z[p + r := ToCoef(v)], p + r + 1, se)
            && ReadFirst(t, Left(tp, n), z, p, se, al)
               == ReadFirst(t, Left(tp, m), z[p + r := ToCoef(v * Pow2(al))], p + r + 1, se, al)
  {
    hide At, Left, ReadAc, ReadFirst, ValidTape, CodeOf, RunValue, ToCoef, Pow2, Width, ValueBits, Zrls, AcFits;
    RunItems(tp, n, tbl, r, v);
    ZrlsRead(tp, n, tbl, r / 16, z, p, se, al);
    assert p + 16 * (r / 16) + r % 16 == p + r;
    ValueRead(tp, n + r / 16, tbl, r % 16, v, z, p + 16 * (r / 16), se, al);
  }

  lemma ValueRead(tp: Tape, n: nat, tbl: nat, r: nat, v: int, z: Block, p: nat, se: nat, al: nat)
    requires ValidTape(tp) && tbl < NUM_HUFF_TBLS && r < 16 && p + r <= se < 64 && v != 0 && AcFits(v)
    requires var w := Width(Abs(v));
             && n + 1 < |tp.items| && tp.items[n] == Symbol(false, tbl, r * 16 + w)
             && tp.items[n + 1] == Plain(ValueBits(v, w), w)
    ensures var t := CodeOf(tp, false, tbl);
            && ReadAc(t, Left(tp, n), z, p, se) == ReadAc(t, Left(tp, n + 2), z[p + r := ToCoef(v)], p + r + 1, se)
            && ReadFirst(t, Left(tp, n), z, p, se, al)
               == ReadFirst(t, Left(tp, n + 2), z[p + r := ToCoef(v * Pow2(al))], p + r + 1, se, al)
  {
    var w := Width(Abs(v));
    assert 0 < w < 16;
    hide Left, ValidTape, CodeOf, NextSymbol, NextValue, Width, Pow2, ValueBits, ReadAc, ReadFirst, ToCoef, AcFits, Writable;
    TakeSymbol(tp, n, false, tbl, r * 16 + w);
    TakeValue(tp, n + 1, v);
    AcStep(CodeOf(tp, false, tbl), Left(tp, n), r, w, Left(tp, n + 1), v, Left(tp, n + 2), z, p, se);
    FirstStep(CodeOf(tp, false, tbl), Left(tp, n), r, w, Left(tp, n + 1), v, Left(tp, n + 2), z, p, se, al);
  }

  lemma AcStep(t: Table, s: seq<bit>, r: nat, w: nat, s1: seq<bit>, v: int, s2: seq<bit>, z: Block, p: nat, se: nat)
    requires p + r <= se < 64 && r < 16 && 0 < w < 16
    requires NextSymbol(t, s, 1) == Got(r * 16 + w, s1) && NextValue(s1, w) == Got(v, s2)
    ensures ReadAc(t, s, z, p, se) == ReadAc(t, s2, z[p + r := ToCoef(v)], p + r + 1, se)
  {
    hide NextSymbol, NextValue, ToCoef;
    SplitSymbol(r, w);
  }

  lemma FirstStep(t: Table, s: seq<bit>, r: nat, w: nat, s1: seq<bit>, v: int, s2: seq<bit>, z: Block, p: nat, se: nat, al: nat)
    requires p + r <= se < 64 && r < 16 && 0 < w < 16
    requires NextSymbol(t, s, 1) == Got(r * 16 + w, s1) && NextValue(s1, w) == Got(v, s2)
    ensures ReadFirst(t, s, z, p, se, al)
            == ReadFirst(t, s2, z[p + r := ToCoef(v * Pow2(al))], p + r + 1, se, al)
  {
    hide NextSymbol, NextValue, NextBits, ToCoef, Pow2;
    SplitSymbol(r, w);
  }

  lemma SplitSymbol(r: nat, w: nat)
    requires w < 16
    ensures (r * 16 + w) / 16 == r && (r * 16 + w) % 16 == w
  {
  }

  /** Once the band is read to its end, or its end was sent. */
  lemma EndRead(tp: Tape, n: nat, tbl: nat, z: Block, p: nat, se: nat)
    requires ValidTape(tp) && tbl < NUM_HUFF_TBLS && n < |tp.items| && tp.items[n] == Symbol(false, tbl, 0) && p <= se < 64
    ensures ReadAc(CodeOf(tp, false, tbl), Left(tp, n), z, p, se) == Filled(z, 0, Left(tp, n + 1))
  {
    TakeSymbol(tp, n, false, tbl, 0);
    hide Left, ValidTape, CodeOf, NextSymbol, NextValue;
  }

  /** What the next value adds to the block completes it from the zeros before it on. */
  lemma SentFrom(z: Block, o: Block, p: nat, k: nat, se: nat, al: nat)
    requires 1 <= p <= k <= se < 64 && forall i :: p <= i < k ==> z[i] == Approx(o[i], al)
    ensures Sent(z[k := Approx(o[k], al)], o, k, se, al) == Sent(z, o, p - 1, se, al)
  {
    hide Approx;
  }

  lemma SentNone(z: Block, o: Block, p: nat, se: nat, al: nat)
    requires 1 <= p && se < 64 && forall i :: p <= i <= se ==> z[i] == Approx(o[i], al)
    ensures Sent(z, o, p - 1, se, al) == z
  {
    hide Approx;
  }

  lemma SentZeros(z: Block, o: Block, p: nat, se: nat)
    requires 1 <= p && se < 64 && forall i :: p <= i <= se ==> z[i] == o[i]
    ensures Sent(z, o, p - 1, se, 0) == z
  {
    forall i | p <= i <= se ensures Approx(o[i], 0) == o[i] { ApproxAll(o[i]); }
    SentNone(z, o, p, se, 0);
  }

  lemma SentValue(z: Block, o: Block, p: nat, k: nat, se: nat)
    requires 1 <= p <= k <= se < 64 && forall i :: p <= i < k ==> z[i] == o[i]
    ensures Sent(z[k := o[k]], o, k, se, 0) == Sent(z, o, p - 1, se, 0)
  {
    forall i | p <= i <= k ensures Approx(o[i], 0) == o[i] { ApproxAll(o[i]); }
    SentFrom(z, o, p, k, se, 0);
  }

  lemma AcEndRead(tp: Tape, n: nat, tbl: nat, o: Block, z: Block, k: nat, se: nat, r: nat)
    requires ValidTape(tp) && tbl < NUM_HUFF_TBLS && r < k == se + 1 <= 64 && CoefsFit(o, k, se, 0)
    requires At(tp, n, AcItems(tbl, o, k, se, r))
    ensures n + |AcItems(tbl, o, k, se, r)| <= |tp.items|
    ensures ReadAc(CodeOf(tp, false, tbl), Left(tp, n), z, k - r, se)
            == Filled(z, 0, Left(tp, n + |AcItems(tbl, o, k, se, r)|))
  {
    hide Left, ValidTape, CodeOf, NextSymbol, NextValue;
    if r > 0 {
      assert [Symbol(false, tbl, 0)] == [Symbol(false, tbl, 0)] + [];
      AtFirst(tp, n, Symbol(false, tbl, 0), []);
      EndRead(tp, n, tbl, z, k - r, se);
    }
  }

  lemma AcItemsNext(tbl: nat, o: Block, k: nat, se: nat, r: nat)
    requires k <= se < 64 && CoefsFit(o, k, se, 0)
    ensures CoefsFit(o, k + 1, se, 0) && AcFits(o[k])
    ensures AcItems(tbl, o, k, se, r)
            == if o[k] == 0 then AcItems(tbl, o, k + 1, se, r + 1)
               else RunValue(tbl, r, o[k]) + AcItems(tbl, o, k + 1, se, 0)
  {
    hide AcFits, RunValue, Shifted;
    ShiftedWhole(o[k]);
  }

  /** The coder is at `k`, and has sent nothing of the coefficients from `p` on, which are zero so far. */
  lemma {:induction false} AcRead(tp: Tape, n: nat, tbl: nat, o: Block, z: Block, p: nat, k: nat, se: nat)
    requires ValidTape(tp) && tbl < NUM_HUFF_TBLS && 1 <= p <= k <= se + 1 <= 64 && Coefs(o) && CoefsFit(o, k, se, 0)
    requires (forall i :: p <= i < k ==> o[i] == 0) && (forall i :: p <= i <= se ==> z[i] == 0)
    requires At(tp, n, AcItems(tbl, o, k, se, k - p))
    ensures n + |AcItems(tbl, o, k, se, k - p)| <= |tp.items|
    ensures ReadAc(CodeOf(tp, false, tbl), Left(tp, n), z, p, se)
            == Filled(Sent(z, o, p - 1, se, 0), 0, Left(tp, n + |AcItems(tbl, o, k, se, k - p)|))
    decreases se + 1 - k
  {
    hide Left, ValidTape, CodeOf, At, RunValue, AcItems, CoefsFit, AcFits, Approx, ToCoef, ReadAc, Sent;
    if k > se {
      SentZeros(z, o, p, se);
      AcEndRead(tp, n, tbl, o, z, k, se, k - p);
    } else {
      AcItemsNext(tbl, o, k, se, k - p);
      if o[k] == 0 {
        AcRead(tp, n, tbl, o, z, p, k + 1, se);
      } else {
        var run, rest := RunValue(tbl, k - p, o[k]), AcItems(tbl, o, k + 1, se, 0);
        AtBoth(tp, n, run, rest);
        RunRead(tp, n, tbl, k - p, o[k], z, p, se, 0);
        CoefKept(o[k]);
        AcRead(tp, n + |run|, tbl, o, z[k := o[k]], k + 1, k + 1, se);
        SentValue(z, o, p, k, se);
      }
    }
  }

  lemma CoefKept(v: int)
    requires IsCoef(v)
    ensures ToCoef(v) == v
  {
  }
}
