/**
 Progressive AC scans read back (section G.1.2 of ITU-T T.81). A block may end in a
 run that is only sent blocks later; the reader meets it first, and counts it down.
 */
module HuffmanBands {
  import opened Bytes
  import opened BlockModel
  import opened HuffmanWords
  import opened HuffmanItems
  import opened HuffmanStream
  import opened HuffmanReading
  import opened HuffmanTape

  /** The items of an end-of-block run. */
  function EobItems(tbl: nat, m: nat): (r: seq<Item>)
    requires 0 < m <= MAX_EOBRUN
    ensures |r| >= 1
  {
    EobWidth(m);
    var n := Width(m) - 1;
    [Symbol(false, tbl, n * 16)] + if n > 0 then [Plain(m, n)] else []
  }

  /** The pending run goes on for `x` blocks more. */
  predicate Good(a: Ac, x: nat) {
    a.eobrun + x <= MAX_EOBRUN && (a.eobrun == 0 ==> x == 0 && a.pend == [])
  }

  /** What will have been sent when the pending run, then grown by `x` blocks, has been. */
  function Ahead(tbl: nat, a: Ac, x: nat): seq<Item>
    requires Good(a, x)
  {
    a.items + if a.eobrun == 0 then [] else EobItems(tbl, a.eobrun + x) + PlainBits(a.pend)
  }

  lemma EmitAhead(tbl: nat, a: Ac)
    requires Good(a, 0)
    ensures Good(EmitEob(tbl, a), 0)
    ensures EmitEob(tbl, a).items == Ahead(tbl, a, 0) && EmitEob(tbl, a).eobrun == 0 && EmitEob(tbl, a).pend == []
  {
    hide Width;
    if a.eobrun > 0 {
      SeqGroupAll(a.items, EobItems(tbl, a.eobrun), PlainBits(a.pend));
      EobWidth(a.eobrun);
      var n := Width(a.eobrun) - 1;
      SeqGroupAll(a.items, [Symbol(false, tbl, n * 16)], if n > 0 then [Plain(a.eobrun, n)] else []);
    }
  }

  lemma SeqGroupAll(a: seq<Item>, b: seq<Item>, d: seq<Item>)
    ensures a + (b + d) == a + b + d
  {
  }

  lemma NothingPending(tbl: nat, a: Ac)
    requires Good(a, 0) && a.eobrun == 0
    ensures Ahead(tbl, a, 0) == a.items
  {
  }

  lemma PlainBitsJoin(a: seq<bit>, b: seq<bit>)
    ensures PlainBits(a + b) == PlainBits(a) + PlainBits(b)
  {
  }

  /** A block that ends is one more of the run, sent now or later. */
  lemma EndAhead(tbl: nat, a: Ac, br: seq<bit>, y: nat)
    requires a.eobrun < MAX_EOBRUN && Good(a, 0) && Good(EndBlock(tbl, a, br), y)
    ensures a.eobrun + 1 + y <= MAX_EOBRUN
    ensures Ahead(tbl, EndBlock(tbl, a, br), y)
            == a.items + (EobItems(tbl, a.eobrun + 1 + y) + (PlainBits(a.pend) + PlainBits(br)))
  {
    hide Width, EobItems, PlainBits;
    var b := Ac(a.items, a.eobrun + 1, a.pend + br);
    PlainBitsJoin(a.pend, br);
    if b.eobrun == MAX_EOBRUN || |b.pend| > BE_LIMIT {
      EmitAhead(tbl, b);
      hide EmitEob;
      NothingPending(tbl, EmitEob(tbl, b));
    }
  }

  lemma PrefixAt(tp: Tape, a: seq<Item>, b: seq<Item>)
    requires a + b <= tp.items
    ensures a <= tp.items && At(tp, |a|, b) && |a + b| == |a| + |b|
  {
    assert a == (a + b)[..|a|];
    assert tp.items[|a|..|a| + |b|] == (a + b)[|a|..];
  }

  lemma EobShape(tbl: nat, m: nat)
    requires 0 < m <= MAX_EOBRUN
    ensures 1 <= Width(m) <= 15
    ensures var w := Width(m) - 1;
            && Pow2(w) <= m < 2 * Pow2(w)
            && EobItems(tbl, m) == [Symbol(false, tbl, w * 16)] + if w > 0 then [Plain(m, w)] else []
  {
    EobWidth(m);
  }

  lemma BitsTaken(tp: Tape, n: nat, m: nat, w: nat)
    requires ValidTape(tp) && At(tp, n, if w > 0 then [Plain(m, w)] else []) && Pow2(w) <= m < 2 * Pow2(w)
    ensures n + (if w > 0 then 1 else 0) <= |tp.items|
    ensures NextBits(Left(tp, n), w) == Got(m - Pow2(w), Left(tp, n + if w > 0 then 1 else 0))
  {
    hide Left, ValidTape, NextBits, At, Pow2;
    if w > 0 {
      assert [Plain(m, w)] == [Plain(m, w)] + [];
      AtFirst(tp, n, Plain(m, w), []);
      TakePlain(tp, n, m, w);
      LowPart(m, Pow2(w));
    } else {
      AtEnd(tp, n);
      NoneNeeded(Left(tp, n));
      Pow2Masks();
    }
  }

  lemma AtEnd(tp: Tape, n: nat)
    requires At(tp, n, [])
    ensures n <= |tp.items|
  {
  }

  /** The symbol of a run, and its length bits. */
  lemma EobTaken(tp: Tape, n: nat, tbl: nat, m: nat)
    requires ValidTape(tp) && tbl < NUM_HUFF_TBLS && 0 < m <= MAX_EOBRUN && At(tp, n, EobItems(tbl, m))
    ensures n + |EobItems(tbl, m)| <= |tp.items|
    ensures 1 <= Width(m) <= 15 && Pow2(Width(m) - 1) <= m
    ensures n < |tp.items|
    ensures var w := Width(m) - 1;
            && NextSymbol(CodeOf(tp, false, tbl), Left(tp, n), 1) == Got(w * 16, Left(tp, n + 1))
            && NextBits(Left(tp, n + 1), w) == Got(m - Pow2(w), Left(tp, n + |EobItems(tbl, m)|))
  {
    hide Left, ValidTape, CodeOf, NextSymbol, NextBits, At, Width, Pow2, EobItems;
    EobShape(tbl, m);
    var w := Width(m) - 1;
    AtFirst(tp, n, Symbol(false, tbl, w * 16), if w > 0 then [Plain(m, w)] else []);
    TakeSymbol(tp, n, false, tbl, w * 16);
    BitsTaken(tp, n + 1, m, w);
  }

  lemma EobSteps(t: Table, s: seq<bit>, w: nat, s1: seq<bit>, c: nat, s2: seq<bit>, z: Block, p: nat, se: nat, al: nat)
    requires p <= se < 64 && w < 15 && NextSymbol(t, s, 1) == Got(w * 16, s1) && NextBits(s1, w) == Got(c, s2)
    ensures ReadFirst(t, s, z, p, se, al) == Filled(z, Pow2(w) + c - 1, s2)
    ensures ReadRefine(t, s, z, p, se, al) == ReadTail(s2, Pow2(w) + c - 1, z, p, se, al)
  {
    hide NextSymbol, NextBits, Pow2, Pass, ReadTail, NextValue;
    SplitSymbol(w, 0);
  }

  /** A run that is met is counted down, from this block on. */
  lemma EobRead(tp: Tape, n: nat, tbl: nat, m: nat, z: Block, p: nat, se: nat, al: nat)
    requires ValidTape(tp) && tbl < NUM_HUFF_TBLS && 0 < m <= MAX_EOBRUN && p <= se < 64 && At(tp, n, EobItems(tbl, m))
    ensures n + |EobItems(tbl, m)| <= |tp.items|
    ensures var t, rest := CodeOf(tp, false, tbl), Left(tp, n + |EobItems(tbl, m)|);
            && ReadFirst(t, Left(tp, n), z, p, se, al) == Filled(z, m - 1, rest)
            && ReadRefine(t, Left(tp, n), z, p, se, al) == ReadTail(rest, m - 1, z, p, se, al)
  {
    hide Left, ValidTape, CodeOf, At, Width, Pow2, EobItems, ReadFirst, ReadRefine, NextSymbol, NextBits;
    EobTaken(tp, n, tbl, m);
    var w := Width(m) - 1;
    EobSteps(CodeOf(tp, false, tbl), Left(tp, n), w, Left(tp, n + 1), m - Pow2(w), Left(tp, n + |EobItems(tbl, m)|),
             z, p, se, al);
  }

  lemma LowPart(m: nat, p: nat)
    requires p > 0 && p <= m < 2 * p
    ensures m % p == m - p
  {
  }

  lemma NoneNeeded(s: seq<bit>)
    ensures NextBits(s, 0) == Got(0, s)
  {
    assert s[..0] == [] && s[0..] == s;
  }

  // ----- first passes

  lemma FirstItemsNext(tbl: nat, o: Block, k: nat, se: nat, al: nat, r: nat, a: Ac)
    requires k <= se < 64 && CoefsFit(o, k, se, al) && a.eobrun < MAX_EOBRUN
    ensures CoefsFit(o, k + 1, se, al) && AcFits(Shifted(o[k], al))
    ensures Mag(o[k], al) == 0 ==> FirstItems(tbl, o, k, se, al, r, a) == FirstItems(tbl, o, k + 1, se, al, r + 1, a)
    ensures Mag(o[k], al) != 0 ==>
              && EmitEob(tbl, a).eobrun == 0
              && FirstItems(tbl, o, k, se, al, r, a)
                 == FirstItems(tbl, o, k + 1, se, al, 0,
                      EmitEob(tbl, a).(items := EmitEob(tbl, a).items + RunValue(tbl, r, Shifted(o[k], al))))
  {
    hide AcFits, RunValue, Mag, Width;
  }

  lemma ShiftedCoef(o: Block, k: nat, al: nat)
    requires Coefs(o) && k < 64
    ensures ToCoef(Shifted(o[k], al) * Pow2(al)) == Approx(o[k], al)
    ensures Mag(o[k], al) == 0 ==> Approx(o[k], al) == 0
    ensures Shifted(o[k], al) == 0 <==> Mag(o[k], al) == 0
  {
    ApproxIsCoef(o[k], al);
    hide Pow2, Mag;
  }

  lemma SentZeros(z: Block, o: Block, p: nat, k: nat, al: nat)
    requires Coefs(o) && 1 <= p <= k <= 64 && forall i :: p <= i < k ==> Mag(o[i], al) == 0 && z[i] == 0
    ensures forall i :: p <= i < k ==> z[i] == Approx(o[i], al)
  {
    hide Mag, Approx;
    forall i | p <= i < k ensures z[i] == Approx(o[i], al) { ShiftedCoef(o, i, al); }
  }

  /**
   The coder is at `k` with state `a`, and has sent nothing of the coefficients from
   `p` on, zero so far. When all is sent, the reader at `p` reads the rest of the
   band, and meets the same run.
   */
  lemma {:induction false} FirstRead(tp: Tape, tbl: nat, o: Block, z: Block, p: nat, k: nat, se: nat, al: nat, a: Ac, y: nat)
    returns (x: nat)
    requires ValidTape(tp) && tbl < NUM_HUFF_TBLS && 1 <= p <= k <= se + 1 <= 64 && Coefs(o) && CoefsFit(o, k, se, al)
    requires (forall i :: p <= i < k ==> Mag(o[i], al) == 0) && (forall i :: p <= i <= se ==> z[i] == 0)
    requires a.eobrun < MAX_EOBRUN && a.pend == [] && (a.eobrun > 0 ==> p <= se)
    requires Good(FirstItems(tbl, o, k, se, al, k - p, a), y)
    requires Ahead(tbl, FirstItems(tbl, o, k, se, al, k - p, a), y) <= tp.items
    ensures Good(a, x) && Ahead(tbl, a, x) <= tp.items
    ensures FirstBlock(CodeOf(tp, false, tbl), Left(tp, |Ahead(tbl, a, x)|), x, z, p, se, al)
            == Filled(Sent(z, o, p - 1, se, al), y, Left(tp, |Ahead(tbl, FirstItems(tbl, o, k, se, al, k - p, a), y)|))
    decreases se + 1 - k
  {
    hide Left, ValidTape, CodeOf, At, RunValue, FirstItems, CoefsFit, AcFits, Approx, ToCoef, ReadFirst, Sent, Ahead, EmitEob,
      Mag, Shifted, Pow2;
    if k > se {
      SentZeros(z, o, p, k, al);
      SentNone(z, o, p, se, al);
      x := FirstEndRead(tp, tbl, o, z, p, se, al, a, y);
    } else {
      FirstItemsNext(tbl, o, k, se, al, k - p, a);
      if Mag(o[k], al) == 0 {
        x := FirstRead(tp, tbl, o, z, p, k + 1, se, al, a, y);
      } else {
        x := FirstValueRead(tp, tbl, o, z, p, k, se, al, a, y);
      }
    }
  }

  lemma FirstEndRead(tp: Tape, tbl: nat, o: Block, z: Block, p: nat, se: nat, al: nat, a: Ac, y: nat)
    returns (x: nat)
    requires ValidTape(tp) && tbl < NUM_HUFF_TBLS && 1 <= p <= se + 1 <= 64 && CoefsFit(o, se + 1, se, al)
    requires a.eobrun < MAX_EOBRUN && a.pend == [] && (a.eobrun > 0 ==> p <= se)
    requires Good(FirstItems(tbl, o, se + 1, se, al, se + 1 - p, a), y)
    requires Ahead(tbl, FirstItems(tbl, o, se + 1, se, al, se + 1 - p, a), y) <= tp.items
    ensures Good(a, x) && Ahead(tbl, a, x) <= tp.items
    ensures FirstBlock(CodeOf(tp, false, tbl), Left(tp, |Ahead(tbl, a, x)|), x, z, p, se, al)
            == Filled(z, y, Left(tp, |Ahead(tbl, FirstItems(tbl, o, se + 1, se, al, se + 1 - p, a), y)|))
  {
    hide Left, ValidTape, CodeOf, At, EndBlock, EobItems, EmitEob;
    if p > se {
      x := 0;
      NothingPending(tbl, a);
    } else {
      EndAhead(tbl, a, [], y);
      var run := EobItems(tbl, a.eobrun + 1 + y);
      assert PlainBits([]) == [] && run + ([] + []) == run;
      assert Ahead(tbl, EndBlock(tbl, a, []), y) == a.items + run;
      if a.eobrun > 0 {
        x := 1 + y;
        assert Ahead(tbl, a, x) == a.items + run;
      } else {
        x := 0;
        NothingPending(tbl, a);
        PrefixAt(tp, a.items, run);
        hide ReadFirst;
        EobRead(tp, |a.items|, tbl, 1 + y, z, p, se, al);
      }
    }
  }

  lemma {:induction false} FirstValueRead(tp: Tape, tbl: nat, o: Block, z: Block, p: nat, k: nat, se: nat, al: nat, a: Ac, y: nat)
    returns (x: nat)
    requires ValidTape(tp) && tbl < NUM_HUFF_TBLS && 1 <= p <= k <= se < 64 && Coefs(o) && CoefsFit(o, k, se, al)
    requires (forall i :: p <= i < k ==> Mag(o[i], al) == 0) && (forall i :: p <= i <= se ==> z[i] == 0)
    requires a.eobrun < MAX_EOBRUN && a.pend == [] && Mag(o[k], al) != 0
    requires Good(FirstItems(tbl, o, k, se, al, k - p, a), y)
    requires Ahead(tbl, FirstItems(tbl, o, k, se, al, k - p, a), y) <= tp.items
    ensures Good(a, x) && Ahead(tbl, a, x) <= tp.items
    ensures FirstBlock(CodeOf(tp, false, tbl), Left(tp, |Ahead(tbl, a, x)|), x, z, p, se, al)
            == Filled(Sent(z, o, p - 1, se, al), y, Left(tp, |Ahead(tbl, FirstItems(tbl, o, k, se, al, k - p, a), y)|))
    decreases se + 1 - k, 0
  {
    hide Left, ValidTape, CodeOf, At, RunValue, FirstItems, CoefsFit, AcFits, Approx, ToCoef, ReadFirst, Sent, Ahead, EmitEob,
      Mag, Shifted, Pow2;
    FirstItemsNext(tbl, o, k, se, al, k - p, a);
    ShiftedCoef(o, k, al);
    EmitAhead(tbl, a);
    var b, run := EmitEob(tbl, a), RunValue(tbl, k - p, Shifted(o[k], al));
    var c := b.(items := b.items + run);
    x := FirstRead(tp, tbl, o, z[k := Approx(o[k], al)], k + 1, k + 1, se, al, c, y);
    NothingPending(tbl, c);
    PrefixAt(tp, b.items, run);
    RunRead(tp, |b.items|, tbl, k - p, Shifted(o[k], al), z, p, se, al);
    SentZeros(z, o, p, k, al);
    SentFrom(z, o, p, k, se, al);
  }
}
