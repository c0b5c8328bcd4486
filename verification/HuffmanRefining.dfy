/**
 AC refinements read back (section G.1.2.3 of ITU-T T.81): the correction bits that
 the coder buffers are the ones the reader takes while passing over coefficients.
 */
module HuffmanRefining {
  import opened Products
  import opened Bytes
  import opened BlockModel
  import opened ScanModel
  import opened HuffmanWords
  import opened HuffmanItems
  import opened HuffmanStream
  import opened HuffmanReading
  import opened HuffmanTape
  import opened HuffmanBands

  // ----- what lies between two codes

  /** How many coefficients from `p` up to `k` are still zero. */
  function ZerosIn(o: Block, p: nat, k: nat, al: nat): (n: nat)
    requires k <= 64
    ensures p <= k ==> n <= k - p
    decreases k - p
  {
    if p >= k then 0 else (if Mag(o[p], al) == 0 then 1 else 0) + ZerosIn(o, p + 1, k, al)
  }

  /** The correction bits of those that were nonzero before. */
  function BitsIn(o: Block, p: nat, k: nat, al: nat): seq<bit>
    requires k <= 64
    decreases k - p
  {
    if p >= k then [] else (if Mag(o[p], al) > 1 then [Mag(o[p], al) % 2] else []) + BitsIn(o, p + 1, k, al)
  }

  /** None of them becomes nonzero. */
  predicate NoNew(o: Block, p: nat, k: nat, al: nat) {
    forall i :: p <= i < k && i < 64 ==> Mag(o[i], al) != 1
  }

  /** The ones that were nonzero come before the sixteenth zero. */
  predicate Tight(o: Block, p: nat, k: nat, al: nat) {
    forall i :: p <= i < k && i < 64 && Mag(o[i], al) > 1 ==> ZerosIn(o, p, i, al) <= 15
  }

  lemma {:induction false} BetweenJoin(o: Block, p: nat, q: nat, k: nat, al: nat)
    requires p <= q <= k <= 64
    ensures ZerosIn(o, p, k, al) == ZerosIn(o, p, q, al) + ZerosIn(o, q, k, al)
    ensures BitsIn(o, p, k, al) == BitsIn(o, p, q, al) + BitsIn(o, q, k, al)
    decreases q - p
  {
    hide Mag;
    if p < q {
      BetweenJoin(o, p + 1, q, k, al);
      var c := if Mag(o[p], al) > 1 then [Mag(o[p], al) % 2] else [];
      SeqAssoc(c, BitsIn(o, p + 1, q, al), BitsIn(o, q, k, al));
    } else {
      assert [] + BitsIn(o, q, k, al) == BitsIn(o, q, k, al);
    }
  }

  lemma BetweenNext(o: Block, p: nat, k: nat, al: nat)
    requires p <= k < 64
    ensures ZerosIn(o, p, k + 1, al) == ZerosIn(o, p, k, al) + if Mag(o[k], al) == 0 then 1 else 0
    ensures BitsIn(o, p, k + 1, al) == BitsIn(o, p, k, al) + if Mag(o[k], al) > 1 then [Mag(o[k], al) % 2] else []
  {
    hide Mag;
    BetweenJoin(o, p, k, k + 1, al);
    var c := if Mag(o[k], al) > 1 then [Mag(o[k], al) % 2] else [];
    assert BitsIn(o, k + 1, k + 1, al) == [] && c + [] == c;
  }

  /** Position of a zero that has `n` zeros before it. */
  function Nth(o: Block, p: nat, k: nat, n: nat, al: nat): (q: nat)
    requires p <= k <= 64 && n < ZerosIn(o, p, k, al)
    ensures p <= q < k && Mag(o[q], al) == 0 && ZerosIn(o, p, q, al) == n
    decreases k - p
  {
    if Mag(o[p], al) == 0 then
      if n == 0 then p else
      var q := Nth(o, p + 1, k, n - 1, al);
      q
    else Nth(o, p + 1, k, n, al)
  }

  /** Where the reader stands when the runs of sixteen have been sent. */
  function Resume(o: Block, p: nat, k: nat, al: nat): (q: nat)
    requires p <= k <= 64
    ensures p <= q <= k
    decreases k - p
  {
    if ZerosIn(o, p, k, al) <= 15 then p else Resume(o, Nth(o, p, k, 15, al) + 1, k, al)
  }

  lemma {:induction false} NoBitsIn(o: Block, q: nat, k: nat, al: nat)
    requires k <= 64 && forall i :: q <= i < k ==> Mag(o[i], al) <= 1
    ensures BitsIn(o, q, k, al) == []
    decreases k - q
  {
    hide Mag;
    if q < k {
      NoBitsIn(o, q + 1, k, al);
    }
  }

  /** After the sixteenth zero only zeros follow. */
  lemma AfterSixteen(o: Block, p: nat, k: nat, al: nat)
    requires p <= k <= 64 && NoNew(o, p, k, al) && Tight(o, p, k, al) && ZerosIn(o, p, k, al) > 15
    ensures var q := Nth(o, p, k, 15, al);
            && (forall i :: q <= i < k ==> Mag(o[i], al) == 0)
            && BitsIn(o, p, k, al) == BitsIn(o, p, q, al) && BitsIn(o, q + 1, k, al) == []
            && ZerosIn(o, q + 1, k, al) == ZerosIn(o, p, k, al) - 16
            && NoNew(o, q + 1, k, al) && Tight(o, q + 1, k, al)
  {
    hide Mag, Nth, ZerosIn, BitsIn;
    var q := Nth(o, p, k, 15, al);
    BetweenNext(o, p, q, al);
    forall i | q < i < k ensures Mag(o[i], al) == 0 {
      BetweenJoin(o, p, q + 1, i, al);
    }
    NoBitsIn(o, q, k, al);
    NoBitsIn(o, q + 1, k, al);
    BetweenJoin(o, p, q, k, al);
    BetweenJoin(o, p, q + 1, k, al);
    assert BitsIn(o, p, q, al) + [] == BitsIn(o, p, q, al);
  }

  lemma {:induction false} ResumeIs(o: Block, p: nat, k: nat, al: nat)
    requires p <= k <= 64 && NoNew(o, p, k, al) && Tight(o, p, k, al)
    ensures var q := Resume(o, p, k, al);
            ZerosIn(o, q, k, al) <= 15 && NoNew(o, q, k, al) && Tight(o, q, k, al)
    decreases k - p
  {
    hide Mag, Nth, BitsIn, NoNew, Tight, ZerosIn;
    if ZerosIn(o, p, k, al) > 15 {
      AfterSixteen(o, p, k, al);
      ResumeIs(o, Nth(o, p, k, 15, al) + 1, k, al);
    }
  }

  // ----- corrections

  /** The bit below what is known of a value is not yet set. */
  lemma BitClear(v: int, al: nat)
    requires IsCoef(v)
    ensures BitAt(Approx(v, al + 1), al) == 0
  {
    var p, s := Pow2(al), Signed(SignBit(v), Mag(v, al + 1));
    assert Pow2(al + 1) == 2 * p;
    ApproxIsCoef(v, al + 1);
    hide Pow2, Mag, Approx;
    MulAssoc(s, 2, p);
    MulSwap(s, 2, p);
    FloorUnique(s * (2 * p), p, 2 * s);
  }

  /** A correction bit takes a value that was nonzero one bit further. */
  lemma CorrectedIs(v: int, al: nat)
    requires IsCoef(v) && Mag(v, al) > 1
    ensures Approx(v, al + 1) != 0 && Corrected(Approx(v, al + 1), Mag(v, al) % 2, al) == Approx(v, al)
  {
    BitClear(v, al);
    NextBit(v, al);
    ApproxIsCoef(v, al);
    hide Pow2, Mag, Approx, BitAt, IsCoef, ToCoef;
    CoefKept(Approx(v, al));
    var b, p := Mag(v, al) % 2, Pow2(al);
    if b == 1 {
      assert b * p == p;
    } else {
      assert b * p == 0;
    }
  }

  lemma ZeroStays(v: int, al: nat)
    requires IsCoef(v) && Mag(v, al) == 0
    ensures Approx(v, al + 1) == 0 && Approx(v, al) == 0
  {
    NextBit(v, al);
    ApproxIsCoef(v, al);
  }

  /** What the decoder holds from `p` on, when it comes to the scan. */
  predicate Before(z: Block, o: Block, p: nat, se: nat, al: nat) {
    forall i :: p <= i <= se && i < 64 ==> z[i] == Approx(o[i], al + 1)
  }

  /** The coefficients from `p` up to `k`, one bit further. */
  function Upto(z: Block, o: Block, p: nat, k: nat, al: nat): Block {
    seq(64, i requires 0 <= i < 64 => if p <= i < k then Approx(o[i], al) else z[i])
  }

  lemma UptoStep(z: Block, o: Block, p: nat, k: nat, al: nat)
    requires p < k <= 64
    ensures Upto(z[p := Approx(o[p], al)], o, p + 1, k, al) == Upto(z, o, p, k, al)
  {
    hide Approx;
  }

  lemma UptoNone(z: Block, o: Block, p: nat, al: nat)
    ensures Upto(z, o, p, p, al) == z
  {
    hide Approx;
  }

  lemma UptoBefore(z: Block, o: Block, p: nat, k: nat, q: nat, se: nat, al: nat)
    requires Before(z, o, p, se, al) && p <= k <= q
    ensures Before(Upto(z, o, p, k, al), o, q, se, al)
  {
    hide Approx;
  }

  lemma UptoSent(z: Block, o: Block, p: nat, k: nat, q: nat, se: nat, al: nat)
    requires 1 <= p <= k <= q <= se + 1 <= 64 && forall i :: k <= i < q ==> z[i] == Approx(o[i], al)
    ensures Sent(Upto(z, o, p, k, al), o, q - 1, se, al) == Sent(z, o, p - 1, se, al)
  {
    hide Approx;
  }

  lemma UptoAll(z: Block, o: Block, p: nat, se: nat, al: nat)
    requires 1 <= p && se < 64
    ensures Upto(z, o, p, se + 1, al) == Sent(z, o, p - 1, se, al)
  {
    hide Approx;
  }

  /** One coefficient passed over. */
  lemma PassStep(s: seq<bit>, z: Block, o: Block, p: nat, r: nat, se: nat, al: nat, e: nat)
    requires p <= se < 64 && Coefs(o) && z[p] == Approx(o[p], al + 1) && Mag(o[p], al) != 1
    requires Mag(o[p], al) > 1 ==> s != [] && s[0] == Mag(o[p], al) % 2
    ensures var c, z' := Mag(o[p], al) > 1, z[p := Approx(o[p], al)];
            var s' := if c then s[1..] else s;
            && (c || r > 0 ==> Pass(s, z, p, r, se, al) == Pass(s', z', p + 1, if c then r else r - 1, se, al))
            && ReadTail(s, e, z, p, se, al) == ReadTail(s', e, z', p + 1, se, al)
  {
    if Mag(o[p], al) > 1 {
      CorrectedIs(o[p], al);
      hide Mag, Approx, Corrected, Coefs;
    } else {
      ZeroStays(o[p], al);
      hide Mag, Approx, Corrected, Coefs;
      assert z[p := z[p]] == z;
    }
  }

  /** The reader passes over coefficients with the correction bits that the coder buffered for them. */
  lemma {:induction false} PassOver(tp: Tape, n: nat, z: Block, o: Block, p: nat, k: nat, r: nat, se: nat, al: nat, e: nat)
    requires ValidTape(tp) && p <= k <= se + 1 <= 64 && Coefs(o) && Before(z, o, p, se, al) && NoNew(o, p, k, al)
    requires n <= |tp.items| && At(tp, n, PlainBits(BitsIn(o, p, k, al)))
    ensures n + |BitsIn(o, p, k, al)| <= |tp.items|
    ensures var rest, z' := Left(tp, n + |BitsIn(o, p, k, al)|), Upto(z, o, p, k, al);
            && (ZerosIn(o, p, k, al) <= r ==>
                  Pass(Left(tp, n), z, p, r, se, al) == Pass(rest, z', k, r - ZerosIn(o, p, k, al), se, al))
            && ReadTail(Left(tp, n), e, z, p, se, al) == ReadTail(rest, e, z', k, se, al)
    decreases k - p
  {
    hide Left, ValidTape, Mag, Approx, Pass, ReadTail, Upto, At, Coefs;
    if p == k {
      UptoNone(z, o, p, al);
    } else {
      var c := if Mag(o[p], al) > 1 then [Mag(o[p], al) % 2] else [];
      var rest := BitsIn(o, p + 1, k, al);
      PlainBitsJoin(c, rest);
      assert |PlainBits(c)| == |c|;
      AtBoth(tp, n, PlainBits(c), PlainBits(rest));
      if c != [] {
        assert PlainBits(c) == [Plain(c[0], 1)] + [];
        AtFirst(tp, n, Plain(c[0], 1), []);
        TakeBit(tp, n, c[0]);
      }
      PassStep(Left(tp, n), z, o, p, r, se, al, e);
      UptoStep(z, o, p, k, al);
      var r' := if c != [] || r == 0 then r else r - 1;
      PassOver(tp, n + |c|, z[p := Approx(o[p], al)], o, p + 1, k, r', se, al, e);
    }
  }

  /** A band with nothing new in it is all corrections. */
  lemma TailRead(tp: Tape, n: nat, z: Block, o: Block, p: nat, se: nat, al: nat, e: nat)
    requires ValidTape(tp) && 1 <= p <= se + 1 <= 64 && Coefs(o) && Before(z, o, p, se, al) && NoNew(o, p, se + 1, al)
    requires n <= |tp.items| && At(tp, n, PlainBits(BitsIn(o, p, se + 1, al)))
    ensures n + |BitsIn(o, p, se + 1, al)| <= |tp.items|
    ensures ReadTail(Left(tp, n), e, z, p, se, al)
            == Filled(Sent(z, o, p - 1, se, al), e, Left(tp, n + |BitsIn(o, p, se + 1, al)|))
  {
    PassOver(tp, n, z, o, p, se + 1, 0, se, al, e);
    UptoAll(z, o, p, se, al);
    hide Left, ValidTape, Mag, Approx, Upto, At, Coefs, BitsIn, Before;
  }

  // ----- codes

  lemma UptoJoin(z: Block, o: Block, p: nat, q: nat, k: nat, al: nat)
    requires p <= q <= k <= 64
    ensures Upto(Upto(z, o, p, q, al), o, q, k, al) == Upto(z, o, p, k, al)
  {
    hide Approx;
  }

  lemma UptoZero(z: Block, o: Block, p: nat, q: nat, al: nat)
    requires p <= q < 64 && z[q] == Approx(o[q], al)
    ensures Upto(z, o, p, q + 1, al) == Upto(z, o, p, q, al)
  {
    hide Approx;
  }

  /** At a coefficient that is still zero, with no more zeros to pass, the reader stops. */
  lemma PassEnd(s: seq<bit>, z: Block, k: nat, se: nat, al: nat)
    requires k <= se < 64 && z[k] == 0
    ensures Pass(s, z, k, 0, se, al) == Passed(z, k, s)
  {
  }

  lemma ZrlStep(t: Table, s: seq<bit>, s1: seq<bit>, z: Block, p: nat, se: nat, al: nat, z2: Block, k2: nat, s2: seq<bit>)
    requires p <= se < 64 && NextSymbol(t, s, 1) == Got(0xF0, s1) && Pass(s1, z, p, 15, se, al) == Passed(z2, k2, s2)
    ensures p <= k2 && ReadRefine(t, s, z, p, se, al) == ReadRefine(t, s2, z2, k2 + 1, se, al)
  {
    hide NextSymbol, NextBits, Pass, ReadTail;
  }

  /** A run of sixteen takes the reader past the sixteenth zero. */
  lemma ZrlRead(tp: Tape, n: nat, tbl: nat, o: Block, z: Block, p: nat, k: nat, se: nat, al: nat)
    requires ValidTape(tp) && tbl < NUM_HUFF_TBLS && p <= k <= se < 64 && Coefs(o) && Before(z, o, p, se, al)
    requires NoNew(o, p, k, al) && ZerosIn(o, p, k, al) > 15
    requires var q := Nth(o, p, k, 15, al);
             At(tp, n, [Symbol(false, tbl, 0xF0)] + PlainBits(BitsIn(o, p, q, al)))
    ensures var q := Nth(o, p, k, 15, al);
            var m := n + 1 + |BitsIn(o, p, q, al)|;
            && m <= |tp.items|
            && ReadRefine(CodeOf(tp, false, tbl), Left(tp, n), z, p, se, al)
               == ReadRefine(CodeOf(tp, false, tbl), Left(tp, m), Upto(z, o, p, q + 1, al), q + 1, se, al)
  {
    hide Left, ValidTape, CodeOf, Mag, Approx, Pass, ReadRefine, Upto, At, Coefs, BitsIn, Nth, NextSymbol;
    var q := Nth(o, p, k, 15, al);
    var bits := BitsIn(o, p, q, al);
    AtFirst(tp, n, Symbol(false, tbl, 0xF0), PlainBits(bits));
    TakeSymbol(tp, n, false, tbl, 0xF0);
    PassOver(tp, n + 1, z, o, p, q, 15, se, al, 0);
    CoefAt(o, q);
    ZeroStays(o[q], al);
    var z2, rest := Upto(z, o, p, q, al), Left(tp, n + 1 + |bits|);
    UptoZero(z, o, p, q, al);
    UptoAt(z, o, p, q, al);
    PassEnd(rest, z2, q, se, al);
    ZrlStep(CodeOf(tp, false, tbl), Left(tp, n), Left(tp, n + 1), z, p, se, al, z2, q, rest);
  }

  lemma CoefAt(o: Block, k: nat)
    requires Coefs(o) && k < 64
    ensures IsCoef(o[k])
  {
  }

  lemma UptoAt(z: Block, o: Block, p: nat, k: nat, al: nat)
    requires k < 64
    ensures Upto(z, o, p, k, al)[k] == z[k]
  {
    hide Approx;
  }

  lemma NewStep(t: Table, s: seq<bit>, r: nat, s1: seq<bit>, z: Block, p: nat, se: nat, al: nat, z2: Block, k2: nat, s2: seq<bit>)
    requires p <= se < 64 && r < 16 && NextSymbol(t, s, 1) == Got(r * 16 + 1, s1) && s1 != []
    requires Pass(s1[1..], z, p, r, se, al) == Passed(z2, k2, s2)
    ensures p <= k2
    ensures ReadRefine(t, s, z, p, se, al)
            == ReadRefine(t, s2, z2[Place(k2) := ToCoef(Signed(1 - s1[0], Pow2(al)))], k2 + 1, se, al)
  {
    hide NextSymbol, NextBits, Pass, ReadTail, Pow2, ToCoef, Signed;
    SplitSymbol(r, 1);
  }

  lemma NewValue(v: int, al: nat)
    requires IsCoef(v) && Mag(v, al) == 1
    ensures Approx(v, al + 1) == 0
    ensures ToCoef(Signed(1 - (if v < 0 then 0 else 1), Pow2(al))) == Approx(v, al)
  {
    NextBit(v, al);
    CoefKept(Approx(v, al));
    hide Pow2, Mag, Approx, ToCoef;
  }

  lemma UptoNew(z: Block, o: Block, p: nat, k: nat, al: nat)
    requires p <= k < 64
    ensures Upto(z, o, p, k, al)[k := Approx(o[k], al)] == Upto(z, o, p, k + 1, al)
  {
    hide Approx;
  }

  lemma NewItems(tp: Tape, n: nat, tbl: nat, r: nat, v: int, br: seq<bit>)
    requires r < 16 && At(tp, n, NewCoef(tbl, r, v, br))
    ensures n + 2 + |br| <= |tp.items| && |NewCoef(tbl, r, v, br)| == 2 + |br|
    ensures tp.items[n] == Symbol(false, tbl, r * 16 + 1) && tp.items[n + 1] == Plain(if v < 0 then 0 else 1, 1)
    ensures At(tp, n + 2, PlainBits(br))
  {
    hide At, PlainBits;
    var x, y := Symbol(false, tbl, r * 16 + 1), Plain(if v < 0 then 0 else 1, 1);
    assert [x, y] + PlainBits(br) == [x] + ([y] + PlainBits(br));
    AtFirst(tp, n, x, [y] + PlainBits(br));
    AtFirst(tp, n + 1, y, PlainBits(br));
    AtSize(tp, n + 2, PlainBits(br));
  }

  lemma AtSize(tp: Tape, n: nat, items: seq<Item>)
    requires At(tp, n, items)
    ensures n + |items| <= |tp.items|
  {
  }

  /** A coefficient that becomes nonzero is put where the coder found it. */
  lemma NewRead(tp: Tape, n: nat, tbl: nat, o: Block, z: Block, p: nat, k: nat, se: nat, al: nat)
    requires ValidTape(tp) && tbl < NUM_HUFF_TBLS && p <= k <= se < 64 && Coefs(o) && Before(z, o, p, se, al)
    requires NoNew(o, p, k, al) && ZerosIn(o, p, k, al) < 16 && Mag(o[k], al) == 1
    requires At(tp, n, NewCoef(tbl, ZerosIn(o, p, k, al), o[k], BitsIn(o, p, k, al)))
    ensures var m := n + 2 + |BitsIn(o, p, k, al)|;
            && m <= |tp.items| && m == n + |NewCoef(tbl, ZerosIn(o, p, k, al), o[k], BitsIn(o, p, k, al))|
            && ReadRefine(CodeOf(tp, false, tbl), Left(tp, n), z, p, se, al)
               == ReadRefine(CodeOf(tp, false, tbl), Left(tp, m), Upto(z, o, p, k + 1, al), k + 1, se, al)
  {
    hide Left, ValidTape, CodeOf, Mag, Approx, Pass, ReadRefine, Upto, At, Coefs, BitsIn, NextSymbol, NewCoef, Pow2,
      ToCoef, Signed;
    var r, bits := ZerosIn(o, p, k, al), BitsIn(o, p, k, al);
    NewItems(tp, n, tbl, r, o[k], bits);
    TakeSymbol(tp, n, false, tbl, r * 16 + 1);
    TakeBit(tp, n + 1, if o[k] < 0 then 0 else 1);
    PassOver(tp, n + 2, z, o, p, k, r, se, al, 0);
    CoefAt(o, k);
    NewValue(o[k], al);
    var z2, rest := Upto(z, o, p, k, al), Left(tp, n + 2 + |bits|);
    UptoAt(z, o, p, k, al);
    UptoNew(z, o, p, k, al);
    PassEnd(rest, z2, k, se, al);
    NewStep(CodeOf(tp, false, tbl), Left(tp, n), r, Left(tp, n + 1), z, p, se, al, z2, k, rest);
  }

  // ----- blocks

  lemma RunsNext(tbl: nat, r: nat, br: seq<bit>, a: Ac)
    requires r > 15 && Good(a, 0) && a.eobrun < MAX_EOBRUN
    ensures var b := EmitEob(tbl, a);
            var c := b.(items := b.items + ([Symbol(false, tbl, 0xF0)] + PlainBits(br)));
            && Runs(tbl, r, br, a) == Runs(tbl, r - 16, [], c)
            && c.eobrun == 0 && c.pend == [] && c.items == Ahead(tbl, a, 0) + ([Symbol(false, tbl, 0xF0)] + PlainBits(br))
  {
    EmitAhead(tbl, a);
    hide EmitEob, PlainBits, Ahead;
    SeqGroupAll(EmitEob(tbl, a).items, [Symbol(false, tbl, 0xF0)], PlainBits(br));
  }

  /** After runs of sixteen nothing is pending, and they only add to what was sent. */
  lemma {:induction false} RunsGood(tbl: nat, r: nat, br: seq<bit>, a: Ac)
    requires Good(a, 0) && a.eobrun < MAX_EOBRUN
    ensures var x := Runs(tbl, r, br, a);
            && Good(x.a, 0) && x.a.eobrun < MAX_EOBRUN && x.r == r % 16
            && (if r > 15 then x.a.eobrun == 0 && x.br == [] && Ahead(tbl, a, 0) <= x.a.items else x == Run(r, br, a))
    decreases r
  {
    hide EmitEob, PlainBits, Ahead;
    if r > 15 {
      RunsNext(tbl, r, br, a);
      var b := EmitEob(tbl, a);
      var c := b.(items := b.items + ([Symbol(false, tbl, 0xF0)] + PlainBits(br)));
      RunsGood(tbl, r - 16, [], c);
      NothingPending(tbl, c);
      PrefixTrans(Ahead(tbl, a, 0), c.items, Runs(tbl, r - 16, [], c).a.items);
    }
  }

  /** Where the reader stands after the runs, the coder's zeros and bits are those still to be passed. */
  lemma {:induction false} ResumeRuns(tbl: nat, o: Block, p: nat, k: nat, al: nat, a: Ac)
    requires p <= k <= 64 && NoNew(o, p, k, al) && Tight(o, p, k, al) && Good(a, 0) && a.eobrun < MAX_EOBRUN
    ensures var q, x := Resume(o, p, k, al), Runs(tbl, ZerosIn(o, p, k, al), BitsIn(o, p, k, al), a);
            x.r == ZerosIn(o, q, k, al) && x.br == BitsIn(o, q, k, al)
    decreases k - p
  {
    hide Mag, Nth, BitsIn, NoNew, Tight, ZerosIn, EmitEob, PlainBits, Ahead;
    if ZerosIn(o, p, k, al) > 15 {
      var r, br := ZerosIn(o, p, k, al), BitsIn(o, p, k, al);
      AfterSixteen(o, p, k, al);
      RunsNext(tbl, r, br, a);
      var b := EmitEob(tbl, a);
      ResumeRuns(tbl, o, Nth(o, p, k, 15, al) + 1, k, al, b.(items := b.items + ([Symbol(false, tbl, 0xF0)] + PlainBits(br))));
    }
  }

  /** The runs of sixteen take the reader to where it resumes. */
  lemma {:induction false} RunsRead(tp: Tape, tbl: nat, o: Block, z: Block, p: nat, k: nat, se: nat, al: nat, a: Ac)
    requires ValidTape(tp) && tbl < NUM_HUFF_TBLS && p <= k <= se < 64 && Coefs(o) && Before(z, o, p, se, al)
    requires NoNew(o, p, k, al) && Tight(o, p, k, al) && Good(a, 0) && a.eobrun < MAX_EOBRUN && ZerosIn(o, p, k, al) > 15
    requires Runs(tbl, ZerosIn(o, p, k, al), BitsIn(o, p, k, al), a).a.items <= tp.items
    ensures var q, x := Resume(o, p, k, al), Runs(tbl, ZerosIn(o, p, k, al), BitsIn(o, p, k, al), a);
            && Ahead(tbl, a, 0) <= tp.items
            && ReadRefine(CodeOf(tp, false, tbl), Left(tp, |Ahead(tbl, a, 0)|), z, p, se, al)
               == ReadRefine(CodeOf(tp, false, tbl), Left(tp, |x.a.items|), Upto(z, o, p, q, al), q, se, al)
    decreases k - p
  {
    hide Left, ValidTape, CodeOf, Mag, Approx, ReadRefine, Upto, At, Coefs, Nth, BitsIn, NoNew, Tight, ZerosIn, EmitEob,
      PlainBits, Ahead, Before;
    var r, br := ZerosIn(o, p, k, al), BitsIn(o, p, k, al);
    var q := Nth(o, p, k, 15, al);
    AfterSixteen(o, p, k, al);
    RunsNext(tbl, r, br, a);
    var b := EmitEob(tbl, a);
    var zrl := [Symbol(false, tbl, 0xF0)] + PlainBits(br);
    var c := b.(items := b.items + zrl);
    NothingPending(tbl, c);
    var z' := Upto(z, o, p, q + 1, al);
    BeforeNext(z, o, p, q, se, al);
    if r - 16 > 15 {
      RunsRead(tp, tbl, o, z', q + 1, k, se, al, c);
      UptoJoin(z, o, p, q + 1, Resume(o, q + 1, k, al), al);
    }
    PrefixAt(tp, Ahead(tbl, a, 0), zrl);
    ZrlRead(tp, |Ahead(tbl, a, 0)|, tbl, o, z, p, k, se, al);
  }

  lemma BeforeNext(z: Block, o: Block, p: nat, q: nat, se: nat, al: nat)
    requires Before(z, o, p, se, al) && p <= q
    ensures Before(Upto(z, o, p, q + 1, al), o, q + 1, se, al)
  {
    hide Approx;
  }

  /** What a nonzero coefficient leaves to be coded; runs only go out before the last new coefficient. */
  lemma RefineItemsNext(tbl: nat, o: Block, k: nat, se: nat, al: nat, eob: nat, r: nat, br: seq<bit>, a: Ac)
    requires k <= se < 64 && a.eobrun < MAX_EOBRUN && Good(a, 0)
    requires forall i :: k <= i <= se && Mag(o[i], al) == 1 ==> i <= eob
    ensures var m, x := Mag(o[k], al), if k <= eob then Runs(tbl, r, br, a) else Run(r, br, a);
            && (m == 0 ==> RefineItems(tbl, o, k, se, al, eob, r, br, a) == RefineItems(tbl, o, k + 1, se, al, eob, r + 1, br, a))
            && (m > 1 ==>
                  RefineItems(tbl, o, k, se, al, eob, r, br, a)
                  == RefineItems(tbl, o, k + 1, se, al, eob, x.r, x.br + [m % 2], x.a))
            && (m == 1 ==>
                  && x.r < 16 && Good(x.a, 0) && EmitEob(tbl, x.a).eobrun == 0
                  && RefineItems(tbl, o, k, se, al, eob, r, br, a)
                     == RefineItems(tbl, o, k + 1, se, al, eob, 0, [],
                          EmitEob(tbl, x.a).(items := Ahead(tbl, x.a, 0) + NewCoef(tbl, x.r, o[k], x.br))))
  {
    RunsGood(tbl, r, br, a);
    if Mag(o[k], al) == 1 {
      EmitAhead(tbl, Runs(tbl, r, br, a).a);
    }
    hide Mag, Ahead, EmitEob, NewCoef, Runs;
  }

  /**
   The coder is at `k` with state `a`, and of what lies from `p` on has sent nothing:
   zeros, and correction bits. When all is sent, the reader at `p` reads the rest of
   the band, and meets the same run.
   */
  lemma {:induction false} RefineRead(tp: Tape, tbl: nat, o: Block, z: Block, p: nat, k: nat, se: nat, al: nat, eob: nat,
                                      a: Ac, y: nat)
    returns (x: nat)
    requires ValidTape(tp) && tbl < NUM_HUFF_TBLS && 1 <= p <= k <= se + 1 <= 64 && Coefs(o) && Before(z, o, p, se, al)
    requires NoNew(o, p, k, al) && (k <= eob ==> Tight(o, p, k, al))
    requires forall i :: k <= i <= se && Mag(o[i], al) == 1 ==> i <= eob
    requires a.eobrun < MAX_EOBRUN && Good(a, 0) && (a.eobrun > 0 ==> p <= se)
    requires var b := RefineItems(tbl, o, k, se, al, eob, ZerosIn(o, p, k, al), BitsIn(o, p, k, al), a);
             Good(b, y) && Ahead(tbl, b, y) <= tp.items
    ensures Good(a, x) && Ahead(tbl, a, x) <= tp.items
    ensures var b := RefineItems(tbl, o, k, se, al, eob, ZerosIn(o, p, k, al), BitsIn(o, p, k, al), a);
            RefineBlock(CodeOf(tp, false, tbl), Left(tp, |Ahead(tbl, a, x)|), x, z, p, se, al)
            == Filled(Sent(z, o, p - 1, se, al), y, Left(tp, |Ahead(tbl, b, y)|))
    decreases se + 1 - k, 2
  {
    hide Left, ValidTape, CodeOf, Mag, Approx, RefineBlock, Sent, Coefs, BitsIn, NoNew, Tight, ZerosIn, EmitEob, Ahead, Before,
      RefineItems;
    if k > se {
      x := RefineEndRead(tp, tbl, o, z, p, se, al, eob, a, y);
    } else {
      RefineItemsNext(tbl, o, k, se, al, eob, ZerosIn(o, p, k, al), BitsIn(o, p, k, al), a);
      if Mag(o[k], al) == 0 {
        PassedZero(o, p, k, al);
        x := RefineRead(tp, tbl, o, z, p, k + 1, se, al, eob, a, y);
      } else {
        x := RefineNonzeroRead(tp, tbl, o, z, p, k, se, al, eob, a, y);
      }
    }
  }

  lemma PassedZero(o: Block, p: nat, k: nat, al: nat)
    requires p <= k < 64 && NoNew(o, p, k, al) && Mag(o[k], al) == 0
    ensures NoNew(o, p, k + 1, al) && (Tight(o, p, k, al) ==> Tight(o, p, k + 1, al))
    ensures ZerosIn(o, p, k + 1, al) == ZerosIn(o, p, k, al) + 1 && BitsIn(o, p, k + 1, al) == BitsIn(o, p, k, al)
  {
    hide Mag, ZerosIn, BitsIn;
    BetweenNext(o, p, k, al);
    assert BitsIn(o, p, k, al) + [] == BitsIn(o, p, k, al);
  }

  lemma PassedOld(o: Block, p: nat, k: nat, al: nat)
    requires p <= k < 64 && NoNew(o, p, k, al) && Mag(o[k], al) > 1
    ensures NoNew(o, p, k + 1, al) && (Tight(o, p, k, al) && ZerosIn(o, p, k, al) <= 15 ==> Tight(o, p, k + 1, al))
    ensures ZerosIn(o, p, k + 1, al) == ZerosIn(o, p, k, al)
    ensures BitsIn(o, p, k + 1, al) == BitsIn(o, p, k, al) + [Mag(o[k], al) % 2]
  {
    hide Mag, ZerosIn, BitsIn;
    BetweenNext(o, p, k, al);
  }

  lemma FreshStart(o: Block, k: nat, al: nat)
    requires k <= 64
    ensures ZerosIn(o, k, k, al) == 0 && BitsIn(o, k, k, al) == [] && NoNew(o, k, k, al) && Tight(o, k, k, al)
  {
  }

  lemma RefineEndRead(tp: Tape, tbl: nat, o: Block, z: Block, p: nat, se: nat, al: nat, eob: nat, a: Ac, y: nat)
    returns (x: nat)
    requires ValidTape(tp) && tbl < NUM_HUFF_TBLS && 1 <= p <= se + 1 <= 64 && Coefs(o) && Before(z, o, p, se, al)
    requires NoNew(o, p, se + 1, al)
    requires a.eobrun < MAX_EOBRUN && Good(a, 0) && (a.eobrun > 0 ==> p <= se)
    requires var b := RefineItems(tbl, o, se + 1, se, al, eob, ZerosIn(o, p, se + 1, al), BitsIn(o, p, se + 1, al), a);
             Good(b, y) && Ahead(tbl, b, y) <= tp.items
    ensures Good(a, x) && Ahead(tbl, a, x) <= tp.items
    ensures var b := RefineItems(tbl, o, se + 1, se, al, eob, ZerosIn(o, p, se + 1, al), BitsIn(o, p, se + 1, al), a);
            RefineBlock(CodeOf(tp, false, tbl), Left(tp, |Ahead(tbl, a, x)|), x, z, p, se, al)
            == Filled(Sent(z, o, p - 1, se, al), y, Left(tp, |Ahead(tbl, b, y)|))
  {
    hide Left, ValidTape, CodeOf, Mag, Approx, Sent, Coefs, BitsIn, NoNew, ZerosIn, EmitEob, EndBlock, Ahead, RefineBlock,
      Before;
    var r, br := ZerosIn(o, p, se + 1, al), BitsIn(o, p, se + 1, al);
    Something(o, p, se + 1, al);
    if p > se {
      x := 0;
      NothingPending(tbl, a);
      UptoNone(z, o, p, al);
      UptoAll(z, o, p, se, al);
      PastEnd(CodeOf(tp, false, tbl), Left(tp, |Ahead(tbl, a, 0)|), z, p, se, al);
    } else {
      x := EndRead(tp, tbl, o, z, p, se, al, a, y);
    }
  }

  lemma PastEnd(t: Table, s: seq<bit>, z: Block, p: nat, se: nat, al: nat)
    requires se < 64 && se < p
    ensures RefineBlock(t, s, 0, z, p, se, al) == Filled(z, 0, s)
  {
  }

  lemma EndRead(tp: Tape, tbl: nat, o: Block, z: Block, p: nat, se: nat, al: nat, a: Ac, y: nat)
    returns (x: nat)
    requires ValidTape(tp) && tbl < NUM_HUFF_TBLS && 1 <= p <= se < 64 && Coefs(o) && Before(z, o, p, se, al)
    requires NoNew(o, p, se + 1, al) && a.eobrun < MAX_EOBRUN && Good(a, 0)
    requires var b := EndBlock(tbl, a, BitsIn(o, p, se + 1, al)); Good(b, y) && Ahead(tbl, b, y) <= tp.items
    ensures Good(a, x) && Ahead(tbl, a, x) <= tp.items
    ensures RefineBlock(CodeOf(tp, false, tbl), Left(tp, |Ahead(tbl, a, x)|), x, z, p, se, al)
            == Filled(Sent(z, o, p - 1, se, al), y, Left(tp, |Ahead(tbl, EndBlock(tbl, a, BitsIn(o, p, se + 1, al)), y)|))
  {
    hide Left, ValidTape, CodeOf, Mag, Approx, Sent, Coefs, BitsIn, NoNew, ZerosIn, EmitEob, EobItems, PlainBits, EndBlock,
      ReadTail, At, Before, ReadRefine;
    var br := BitsIn(o, p, se + 1, al);
    EndAhead(tbl, a, br, y);
    var run, bits := EobItems(tbl, a.eobrun + 1 + y), PlainBits(br);
    if a.eobrun > 0 {
      x := 1 + y;
      assert Ahead(tbl, a, x) == a.items + (run + PlainBits(a.pend));
      RunThenBits(a.items, run, PlainBits(a.pend), bits);
      hide Ahead;
      PrefixAt(tp, Ahead(tbl, a, x), bits);
      TailRead(tp, |Ahead(tbl, a, x)|, z, o, p, se, al, y);
    } else {
      x := 0;
      NothingPending(tbl, a);
      NoBitsPlain();
      RunThenBits(a.items, run, [], bits);
      hide Ahead;
      PrefixAt(tp, a.items + run, bits);
      PrefixAt(tp, a.items, run);
      EobRead(tp, |a.items|, tbl, 1 + y, z, p, se, al);
      TailRead(tp, |a.items + run|, z, o, p, se, al, y);
    }
  }

  lemma RunThenBits(a: seq<Item>, run: seq<Item>, kept: seq<Item>, bits: seq<Item>)
    ensures a + (run + (kept + bits)) == a + (run + kept) + bits
    ensures kept == [] ==> a + (run + (kept + bits)) == a + run + bits
  {
  }

  lemma NoBitsPlain()
    ensures PlainBits([]) == []
  {
  }

  /** Where there are coefficients and none is new there are zeros or corrections. */
  lemma Something(o: Block, p: nat, k: nat, al: nat)
    requires k <= 64 && NoNew(o, p, k, al)
    ensures ZerosIn(o, p, k, al) > 0 || BitsIn(o, p, k, al) != [] <==> p < k
  {
    hide Mag;
  }

  lemma {:induction false} RefineNonzeroRead(tp: Tape, tbl: nat, o: Block, z: Block, p: nat, k: nat, se: nat, al: nat, eob: nat,
                                             a: Ac, y: nat)
    returns (x: nat)
    requires ValidTape(tp) && tbl < NUM_HUFF_TBLS && 1 <= p <= k <= se < 64 && Coefs(o) && Before(z, o, p, se, al)
    requires NoNew(o, p, k, al) && (k <= eob ==> Tight(o, p, k, al)) && Mag(o[k], al) != 0
    requires forall i :: k <= i <= se && Mag(o[i], al) == 1 ==> i <= eob
    requires a.eobrun < MAX_EOBRUN && Good(a, 0)
    requires var b := RefineItems(tbl, o, k, se, al, eob, ZerosIn(o, p, k, al), BitsIn(o, p, k, al), a);
             Good(b, y) && Ahead(tbl, b, y) <= tp.items
    ensures Good(a, x) && Ahead(tbl, a, x) <= tp.items
    ensures var b := RefineItems(tbl, o, k, se, al, eob, ZerosIn(o, p, k, al), BitsIn(o, p, k, al), a);
            RefineBlock(CodeOf(tp, false, tbl), Left(tp, |Ahead(tbl, a, x)|), x, z, p, se, al)
            == Filled(Sent(z, o, p - 1, se, al), y, Left(tp, |Ahead(tbl, b, y)|))
    decreases se + 1 - k, 1
  {
    hide Left, ValidTape, CodeOf, Mag, Approx, RefineBlock, Sent, Coefs, BitsIn, NoNew, Tight, ZerosIn, EmitEob, Ahead, Before,
      RefineItems, Upto, Runs, Resume;
    var r, br := ZerosIn(o, p, k, al), BitsIn(o, p, k, al);
    RefineItemsNext(tbl, o, k, se, al, eob, r, br, a);
    var q, xr := p, Run(r, br, a);
    if k <= eob {
      q, xr := Resume(o, p, k, al), Runs(tbl, r, br, a);
      ResumeIs(o, p, k, al);
      ResumeRuns(tbl, o, p, k, al, a);
    }
    RunsGood(tbl, r, br, a);
    var z' := Upto(z, o, p, q, al);
    UptoBefore(z, o, p, q, q, se, al);
    UptoSent(z, o, p, q, q, se, al);
    if Mag(o[k], al) > 1 {
      PassedOld(o, q, k, al);
      x := RefineRead(tp, tbl, o, z', q, k + 1, se, al, eob, xr.a, y);
    } else {
      x := RefineNewRead(tp, tbl, o, z', q, k, se, al, eob, xr.a, y);
    }
    if k <= eob {
      x := RunsThen(tp, tbl, o, z, p, k, se, al, a, x);
    } else {
      UptoNone(z, o, p, al);
    }
  }

  /** The runs, then whatever follows. */
  lemma RunsThen(tp: Tape, tbl: nat, o: Block, z: Block, p: nat, k: nat, se: nat, al: nat, a: Ac, x2: nat)
    returns (x: nat)
    requires ValidTape(tp) && tbl < NUM_HUFF_TBLS && p <= k <= se < 64 && Coefs(o) && Before(z, o, p, se, al)
    requires NoNew(o, p, k, al) && Tight(o, p, k, al) && Good(a, 0) && a.eobrun < MAX_EOBRUN
    requires var xr := Runs(tbl, ZerosIn(o, p, k, al), BitsIn(o, p, k, al), a);
             Good(xr.a, x2) && Ahead(tbl, xr.a, x2) <= tp.items
    ensures Good(a, x) && Ahead(tbl, a, x) <= tp.items
    ensures var q, xr := Resume(o, p, k, al), Runs(tbl, ZerosIn(o, p, k, al), BitsIn(o, p, k, al), a);
            RefineBlock(CodeOf(tp, false, tbl), Left(tp, |Ahead(tbl, a, x)|), x, z, p, se, al)
            == RefineBlock(CodeOf(tp, false, tbl), Left(tp, |Ahead(tbl, xr.a, x2)|), x2, Upto(z, o, p, q, al), q, se, al)
  {
    hide Left, ValidTape, CodeOf, Mag, Approx, ReadRefine, ReadTail, Upto, At, Coefs, BitsIn, NoNew, Tight, ZerosIn, EmitEob,
      Ahead, Before, Runs, Nth;
    var r, br := ZerosIn(o, p, k, al), BitsIn(o, p, k, al);
    RunsGood(tbl, r, br, a);
    if r > 15 {
      x := 0;
      NothingPending(tbl, Runs(tbl, r, br, a).a);
      RunsRead(tp, tbl, o, z, p, k, se, al, a);
    } else {
      x := x2;
      UptoNone(z, o, p, al);
    }
  }

  lemma {:induction false} RefineNewRead(tp: Tape, tbl: nat, o: Block, z: Block, q: nat, k: nat, se: nat, al: nat, eob: nat,
                                         a: Ac, y: nat)
    returns (x: nat)
    requires ValidTape(tp) && tbl < NUM_HUFF_TBLS && 1 <= q <= k <= se < 64 && Coefs(o) && Before(z, o, q, se, al)
    requires NoNew(o, q, k, al) && ZerosIn(o, q, k, al) <= 15 && Mag(o[k], al) == 1
    requires forall i :: k <= i <= se && Mag(o[i], al) == 1 ==> i <= eob
    requires a.eobrun < MAX_EOBRUN && Good(a, 0) && EmitEob(tbl, a).eobrun == 0
    requires var c := EmitEob(tbl, a).(items := Ahead(tbl, a, 0) + NewCoef(tbl, ZerosIn(o, q, k, al), o[k], BitsIn(o, q, k, al)));
             var b := RefineItems(tbl, o, k + 1, se, al, eob, 0, [], c);
             Good(b, y) && Ahead(tbl, b, y) <= tp.items
    ensures Good(a, x) && Ahead(tbl, a, x) <= tp.items
    ensures var c := EmitEob(tbl, a).(items := Ahead(tbl, a, 0) + NewCoef(tbl, ZerosIn(o, q, k, al), o[k], BitsIn(o, q, k, al)));
            var b := RefineItems(tbl, o, k + 1, se, al, eob, 0, [], c);
            RefineBlock(CodeOf(tp, false, tbl), Left(tp, |Ahead(tbl, a, x)|), x, z, q, se, al)
            == Filled(Sent(z, o, q - 1, se, al), y, Left(tp, |Ahead(tbl, b, y)|))
    decreases se + 1 - k, 0
  {
    hide Left, ValidTape, CodeOf, Mag, Approx, ReadRefine, ReadTail, Sent, Coefs, BitsIn, NoNew, Tight, ZerosIn, EmitEob, Ahead,
      Before, RefineItems, Upto, NewCoef, At;
    EmitAhead(tbl, a);
    var coef := NewCoef(tbl, ZerosIn(o, q, k, al), o[k], BitsIn(o, q, k, al));
    var c := EmitEob(tbl, a).(items := Ahead(tbl, a, 0) + coef);
    FreshStart(o, k + 1, al);
    BeforeNext(z, o, q, k, se, al);
    x := RefineRead(tp, tbl, o, Upto(z, o, q, k + 1, al), k + 1, k + 1, se, al, eob, c, y);
    NothingPending(tbl, c);
    PrefixAt(tp, Ahead(tbl, a, 0), coef);
    NewRead(tp, |Ahead(tbl, a, 0)|, tbl, o, z, q, k, se, al);
    UptoSent(z, o, q, k + 1, k + 1, se, al);
  }
}
