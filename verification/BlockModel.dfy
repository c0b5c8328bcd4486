/**
 How the arithmetic coder sends the coefficients of a block: DC differences, the
 first pass over a band of AC coefficients, and its refinement by one bit
 (sections F.1.4, F.2.4 and G.1.3 of ITU-T T.81). Blocks are in zigzag order.
 */
module BlockModel {
  import opened Products
  import opened Bytes
  import opened CodingInterval
  import opened DecisionStream
  import opened MagnitudeModel

  /** The conditioning tables of a component and their parameters. */
  datatype Conditioning = Conditioning(dcTbl: nat, acTbl: nat, dcL: nat, dcU: nat, acK: nat)

  type Block = z: seq<int> | |z| == 64
    witness seq(64, i => 0)

  predicate IsCoef(v: int) {
    -0x8000 <= v < 0x8000
  }

  /** Conversion of an int to the 16-bit coefficient type. */
  function ToCoef(v: int): (c: int)
    ensures IsCoef(c)
    ensures IsCoef(v) ==> c == v
  {
    (v + 0x8000) % 0x10000 - 0x8000
  }

  function Abs(v: int): nat {
    if v < 0 then -v else v
  }

  function SignBit(v: int): nat {
    if v < 0 then 1 else 0
  }

  function Signed(sign: nat, m: nat): int {
    if sign == 1 then -(m as int) else m
  }

  // ----- DC differences

  /** Conditioning category for the next difference (section F.1.4.4.1.2). */
  function NextDcContext(q: Conditioning, m: nat, sign: nat): nat {
    if m < Pow2(q.dcL) / 2 then 0
    else if m > Pow2(q.dcU) / 2 then 12 + 4 * sign
    else 4 + 4 * sign
  }

  function DcDecisions(q: Conditioning, ctx: nat, v: int): (es: seq<Decision>)
    ensures Binary(es)
  {
    if v == 0 then [Decision(DcBin(q.dcTbl, ctx), 0)]
    else
      [Decision(DcBin(q.dcTbl, ctx), 1)]
      + ([Decision(DcBin(q.dcTbl, ctx + 1), SignBit(v))]
         + DcMagnitude(q.dcTbl, ctx + 2 + SignBit(v), Abs(v) - 1))
  }

  function DcContextAfter(q: Conditioning, v: int): nat {
    if v == 0 then 0 else NextDcContext(q, Category(Abs(v) - 1), SignBit(v))
  }

  datatype DcRead = DcRead(ok: bool, v: int, ctx: nat, s: Stream)

  function ReadDc(s: Stream, q: Conditioning, ctx: nat): DcRead {
    var (bit, s1) := Next(s, DcBin(q.dcTbl, ctx));
    if bit == 0 then DcRead(true, 0, 0, s1) else
    var (sign, s2) := Next(s1, DcBin(q.dcTbl, ctx + 1));
    var m := ReadDcMagnitude(s2, q.dcTbl, ctx + 2 + sign);
    if !m.ok then DcRead(false, 0, ctx, m.s) else
    DcRead(true, Signed(sign, m.w + 1), NextDcContext(q, m.category, sign), m.s)
  }

  /** A DC difference is recovered, with the next context, exactly when it is at most 2^15 in size. */
  lemma DcRoundTrip(s: Stream, q: Conditioning, ctx: nat, v: int)
    requires Carries(s, DcDecisions(q, ctx, v))
    ensures Abs(v) <= 0x8000 ==>
              ReadDc(s, q, ctx) == DcRead(true, v, DcContextAfter(q, v), Advance(s, DcDecisions(q, ctx, v)))
    ensures Abs(v) > 0x8000 ==> !ReadDc(s, q, ctx).ok
  {
    hide Carries, Advance, Next, ReadDcMagnitude, DcMagnitude, Pow2;
    if v == 0 {
      TakeLast(s, Decision(DcBin(q.dcTbl, ctx), 0));
    } else {
      var e1, e2 := Decision(DcBin(q.dcTbl, ctx), 1), Decision(DcBin(q.dcTbl, ctx + 1), SignBit(v));
      var mag := DcMagnitude(q.dcTbl, ctx + 2 + SignBit(v), Abs(v) - 1);
      TakeOne(s, e1, [e2] + mag);
      TakeOne(Advance(s, [e1]), e2, mag);
      DcMagnitudeRoundTrip(Advance(Advance(s, [e1]), [e2]), q.dcTbl, ctx + 2 + SignBit(v), Abs(v) - 1);
    }
  }

  // ----- first pass over a band of AC coefficients

  /** Magnitude after the point transform by `al`. */
  function Mag(v: int, al: nat): nat {
    Quotient(Abs(v), Pow2(al))
  }

  /** What is known of `v` when its bits down to `al` have been sent. */
  function Approx(v: int, al: nat): int {
    Signed(SignBit(v), Mag(v, al) * Pow2(al))
  }

  /** The last index up to `j` with a nonzero magnitude, or 0. */
  function EobIndex(z: Block, j: nat, al: nat): (k: nat)
    requires j < 64
    ensures k <= j
    ensures k > 0 ==> Mag(z[k], al) > 0
    ensures forall i :: k < i <= j ==> Mag(z[i], al) == 0
  {
    if j == 0 then 0 else if Mag(z[j], al) > 0 then j else EobIndex(z, j - 1, al)
  }

  /** Bins for the magnitude category, split by the conditioning value Kx. */
  function X2(q: Conditioning, k: nat): nat {
    if k <= q.acK then 189 else 217
  }

  function Ac(q: Conditioning, i: nat, bit: nat): Decision {
    Decision(AcBin(q.acTbl, i), bit)
  }

  /** Decisions from index `k` (already sent) on; `ke` is the last nonzero index. */
  function AcFrom(q: Conditioning, z: Block, k: nat, ke: nat, se: nat, al: nat): (es: seq<Decision>)
    requires ke <= se < 64 && (k < ke ==> Mag(z[ke], al) > 0)
    ensures Binary(es)
    decreases ke - k, 1
  {
    if k < ke then [Ac(q, 3 * k, 0)] + AcSeek(q, z, k, ke, se, al)
    else if k < se then [Ac(q, 3 * k, 1)] else []
  }

  function AcSeek(q: Conditioning, z: Block, k: nat, ke: nat, se: nat, al: nat): (es: seq<Decision>)
    requires k < ke <= se < 64 && Mag(z[ke], al) > 0
    ensures Binary(es)
    decreases ke - k, 0
  {
    var m := Mag(z[k + 1], al);
    if m == 0 then [Ac(q, 3 * k + 1, 0)] + AcSeek(q, z, k + 1, ke, se, al)
    else
      [Ac(q, 3 * k + 1, 1)]
      + ([Decision(FixedBin, SignBit(z[k + 1]))]
         + (AcMagnitude(q.acTbl, 3 * k + 2, X2(q, k + 1), m - 1) + AcFrom(q, z, k + 1, ke, se, al)))
  }

  datatype BlockRead = BlockRead(ok: bool, z: Block, s: Stream)

  function ReadAcFrom(s: Stream, q: Conditioning, z: Block, k: nat, se: nat, al: nat): BlockRead
    requires se < 64
    decreases se - k, 1
  {
    if k >= se then BlockRead(true, z, s) else
    var (eob, s1) := Next(s, AcBin(q.acTbl, 3 * k));
    if eob == 1 then BlockRead(true, z, s1) else ReadAcSeek(s1, q, z, k, se, al)
  }

  function ReadAcSeek(s: Stream, q: Conditioning, z: Block, k: nat, se: nat, al: nat): BlockRead
    requires k < se < 64
    decreases se - k, 0
  {
    var (found, s1) := Next(s, AcBin(q.acTbl, 3 * k + 1));
    if found == 1 then ReadAcValue(s1, q, z, k, se, al)
    else if k + 1 >= se then BlockRead(false, z, s1)
    else ReadAcSeek(s1, q, z, k + 1, se, al)
  }

  function ReadAcValue(s: Stream, q: Conditioning, z: Block, k: nat, se: nat, al: nat): BlockRead
    requires k < se < 64
    decreases se - k - 1, 2
  {
    var (sign, s1) := Next(s, FixedBin);
    var m := ReadAcMagnitude(s1, q.acTbl, 3 * k + 2, X2(q, k + 1));
    if !m.ok then BlockRead(false, z, m.s) else
    ReadAcFrom(m.s, q, z[k + 1 := ToCoef(Signed(sign, m.w + 1) * Pow2(al))], k + 1, se, al)
  }

  /** The block `z` with the band above `k` replaced by what is known at bit `al` of `o`. */
  function Sent(z: Block, o: Block, k: nat, se: nat, al: nat): Block {
    seq(64, i requires 0 <= i < 64 => if k < i <= se then Approx(o[i], al) else z[i])
  }

  predicate Coefs(o: Block) {
    forall i :: 0 <= i < 64 ==> IsCoef(o[i])
  }

  lemma ApproxIsCoef(v: int, al: nat)
    requires IsCoef(v)
    ensures IsCoef(Approx(v, al)) && Mag(v, al) <= 0x8000
    ensures Mag(v, al) == 0 ==> Approx(v, al) == 0
    ensures Mag(v, al) > 0 ==> Approx(v, al) != 0 && SignBit(Approx(v, al)) == SignBit(v)
    ensures Approx(v, al) == Signed(SignBit(v), Mag(v, al)) * Pow2(al)
    ensures Mag(Approx(v, al), al) == Mag(v, al)
  {
    hide Pow2;
    QuotientProduct(Abs(v), Pow2(al));
  }

  lemma QuotientProduct(w: nat, p: nat)
    requires p > 0
    ensures var m := Quotient(w, p);
            && m <= m * p <= w && (m > 0 ==> m * p > 0) && Quotient(m * p, p) == m
  {
    var m := Quotient(w, p);
    MulMonotone(1, p, m);
    assert m * p == p * m;
    DivModUnique(m * p, p, m, 0);
  }

  /** The first pass over a band recovers every coefficient of the band down to bit `al`. */
  lemma {:induction false} AcRoundTrip(s: Stream, q: Conditioning, o: Block, z: Block,
                                       k: nat, ke: nat, se: nat, al: nat)
    requires k <= se < 64 && ke <= se && (k < ke ==> Mag(o[ke], al) > 0)
    requires forall i :: ke < i <= se ==> Mag(o[i], al) == 0
    requires Coefs(o) && forall i :: k < i <= se ==> z[i] == 0
    requires Carries(s, AcFrom(q, o, k, ke, se, al))
    ensures ReadAcFrom(s, q, z, k, se, al)
            == BlockRead(true, Sent(z, o, k, se, al), Advance(s, AcFrom(q, o, k, ke, se, al)))
    decreases se - k, 1
  {
    hide Carries, Advance, Next, ReadAcSeek, AcSeek, Pow2, Mag;
    if k < ke {
      var e := Ac(q, 3 * k, 0);
      TakeOne(s, e, AcSeek(q, o, k, ke, se, al));
      AcSeekRoundTrip(Advance(s, [e]), q, o, z, k, ke, se, al);
    } else {
      forall i | k < i <= se ensures Approx(o[i], al) == 0 { ApproxIsCoef(o[i], al); }
      assert Sent(z, o, k, se, al) == z;
      if k < se {
        TakeLast(s, Ac(q, 3 * k, 1));
      } else {
        AdvanceNone(s);
      }
    }
  }

  lemma {:induction false} AcSeekRoundTrip(s: Stream, q: Conditioning, o: Block, z: Block,
                                           k: nat, ke: nat, se: nat, al: nat)
    requires k < ke <= se < 64 && Mag(o[ke], al) > 0
    requires forall i :: ke < i <= se ==> Mag(o[i], al) == 0
    requires Coefs(o) && forall i :: k < i <= se ==> z[i] == 0
    requires Carries(s, AcSeek(q, o, k, ke, se, al))
    ensures ReadAcSeek(s, q, z, k, se, al)
            == BlockRead(true, Sent(z, o, k, se, al), Advance(s, AcSeek(q, o, k, ke, se, al)))
    decreases se - k, 0
  {
    hide Carries, Advance, Next, ReadAcValue, AcMagnitude, AcFrom, Pow2, Mag;
    var m := Mag(o[k + 1], al);
    ApproxIsCoef(o[k + 1], al);
    if m == 0 {
      var e := Ac(q, 3 * k + 1, 0);
      TakeOne(s, e, AcSeek(q, o, k + 1, ke, se, al));
      AcSeekRoundTrip(Advance(s, [e]), q, o, z, k + 1, ke, se, al);
      assert Sent(z, o, k, se, al) == Sent(z, o, k + 1, se, al);
    } else {
      var e := Ac(q, 3 * k + 1, 1);
      var rest := [Decision(FixedBin, SignBit(o[k + 1]))]
        + (AcMagnitude(q.acTbl, 3 * k + 2, X2(q, k + 1), m - 1) + AcFrom(q, o, k + 1, ke, se, al));
      TakeOne(s, e, rest);
      AcValueRoundTrip(Advance(s, [e]), q, o, z, k, ke, se, al);
    }
  }

  lemma {:induction false} AcValueRoundTrip(s: Stream, q: Conditioning, o: Block, z: Block,
                                            k: nat, ke: nat, se: nat, al: nat)
    requires k < ke <= se < 64 && Mag(o[ke], al) > 0 && Mag(o[k + 1], al) > 0
    requires forall i :: ke < i <= se ==> Mag(o[i], al) == 0
    requires Coefs(o) && forall i :: k < i <= se ==> z[i] == 0
    requires Carries(s, [Decision(FixedBin, SignBit(o[k + 1]))]
                        + (AcMagnitude(q.acTbl, 3 * k + 2, X2(q, k + 1), Mag(o[k + 1], al) - 1)
                           + AcFrom(q, o, k + 1, ke, se, al)))
    ensures ReadAcValue(s, q, z, k, se, al)
            == BlockRead(true, Sent(z, o, k, se, al),
                         Advance(s, [Decision(FixedBin, SignBit(o[k + 1]))]
                                    + (AcMagnitude(q.acTbl, 3 * k + 2, X2(q, k + 1), Mag(o[k + 1], al) - 1)
                                       + AcFrom(q, o, k + 1, ke, se, al))))
    decreases se - k - 1, 2
  {
    hide Carries, Advance, Next, ReadAcMagnitude, ReadAcFrom, AcMagnitude, AcFrom, Pow2, Mag;
    var m, v := Mag(o[k + 1], al), Approx(o[k + 1], al);
    ApproxIsCoef(o[k + 1], al);
    var e := Decision(FixedBin, SignBit(o[k + 1]));
    var mag, rest := AcMagnitude(q.acTbl, 3 * k + 2, X2(q, k + 1), m - 1), AcFrom(q, o, k + 1, ke, se, al);
    TakeOne(s, e, mag + rest);
    var s1 := Advance(s, [e]);
    Split(s1, mag, rest);
    AcMagnitudeRoundTrip(s1, q.acTbl, 3 * k + 2, X2(q, k + 1), m - 1);
    var z' := z[k + 1 := v];
    AcRoundTrip(Advance(s1, mag), q, o, z', k + 1, ke, se, al);
    assert Sent(z', o, k + 1, se, al) == Sent(z, o, k, se, al);
  }

  // ----- refinement of a band by one bit

  /** Decisions of a refinement pass; up to `kex` the end of block is known not to have come. */
  function RefineFrom(q: Conditioning, z: Block, k: nat, ke: nat, kex: nat, se: nat, al: nat): (es: seq<Decision>)
    requires ke <= se < 64 && (k < ke ==> Mag(z[ke], al) > 0)
    ensures Binary(es)
    decreases ke - k, 1
  {
    if k < ke then (if k >= kex then [Ac(q, 3 * k, 0)] else []) + RefineSeek(q, z, k, ke, kex, se, al)
    else if k < se then [Ac(q, 3 * k, 1)] else []
  }

  function RefineSeek(q: Conditioning, z: Block, k: nat, ke: nat, kex: nat, se: nat, al: nat): (es: seq<Decision>)
    requires k < ke <= se < 64 && Mag(z[ke], al) > 0
    ensures Binary(es)
    decreases ke - k, 0
  {
    var m := Mag(z[k + 1], al);
    if m == 0 then [Ac(q, 3 * k + 1, 0)] + RefineSeek(q, z, k + 1, ke, kex, se, al)
    else if m > 1 then [Ac(q, 3 * k + 2, m % 2)] + RefineFrom(q, z, k + 1, ke, kex, se, al)
    else
      [Ac(q, 3 * k + 1, 1)]
      + ([Decision(FixedBin, SignBit(z[k + 1]))] + RefineFrom(q, z, k + 1, ke, kex, se, al))
  }

  function ReadRefineFrom(s: Stream, q: Conditioning, z: Block, k: nat, kex: nat, se: nat, al: nat): BlockRead
    requires se < 64
    decreases se - k, 1
  {
    if k >= se then BlockRead(true, z, s)
    else if k >= kex then
      var (eob, s1) := Next(s, AcBin(q.acTbl, 3 * k));
      if eob == 1 then BlockRead(true, z, s1) else ReadRefineSeek(s1, q, z, k, kex, se, al)
    else ReadRefineSeek(s, q, z, k, kex, se, al)
  }

  function ReadRefineSeek(s: Stream, q: Conditioning, z: Block, k: nat, kex: nat, se: nat, al: nat): BlockRead
    requires k < se < 64
    decreases se - k, 0
  {
    var c := z[k + 1];
    if c != 0 then
      var (bit, s1) := Next(s, AcBin(q.acTbl, 3 * k + 2));
      var c' := if bit == 0 then c else if c < 0 then ToCoef(c - Pow2(al)) else ToCoef(c + Pow2(al));
      ReadRefineFrom(s1, q, z[k + 1 := c'], k + 1, kex, se, al)
    else
      var (found, s1) := Next(s, AcBin(q.acTbl, 3 * k + 1));
      if found == 1 then
        var (sign, s2) := Next(s1, FixedBin);
        ReadRefineFrom(s2, q, z[k + 1 := ToCoef(Signed(sign, Pow2(al)))], k + 1, kex, se, al)
      else if k + 1 >= se then BlockRead(false, z, s1)
      else ReadRefineSeek(s1, q, z, k + 1, kex, se, al)
  }

  /** One more bit of a magnitude. */
  lemma NextBit(v: int, al: nat)
    requires IsCoef(v)
    ensures Mag(v, al + 1) == Mag(v, al) / 2
    ensures Mag(v, al) > 1 ==>
              Approx(v, al + 1) != 0 && SignBit(Approx(v, al + 1)) == SignBit(v)
              && Approx(v, al) == Approx(v, al + 1) + Signed(SignBit(v), Mag(v, al) % 2 * Pow2(al))
    ensures Mag(v, al) <= 1 ==> Approx(v, al + 1) == 0
    ensures Mag(v, al) == 1 ==> Approx(v, al) == Signed(SignBit(v), Pow2(al))
    ensures IsCoef(Approx(v, al))
  {
    var p, m, b := Pow2(al), Mag(v, al), Mag(v, al) % 2;
    assert Pow2(al + 1) == 2 * p;
    ApproxIsCoef(v, al);
    ApproxIsCoef(v, al + 1);
    hide Pow2;
    HalfQuotient(Abs(v), p);
  }

  lemma HalfQuotient(w: nat, p: nat)
    requires p > 0
    ensures var m := Quotient(w, p);
            && Quotient(w, 2 * p) == m / 2
            && m * p == m / 2 * (2 * p) + m % 2 * p
  {
    var m := Quotient(w, p);
    var h, b, r := m / 2, m % 2, w - m * p;
    MulSum(2 * h, b, p);
    MulAssoc(h, 2, p);
    MulMonotone(b, 1, p);
    DivModUnique(w, 2 * p, h, b * p + r);
  }

  /** The band above `k` as known before the pass. */
  predicate Known(z: Block, o: Block, k: nat, se: nat, al: nat) {
    forall i :: k < i <= se && i < 64 ==> z[i] == Approx(o[i], al)
  }

  /** Encoder and decoder agree from `k` on where an end-of-block decision is due. */
  predicate SameEob(k: nat, kex: nat, kex': nat) {
    kex == kex' || (kex <= k && kex' <= k)
  }

  /** A refinement pass recovers one more bit of every coefficient in the band. */
  lemma {:induction false} RefineRoundTrip(s: Stream, q: Conditioning, o: Block, z: Block,
                                           k: nat, ke: nat, kex: nat, kex': nat, se: nat, al: nat)
    requires k <= se < 64 && ke <= se && (k < ke ==> Mag(o[ke], al) > 0)
    requires forall i :: ke < i <= se ==> Mag(o[i], al) == 0
    requires Coefs(o) && Known(z, o, k, se, al + 1) && SameEob(k, kex, kex') && kex <= ke
    requires Carries(s, RefineFrom(q, o, k, ke, kex, se, al))
    ensures ReadRefineFrom(s, q, z, k, kex', se, al)
            == BlockRead(true, Sent(z, o, k, se, al), Advance(s, RefineFrom(q, o, k, ke, kex, se, al)))
    decreases se - k, 1
  {
    hide Carries, Advance, Next, ReadRefineSeek, RefineSeek, Pow2, Mag, Approx;
    if k < ke {
      var rest := RefineSeek(q, o, k, ke, kex, se, al);
      if k >= kex {
        var e := Ac(q, 3 * k, 0);
        TakeOne(s, e, rest);
        RefineSeekRoundTrip(Advance(s, [e]), q, o, z, k, ke, kex, kex', se, al);
      } else {
        assert [] + rest == rest;
        RefineSeekRoundTrip(s, q, o, z, k, ke, kex, kex', se, al);
      }
    } else {
      forall i | k < i <= se ensures Approx(o[i], al) == z[i] {
        NextBit(o[i], al);
        ApproxIsCoef(o[i], al);
      }
      assert Sent(z, o, k, se, al) == z;
      if k < se {
        TakeLast(s, Ac(q, 3 * k, 1));
      } else {
        AdvanceNone(s);
      }
    }
  }

  lemma {:induction false} RefineSeekRoundTrip(s: Stream, q: Conditioning, o: Block, z: Block,
                                               k: nat, ke: nat, kex: nat, kex': nat, se: nat, al: nat)
    requires k < ke <= se < 64 && Mag(o[ke], al) > 0
    requires forall i :: ke < i <= se ==> Mag(o[i], al) == 0
    requires Coefs(o) && Known(z, o, k, se, al + 1) && SameEob(k, kex, kex') && kex <= ke
    requires Carries(s, RefineSeek(q, o, k, ke, kex, se, al))
    ensures ReadRefineSeek(s, q, z, k, kex', se, al)
            == BlockRead(true, Sent(z, o, k, se, al), Advance(s, RefineSeek(q, o, k, ke, kex, se, al)))
    decreases se - k, 0
  {
    hide Carries, Advance, Next, ReadRefineFrom, RefineFrom, Pow2, Mag, Approx;
    var m, v := Mag(o[k + 1], al), Approx(o[k + 1], al);
    NextBit(o[k + 1], al);
    ApproxIsCoef(o[k + 1], al);
    if m == 0 {
      var e := Ac(q, 3 * k + 1, 0);
      TakeOne(s, e, RefineSeek(q, o, k + 1, ke, kex, se, al));
      RefineSeekRoundTrip(Advance(s, [e]), q, o, z, k + 1, ke, kex, kex', se, al);
      assert Sent(z, o, k, se, al) == Sent(z, o, k + 1, se, al);
    } else {
      var z' := z[k + 1 := v];
      var rest := RefineFrom(q, o, k + 1, ke, kex, se, al);
      var s1;
      if m > 1 {
        var e := Ac(q, 3 * k + 2, m % 2);
        TakeOne(s, e, rest);
        s1 := Advance(s, [e]);
      } else {
        var e, f := Ac(q, 3 * k + 1, 1), Decision(FixedBin, SignBit(o[k + 1]));
        TakeOne(s, e, [f] + rest);
        TakeOne(Advance(s, [e]), f, rest);
        s1 := Advance(Advance(s, [e]), [f]);
      }
      RefineRoundTrip(s1, q, o, z', k + 1, ke, kex, kex', se, al);
      assert Sent(z', o, k + 1, se, al) == Sent(z, o, k, se, al);
    }
  }
}
