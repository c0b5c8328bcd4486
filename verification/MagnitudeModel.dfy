/**
 The statistical models for DC differences and coefficient magnitudes
 (sections F.1.4.1 and F.1.4.4 of ITU-T T.81): which decisions an encoder makes
 for a value, and how a decoder reads the value back.
 */
module MagnitudeModel {
  import opened Products
  import opened Bytes
  import opened CodingInterval
  import opened DecisionStream

  /** Bin `i` of the DC or AC area of a conditioning table. */
  function Area(dc: bool, tbl: nat, i: nat): Bin {
    if dc then DcBin(tbl, i) else AcBin(tbl, i)
  }

  /** Number of halvings until 1 is left: Pow2(Log2(w)) <= w < 2 * Pow2(Log2(w)). */
  function Log2(w: nat): (n: nat)
    requires w > 0
    ensures Pow2(n) <= w < 2 * Pow2(n)
  {
    if w == 1 then 0 else 1 + Log2(w / 2)
  }

  /** The magnitude category: 0, or the largest power of two not above `w`. */
  function Category(w: nat): nat {
    if w == 0 then 0 else Pow2(Log2(w))
  }

  /** `n` one decisions in consecutive bins, closed by a zero decision. */
  function Ones(dc: bool, tbl: nat, i: nat, n: nat): (es: seq<Decision>)
    ensures Binary(es)
    decreases n
  {
    if n == 0 then [Decision(Area(dc, tbl, i), 0)]
    else [Decision(Area(dc, tbl, i), 1)] + Ones(dc, tbl, i + 1, n - 1)
  }

  /** The `n` low bits of `w`, most significant first, all in one bin. */
  function Pattern(bin: Bin, w: nat, n: nat): (es: seq<Decision>)
    ensures Binary(es)
  {
    if n == 0 then [] else [Decision(bin, w / Pow2(n - 1) % 2)] + Pattern(bin, w, n - 1)
  }

  const X1 := 20

  function DcMagnitude(tbl: nat, i: nat, w: nat): (es: seq<Decision>)
    ensures Binary(es)
  {
    if w == 0 then [Decision(DcBin(tbl, i), 0)]
    else
      var n := Log2(w);
      [Decision(DcBin(tbl, i), 1)] + (Ones(true, tbl, X1, n) + Pattern(DcBin(tbl, X1 + n + 14), w, n))
  }

  function AcMagnitude(tbl: nat, i: nat, x2: nat, w: nat): (es: seq<Decision>)
    ensures Binary(es)
  {
    var e := Decision(AcBin(tbl, i), 1);
    if w == 0 then [Decision(AcBin(tbl, i), 0)]
    else if w == 1 then [e] + [Decision(AcBin(tbl, i), 0)]
    else
      var n := Log2(w);
      [e] + ([e] + (Ones(false, tbl, x2, n - 1) + Pattern(AcBin(tbl, x2 + n - 1 + 14), w, n)))
  }

  // ----- the decoder's side

  /** The decoder gives up once the category would reach 2^15. */
  const MAX_CATEGORY := 15

  /** Raises the category 2^n while ones follow. */
  function ReadOnes(s: Stream, dc: bool, tbl: nat, i: nat, n: nat): (r: (bool, nat, Stream))
    requires n < MAX_CATEGORY
    ensures n <= r.1 <= MAX_CATEGORY && (r.0 ==> r.1 < MAX_CATEGORY)
    decreases MAX_CATEGORY - n
  {
    var (bit, s1) := Next(s, Area(dc, tbl, i));
    if bit == 0 then (true, n, s1)
    else if n + 1 == MAX_CATEGORY then (false, n + 1, s1)
    else ReadOnes(s1, dc, tbl, i + 1, n + 1)
  }

  /** Adds `n` lower bits to `v`. */
  function ReadPattern(s: Stream, bin: Bin, n: nat, v: nat): (r: (nat, Stream))
    decreases n
  {
    if n == 0 then (v, s) else
    var (bit, s1) := Next(s, bin);
    ReadPattern(s1, bin, n - 1, v + bit * Pow2(n - 1))
  }

  /** A magnitude less one, its category, and whether it was within range. */
  datatype Magnitude = Magnitude(ok: bool, category: nat, w: nat, s: Stream)

  function ReadDcMagnitude(s: Stream, tbl: nat, i: nat): Magnitude {
    var (bit, s1) := Next(s, DcBin(tbl, i));
    if bit == 0 then Magnitude(true, 0, 0, s1) else
    var (ok, n, s2) := ReadOnes(s1, true, tbl, X1, 0);
    if !ok then Magnitude(false, 0, 0, s2) else
    var (w, s3) := ReadPattern(s2, DcBin(tbl, X1 + n + 14), n, Pow2(n));
    Magnitude(true, Pow2(n), w, s3)
  }

  function ReadAcMagnitude(s: Stream, tbl: nat, i: nat, x2: nat): Magnitude {
    var (bit, s1) := Next(s, AcBin(tbl, i));
    if bit == 0 then Magnitude(true, 0, 0, s1) else
    var (bit2, s2) := Next(s1, AcBin(tbl, i));
    if bit2 == 0 then Magnitude(true, 1, 1, s2) else
    var (ok, n, s3) := ReadOnes(s2, false, tbl, x2, 1);
    if !ok then Magnitude(false, 0, 0, s3) else
    var (w, s4) := ReadPattern(s3, AcBin(tbl, x2 + n - 1 + 14), n, Pow2(n));
    Magnitude(true, Pow2(n), w, s4)
  }

  lemma {:induction false} OnesRoundTrip(s: Stream, dc: bool, tbl: nat, i: nat, n: nat, k: nat)
    requires k < MAX_CATEGORY && Carries(s, Ones(dc, tbl, i, n))
    ensures k + n < MAX_CATEGORY ==>
              ReadOnes(s, dc, tbl, i, k) == (true, k + n, Advance(s, Ones(dc, tbl, i, n)))
    ensures k + n >= MAX_CATEGORY ==> !ReadOnes(s, dc, tbl, i, k).0
    decreases n
  {
    hide Carries, Advance, Next;
    if n == 0 {
      TakeLast(s, Decision(Area(dc, tbl, i), 0));
    } else {
      var e := Decision(Area(dc, tbl, i), 1);
      TakeOne(s, e, Ones(dc, tbl, i + 1, n - 1));
      if k + 1 < MAX_CATEGORY {
        OnesRoundTrip(Advance(s, [e]), dc, tbl, i + 1, n - 1, k + 1);
      }
    }
  }

  lemma HalfBit(w: nat, p: nat)
    requires p > 0
    ensures w - w % (2 * p) + w / p % 2 * p == w - w % p
  {
    var q, r := w / p, w % p;
    assert w == q * p + r;
    var h, b := q / 2, q % 2;
    assert q == 2 * h + b;
    MulSum(2 * h, b, p);
    MulSwap(h, 2, p);
    MulAssoc(h, 2, p);
    assert w == h * (2 * p) + (b * p + r);
    if b == 1 {
      assert b * p == p;
    } else {
      assert b * p == 0;
    }
    DivModUnique(w, 2 * p, h, b * p + r);
  }

  lemma {:induction false} PatternRoundTrip(s: Stream, bin: Bin, w: nat, n: nat, v: nat)
    requires Carries(s, Pattern(bin, w, n)) && v == w - w % Pow2(n)
    ensures ReadPattern(s, bin, n, v) == (w, Advance(s, Pattern(bin, w, n)))
    decreases n
  {
    hide Carries, Advance, Next;
    if n == 0 {
      AdvanceNone(s);
    } else {
      var e := Decision(bin, w / Pow2(n - 1) % 2);
      TakeOne(s, e, Pattern(bin, w, n - 1));
      HalfBit(w, Pow2(n - 1));
      PatternRoundTrip(Advance(s, [e]), bin, w, n - 1, v + e.bit * Pow2(n - 1));
    }
  }

  lemma TopBit(w: nat)
    requires w > 0
    ensures w - w % Pow2(Log2(w)) == Pow2(Log2(w))
  {
    DivModUnique(w, Pow2(Log2(w)), 1, w - Pow2(Log2(w)));
  }

  /** DC magnitudes come back exactly as long as they are at most 2^15, and are rejected beyond. */
  lemma DcMagnitudeRoundTrip(s: Stream, tbl: nat, i: nat, w: nat)
    requires Carries(s, DcMagnitude(tbl, i, w))
    ensures w < 0x8000 ==>
              ReadDcMagnitude(s, tbl, i) == Magnitude(true, Category(w), w, Advance(s, DcMagnitude(tbl, i, w)))
    ensures w >= 0x8000 ==> !ReadDcMagnitude(s, tbl, i).ok
  {
    hide Carries, Advance, Next;
    if w == 0 {
      TakeLast(s, Decision(DcBin(tbl, i), 0));
    } else {
      var n := Log2(w);
      CategoryRange(w);
      var e, a, b := Decision(DcBin(tbl, i), 1), Ones(true, tbl, X1, n), Pattern(DcBin(tbl, X1 + n + 14), w, n);
      TakeOne(s, e, a + b);
      var s1 := Advance(s, [e]);
      Split(s1, a, b);
      OnesRoundTrip(s1, true, tbl, X1, n, 0);
      if n < MAX_CATEGORY {
        TopBit(w);
        PatternRoundTrip(Advance(s1, a), DcBin(tbl, X1 + n + 14), w, n, Pow2(n));
      }
    }
  }

  lemma CategoryRange(w: nat)
    requires w > 0
    ensures w < 0x8000 <==> Log2(w) < MAX_CATEGORY
  {
    var n := Log2(w);
    Pow2Masks();
    assert Pow2(15) == 0x8000 && Pow2(14) == 0x4000;
    if n < 15 {
      Pow2Monotone(n, 14);
    } else {
      Pow2Monotone(15, n);
    }
  }

  /** AC magnitudes likewise. */
  lemma AcMagnitudeRoundTrip(s: Stream, tbl: nat, i: nat, x2: nat, w: nat)
    requires Carries(s, AcMagnitude(tbl, i, x2, w))
    ensures w < 0x8000 ==>
              ReadAcMagnitude(s, tbl, i, x2)
              == Magnitude(true, Category(w), w, Advance(s, AcMagnitude(tbl, i, x2, w)))
    ensures w >= 0x8000 ==> !ReadAcMagnitude(s, tbl, i, x2).ok
  {
    hide Carries, Advance, Next, ReadOnes, ReadPattern, Ones, Pattern, Pow2;
    var e := Decision(AcBin(tbl, i), 1);
    if w == 0 {
      TakeLast(s, Decision(AcBin(tbl, i), 0));
    } else if w == 1 {
      TakeOne(s, e, [Decision(AcBin(tbl, i), 0)]);
      TakeLast(Advance(s, [e]), Decision(AcBin(tbl, i), 0));
    } else {
      var n := Log2(w);
      var rest := Ones(false, tbl, x2, n - 1) + Pattern(AcBin(tbl, x2 + n - 1 + 14), w, n);
      TakeOne(s, e, [e] + rest);
      var s1 := Advance(s, [e]);
      TakeOne(s1, e, rest);
      AcCategoryRoundTrip(Advance(s1, [e]), tbl, x2, w);
    }
  }

  lemma AcCategoryRoundTrip(s: Stream, tbl: nat, x2: nat, w: nat)
    requires w > 1
    requires var n := Log2(w);
             Carries(s, Ones(false, tbl, x2, n - 1) + Pattern(AcBin(tbl, x2 + n - 1 + 14), w, n))
    ensures var n := Log2(w);
            var a, b := Ones(false, tbl, x2, n - 1), Pattern(AcBin(tbl, x2 + n - 1 + 14), w, n);
            && (n >= MAX_CATEGORY ==> !ReadOnes(s, false, tbl, x2, 1).0)
            && (n < MAX_CATEGORY ==>
                  && ReadOnes(s, false, tbl, x2, 1) == (true, n, Advance(s, a))
                  && ReadPattern(Advance(s, a), AcBin(tbl, x2 + n - 1 + 14), n, Pow2(n)) == (w, Advance(s, a + b)))
    ensures w < 0x8000 <==> Log2(w) < MAX_CATEGORY
  {
    hide Carries, Advance, Next;
    var n := Log2(w);
    CategoryRange(w);
    var a, b := Ones(false, tbl, x2, n - 1), Pattern(AcBin(tbl, x2 + n - 1 + 14), w, n);
    Split(s, a, b);
    OnesRoundTrip(s, false, tbl, x2, n - 1, 1);
    if n < MAX_CATEGORY {
      TopBit(w);
      PatternRoundTrip(Advance(s, a), AcBin(tbl, x2 + n - 1 + 14), w, n, Pow2(n));
    }
  }
}
