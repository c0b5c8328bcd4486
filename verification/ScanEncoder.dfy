/**
 The entropy encoder object of jcarith.c: statistics, DC predictions and
 restart bookkeeping updated MCU by MCU.
 */
module ScanEncoder {
  import opened Products
  import opened Bytes
  import opened CodingInterval
  import opened Termination
  import opened SegmentSource
  import opened MagnitudeModel
  import opened BlockModel
  import opened ScanModel
  import opened ScanStream
  import opened ArithEncoder

  /** `n` one decisions in consecutive bins. */
  ghost function Run(dc: bool, tbl: nat, i: nat, n: nat): (es: seq<Decision>) {
    seq(n, j requires 0 <= j < n => Decision(Area(dc, tbl, i + j), 1))
  }

  lemma {:induction false} OnesAreRun(dc: bool, tbl: nat, i: nat, n: nat)
    ensures Ones(dc, tbl, i, n) == Run(dc, tbl, i, n) + [Decision(Area(dc, tbl, i + n), 0)]
    decreases n
  {
    if n > 0 {
      OnesAreRun(dc, tbl, i + 1, n - 1);
      assert Run(dc, tbl, i, n) == [Decision(Area(dc, tbl, i), 1)] + Run(dc, tbl, i + 1, n - 1);
    }
  }

  lemma RunMore(dc: bool, tbl: nat, i: nat, n: nat)
    ensures Run(dc, tbl, i, n + 1) == Run(dc, tbl, i, n) + [Decision(Area(dc, tbl, i + n), 1)]
  {
  }

  /** Unary part of a magnitude category: a one per halving of `w`, then a zero; doubles `m` with each one. */
  method EncodeOnes(enc: Encoder, dc: bool, tbl: nat, i: nat, w: nat, m0: nat, ghost k: nat) returns (m: nat, st: nat)
    requires enc.Valid() && w > 0 && i + Log2(w) < 64 + (if dc then 0 else 192) && m0 == Pow2(k)
    modifies enc
    ensures enc.Valid() && enc.before == old(enc.before) && enc.begun == old(enc.begun)
    ensures enc.coded == old(enc.coded) + Ones(dc, tbl, i, Log2(w))
    ensures st == i + Log2(w) && m == Pow2(k + Log2(w))
  {
    hide Encoder.Valid;
    var v2 := w;
    m, st := m0, i;
    ghost var n: nat := 0;
    while v2 / 2 != 0
      invariant enc.Valid() && enc.before == old(enc.before) && enc.begun == old(enc.begun)
      invariant v2 > 0 && st == i + n && Log2(w) == n + Log2(v2) && m == Pow2(k + n)
      invariant enc.coded == old(enc.coded) + Run(dc, tbl, i, n)
    {
      v2 := v2 / 2;
      enc.Encode(Area(dc, tbl, st), 1);
      RunMore(dc, tbl, i, n);
      m := 2 * m;
      st := st + 1;
      n := n + 1;
    }
    enc.Encode(Area(dc, tbl, st), 0);
    OnesAreRun(dc, tbl, i, n);
  }

  /** The bits of `w` below its top bit `m`, most significant first. */
  method EncodePattern(enc: Encoder, bin: Bin, w: nat, m: nat, ghost n: nat)
    requires enc.Valid() && InArea(bin) && m == Pow2(n)
    modifies enc
    ensures enc.Valid() && enc.before == old(enc.before) && enc.begun == old(enc.begun)
    ensures enc.coded == old(enc.coded) + Pattern(bin, w, n)
  {
    hide Encoder.Valid;
    var p := m;
    ghost var k: nat := n;
    while p / 2 != 0
      invariant enc.Valid() && enc.before == old(enc.before) && enc.begun == old(enc.begun)
      invariant k <= n && p == Pow2(k)
      invariant enc.coded + Pattern(bin, w, k) == old(enc.coded) + Pattern(bin, w, n)
      decreases k
    {
      p := p / 2;
      ghost var was := enc.coded;
      enc.Encode(bin, w / p % 2);
      SeqAssoc(was, [Decision(bin, w / p % 2)], Pattern(bin, w, k - 1));
      k := k - 1;
    }
  }

  /** Magnitudes met here have at most 16 bits. */
  lemma LogBound(w: nat)
    requires 0 < w < 0x10000
    ensures Log2(w) <= 15 && (w < 0x8000 ==> Log2(w) <= 14)
  {
    Pow2Masks();
    if Log2(w) >= 16 {
      Pow2Monotone(16, Log2(w));
    } else if Log2(w) == 15 {
      assert Pow2(15) == 0x8000;
    }
  }

  /** A DC difference: zero flag, sign, magnitude category and bits; returns the next conditioning category. */
  method EncodeDcDiff(enc: Encoder, q: Conditioning, ctx: nat, diff: int) returns (ctx': nat)
    requires enc.Valid() && ctx <= 16 && -0x10000 < diff < 0x10000
    modifies enc
    ensures enc.Valid() && enc.before == old(enc.before) && enc.begun == old(enc.begun)
    ensures enc.coded == old(enc.coded) + DcDecisions(q, ctx, diff)
    ensures ctx' == DcContextAfter(q, diff) && ctx' <= 16
  {
    hide Encoder.Valid, Pow2, DcMagnitude, Category;
    ghost var c0 := enc.coded;
    if diff == 0 {
      enc.Encode(DcBin(q.dcTbl, ctx), 0);
      return 0;
    }
    enc.Encode(DcBin(q.dcTbl, ctx), 1);
    var v, st;
    if diff > 0 {
      enc.Encode(DcBin(q.dcTbl, ctx + 1), 0);
      v, st, ctx' := diff, ctx + 2, 4;
    } else {
      v := -diff;
      enc.Encode(DcBin(q.dcTbl, ctx + 1), 1);
      st, ctx' := ctx + 3, 8;
    }
    ghost var head := [Decision(DcBin(q.dcTbl, ctx), 1), Decision(DcBin(q.dcTbl, ctx + 1), SignBit(diff))];
    assert enc.coded == c0 + head;
    var m := EncodeDcMagnitude(enc, q.dcTbl, st, v - 1);
    assert DcDecisions(q, ctx, diff) == head + DcMagnitude(q.dcTbl, st, v - 1);
    if m < ShiftLeft(1, q.dcL) / 2 {
      ctx' := 0;
    } else if m > ShiftLeft(1, q.dcU) / 2 {
      ctx' := ctx' + 8;
    }
  }

  method EncodeDcMagnitude(enc: Encoder, tbl: nat, i: nat, w: nat) returns (m: nat)
    requires enc.Valid() && i < 20 && w < 0x10000
    modifies enc
    ensures enc.Valid() && enc.before == old(enc.before) && enc.begun == old(enc.begun)
    ensures enc.coded == old(enc.coded) + DcMagnitude(tbl, i, w) && m == Category(w)
  {
    hide Encoder.Valid, Ones, Pattern, Pow2;
    ghost var c0 := enc.coded;
    if w == 0 {
      enc.Encode(DcBin(tbl, i), 0);
      return 0;
    }
    LogBound(w);
    enc.Encode(DcBin(tbl, i), 1);
    var st;
    Pow2Masks();
    m, st := EncodeOnes(enc, true, tbl, X1, w, 1, 0);
    EncodePattern(enc, DcBin(tbl, st + 14), w, m, Log2(w));
    ghost var a, b := Ones(true, tbl, X1, Log2(w)), Pattern(DcBin(tbl, st + 14), w, Log2(w));
    assert enc.coded == c0 + ([Decision(DcBin(tbl, i), 1)] + (a + b));
  }

  method EncodeAcMagnitude(enc: Encoder, tbl: nat, i: nat, x2: nat, w: nat)
    requires enc.Valid() && i < 192 && x2 <= 217 && w < 0x8000
    modifies enc
    ensures enc.Valid() && enc.before == old(enc.before) && enc.begun == old(enc.begun)
    ensures enc.coded == old(enc.coded) + AcMagnitude(tbl, i, x2, w)
  {
    hide Encoder.Valid, Ones, Pattern, Pow2;
    ghost var c0 := enc.coded;
    if w == 0 {
      enc.Encode(AcBin(tbl, i), 0);
      return;
    }
    LogBound(w);
    enc.Encode(AcBin(tbl, i), 1);
    if w / 2 == 0 {
      enc.Encode(AcBin(tbl, i), 0);
      return;
    }
    enc.Encode(AcBin(tbl, i), 1);
    Pow2Masks();
    var m, st := EncodeOnes(enc, false, tbl, x2, w / 2, 2, 1);
    EncodePattern(enc, AcBin(tbl, st + 14), w, m, Log2(w));
    ghost var a, b := Ones(false, tbl, x2, Log2(w) - 1), Pattern(AcBin(tbl, st + 14), w, Log2(w));
    ghost var e := [Decision(AcBin(tbl, i), 1)];
    assert enc.coded == c0 + (e + (e + (a + b)));
  }

  /** Codes sign and magnitude of a newly nonzero coefficient. */
  method EncodeAcValue(enc: Encoder, q: Conditioning, k: nat, v: int, m: nat)
    requires enc.Valid() && 1 <= k < 64 && 0 < m <= 0x8000
    modifies enc
    ensures enc.Valid() && enc.before == old(enc.before) && enc.begun == old(enc.begun)
    ensures enc.coded == old(enc.coded) + ([Decision(FixedBin, SignBit(v))]
                                           + AcMagnitude(q.acTbl, 3 * k - 1, X2(q, k), m - 1))
  {
    hide Encoder.Valid, AcMagnitude;
    ghost var c0 := enc.coded;
    if v >= 0 {
      enc.Encode(FixedBin, 0);
    } else {
      enc.Encode(FixedBin, 1);
    }
    EncodeAcMagnitude(enc, q.acTbl, 3 * k - 1, if k <= q.acK then 189 else 217, m - 1);
    SeqAssoc(c0, [Decision(FixedBin, SignBit(v))], AcMagnitude(q.acTbl, 3 * k - 1, X2(q, k), m - 1));
  }

  lemma MagBound(v: int, al: nat)
    requires IsCoef(v)
    ensures Mag(v, al) <= 0x8000
  {
    ApproxIsCoef(v, al);
  }

  lemma Regroup(a: seq<Decision>, b: seq<Decision>, c: seq<Decision>, d: seq<Decision>)
    ensures a + b + (c + d) == a + (b + (c + d))
    ensures a + (b + c) + d == a + (b + (c + d))
  {
  }

  /** Decisions from the sign of the coefficient at `k` on. */
  ghost function ValueOn(q: Conditioning, z: Block, k: nat, ke: nat, se: nat, al: nat): seq<Decision>
    requires 1 <= k <= ke <= se < 64 && Mag(z[k], al) > 0 && Mag(z[ke], al) > 0
  {
    [Decision(FixedBin, SignBit(z[k]))]
    + (AcMagnitude(q.acTbl, 3 * k - 1, X2(q, k), Mag(z[k], al) - 1) + AcFrom(q, z, k, ke, se, al))
  }

  /** Codes the zeros up to the next coefficient sent, and that it is nonzero. */
  method EncodeZeroRun(enc: Encoder, q: Conditioning, block: array<int>, order: seq<nat>,
                       k0: nat, ke: nat, se: nat, al: nat) returns (k: nat, m: nat)
    requires enc.Valid() && block.Length == 64 && ValidOrder(order)
    requires k0 < ke <= se < 64 && Mag(Zigzag(block[..], order)[ke], al) > 0
    modifies enc
    ensures enc.Valid() && enc.before == old(enc.before) && enc.begun == old(enc.begun)
    ensures k0 < k <= ke && m == Mag(Zigzag(block[..], order)[k], al) > 0
    ensures var z := Zigzag(block[..], order);
            enc.coded + ValueOn(q, z, k, ke, se, al) == old(enc.coded) + AcSeek(q, z, k0, ke, se, al)
  {
    hide Encoder.Valid, AcMagnitude, AcFrom, Mag, Pow2, ValueOn;
    ghost var z, c0 := Zigzag(block[..], order), enc.coded;
    k := k0 + 1;
    var st := 3 * k0;
    m := AbsShift(block[order[k]], al);
    while m == 0
      invariant enc.Valid() && enc.before == old(enc.before) && enc.begun == old(enc.begun)
      invariant k0 < k <= ke && st == 3 * (k - 1) && m == Mag(z[k], al)
      invariant enc.coded + AcSeek(q, z, k - 1, ke, se, al) == c0 + AcSeek(q, z, k0, ke, se, al)
      decreases ke - k
    {
      ghost var c1 := enc.coded;
      enc.Encode(AcBin(q.acTbl, st + 1), 0);
      SeqAssoc(c1, [Ac(q, 3 * (k - 1) + 1, 0)], AcSeek(q, z, k, ke, se, al));
      st := st + 3;
      k := k + 1;
      m := AbsShift(block[order[k]], al);
    }
    ghost var c1 := enc.coded;
    enc.Encode(AcBin(q.acTbl, st + 1), 1);
    assert AcSeek(q, z, k - 1, ke, se, al) == [Ac(q, 3 * (k - 1) + 1, 1)] + ValueOn(q, z, k, ke, se, al) by {
      FoundOn(q, z, k, ke, se, al);
    }
    SeqAssoc(c1, [Ac(q, 3 * (k - 1) + 1, 1)], ValueOn(q, z, k, ke, se, al));
  }

  lemma FoundOn(q: Conditioning, z: Block, k: nat, ke: nat, se: nat, al: nat)
    requires 1 <= k <= ke <= se < 64 && Mag(z[k], al) > 0 && Mag(z[ke], al) > 0
    ensures AcSeek(q, z, k - 1, ke, se, al) == [Ac(q, 3 * (k - 1) + 1, 1)] + ValueOn(q, z, k, ke, se, al)
  {
    hide AcMagnitude, AcFrom, Mag;
    assert 3 * (k - 1) + 2 == 3 * k - 1;
  }

  /** Skips coefficients up to the next one sent, and codes it. */
  method EncodeNextAc(enc: Encoder, q: Conditioning, block: array<int>, order: seq<nat>,
                      k0: nat, ke: nat, se: nat, al: nat) returns (k: nat)
    requires enc.Valid() && block.Length == 64 && ValidOrder(order) && Coefs(Zigzag(block[..], order))
    requires k0 < ke <= se < 64 && Mag(Zigzag(block[..], order)[ke], al) > 0
    modifies enc
    ensures enc.Valid() && enc.before == old(enc.before) && enc.begun == old(enc.begun)
    ensures k0 < k <= ke
    ensures var z := Zigzag(block[..], order);
            enc.coded + AcFrom(q, z, k, ke, se, al) == old(enc.coded) + AcSeek(q, z, k0, ke, se, al)
  {
    hide Encoder.Valid, AcMagnitude, AcFrom, AcSeek, Mag, Pow2;
    ghost var z := Zigzag(block[..], order);
    var m;
    k, m := EncodeZeroRun(enc, q, block, order, k0, ke, se, al);
    ghost var c1 := enc.coded;
    MagBound(z[k], al);
    EncodeAcValue(enc, q, k, block[order[k]], m);
    Regroup(c1, [Decision(FixedBin, SignBit(z[k]))], AcMagnitude(q.acTbl, 3 * k - 1, X2(q, k), m - 1),
            AcFrom(q, z, k, ke, se, al));
  }

  /** First pass over a band: end-of-block flags, runs of zeros and values. */
  method EncodeBand(enc: Encoder, q: Conditioning, block: array<int>, order: seq<nat>, ss: nat, se: nat, al: nat)
    requires enc.Valid() && block.Length == 64 && ValidOrder(order) && Coefs(Zigzag(block[..], order))
    requires 1 <= ss && se < 64
    modifies enc
    ensures enc.Valid() && enc.before == old(enc.before) && enc.begun == old(enc.begun)
    ensures enc.coded == old(enc.coded) + BandDecisions(q, Zigzag(block[..], order), ss, se, al)
  {
    hide Encoder.Valid, AcSeek, Mag, Pow2, EobIndex;
    ghost var z, c0 := Zigzag(block[..], order), enc.coded;
    var ke := FindEob(block, order, se, al);
    var k := ss - 1;
    while k < ke
      invariant enc.Valid() && enc.before == old(enc.before) && enc.begun == old(enc.begun)
      invariant k < ke ==> Mag(z[ke], al) > 0
      invariant enc.coded + AcFrom(q, z, k, ke, se, al) == c0 + AcFrom(q, z, ss - 1, ke, se, al)
      decreases ke - k
    {
      ghost var c1 := enc.coded;
      enc.Encode(AcBin(q.acTbl, 3 * k), 0);
      SeqAssoc(c1, [Ac(q, 3 * k, 0)], AcSeek(q, z, k, ke, se, al));
      k := EncodeNextAc(enc, q, block, order, k, ke, se, al);
    }
    if k < se {
      enc.Encode(AcBin(q.acTbl, 3 * k), 1);
    }
  }

  /** Refinement: codes the coefficients still zero at this bit position. */
  method RefineZeros(enc: Encoder, q: Conditioning, block: array<int>, order: seq<nat>,
                     k0: nat, ke: nat, ghost kex: nat, se: nat, al: nat) returns (k: nat, m: nat)
    requires enc.Valid() && block.Length == 64 && ValidOrder(order)
    requires k0 < ke <= se < 64 && Mag(Zigzag(block[..], order)[ke], al) > 0
    modifies enc
    ensures enc.Valid() && enc.before == old(enc.before) && enc.begun == old(enc.begun)
    ensures k0 < k <= ke && m == Mag(Zigzag(block[..], order)[k], al) > 0
    ensures var z := Zigzag(block[..], order);
            enc.coded + RefineSeek(q, z, k - 1, ke, kex, se, al) == old(enc.coded) + RefineSeek(q, z, k0, ke, kex, se, al)
  {
    hide Encoder.Valid, RefineFrom, Mag, Pow2;
    ghost var z, c0 := Zigzag(block[..], order), enc.coded;
    k := k0 + 1;
    var st := 3 * k0;
    m := AbsShift(block[order[k]], al);
    while m == 0
      invariant enc.Valid() && enc.before == old(enc.before) && enc.begun == old(enc.begun)
      invariant k0 < k <= ke && st == 3 * (k - 1) && m == Mag(z[k], al)
      invariant enc.coded + RefineSeek(q, z, k - 1, ke, kex, se, al) == c0 + RefineSeek(q, z, k0, ke, kex, se, al)
      decreases ke - k
    {
      ghost var c1 := enc.coded;
      enc.Encode(AcBin(q.acTbl, st + 1), 0);
      SeqAssoc(c1, [Ac(q, 3 * (k - 1) + 1, 0)], RefineSeek(q, z, k, ke, kex, se, al));
      st := st + 3;
      k := k + 1;
      m := AbsShift(block[order[k]], al);
    }
  }

  /** Refinement: up to the next coefficient that is nonzero at this bit position, and its bit or sign. */
  method RefineNext(enc: Encoder, q: Conditioning, block: array<int>, order: seq<nat>,
                    k0: nat, ke: nat, ghost kex: nat, se: nat, al: nat) returns (k: nat)
    requires enc.Valid() && block.Length == 64 && ValidOrder(order)
    requires k0 < ke <= se < 64 && Mag(Zigzag(block[..], order)[ke], al) > 0
    modifies enc
    ensures enc.Valid() && enc.before == old(enc.before) && enc.begun == old(enc.begun)
    ensures k0 < k <= ke
    ensures var z := Zigzag(block[..], order);
            enc.coded + RefineFrom(q, z, k, ke, kex, se, al) == old(enc.coded) + RefineSeek(q, z, k0, ke, kex, se, al)
  {
    hide Encoder.Valid, RefineFrom, Mag, Pow2;
    ghost var z := Zigzag(block[..], order);
    var m;
    k, m := RefineZeros(enc, q, block, order, k0, ke, kex, se, al);
    ghost var c1, rest := enc.coded, RefineFrom(q, z, k, ke, kex, se, al);
    var st := 3 * (k - 1);
    if m / 2 != 0 {
      enc.Encode(AcBin(q.acTbl, st + 2), m % 2);
      SeqAssoc(c1, [Ac(q, st + 2, m % 2)], rest);
    } else {
      enc.Encode(AcBin(q.acTbl, st + 1), 1);
      enc.Encode(FixedBin, if block[order[k]] >= 0 then 0 else 1);
      ghost var e, f := [Ac(q, st + 1, 1)], [Decision(FixedBin, SignBit(z[k]))];
      SeqAssoc(c1, e, f);
      SeqAssoc(c1, e + f, rest);
      SeqAssoc(e, f, rest);
    }
  }

  /** Refinement of a band by one bit. */
  method EncodeRefinement(enc: Encoder, q: Conditioning, block: array<int>, order: seq<nat>, ss: nat, se: nat, al: nat)
    requires enc.Valid() && block.Length == 64 && ValidOrder(order)
    requires 1 <= ss && se < 64
    modifies enc
    ensures enc.Valid() && enc.before == old(enc.before) && enc.begun == old(enc.begun)
    ensures var z := Zigzag(block[..], order);
            var ke := EobIndex(z, se, al);
            enc.coded == old(enc.coded) + RefineFrom(q, z, ss - 1, ke, EobIndex(z, ke, al + 1), se, al)
  {
    hide Encoder.Valid, RefineSeek, Mag, Pow2, EobIndex;
    ghost var z, c0 := Zigzag(block[..], order), enc.coded;
    var ke := FindEob(block, order, se, al);
    var kex := FindEob(block, order, ke, al + 1);
    var k := ss - 1;
    while k < ke
      invariant enc.Valid() && enc.before == old(enc.before) && enc.begun == old(enc.begun)
      invariant k < ke ==> Mag(z[ke], al) > 0
      invariant enc.coded + RefineFrom(q, z, k, ke, kex, se, al) == c0 + RefineFrom(q, z, ss - 1, ke, kex, se, al)
      decreases ke - k
    {
      ghost var c1, rest := enc.coded, RefineSeek(q, z, k, ke, kex, se, al);
      if k >= kex {
        enc.Encode(AcBin(q.acTbl, 3 * k), 0);
        SeqAssoc(c1, [Ac(q, 3 * k, 0)], rest);
      } else {
        assert [] + rest == rest;
      }
      k := RefineNext(enc, q, block, order, k, ke, kex, se, al);
    }
    if k < se {
      enc.Encode(AcBin(q.acTbl, 3 * k), 1);
    }
  }

  /** The arithmetic entropy encoder of a scan. */
  class EntropyEncoder {
    const c: Scan
    const order: seq<nat>   // natural order of the coefficients
    const enc: Encoder
    var lastDc: seq<int>
    var dcContext: seq<nat>
    var restartsToGo: nat
    var nextRestartNum: nat

    ghost predicate Valid()
      reads this, enc
    {
      && enc.Valid() && enc.table == c.t && ValidOrder(order)
      && ValidPrediction(Prediction(lastDc, dcContext), |c.qs|) && nextRestartNum < 8
      && (forall i :: 0 <= i < |lastDc| ==> IsCoef(lastDc[i]))
    }

    ghost function State(): EncoderState
      reads this, enc
      requires Valid()
    {
      EncoderState(enc.before, enc.Position(), Prediction(lastDc, dcContext),
                   restartsToGo, nextRestartNum)
    }

    /** Starts a scan after the bytes already written. */
    constructor (c: Scan, order: seq<nat>, stats: Statistics, out: seq<byte>)
      requires ValidOrder(order)
      ensures Valid() && fresh(enc) && this.c == c && this.order == order && enc.out == out
      ensures State() == StartEncode(c, out, stats)
    {
      this.c, this.order := c, order;
      enc := new Encoder(c.t, ResetStats(c, stats), out);
      lastDc, dcContext := seq(|c.qs|, i => 0), seq(|c.qs|, i => 0);
      restartsToGo, nextRestartNum := c.interval, 0;
    }

    method EmitRestart()
      requires Valid()
      modifies this, enc
      ensures Valid() && State() == EncodeRestart(c, old(State()))
    {
      hide SegmentFor, Encoder.Valid, Stuff, ResetStats;
      ghost var x := enc.Position();
      enc.Finish();
      enc.EmitByte(0xFF);
      enc.EmitByte(RST0 + nextRestartNum);
      SeqAssoc(Written(old(State())), [0xFF], [RST0 + nextRestartNum]);
      enc.Reset(ResetStats(c, enc.stats));
      lastDc, dcContext := seq(|c.qs|, i => 0), seq(|c.qs|, i => 0);
      restartsToGo := c.interval;
      nextRestartNum := (nextRestartNum + 1) % 8;
    }

    /** Codes the DC value `m` of component `ci` as a difference. */
    method EncodeDc(ci: nat, m: int)
      requires Valid() && ci < |c.qs| && IsCoef(m)
      modifies this`lastDc, this`dcContext, enc
      ensures Valid() && enc.before == old(enc.before) && enc.begun == old(enc.begun)
      ensures var (es, dc') := DcStep(c.qs, old(Prediction(lastDc, dcContext)), ci, m);
              enc.coded == old(enc.coded) + es && Prediction(lastDc, dcContext) == dc'
    {
      hide Encoder.Valid, DcDecisions, DcContextAfter;
      assert IsCoef(lastDc[ci]);
      var ctx' := EncodeDcDiff(enc, c.qs[ci], dcContext[ci], m - lastDc[ci]);
      lastDc := lastDc[ci := m];
      dcContext := dcContext[ci := ctx'];
    }

    /** Codes one block by the procedure of the scan. */
    method EncodeBlock(block: array<int>, ci: nat)
      requires Valid() && ci < |c.qs| && block.Length == 64
      requires forall i :: 0 <= i < 64 ==> IsCoef(block[i])
      modifies this`lastDc, this`dcContext, enc
      ensures Valid() && enc.before == old(enc.before) && enc.begun == old(enc.begun)
      ensures var (es, dc') := BlockDecisions(c.kind, c.qs, old(Prediction(lastDc, dcContext)),
                                              McuBlock(ci, Zigzag(block[..], order)));
              enc.coded == old(enc.coded) + es && Prediction(lastDc, dcContext) == dc'
    {
      hide Encoder.Valid, DcStep, AcFrom, RefineFrom, DcShift, Pow2, EobIndex;
      var q := c.qs[ci];
      ghost var c0, z := enc.coded, Zigzag(block[..], order);
      match c.kind
      case Sequential(limSe) =>
        EncodeDc(ci, block[0]);
        if limSe > 0 {
          EncodeBand(enc, q, block, order, 1, limSe, 0);
        } else {
          assert BandDecisions(q, z, 1, 0, 0) == [] by { NoBand(q, z); }
        }
        SeqAssoc(c0, DcStep(c.qs, old(Prediction(lastDc, dcContext)), ci, z[0]).0, BandDecisions(q, z, 1, limSe, 0));
      case DcFirst(al) =>
        DcShiftIsCoef(block[0], al);
        EncodeDc(ci, DcShift(block[0], al));
      case AcFirst(ss, se, al) => EncodeBand(enc, q, block, order, ss, se, al);
      case DcRefine(al) => enc.Encode(FixedBin, DcShift(block[0], al) % 2);
      case AcRefine(ss, se, al) => EncodeRefinement(enc, q, block, order, ss, se, al);
    }

    /** Emits a restart marker if one is due, and counts the MCU. */
    method PrepareMcu()
      requires Valid()
      modifies this, enc
      ensures Valid() && State() == BeforeMcu(c, old(State()))
    {
      hide Encoder.Valid, Written, ResetStats;
      if c.interval > 0 {
        if restartsToGo == 0 {
          EmitRestart();
        }
        restartsToGo := restartsToGo - 1;
      }
    }

    /** Codes blocks in a row. */
    method EncodeBlocks(blocks: seq<array<int>>, membership: seq<nat>)
      requires Valid() && |blocks| == |membership|
      requires forall i :: 0 <= i < |blocks| ==> blocks[i].Length == 64 && membership[i] < |c.qs|
      requires forall i, j :: 0 <= i < |blocks| && 0 <= j < 64 ==> IsCoef(blocks[i][j])
      modifies this`lastDc, this`dcContext, enc
      ensures Valid() && ValidMcu(McuOf(blocks, membership, order), |c.qs|)
      ensures enc.before == old(enc.before) && enc.begun == old(enc.begun)
      ensures var (es, dc) := BlocksDecisions(c.kind, c.qs, old(Prediction(lastDc, dcContext)),
                                              McuOf(blocks, membership, order));
              enc.coded == old(enc.coded) + es && Prediction(lastDc, dcContext) == dc
    {
      hide Encoder.Valid, BlocksDecisions, BlockDecisions, Zigzag;
      ghost var c1, bs, dc1 := enc.coded, McuOf(blocks, membership, order), Prediction(lastDc, dcContext);
      var i := 0;
      NoBlocks(c.kind, c.qs, dc1);
      while i < |blocks|
        invariant 0 <= i <= |blocks| && Valid()
        invariant enc.before == old(enc.before) && enc.begun == old(enc.begun)
        invariant var (es, dc) := BlocksDecisions(c.kind, c.qs, dc1, bs[..i]);
                  enc.coded == c1 + es && Prediction(lastDc, dcContext) == dc
      {
        BlocksDecisionsOne(c.kind, c.qs, dc1, bs[..i], bs[i]);
        assert bs[..i] + [bs[i]] == bs[..i + 1];
        EncodeBlock(blocks[i], membership[i]);
        i := i + 1;
      }
      assert bs[..|bs|] == bs;
    }

    /** Codes an MCU, preceded by a restart marker if one is due. */
    method EncodeMcu(blocks: seq<array<int>>, membership: seq<nat>)
      requires Valid() && |blocks| == |membership|
      requires forall i :: 0 <= i < |blocks| ==> blocks[i].Length == 64 && membership[i] < |c.qs|
      requires forall i, j :: 0 <= i < |blocks| && 0 <= j < 64 ==> IsCoef(blocks[i][j])
      modifies this, enc
      ensures Valid() && ValidMcu(McuOf(blocks, membership, order), |c.qs|)
      ensures State() == ScanStream.EncodeMcu(c, old(State()), McuOf(blocks, membership, order))
    {
      hide Encoder.Valid, BlocksDecisions, Zigzag, BeforeMcu;
      PrepareMcu();
      ghost var c1, dc1 := enc.coded, Prediction(lastDc, dcContext);
      EncodeBlocks(blocks, membership);
      CodeAllAppend(c.t, Context(UNIT, enc.begun), c1,
                    BlocksDecisions(c.kind, c.qs, dc1, McuOf(blocks, membership, order)).0);
    }

    /** Ends the scan. */
    method Finish()
      requires Valid()
      modifies enc
      ensures enc.out == Written(old(State()))
    {
      enc.Finish();
    }
  }

  lemma NoBand(q: Conditioning, z: Block)
    ensures BandDecisions(q, z, 1, 0, 0) == []
  {
  }

  lemma NoBlocks(kind: Kind, qs: seq<Conditioning>, dc: Prediction)
    requires ValidKind(kind) && ValidPrediction(dc, |qs|)
    ensures BlocksDecisions(kind, qs, dc, []) == ([], dc)
  {
  }

  lemma DcShiftIsCoef(v: int, al: nat)
    requires IsCoef(v)
    ensures IsCoef(DcShift(v, al))
  {
    var p, q := Pow2(al), DcShift(v, al);
    hide Pow2;
    if q >= 0 {
      MulMonotone(1, p, q);
      assert q * p == p * q;
    } else {
      MulMonotone(1, p, -(q + 1));
      assert (q + 1) * p == -(p * -(q + 1));
    }
  }
}
