/**
 The five coding procedures of a scan (jcarith.c and jdarith.c): sequential
 blocks, DC first pass and refinement, AC first pass and refinement, on whole
 MCUs with DC prediction.
 */
module ScanModel {
  import opened Products
  import opened Bytes
  import opened CodingInterval
  import opened DecisionStream
  import opened BlockModel

  /** Which procedure a scan uses, with its band and bit position. */
  datatype Kind =
    | Sequential(limSe: nat)
    | DcFirst(al: nat)
    | AcFirst(ss: nat, se: nat, al: nat)
    | DcRefine(al: nat)
    | AcRefine(ss: nat, se: nat, al: nat)

  predicate ValidKind(kind: Kind) {
    match kind
    case Sequential(limSe) => limSe < 64
    case DcFirst(al) => al <= 13
    case DcRefine(al) => al <= 13
    case AcFirst(ss, se, al) => 1 <= ss <= se < 64 && al <= 13
    case AcRefine(ss, se, al) => 1 <= ss <= se < 64 && al <= 13
  }

  /** One block of an MCU: the index of its component within the scan, and its coefficients. */
  datatype McuBlock = McuBlock(ci: nat, z: Block)

  /** Per component of the scan: the last DC value and its conditioning category. */
  datatype Prediction = Prediction(lastDc: seq<int>, ctx: seq<nat>)

  predicate ValidPrediction(dc: Prediction, n: nat) {
    |dc.lastDc| == n && |dc.ctx| == n && forall i :: 0 <= i < n ==> dc.ctx[i] <= 16
  }

  function NoPrediction(n: nat): Prediction {
    Prediction(seq(n, i => 0), seq(n, i => 0))
  }

  predicate ValidMcu(bs: seq<McuBlock>, n: nat) {
    forall i :: 0 <= i < |bs| ==> bs[i].ci < n
  }

  // ----- blocks as arrays, coefficients in natural order

  /** A coefficient order: a permutation of the 64 positions that keeps DC first. */
  predicate ValidOrder(order: seq<nat>) {
    && |order| == 64 && order[0] == 0
    && (forall i :: 0 <= i < 64 ==> order[i] < 64)
    && (forall i, j :: 0 <= i < j < 64 ==> order[i] != order[j])
  }

  function Zigzag(a: seq<int>, order: seq<nat>): (z: Block)
    requires |a| == 64 && ValidOrder(order)
  {
    seq(64, k requires 0 <= k < 64 => a[order[k]])
  }

  /** Writing one coefficient of the array writes one of the zigzag sequence. */
  lemma ZigzagUpdate(a: seq<int>, order: seq<nat>, k: nat, v: int)
    requires |a| == 64 && ValidOrder(order) && k < 64
    ensures Zigzag(a[order[k] := v], order) == Zigzag(a, order)[k := v]
  {
  }

  /** `v >> al` of the absolute value. */
  function AbsShift(v: int, al: nat): (m: nat)
    ensures m == Mag(v, al)
  {
    Quotient(Abs(v), Pow2(al))
  }

  /** Index of the last coefficient that is nonzero after the point transform. */
  method FindEob(block: array<int>, order: seq<nat>, se: nat, al: nat) returns (ke: nat)
    requires block.Length == 64 && ValidOrder(order) && se < 64
    ensures ke == EobIndex(Zigzag(block[..], order), se, al)
  {
    hide Mag, Pow2;
    ke := se;
    while ke > 0 && AbsShift(block[order[ke]], al) == 0
      invariant ke <= se
      invariant EobIndex(Zigzag(block[..], order), ke, al) == EobIndex(Zigzag(block[..], order), se, al)
    {
      ke := ke - 1;
    }
  }

  /** The MCU as the model sees it: component indexes and zigzag-ordered blocks. */
  ghost function McuOf(blocks: seq<array<int>>, membership: seq<nat>, order: seq<nat>): (bs: seq<McuBlock>)
    requires |blocks| == |membership| && ValidOrder(order)
    requires forall i :: 0 <= i < |blocks| ==> blocks[i].Length == 64
    reads blocks
    ensures |bs| == |blocks| && forall i :: 0 <= i < |bs| ==> bs[i].ci == membership[i]
  {
    seq(|blocks|, i requires 0 <= i < |blocks| reads blocks =>
      McuBlock(membership[i], Zigzag(blocks[i][..], order)))
  }

  // ----- DC parts

  /** The DC value sent first: an arithmetic right shift. */
  function DcShift(v: int, al: nat): int {
    FloorQuotient(v, Pow2(al))
  }

  function FloorQuotient(v: int, p: nat): (q: int)
    requires p > 0
    ensures q * p <= v < q * p + p
  {
    v / p
  }

  /** What is known of a DC coefficient when its bits down to `al` have been sent. */
  function DcApprox(v: int, al: nat): int {
    DcShift(v, al) * Pow2(al)
  }

  function DcStep(qs: seq<Conditioning>, dc: Prediction, ci: nat, m: int): (r: (seq<Decision>, Prediction))
    requires ValidPrediction(dc, |qs|) && ci < |qs|
    ensures ValidPrediction(r.1, |qs|) && Binary(r.0)
  {
    var v := m - dc.lastDc[ci];
    (DcDecisions(qs[ci], dc.ctx[ci], v),
     Prediction(dc.lastDc[ci := m], dc.ctx[ci := DcContextAfter(qs[ci], v)]))
  }

  datatype DcStepRead = DcStepRead(ok: bool, dc: Prediction, s: Stream)

  function ReadDcStep(s: Stream, qs: seq<Conditioning>, dc: Prediction, ci: nat): (r: DcStepRead)
    requires ValidPrediction(dc, |qs|) && ci < |qs|
    ensures ValidPrediction(r.dc, |qs|)
  {
    var r := ReadDc(s, qs[ci], dc.ctx[ci]);
    if !r.ok then DcStepRead(false, dc, r.s) else
    DcStepRead(true, Prediction(dc.lastDc[ci := dc.lastDc[ci] + r.v], dc.ctx[ci := r.ctx]), r.s)
  }

  predicate DiffFits(dc: Prediction, ci: nat, m: int)
    requires ci < |dc.lastDc|
  {
    Abs(m - dc.lastDc[ci]) <= 0x8000
  }

  lemma DcStepRoundTrip(s: Stream, qs: seq<Conditioning>, dc: Prediction, ci: nat, m: int)
    requires ValidPrediction(dc, |qs|) && ci < |qs|
    requires Carries(s, DcStep(qs, dc, ci, m).0)
    ensures DiffFits(dc, ci, m) ==>
              var (es, dc') := DcStep(qs, dc, ci, m);
              ReadDcStep(s, qs, dc, ci) == DcStepRead(true, dc', Advance(s, es))
    ensures !DiffFits(dc, ci, m) ==> !ReadDcStep(s, qs, dc, ci).ok
  {
    hide Carries, Advance, DcDecisions, ReadDc, DcContextAfter;
    DcRoundTrip(s, qs[ci], dc.ctx[ci], m - dc.lastDc[ci]);
  }

  /** Bit `al` of a two's complement number. */
  function BitAt(v: int, al: nat): (b: nat)
    ensures b <= 1
  {
    DcShift(v, al) % 2
  }

  /** `c | (1 << al)`. */
  function SetBit(c: int, al: nat): int {
    if BitAt(c, al) == 1 then c else c + Pow2(al)
  }

  // ----- one block

  /** Decisions for a block, and the prediction after it. */
  function BlockDecisions(kind: Kind, qs: seq<Conditioning>, dc: Prediction, b: McuBlock)
    : (r: (seq<Decision>, Prediction))
    requires ValidKind(kind) && ValidPrediction(dc, |qs|) && b.ci < |qs|
    ensures ValidPrediction(r.1, |qs|) && Binary(r.0)
  {
    var q, z := qs[b.ci], b.z;
    match kind
    case Sequential(limSe) =>
      var (es, dc') := DcStep(qs, dc, b.ci, z[0]);
      (es + BandDecisions(q, z, 1, limSe, 0), dc')
    case DcFirst(al) => DcStep(qs, dc, b.ci, DcShift(z[0], al))
    case AcFirst(ss, se, al) => (BandDecisions(q, z, ss, se, al), dc)
    case DcRefine(al) => ([Decision(FixedBin, BitAt(z[0], al))], dc)
    case AcRefine(ss, se, al) =>
      var ke := EobIndex(z, se, al);
      (RefineFrom(q, z, ss - 1, ke, EobIndex(z, ke, al + 1), se, al), dc)
  }

  function BandDecisions(q: Conditioning, z: Block, ss: nat, se: nat, al: nat): (es: seq<Decision>)
    requires 1 <= ss && se < 64
    ensures Binary(es)
  {
    AcFrom(q, z, ss - 1, EobIndex(z, se, al), se, al)
  }

  datatype McuRead = McuRead(ok: bool, dc: Prediction, bs: seq<McuBlock>, s: Stream)

  /** Reads a block into `b`, which holds what earlier scans sent. */
  function ReadBlock(kind: Kind, qs: seq<Conditioning>, dc: Prediction, b: McuBlock, s: Stream): (r: McuRead)
    requires ValidKind(kind) && ValidPrediction(dc, |qs|) && b.ci < |qs|
    ensures ValidPrediction(r.dc, |qs|) && |r.bs| == 1 && r.bs[0].ci == b.ci
  {
    var q, z := qs[b.ci], b.z;
    match kind
    case Sequential(limSe) =>
      var r := ReadDcStep(s, qs, dc, b.ci);
      if !r.ok then McuRead(false, r.dc, [b], r.s) else
      var ac := ReadAcFrom(r.s, q, z[0 := ToCoef(r.dc.lastDc[b.ci])], 0, limSe, 0);
      McuRead(ac.ok, r.dc, [b.(z := ac.z)], ac.s)
    case DcFirst(al) =>
      var r := ReadDcStep(s, qs, dc, b.ci);
      if !r.ok then McuRead(false, r.dc, [b], r.s) else
      McuRead(true, r.dc, [b.(z := z[0 := ToCoef(r.dc.lastDc[b.ci] * Pow2(al))])], r.s)
    case AcFirst(ss, se, al) =>
      var r := ReadAcFrom(s, q, z, ss - 1, se, al);
      McuRead(r.ok, dc, [b.(z := r.z)], r.s)
    case DcRefine(al) =>
      var (bit, s1) := Next(s, FixedBin);
      McuRead(true, dc, [b.(z := if bit == 1 then z[0 := SetBit(z[0], al)] else z)], s1)
    case AcRefine(ss, se, al) =>
      var r := ReadRefineFrom(s, q, z, ss - 1, EobIndex(z, se, 0), se, al);
      McuRead(r.ok, dc, [b.(z := r.z)], r.s)
  }

  /** What the decoder's block must hold before the scan reaches it. */
  predicate Ready(kind: Kind, z: Block, o: Block)
    requires ValidKind(kind)
  {
    match kind
    case Sequential(limSe) => forall i :: 1 <= i <= limSe ==> z[i] == 0
    case DcFirst(_) => true
    case AcFirst(ss, se, _) => forall i :: ss <= i <= se ==> z[i] == 0
    case DcRefine(_) => true
    case AcRefine(ss, se, al) => Known(z, o, ss - 1, se, al + 1)
  }

  /** The decoder's block after the scan: the original, down to the bit position sent. */
  function After(kind: Kind, z: Block, o: Block): Block
    requires ValidKind(kind)
  {
    match kind
    case Sequential(limSe) => Sent(z[0 := o[0]], o, 0, limSe, 0)
    case DcFirst(al) => z[0 := DcApprox(o[0], al)]
    case DcRefine(al) => if BitAt(o[0], al) == 1 then z[0 := SetBit(z[0], al)] else z
    case AcFirst(ss, se, al) => Sent(z, o, ss - 1, se, al)
    case AcRefine(ss, se, al) => Sent(z, o, ss - 1, se, al)
  }

  /** The only data an arithmetic-coded block can fail on: a DC difference beyond 2^15. */
  predicate BlockFits(kind: Kind, dc: Prediction, b: McuBlock)
    requires b.ci < |dc.lastDc|
  {
    match kind
    case Sequential(_) => DiffFits(dc, b.ci, b.z[0])
    case DcFirst(al) => DiffFits(dc, b.ci, DcShift(b.z[0], al))
    case _ => true
  }

  lemma DcApproxIsCoef(v: int, al: nat)
    requires IsCoef(v) && al <= 14
    ensures IsCoef(DcApprox(v, al))
    ensures al == 0 ==> DcApprox(v, al) == v
  {
    Pow2Add(15 - al, al);
    Pow2Masks();
    hide Pow2;
    FloorAbove(v, Pow2(al), Pow2(15 - al));
  }

  lemma FloorAbove(v: int, p: nat, r: nat)
    requires p > 0 && -(r * p as int) <= v
    ensures -(r * p as int) <= FloorQuotient(v, p) * p
  {
    var q: int, n: int := FloorQuotient(v, p), 0 - r;
    assert n * p == -(r * p as int);
    if q < n {
      MulMonotone(q + 1, n, p);
      MulSum(q, 1, p);
    } else {
      MulMonotone(n, q, p);
    }
  }

  /** A DC refinement bit completes the value one place further down. */
  lemma DcNextBit(v: int, al: nat)
    ensures BitAt(DcApprox(v, al + 1), al) == 0
    ensures DcApprox(v, al) == DcApprox(v, al + 1) + BitAt(v, al) * Pow2(al)
  {
    var p := Pow2(al);
    assert Pow2(al + 1) == 2 * p;
    hide Pow2;
    FloorHalf(v, p);
  }

  /** A DC refinement takes what is known of the value one bit further. */
  lemma DcRefined(z: Block, o: Block, al: nat)
    requires al <= 13 && z[0] == DcApprox(o[0], al + 1)
    ensures After(DcRefine(al), z, o) == z[0 := DcApprox(o[0], al)]
  {
    DcCompleted(o[0], al);
    hide DcApprox, BitAt, SetBit;
    assert z[0 := z[0]] == z;
  }

  lemma DcCompleted(v: int, al: nat)
    ensures (if BitAt(v, al) == 1 then SetBit(DcApprox(v, al + 1), al) else DcApprox(v, al + 1)) == DcApprox(v, al)
  {
    DcNextBit(v, al);
    hide DcApprox, BitAt, Pow2;
  }

  lemma FloorHalf(v: int, p: nat)
    requires p > 0
    ensures var q, h := FloorQuotient(v, p), FloorQuotient(v, 2 * p);
            && FloorQuotient(h * (2 * p), p) == 2 * h
            && q == 2 * h + q % 2
            && q * p == h * (2 * p) + q % 2 * p
  {
    var q, h := FloorQuotient(v, p), FloorQuotient(v, 2 * p);
    FloorUnique(h * (2 * p), p, 2 * h);
    MulAssoc(h, 2, p);
    MulSwap(h, 2, p);
    var b := q - 2 * h;
    MulSum(2 * h, b, p);
    if b < 0 {
      MulMonotone(b, -1, p);
    } else if b > 1 {
      MulMonotone(2, b, p);
    }
  }

  lemma FloorUnique(v: int, p: nat, q: int)
    requires p > 0 && (q * p <= v < q * p + p || v == p * q)
    ensures FloorQuotient(v, p) == q
  {
    var q' := FloorQuotient(v, p);
    if q' < q {
      MulMonotone(q' + 1, q, p);
      MulSum(q', 1, p);
    } else if q < q' {
      MulMonotone(q + 1, q', p);
      MulSum(q, 1, p);
    }
  }

  /** Where the previous stage ended is seen alike by encoder and decoder. */
  lemma PreviousEob(z: Block, o: Block, ss: nat, se: nat, al: nat)
    requires 1 <= ss <= se < 64 && Coefs(o) && Known(z, o, ss - 1, se, al + 1)
    ensures var ke := EobIndex(o, se, al);
            SameEob(ss - 1, EobIndex(o, ke, al + 1), EobIndex(z, se, 0))
  {
    hide Pow2, Mag, Approx;
    var ke := EobIndex(o, se, al);
    forall i | ss <= i <= se
      ensures Mag(z[i], 0) > 0 <==> Mag(o[i], al + 1) > 0
      ensures Mag(o[i], al) == 0 ==> Mag(o[i], al + 1) == 0
    {
      NextBit(o[i], al);
      ApproxIsCoef(o[i], al + 1);
      NonzeroMag(z[i]);
    }
  }

  lemma NonzeroMag(v: int)
    ensures Mag(v, 0) == Abs(v)
  {
    Pow2Masks();
  }

  lemma ApproxAll(v: int)
    ensures Approx(v, 0) == v
  {
    NonzeroMag(v);
    Pow2Masks();
  }

  /**
   A block comes back, down to the bit position sent, with predictions and
   statistics in step, exactly when its DC difference (if any) is at most 2^15.
   */
  lemma BlockRoundTrip(s: Stream, kind: Kind, qs: seq<Conditioning>, dc: Prediction, b: McuBlock, z: Block)
    requires ValidKind(kind) && ValidPrediction(dc, |qs|) && b.ci < |qs|
    requires Coefs(b.z) && Ready(kind, z, b.z)
    requires Carries(s, BlockDecisions(kind, qs, dc, b).0)
    ensures BlockFits(kind, dc, b) ==>
              var (es, dc') := BlockDecisions(kind, qs, dc, b);
              ReadBlock(kind, qs, dc, b.(z := z), s)
              == McuRead(true, dc', [b.(z := After(kind, z, b.z))], Advance(s, es))
    ensures !BlockFits(kind, dc, b) ==> !ReadBlock(kind, qs, dc, b.(z := z), s).ok
  {
    hide Carries, Advance, Next, DcStep, ReadDcStep, AcFrom, ReadAcFrom, RefineFrom, ReadRefineFrom;
    hide Pow2, Mag, Approx, DiffFits, Sent, EobIndex;
    match kind
    case Sequential(limSe) => SequentialRoundTrip(s, limSe, qs, dc, b, z);
    case DcFirst(al) => DcFirstRoundTrip(s, al, qs, dc, b, z);
    case AcFirst(ss, se, al) =>
      AcRoundTrip(s, qs[b.ci], b.z, z, ss - 1, EobIndex(b.z, se, al), se, al);
    case DcRefine(al) =>
      TakeLast(s, Decision(FixedBin, BitAt(b.z[0], al)));
    case AcRefine(ss, se, al) => RefineBlockRoundTrip(s, ss, se, al, qs, dc, b, z);
  }

  lemma DcFirstRoundTrip(s: Stream, al: nat, qs: seq<Conditioning>, dc: Prediction, b: McuBlock, z: Block)
    requires al <= 13 && ValidPrediction(dc, |qs|) && b.ci < |qs| && Coefs(b.z)
    requires Carries(s, BlockDecisions(DcFirst(al), qs, dc, b).0)
    ensures var (es, dc') := BlockDecisions(DcFirst(al), qs, dc, b);
            var r := ReadBlock(DcFirst(al), qs, dc, b.(z := z), s);
            if DiffFits(dc, b.ci, DcShift(b.z[0], al))
            then r == McuRead(true, dc', [b.(z := After(DcFirst(al), z, b.z))], Advance(s, es))
            else !r.ok
  {
    hide Carries, Advance, Next, DcStep, ReadDcStep, Pow2, DiffFits, DcShift;
    DcStepRoundTrip(s, qs, dc, b.ci, DcShift(b.z[0], al));
    DcApproxIsCoef(b.z[0], al);
    DcStepLast(qs, dc, b.ci, DcShift(b.z[0], al));
  }

  lemma RefineBlockRoundTrip(s: Stream, ss: nat, se: nat, al: nat, qs: seq<Conditioning>, dc: Prediction,
                             b: McuBlock, z: Block)
    requires 1 <= ss <= se < 64 && al <= 13 && ValidPrediction(dc, |qs|) && b.ci < |qs|
    requires Coefs(b.z) && Known(z, b.z, ss - 1, se, al + 1)
    requires Carries(s, BlockDecisions(AcRefine(ss, se, al), qs, dc, b).0)
    ensures var (es, dc') := BlockDecisions(AcRefine(ss, se, al), qs, dc, b);
            ReadBlock(AcRefine(ss, se, al), qs, dc, b.(z := z), s)
            == McuRead(true, dc', [b.(z := Sent(z, b.z, ss - 1, se, al))], Advance(s, es))
  {
    hide Carries, Advance, Next, RefineFrom, ReadRefineFrom, Pow2, Mag, Approx, Sent;
    PreviousEob(z, b.z, ss, se, al);
    var ke := EobIndex(b.z, se, al);
    RefineRoundTrip(s, qs[b.ci], b.z, z, ss - 1, ke, EobIndex(b.z, ke, al + 1), EobIndex(z, se, 0), se, al);
  }

  lemma DcStepLast(qs: seq<Conditioning>, dc: Prediction, ci: nat, m: int)
    requires ValidPrediction(dc, |qs|) && ci < |qs|
    ensures DcStep(qs, dc, ci, m).1.lastDc[ci] == m
  {
  }

  lemma SequentialRoundTrip(s: Stream, limSe: nat, qs: seq<Conditioning>, dc: Prediction, b: McuBlock, z: Block)
    requires limSe < 64 && ValidPrediction(dc, |qs|) && b.ci < |qs|
    requires Coefs(b.z) && Ready(Sequential(limSe), z, b.z)
    requires Carries(s, BlockDecisions(Sequential(limSe), qs, dc, b).0)
    ensures var (es, dc') := BlockDecisions(Sequential(limSe), qs, dc, b);
            var r := ReadBlock(Sequential(limSe), qs, dc, b.(z := z), s);
            if DiffFits(dc, b.ci, b.z[0])
            then r == McuRead(true, dc', [b.(z := After(Sequential(limSe), z, b.z))], Advance(s, es))
            else !r.ok
  {
    hide Carries, Advance, Next, DcStep, ReadDcStep, AcFrom, ReadAcFrom, Pow2, Mag, Approx, DiffFits;
    var (es, dc') := DcStep(qs, dc, b.ci, b.z[0]);
    var band := BandDecisions(qs[b.ci], b.z, 1, limSe, 0);
    Split(s, es, band);
    DcStepRoundTrip(s, qs, dc, b.ci, b.z[0]);
    DcStepLast(qs, dc, b.ci, b.z[0]);
    AcRoundTrip(Advance(s, es), qs[b.ci], b.z, z[0 := b.z[0]], 0, EobIndex(b.z, limSe, 0), limSe, 0);
  }

  // ----- blocks in a row

  function BlocksDecisions(kind: Kind, qs: seq<Conditioning>, dc: Prediction, bs: seq<McuBlock>)
    : (r: (seq<Decision>, Prediction))
    requires ValidKind(kind) && ValidPrediction(dc, |qs|) && ValidMcu(bs, |qs|)
    ensures ValidPrediction(r.1, |qs|) && Binary(r.0)
    decreases |bs|
  {
    if bs == [] then ([], dc) else
    var (es, dc1) := BlockDecisions(kind, qs, dc, bs[0]);
    var (fs, dc2) := BlocksDecisions(kind, qs, dc1, bs[1..]);
    (es + fs, dc2)
  }

  /** After a failure the rest of the segment is left as it was. */
  function ReadBlocks(kind: Kind, qs: seq<Conditioning>, dc: Prediction, bs: seq<McuBlock>, s: Stream): (r: McuRead)
    requires ValidKind(kind) && ValidPrediction(dc, |qs|) && ValidMcu(bs, |qs|)
    ensures ValidPrediction(r.dc, |qs|) && |r.bs| == |bs|
    ensures forall i :: 0 <= i < |bs| ==> r.bs[i].ci == bs[i].ci
    decreases |bs|
  {
    if bs == [] then McuRead(true, dc, [], s) else
    var r := ReadBlock(kind, qs, dc, bs[0], s);
    if !r.ok then McuRead(false, r.dc, r.bs + bs[1..], r.s) else
    var r' := ReadBlocks(kind, qs, r.dc, bs[1..], r.s);
    McuRead(r'.ok, r'.dc, r.bs + r'.bs, r'.s)
  }

  predicate BlocksFit(kind: Kind, qs: seq<Conditioning>, dc: Prediction, bs: seq<McuBlock>)
    requires ValidKind(kind) && ValidPrediction(dc, |qs|) && ValidMcu(bs, |qs|)
    decreases |bs|
  {
    bs == [] ||
    (BlockFits(kind, dc, bs[0]) && BlocksFit(kind, qs, BlockDecisions(kind, qs, dc, bs[0]).1, bs[1..]))
  }

  /** Originals against the decoder's blocks: same components, and ready for the scan. */
  predicate AllReady(kind: Kind, zs: seq<McuBlock>, os: seq<McuBlock>)
    requires ValidKind(kind)
  {
    && |zs| == |os|
    && forall i :: 0 <= i < |os| ==> zs[i].ci == os[i].ci && Coefs(os[i].z) && Ready(kind, zs[i].z, os[i].z)
  }

  function AllAfter(kind: Kind, zs: seq<McuBlock>, os: seq<McuBlock>): seq<McuBlock>
    requires ValidKind(kind) && |zs| == |os|
  {
    seq(|os|, i requires 0 <= i < |os| => os[i].(z := After(kind, zs[i].z, os[i].z)))
  }

  /** Any number of blocks comes back exactly when all their DC differences are within range. */
  lemma {:induction false} BlocksRoundTrip(s: Stream, kind: Kind, qs: seq<Conditioning>, dc: Prediction,
                                           os: seq<McuBlock>, zs: seq<McuBlock>)
    requires ValidKind(kind) && ValidPrediction(dc, |qs|) && ValidMcu(os, |qs|)
    requires AllReady(kind, zs, os)
    requires Carries(s, BlocksDecisions(kind, qs, dc, os).0)
    ensures ValidMcu(zs, |qs|)
    ensures BlocksFit(kind, qs, dc, os) ==>
              var (es, dc') := BlocksDecisions(kind, qs, dc, os);
              ReadBlocks(kind, qs, dc, zs, s) == McuRead(true, dc', AllAfter(kind, zs, os), Advance(s, es))
    ensures !BlocksFit(kind, qs, dc, os) ==> !ReadBlocks(kind, qs, dc, zs, s).ok
    decreases |os|
  {
    hide Carries, Advance, BlockDecisions, ReadBlock, BlockFits, After, Ready, AllReady, AllAfter;
    AllReadyHead(kind, zs, os);
    assert ValidMcu(zs, |qs|);
    if os == [] {
      AdvanceNone(s);
    } else {
      var (es, dc1) := BlockDecisions(kind, qs, dc, os[0]);
      var (fs, dc2) := BlocksDecisions(kind, qs, dc1, os[1..]);
      Split(s, es, fs);
      BlockRoundTrip(s, kind, qs, dc, os[0], zs[0].z);
      BlocksRoundTrip(Advance(s, es), kind, qs, dc1, os[1..], zs[1..]);
    }
  }

  // ----- what a failure costs

  /** DC scans start from zero. */
  predicate DcBlank(kind: Kind, zs: seq<McuBlock>) {
    kind.Sequential? || kind.DcFirst? ==> forall i :: 0 <= i < |zs| ==> zs[i].z[0] == 0
  }

  predicate LastCoefs(dc: Prediction) {
    forall i :: 0 <= i < |dc.lastDc| ==> IsCoef(dc.lastDc[i])
  }

  lemma ShiftIsCoef(v: int, al: nat)
    requires IsCoef(v)
    ensures IsCoef(DcShift(v, al))
    ensures DcShift(v, al) != 0 ==> DcApprox(v, al) != 0
  {
    var p, q := Pow2(al), DcShift(v, al);
    hide Pow2;
    if q > 0 {
      MulMonotone(1, p, q);
      MulMonotone(1, q, p);
    } else if q < 0 {
      MulMonotone(q + 1, 0, p);
      MulSum(q, 1, p);
      MulMonotone(1, p, 0 - q - 1);
    }
  }

  lemma LastCoefsAfter(kind: Kind, qs: seq<Conditioning>, dc: Prediction, b: McuBlock)
    requires ValidKind(kind) && ValidPrediction(dc, |qs|) && b.ci < |qs| && Coefs(b.z) && LastCoefs(dc)
    ensures LastCoefs(BlockDecisions(kind, qs, dc, b).1)
  {
    hide DcDecisions, BandDecisions, EobIndex, RefineFrom, BitAt, DcShift, DcContextAfter;
    if kind.DcFirst? {
      ShiftIsCoef(b.z[0], kind.al);
    }
  }

  /** A block with too large a DC difference does not come back: its DC stays zero, and should not. */
  lemma BlockLost(s: Stream, kind: Kind, qs: seq<Conditioning>, dc: Prediction, b: McuBlock, z: Block)
    requires ValidKind(kind) && ValidPrediction(dc, |qs|) && b.ci < |qs|
    requires Coefs(b.z) && Ready(kind, z, b.z) && LastCoefs(dc) && z[0] == 0
    requires Carries(s, BlockDecisions(kind, qs, dc, b).0) && !BlockFits(kind, dc, b)
    ensures var r := ReadBlock(kind, qs, dc, b.(z := z), s); !r.ok && r.bs == [b.(z := z)]
    ensures z[0] != After(kind, z, b.z)[0]
  {
    BlockRoundTrip(s, kind, qs, dc, b, z);
    if kind.DcFirst? {
      ShiftIsCoef(b.z[0], kind.al);
      DcFailure(s, kind, qs, dc, b, z);
    } else {
      SequentialFailure(s, kind.limSe, qs, dc, b, z);
    }
    hide DcShift, DcApprox, Mag, Approx, Carries, ReadBlock, BlockDecisions;
  }

  lemma DcFailure(s: Stream, kind: Kind, qs: seq<Conditioning>, dc: Prediction, b: McuBlock, z: Block)
    requires ValidKind(kind) && kind.DcFirst? && ValidPrediction(dc, |qs|) && b.ci < |qs|
    requires !ReadBlock(kind, qs, dc, b.(z := z), s).ok
    ensures ReadBlock(kind, qs, dc, b.(z := z), s).bs == [b.(z := z)]
  {
    hide ReadDcStep, Pow2;
  }

  lemma SequentialFailure(s: Stream, limSe: nat, qs: seq<Conditioning>, dc: Prediction, b: McuBlock, z: Block)
    requires limSe < 64 && ValidPrediction(dc, |qs|) && b.ci < |qs| && !DiffFits(dc, b.ci, b.z[0])
    requires Carries(s, BlockDecisions(Sequential(limSe), qs, dc, b).0)
    ensures ReadBlock(Sequential(limSe), qs, dc, b.(z := z), s).bs == [b.(z := z)]
  {
    hide Carries, Advance, Next, DcStep, ReadDcStep, AcFrom, ReadAcFrom, Pow2, Mag, Approx, DiffFits;
    Split(s, DcStep(qs, dc, b.ci, b.z[0]).0, BandDecisions(qs[b.ci], b.z, 1, limSe, 0));
    DcStepRoundTrip(s, qs, dc, b.ci, b.z[0]);
  }

  /** Blocks of which one has too large a DC difference do not all come back. */
  lemma {:induction false} BlocksLost(s: Stream, kind: Kind, qs: seq<Conditioning>, dc: Prediction,
                                      os: seq<McuBlock>, zs: seq<McuBlock>)
    requires ValidKind(kind) && ValidPrediction(dc, |qs|) && ValidMcu(os, |qs|) && ValidMcu(zs, |qs|)
    requires AllReady(kind, zs, os) && LastCoefs(dc) && DcBlank(kind, zs)
    requires Carries(s, BlocksDecisions(kind, qs, dc, os).0) && !BlocksFit(kind, qs, dc, os)
    ensures ReadBlocks(kind, qs, dc, zs, s).bs != AllAfter(kind, zs, os)
    decreases |os|
  {
    hide Carries, Advance, BlockDecisions, ReadBlock, After, Ready, AllReady, AllAfter, BlockFits, LastCoefs;
    AllReadyHead(kind, zs, os);
    var (es, dc1) := BlockDecisions(kind, qs, dc, os[0]);
    var (fs, dc2) := BlocksDecisions(kind, qs, dc1, os[1..]);
    Split(s, es, fs);
    var a := os[0].(z := After(kind, zs[0].z, os[0].z));
    assert AllAfter(kind, zs, os)[0] == a;
    if BlockFits(kind, dc, os[0]) {
      BlockRoundTrip(s, kind, qs, dc, os[0], zs[0].z);
      LastCoefsAfter(kind, qs, dc, os[0]);
      BlocksLost(Advance(s, es), kind, qs, dc1, os[1..], zs[1..]);
      assert ([a] + AllAfter(kind, zs[1..], os[1..]))[1..] == AllAfter(kind, zs[1..], os[1..]);
      assert ReadBlocks(kind, qs, dc, zs, s).bs[1..] == ReadBlocks(kind, qs, dc1, zs[1..], Advance(s, es)).bs;
    } else {
      FitsUnlessDc(kind, dc, os[0]);
      BlockLost(s, kind, qs, dc, os[0], zs[0].z);
      assert ReadBlocks(kind, qs, dc, zs, s).bs[0] == zs[0];
    }
  }

  lemma FitsUnlessDc(kind: Kind, dc: Prediction, b: McuBlock)
    requires b.ci < |dc.lastDc| && !BlockFits(kind, dc, b)
    ensures kind.Sequential? || kind.DcFirst?
  {
  }

  lemma {:induction false} LastCoefsAll(kind: Kind, qs: seq<Conditioning>, dc: Prediction, bs: seq<McuBlock>)
    requires ValidKind(kind) && ValidPrediction(dc, |qs|) && ValidMcu(bs, |qs|) && LastCoefs(dc)
    requires forall i :: 0 <= i < |bs| ==> Coefs(bs[i].z)
    ensures LastCoefs(BlocksDecisions(kind, qs, dc, bs).1)
    decreases |bs|
  {
    hide BlockDecisions, LastCoefs;
    if bs != [] {
      LastCoefsAfter(kind, qs, dc, bs[0]);
      LastCoefsAll(kind, qs, BlockDecisions(kind, qs, dc, bs[0]).1, bs[1..]);
    }
  }

  lemma AllReadyHead(kind: Kind, zs: seq<McuBlock>, os: seq<McuBlock>)
    requires ValidKind(kind) && AllReady(kind, zs, os)
    ensures |zs| == |os| && forall i :: 0 <= i < |os| ==> zs[i].ci == os[i].ci
    ensures os == [] ==> AllAfter(kind, zs, os) == []
    ensures os != [] ==>
              && Coefs(os[0].z) && Ready(kind, zs[0].z, os[0].z) && AllReady(kind, zs[1..], os[1..])
              && os[0].(z := zs[0].z) == zs[0]
              && AllAfter(kind, zs, os)
                 == [os[0].(z := After(kind, zs[0].z, os[0].z))] + AllAfter(kind, zs[1..], os[1..])
  {
    hide Ready, After;
  }

  lemma {:induction false} BlocksDecisionsAppend(kind: Kind, qs: seq<Conditioning>, dc: Prediction,
                                                 bs: seq<McuBlock>, cs: seq<McuBlock>)
    requires ValidKind(kind) && ValidPrediction(dc, |qs|) && ValidMcu(bs, |qs|) && ValidMcu(cs, |qs|)
    ensures ValidMcu(bs + cs, |qs|)
    ensures var (es, dc1) := BlocksDecisions(kind, qs, dc, bs);
            var (fs, dc2) := BlocksDecisions(kind, qs, dc1, cs);
            BlocksDecisions(kind, qs, dc, bs + cs) == (es + fs, dc2)
    decreases |bs|
  {
    hide BlockDecisions;
    if bs == [] {
      assert bs + cs == cs;
      assert [] + BlocksDecisions(kind, qs, dc, cs).0 == BlocksDecisions(kind, qs, dc, cs).0;
    } else {
      assert (bs + cs)[1..] == bs[1..] + cs && (bs + cs)[0] == bs[0];
      var (es, dc1) := BlockDecisions(kind, qs, dc, bs[0]);
      BlocksDecisionsAppend(kind, qs, dc1, bs[1..], cs);
      var (es', dc2) := BlocksDecisions(kind, qs, dc1, bs[1..]);
      SeqAssoc(es, es', BlocksDecisions(kind, qs, dc2, cs).0);
    }
  }

  lemma BlocksDecisionsOne(kind: Kind, qs: seq<Conditioning>, dc: Prediction, bs: seq<McuBlock>, b: McuBlock)
    requires ValidKind(kind) && ValidPrediction(dc, |qs|) && ValidMcu(bs, |qs|) && b.ci < |qs|
    ensures ValidMcu(bs + [b], |qs|)
    ensures var (es, dc1) := BlocksDecisions(kind, qs, dc, bs);
            var (fs, dc2) := BlockDecisions(kind, qs, dc1, b);
            BlocksDecisions(kind, qs, dc, bs + [b]) == (es + fs, dc2)
  {
    hide BlockDecisions;
    BlocksDecisionsAppend(kind, qs, dc, bs, [b]);
    var (es, dc1) := BlocksDecisions(kind, qs, dc, bs);
    assert [b][1..] == [];
    var (fs, dc2) := BlockDecisions(kind, qs, dc1, b);
    assert fs + [] == fs;
    assert BlocksDecisions(kind, qs, dc1, [b]) == (fs, dc2);
  }
}
