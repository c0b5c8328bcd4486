/**
 What the decoder recovers of an image coded with an accepted script: every
 coefficient down to the last bit position sent, and so the image itself once
 all have reached position 0.
 */
module ImageRecovery {
  import opened Products
  import opened Bytes
  import opened CodingInterval
  import opened BlockModel
  import opened ScanModel
  import opened ScanStream
  import opened Geometry
  import opened BlockPadding
  import opened ImageReconstruction
  import Script = ScanScript
  import Reduction = ScriptReduction
  import Simple = SimpleProgression

  // ----- accepted scripts are in order

  lemma {:induction false} ProgressiveInOrder(f: Frame, h: History, script: seq<ScanInfo>, maxAl: int)
    requires Script.ScansOk(h, script, maxAl) && maxAl <= MAX_AL && |h| == |f.comps| && f.limSe < 64
    requires forall i :: 0 <= i < |script| ==> script[i].se <= f.limSe
    ensures InOrder(f, h, script)
    decreases |script|
  {
    if script != [] {
      ProgressiveInOrder(f, Script.Update(h, script[0]), script[1..], maxAl);
    }
  }

  /** Components not yet sent have nothing sent, the others everything. */
  predicate SentWhole(h: History, sent: set<int>) {
    forall c, k :: 0 <= c < |h| && 0 <= k < 64 ==> h[c][k] == if c in sent then 0 else -1
  }

  lemma {:induction false} SequentialInOrder(f: Frame, h: History, sent: set<int>, script: seq<ScanInfo>)
    requires Script.SequentialOk(sent, script, |f.comps|) && |h| == |f.comps| && f.limSe < 64 && SentWhole(h, sent)
    ensures InOrder(f, h, script)
    ensures SentWhole(Script.After(h, script), Script.SentAfter(sent, script))
    decreases |script|
  {
    if script != [] {
      var s := script[0];
      forall i | 0 <= i < |s.comps| ensures CompOk(h, s, s.comps[i]) {
      }
      SequentialInOrder(f, Script.Update(h, s), sent + (set c | c in s.comps), script[1..]);
    }
  }

  lemma {:induction false} ReducedWithin(script: seq<ScanInfo>, lim: nat, i: nat)
    requires i < |Reduction.Reduced(script, lim)|
    ensures Reduction.Reduced(script, lim)[i].se <= lim
    decreases |script|
  {
    if script[0].ss > lim {
      assert Reduction.Reduced(script, lim) == Reduction.Reduced(script[1..], lim);
      ReducedWithin(script[1..], lim, i);
    } else if i > 0 {
      ReducedWithin(script[1..], lim, i - 1);
    }
  }

  /** The scans actually coded: a progressive script is adapted to the block size. */
  function Coded(f: Frame, script: seq<ScanInfo>): seq<ScanInfo>
    requires script != []
  {
    if Script.IsProgressive(script) then Reduction.Reduced(script, f.limSe) else script
  }

  /** Last bit position sent of each coefficient. */
  function Levels(f: Frame, script: seq<ScanInfo>): (h: History)
    requires script != []
    ensures |h| == |f.comps|
  {
    Script.After(Script.NothingSent(|f.comps|), Coded(f, script))
  }

  lemma AcceptedInOrder(f: Frame, script: seq<ScanInfo>, precision: int)
    requires Script.Accepted(script, |f.comps|, precision) && f.limSe < 64
    ensures InOrder(f, Script.NothingSent(|f.comps|), Coded(f, script))
    ensures Script.IsProgressive(script) ==>
              forall c, k :: 0 <= c < |f.comps| && 0 <= k <= f.limSe && k < 64 ==>
                Levels(f, script)[c][k] == Script.After(Script.NothingSent(|f.comps|), script)[c][k]
    ensures !Script.IsProgressive(script) ==>
              forall c, k :: 0 <= c < |f.comps| && 0 <= k < 64 ==> Levels(f, script)[c][k] == 0
  {
    var n := |f.comps|;
    var h := Script.NothingSent(n);
    hide InOrder, Script.After, Script.ScansOk, Script.SequentialOk, Reduction.Reduced;
    if Script.IsProgressive(script) {
      var r := Reduction.Reduced(script, f.limSe);
      Reduction.ReducedOk(h, h, script, f.limSe, Script.MaxAl(precision));
      forall i | 0 <= i < |r| ensures r[i].se <= f.limSe {
        ReducedWithin(script, f.limSe, i);
      }
      ProgressiveInOrder(f, h, r, Script.MaxAl(precision));
    } else {
      SequentialInOrder(f, h, {}, script);
    }
  }

  // ----- round trips of whole images

  /** Coefficient arrays as the decoder allocates them. */
  ghost predicate Blank(f: Frame, pic: Image) {
    forall p :: InPadded(f, p) ==> p in pic && forall k :: 0 <= k < 64 ==> pic[p][k] == 0
  }

  lemma BlankReconstructed(f: Frame, img: Image, pic: Image)
    requires GoodImage(f, img) && Blank(f, pic)
    ensures Reconstructed(f, Script.NothingSent(|f.comps|), img, pic)
  {
    hide DcApprox, Approx;
    forall p | Real(f, p)
      ensures p in img && p in pic && RowExpected(f, img[p], pic[p], Script.NothingSent(|f.comps|)[p.comp])
    {
      RealInPadded(f, p);
    }
  }

  /** Every coefficient of every real block is the original, down to the bit position given. */
  ghost predicate AsSent(f: Frame, h: History, img: Image, pic: Image)
    requires |h| == |f.comps|
  {
    forall p :: Real(f, p) ==> p in pic && p in img && RowExpected(f, img[p], pic[p], h[p.comp])
  }

  /** Every coefficient of every real block is the original. */
  ghost predicate Recovered(f: Frame, img: Image, pic: Image) {
    forall p :: Real(f, p) ==> p in pic && p in img && SameBlock(f, img[p], pic[p])
  }

  predicate SameBlock(f: Frame, o: Block, z: Block) {
    forall k :: 0 <= k < 64 && k <= f.limSe ==> z[k] == o[k]
  }

  /**
   For every accepted script, sequential or progressive, the decoder ends with each
   coefficient of each real block as sent down to its last bit position, and reads
   exactly the bytes the encoder wrote.
   */
  lemma ImageRoundTrip(f: Frame, script: seq<ScanInfo>, precision: int, parts: seq<Part>, stats: Statistics,
                       img: Image, input: seq<byte>, pos: nat, pic: Image, m: byte)
    requires GoodImage(f, img) && Blank(f, pic) && Script.Accepted(script, |f.comps|, precision)
    requires PartsOk(f, Coded(f, script), parts) && ScansFit(f, Coded(f, script), parts, stats, img)
    requires m != 0 && m != 0xFF && StandsAt(input, pos, EncodeScans(f, Coded(f, script), parts, stats, img) + [0xFF, m])
    ensures Padded(f, pic, Coded(f, script), parts)
    ensures var r := DecodeScans(f, Coded(f, script), parts, input, pos, stats, pic);
            && r.ok && r.pos == pos + |EncodeScans(f, Coded(f, script), parts, stats, img)|
            && AsSent(f, Levels(f, script), img, r.pic)
  {
    assert script != [];
    hide EncodeScans, DecodeScans, ScansFit, PartsOk, InOrder, Coded, StandsAt, Expected, Script.Accepted;
    hide Reconstructed, Blank, Padded, AsSent, Reduction.Reduced, Script.After;
    AcceptedInOrder(f, script, precision);
    BlankReconstructed(f, img, pic);
    ScansRoundTrip(f, Script.NothingSent(|f.comps|), Coded(f, script), parts, stats, img, input, pos, pic, m);
    AllAsSent(f, Levels(f, script), img, DecodeScans(f, Coded(f, script), parts, input, pos, stats, pic).pic);
  }

  /** And it is read without giving up on any segment exactly when no DC difference is beyond 2^15. */
  lemma ImageExact(f: Frame, script: seq<ScanInfo>, precision: int, parts: seq<Part>, stats: Statistics,
                   img: Image, input: seq<byte>, pos: nat, pic: Image, m: byte)
    requires GoodImage(f, img) && Blank(f, pic) && Script.Accepted(script, |f.comps|, precision)
    requires PartsOk(f, Coded(f, script), parts) && m != 0 && m != 0xFF
    requires StandsAt(input, pos, EncodeScans(f, Coded(f, script), parts, stats, img) + [0xFF, m])
    ensures Padded(f, pic, Coded(f, script), parts)
    ensures ScansClean(f, Coded(f, script), parts, input, pos, stats, pic) <==> ScansFit(f, Coded(f, script), parts, stats, img)
  {
    assert script != [];
    hide EncodeScans, ScansClean, ScansFit, PartsOk, InOrder, Coded, StandsAt, Expected, Script.Accepted;
    hide Reconstructed, Blank, Padded, Reduction.Reduced, Script.After;
    AcceptedInOrder(f, script, precision);
    BlankReconstructed(f, img, pic);
    ScansExact(f, Script.NothingSent(|f.comps|), Coded(f, script), parts, stats, img, input, pos, pic, m);
  }

  lemma AllAsSent(f: Frame, h: History, img: Image, pic: Image)
    requires Reconstructed(f, h, img, pic)
    ensures AsSent(f, h, img, pic)
  {
    hide RowExpected;
  }

  /** Everything is sent in the end. */
  predicate Complete(f: Frame, script: seq<ScanInfo>)
    requires script != []
  {
    forall c, k :: 0 <= c < |f.comps| && 0 <= k <= f.limSe && k < 64 ==> Levels(f, script)[c][k] == 0
  }

  /** Sequential scripts, and the recommended progressive script, send everything. */
  lemma CompleteScripts(f: Frame, script: seq<ScanInfo>, precision: int, ycc: bool)
    requires Script.Accepted(script, |f.comps|, precision) && f.limSe < 64
    ensures !Script.IsProgressive(script) ==> Complete(f, script)
    ensures |f.comps| > 0 && script == Simple.Recommended(|f.comps|, ycc) ==> Complete(f, script)
  {
    hide Levels, Script.After, Script.Accepted;
    AcceptedInOrder(f, script, precision);
    if |f.comps| > 0 && script == Simple.Recommended(|f.comps|, ycc) {
      Simple.RecommendedComplete(|f.comps|, ycc, precision);
    }
  }

  lemma ExpectedAtZero(v: int, k: nat)
    requires IsCoef(v)
    ensures Expected(v, k, 0) == v
  {
    DcApproxIsCoef(v, 0);
    ApproxAll(v);
  }

  /** A complete script gives back every real block of the image exactly. */
  lemma ImageRecovered(f: Frame, script: seq<ScanInfo>, precision: int, parts: seq<Part>, stats: Statistics,
                       img: Image, input: seq<byte>, pos: nat, pic: Image, m: byte)
    requires GoodImage(f, img) && Blank(f, pic) && Script.Accepted(script, |f.comps|, precision) && Complete(f, script)
    requires PartsOk(f, Coded(f, script), parts) && ScansFit(f, Coded(f, script), parts, stats, img)
    requires m != 0 && m != 0xFF && StandsAt(input, pos, EncodeScans(f, Coded(f, script), parts, stats, img) + [0xFF, m])
    ensures Padded(f, pic, Coded(f, script), parts)
    ensures var r := DecodeScans(f, Coded(f, script), parts, input, pos, stats, pic);
            r.ok && Recovered(f, img, r.pic)
  {
    assert script != [];
    hide EncodeScans, DecodeScans, ScansFit, PartsOk, Coded, StandsAt, Expected, Levels, Script.Accepted, Blank, Padded,
      Complete, GoodImage, AsSent, Recovered;
    ImageRoundTrip(f, script, precision, parts, stats, img, input, pos, pic, m);
    AllRecovered(f, script, img, DecodeScans(f, Coded(f, script), parts, input, pos, stats, pic).pic);
  }

  lemma AllRecovered(f: Frame, script: seq<ScanInfo>, img: Image, pic: Image)
    requires GoodImage(f, img) && script != [] && Complete(f, script) && AsSent(f, Levels(f, script), img, pic)
    ensures Recovered(f, img, pic)
  {
    hide Levels;
    forall p | Real(f, p) ensures p in pic && p in img && SameBlock(f, img[p], pic[p]) {
      assert Coefs(img[p]);
      BlockRecovered(f, img[p], pic[p], Levels(f, script)[p.comp]);
    }
  }

  lemma BlockRecovered(f: Frame, o: Block, z: Block, row: seq<int>)
    requires |row| == 64 && Coefs(o) && RowExpected(f, o, z, row)
    requires forall k :: 0 <= k < 64 && k <= f.limSe ==> row[k] == 0
    ensures SameBlock(f, o, z)
  {
    hide Expected;
    forall k | 0 <= k < 64 && k <= f.limSe ensures z[k] == o[k] {
      ExpectedAtZero(o[k], k);
    }
  }

  // ----- when DC differences are always within range

  const DC_BOUND := 0x4000

  predicate DcBounded(bs: seq<McuBlock>) {
    forall i :: 0 <= i < |bs| ==> -DC_BOUND <= bs[i].z[0] <= DC_BOUND
  }

  predicate LastBounded(dc: Prediction) {
    forall i :: 0 <= i < |dc.lastDc| ==> -DC_BOUND <= dc.lastDc[i] <= DC_BOUND
  }

  lemma ShiftBounded(v: int, al: nat)
    requires -DC_BOUND <= v <= DC_BOUND
    ensures -DC_BOUND <= DcShift(v, al) <= DC_BOUND
  {
    FloorBounded(v, Pow2(al), DC_BOUND);
  }

  lemma FloorBounded(v: int, p: nat, b: int)
    requires p > 0 && b >= 0 && -b <= v <= b
    ensures -b <= FloorQuotient(v, p) <= b
  {
    var q := FloorQuotient(v, p);
    if q > b {
      MulMonotone(b + 1, q, p);
      MulMonotone(1, p, b + 1);
    } else if q < -b {
      MulMonotone(q + 1, -b, p);
      MulSum(q, 1, p);
      MulMonotone(1, p, b);
      MulSum(-b, b, p);
    }
  }

  lemma BlockBounded(kind: Kind, qs: seq<Conditioning>, dc: Prediction, b: McuBlock)
    requires ValidKind(kind) && ValidPrediction(dc, |qs|) && b.ci < |qs|
    requires LastBounded(dc) && -DC_BOUND <= b.z[0] <= DC_BOUND
    ensures BlockFits(kind, dc, b) && LastBounded(BlockDecisions(kind, qs, dc, b).1)
  {
    if kind.DcFirst? {
      ShiftBounded(b.z[0], kind.al);
    }
    hide DcShift, DcDecisions, BandDecisions, EobIndex, RefineFrom, BitAt;
  }

  lemma {:induction false} BlocksBounded(kind: Kind, qs: seq<Conditioning>, dc: Prediction, bs: seq<McuBlock>)
    requires ValidKind(kind) && ValidPrediction(dc, |qs|) && ValidMcu(bs, |qs|) && LastBounded(dc) && DcBounded(bs)
    ensures BlocksFit(kind, qs, dc, bs) && LastBounded(BlocksDecisions(kind, qs, dc, bs).1)
    decreases |bs|
  {
    hide BlockDecisions, BlockFits, LastBounded;
    if bs != [] {
      BlockBounded(kind, qs, dc, bs[0]);
      BlocksBounded(kind, qs, BlockDecisions(kind, qs, dc, bs[0]).1, bs[1..]);
    }
  }

  lemma BeforeBounded(c: Scan, e: EncoderState)
    requires EncoderReady(c, e) && LastBounded(e.dc)
    ensures LastBounded(BeforeMcu(c, e).dc)
  {
    hide Written, ResetStats;
  }

  lemma {:induction false} McusBounded(c: Scan, e: EncoderState, ms: seq<seq<McuBlock>>)
    requires EncoderReady(c, e) && ValidMcus(c, ms) && LastBounded(e.dc)
    requires forall i :: 0 <= i < |ms| ==> DcBounded(ms[i])
    ensures ScanFits(c, e, ms)
    decreases |ms|
  {
    hide LastBounded, DcBounded, BlocksDecisions, BlocksFit, BeforeMcu, CodeAll;
    if ms != [] {
      BeforeBounded(c, e);
      BlocksBounded(c.kind, c.qs, BeforeMcu(c, e).dc, ms[0]);
      McusBounded(c, EncodeMcu(c, e, ms[0]), ms[1..]);
    }
  }

  /** An image whose DC coefficients are at most 2^14 in size fits every script. */
  lemma {:induction false} BoundedImageFits(f: Frame, script: seq<ScanInfo>, parts: seq<Part>, stats: Statistics, img: Image)
    requires PartsOk(f, script, parts) && GoodImage(f, img)
    requires forall p :: p in img ==> -DC_BOUND <= img[p][0] <= DC_BOUND
    ensures ScansFit(f, script, parts, stats, img)
    decreases |script|
  {
    hide EncodeScan, GoodImage, PlanOf, KindOf, PaddedAt;
    if script != [] {
      var part, ms := parts[0], McusOf(f, script[0], parts[0], img);
      forall i | 0 <= i < |ms| ensures DcBounded(ms[i]) {
        PaddedBounded(f, img, PlanOf(f, script[0])[i]);
      }
      assert Fits(part.c, stats, ms) by {
        McusBounded(part.c, StartEncode(part.c, [], stats), ms);
      }
      BoundedImageFits(f, script[1..], parts[1..], EncodeScan(part.c, stats, ms).1, img);
    }
  }

  lemma PaddedBounded(f: Frame, img: Image, mcu: seq<Cell>)
    requires forall p :: p in img ==> -DC_BOUND <= img[p][0] <= DC_BOUND
    ensures DcBounded(PaddedBlocks(f, img, mcu))
  {
    forall j | 0 <= j < |mcu| ensures -DC_BOUND <= PaddedAt(f, img, mcu[j].at)[0] <= DC_BOUND {
    }
  }
}
