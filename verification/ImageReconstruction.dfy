/**
 Whole images through whole progressive scripts: after any number of accepted
 scans the decoder holds each coefficient down to the last bit position sent.
 */
module ImageReconstruction {
  import opened Bytes
  import opened CodingInterval
  import opened SegmentSource
  import opened BlockModel
  import opened ScanModel
  import opened ScanStream
  import opened Geometry
  import opened BlockPadding
  import opened ImageScan
  import Script = ScanScript

  type ScanInfo = Script.ScanInfo
  type History = Script.History

  const MAX_AL := 13

  /** Parameters of an accepted scan, with its band inside the block. */
  predicate Params(f: Frame, s: ScanInfo) {
    && Script.CompsOk(s, |f.comps|) && f.limSe < 64
    && (Script.SequentialScan(s) || (Script.ParamsOk(s, MAX_AL) && s.se <= f.limSe))
  }

  /** The coding procedure chosen for a scan. */
  function KindOf(f: Frame, s: ScanInfo): (kind: Kind)
    requires Params(f, s)
    ensures ValidKind(kind)
  {
    if Script.SequentialScan(s) then Sequential(f.limSe)
    else if s.ss == 0 then (if s.ah == 0 then DcFirst(s.al) else DcRefine(s.al))
    else if s.ah == 0 then AcFirst(s.ss, s.se, s.al)
    else AcRefine(s.ss, s.se, s.al)
  }

  /** The scan may follow what was sent before. */
  predicate StepOk(f: Frame, h: History, s: ScanInfo) {
    && |h| == |f.comps| && Params(f, s)
    && forall i :: 0 <= i < |s.comps| ==> CompOk(h, s, s.comps[i])
  }

  predicate CompOk(h: History, s: ScanInfo, c: int)
    requires 0 <= c < |h|
  {
    if Script.SequentialScan(s) then forall k :: 0 <= k < 64 ==> h[c][k] == -1 else Script.CompHistoryOk(h, s, c)
  }

  predicate InOrder(f: Frame, h: History, script: seq<ScanInfo>)
    decreases |script|
  {
    script == [] || (StepOk(f, h, script[0]) && InOrder(f, Script.Update(h, script[0]), script[1..]))
  }

  /** What is known of coefficient `k` once bits down to `al` have been sent. */
  function Expected(v: int, k: nat, al: int): int {
    if al < 0 then 0 else if k == 0 then DcApprox(v, al) else Approx(v, al)
  }

  predicate RowExpected(f: Frame, o: Block, z: Block, row: seq<int>)
    requires |row| == 64
  {
    forall k :: 0 <= k < 64 && k <= f.limSe ==> z[k] == Expected(o[k], k, row[k])
  }

  /** Coefficients of which nothing was sent are still zero. */
  predicate Unsent(f: Frame, z: Block, row: seq<int>)
    requires |row| == 64
  {
    forall k :: 0 <= k < 64 && k <= f.limSe && row[k] < 0 ==> z[k] == 0
  }

  ghost predicate Reconstructed(f: Frame, h: History, img: Image, pic: Image) {
    && |h| == |f.comps|
    && (forall p :: InPadded(f, p) ==> p in pic && Unsent(f, pic[p], h[p.comp]))
    && (forall p :: Real(f, p) ==> p in img && p in pic && RowExpected(f, img[p], pic[p], h[p.comp]))
  }

  /** A scan that is in order takes a block one step further. */
  lemma BlockStep(f: Frame, h: History, s: ScanInfo, c: nat, o: Block, z: Block)
    requires c < |h| && Params(f, s) && CompOk(h, s, c)
    requires RowExpected(f, o, z, h[c]) && Coefs(o)
    ensures Ready(KindOf(f, s), z, o)
    ensures RowExpected(f, o, After(KindOf(f, s), z, o), Script.UpdateRow(h[c], s))
  {
    hide DcApprox, Approx, SetBit, BitAt;
    if Script.SequentialScan(s) {
      DcApproxIsCoef(o[0], 0);
      forall k | 1 <= k <= f.limSe ensures Approx(o[k], 0) == o[k] {
        ApproxAll(o[k]);
      }
    } else {
      assert Script.NextBitOk(s, h[c][s.ss]);
      if s.ss == 0 && s.ah != 0 {
        assert h[c][0] == s.al + 1;
        DcRefined(z, o, s.al);
      }
    }
  }

  /** Blocks outside the real image keep zeros where nothing was sent. */
  lemma DummyStep(f: Frame, h: History, s: ScanInfo, c: nat, o: Block, z: Block)
    requires c < |h| && Params(f, s) && CompOk(h, s, c) && Unsent(f, z, h[c])
    ensures s.ss == 0 ==> Ready(KindOf(f, s), z, o)
    ensures Unsent(f, After(KindOf(f, s), z, o), Script.UpdateRow(h[c], s))
  {
    hide DcApprox, Approx, SetBit, BitAt;
  }

  ghost predicate GoodImage(f: Frame, img: Image) {
    ValidFrame(f) && RealImage(f, img) && forall p :: p in img ==> Coefs(img[p])
  }

  lemma PaddedCoefs(f: Frame, img: Image, p: Place)
    requires GoodImage(f, img)
    ensures Coefs(PaddedAt(f, img, p))
  {
  }

  function CompsOf(f: Frame, s: ScanInfo): (comps: seq<nat>)
    requires Script.CompsOk(s, |f.comps|)
    ensures ValidComps(f, comps) && |comps| == |s.comps|
    ensures forall c :: c in comps <==> c in s.comps
  {
    Increasing(s, |f.comps|);
    var comps: seq<nat> := seq(|s.comps|, i requires 0 <= i < |s.comps| => s.comps[i]);
    assert comps == s.comps;
    comps
  }

  lemma Increasing(s: ScanInfo, n: nat)
    requires Script.CompsOk(s, n)
    ensures forall i, j :: 0 <= i < j < |s.comps| ==> s.comps[i] < s.comps[j]
  {
    forall i, j | 0 <= i < j < |s.comps| ensures s.comps[i] < s.comps[j] {
      Script.ComponentsDistinct(s, n, j);
    }
  }

  function PlanOf(f: Frame, s: ScanInfo): seq<seq<Cell>>
    requires Script.CompsOk(s, |f.comps|)
  {
    Plan(f, CompsOf(f, s))
  }

  lemma PlanPlaces(f: Frame, s: ScanInfo)
    requires ValidFrame(f) && Script.CompsOk(s, |f.comps|)
    ensures Distinct(PlanOf(f, s))
    ensures forall p :: p in Visited(PlanOf(f, s))
                        <==> p.comp in s.comps && (if |s.comps| == 1 then Real(f, p) else InPadded(f, p))
  {
    hide Distinct, Visited;
    PlanVisits(f, CompsOf(f, s));
  }

  /** A real block of a component in the scan. */
  lemma RealStep(f: Frame, h: History, s: ScanInfo, img: Image, pic: Image, p: Place)
    requires GoodImage(f, img) && Reconstructed(f, h, img, pic) && StepOk(f, h, s)
    requires Real(f, p) && p.comp in s.comps
    ensures p in img && p in pic && PaddedAt(f, img, p) == img[p]
    ensures Ready(KindOf(f, s), pic[p], img[p])
    ensures RowExpected(f, img[p], After(KindOf(f, s), pic[p], img[p]), Script.UpdateRow(h[p.comp], s))
  {
    hide Ready, After, RowExpected, Unsent, Coefs, Script.UpdateRow, KindOf, CompOk;
    var i := IndexOf(s.comps, p.comp);
    assert CompOk(h, s, s.comps[i]);
    BlockStep(f, h, s, p.comp, img[p], pic[p]);
  }

  /** Any block of a component in the scan. */
  lemma PaddedStep(f: Frame, h: History, s: ScanInfo, img: Image, pic: Image, p: Place)
    requires GoodImage(f, img) && Reconstructed(f, h, img, pic) && StepOk(f, h, s)
    requires InPadded(f, p) && p.comp in s.comps
    ensures p in pic && (s.ss == 0 ==> Ready(KindOf(f, s), pic[p], PaddedAt(f, img, p)))
    ensures Unsent(f, After(KindOf(f, s), pic[p], PaddedAt(f, img, p)), Script.UpdateRow(h[p.comp], s))
  {
    hide Ready, After, RowExpected, Unsent, Coefs, PaddedAt, Script.UpdateRow, KindOf, CompOk;
    var i := IndexOf(s.comps, p.comp);
    assert CompOk(h, s, s.comps[i]);
    DummyStep(f, h, s, p.comp, PaddedAt(f, img, p), pic[p]);
  }

  lemma ManyComps(f: Frame, s: ScanInfo)
    requires Params(f, s) && |s.comps| > 1
    ensures s.ss == 0
  {
  }

  lemma PlaceReady(f: Frame, h: History, s: ScanInfo, img: Image, pic: Image, p: Place)
    requires GoodImage(f, img) && Reconstructed(f, h, img, pic) && StepOk(f, h, s)
    requires p in Visited(PlanOf(f, s))
    ensures p in pic && Coefs(PaddedAt(f, img, p)) && Ready(KindOf(f, s), pic[p], PaddedAt(f, img, p))
  {
    PlanPlaces(f, s);
    PaddedCoefs(f, img, p);
    if |s.comps| > 1 {
      ManyComps(f, s);
    }
    hide Visited, Ready, Coefs, PaddedAt, PlanOf, KindOf, RowExpected, Unsent, Params;
    if Real(f, p) {
      RealStep(f, h, s, img, pic, p);
    } else {
      PaddedStep(f, h, s, img, pic, p);
    }
  }

  lemma PlaceKept(f: Frame, h: History, s: ScanInfo, img: Image, pic: Image, p: Place)
    requires GoodImage(f, img) && Reconstructed(f, h, img, pic) && StepOk(f, h, s) && InPadded(f, p)
    ensures var pic', row := PictureAfter(f, KindOf(f, s), img, pic, PlanOf(f, s)), Script.Update(h, s)[p.comp];
            && p in pic' && Unsent(f, pic'[p], row)
            && (Real(f, p) ==> p in img && RowExpected(f, img[p], pic'[p], row))
  {
    PlanPlaces(f, s);
    hide Visited, Ready, After, Coefs, PaddedAt, PlanOf, KindOf, RowExpected, Params, Script.UpdateRow;
    if p.comp in s.comps {
      PaddedStep(f, h, s, img, pic, p);
      if Real(f, p) {
        RealStep(f, h, s, img, pic, p);
      } else {
        UnsentLess(f, pic[p], h[p.comp], s);
      }
    }
  }

  lemma UnsentLess(f: Frame, z: Block, row: seq<int>, s: ScanInfo)
    requires |row| == 64 && Unsent(f, z, row) && s.al >= 0
    ensures Unsent(f, z, Script.UpdateRow(row, s))
  {
  }

  /** A scan that is in order finds every block ready, and takes the arrays one step further. */
  lemma ScanKeeps(f: Frame, h: History, s: ScanInfo, img: Image, pic: Image)
    requires GoodImage(f, img) && Reconstructed(f, h, img, pic) && StepOk(f, h, s)
    ensures PictureReady(f, KindOf(f, s), img, pic, PlanOf(f, s))
    ensures Reconstructed(f, Script.Update(h, s), img, PictureAfter(f, KindOf(f, s), img, pic, PlanOf(f, s)))
  {
    assert Params(f, s) && ValidFrame(f) && Script.CompsOk(s, |f.comps|);
    hide Ready, RowExpected, Unsent, Coefs, PaddedAt, Visited, PlanOf, KindOf, PictureAfter, GoodImage, StepOk,
      Params, RealImage, Script.Update;
    forall p | p in Visited(PlanOf(f, s))
      ensures p in pic && Coefs(PaddedAt(f, img, p)) && Ready(KindOf(f, s), pic[p], PaddedAt(f, img, p))
    {
      PlaceReady(f, h, s, img, pic, p);
    }
    var h', pic' := Script.Update(h, s), PictureAfter(f, KindOf(f, s), img, pic, PlanOf(f, s));
    forall p | InPadded(f, p)
      ensures p in pic' && Unsent(f, pic'[p], h'[p.comp])
      ensures Real(f, p) ==> p in img && RowExpected(f, img[p], pic'[p], h'[p.comp])
    {
      PlaceKept(f, h, s, img, pic, p);
    }
    forall p | Real(f, p)
      ensures p in img && p in pic' && RowExpected(f, img[p], pic'[p], h'[p.comp])
    {
      RealInPadded(f, p);
    }
  }

  lemma IndexOf(xs: seq<int>, x: int) returns (i: nat)
    requires x in xs
    ensures i < |xs| && xs[i] == x
  {
    i :| 0 <= i < |xs| && xs[i] == x;
  }

  // ----- scripts

  /** A scan of the file: its header bytes and its coding parameters. */
  datatype Part = Part(header: seq<byte>, c: Scan)

  /** The header begins with a marker and the parameters are those of the script. */
  predicate PartOk(f: Frame, s: ScanInfo, part: Part) {
    && Params(f, s)
    && part.c.kind == KindOf(f, s) && |part.c.qs| == |s.comps|
    && |part.header| >= 2 && part.header[0] == 0xFF && part.header[1] != 0 && part.header[1] != 0xFF
  }

  predicate PartsOk(f: Frame, script: seq<ScanInfo>, parts: seq<Part>) {
    |parts| == |script| && forall i :: 0 <= i < |script| ==> PartOk(f, script[i], parts[i])
  }

  /** The MCUs of a scan. */
  function McusOf(f: Frame, s: ScanInfo, part: Part, img: Image): (ms: seq<seq<McuBlock>>)
    requires PartOk(f, s, part)
    ensures ValidMcus(part.c, ms)
  {
    PlanFits(f, s, part);
    PlanBlocksValid(part.c, f, img, PlanOf(f, s));
    PlanBlocks(f, img, PlanOf(f, s))
  }

  lemma PlanFits(f: Frame, s: ScanInfo, part: Part)
    requires PartOk(f, s, part)
    ensures GoodPlan(part.c, PlanOf(f, s))
  {
    hide PlanRows;
    var comps := CompsOf(f, s);
    PlanGood(f, comps, McuRowsInScan(f, comps));
    var plan := PlanOf(f, s);
    forall i | 0 <= i < |plan| ensures GoodFor(part.c, plan[i]) {
      assert GoodMcu(f, comps, plan[i]);
      forall j | 0 <= j < |plan[i]| ensures plan[i][j].ci < |part.c.qs| {
        assert GoodCell(f, comps, plan[i][j]);
      }
    }
  }

  /** The headers and scans of a file, with the statistics carried from scan to scan. */
  function EncodeScans(f: Frame, script: seq<ScanInfo>, parts: seq<Part>, stats: Statistics, img: Image): seq<byte>
    requires PartsOk(f, script, parts)
    decreases |script|
  {
    if script == [] then [] else
    var (bytes, stats') := EncodeScan(parts[0].c, stats, McusOf(f, script[0], parts[0], img));
    parts[0].header + bytes + EncodeScans(f, script[1..], parts[1..], stats', img)
  }

  /** No scan has a DC difference beyond 2^15. */
  predicate ScansFit(f: Frame, script: seq<ScanInfo>, parts: seq<Part>, stats: Statistics, img: Image)
    requires PartsOk(f, script, parts)
    decreases |script|
  {
    script == [] ||
    var ms := McusOf(f, script[0], parts[0], img);
    && Fits(parts[0].c, stats, ms)
    && ScansFit(f, script[1..], parts[1..], EncodeScan(parts[0].c, stats, ms).1, img)
  }

  datatype ImageRead = ImageRead(ok: bool, pic: Image, pos: nat)

  predicate Padded(f: Frame, pic: Image, script: seq<ScanInfo>, parts: seq<Part>)
    requires PartsOk(f, script, parts)
  {
    forall i :: 0 <= i < |script| ==> HoldsAll(pic, PlanOf(f, script[i]))
  }

  /** Decodes the scans one after the other, the headers being understood as the encoder meant them. */
  function DecodeScans(f: Frame, script: seq<ScanInfo>, parts: seq<Part>, input: seq<byte>, pos: nat,
                       stats: Statistics, pic: Image): ImageRead
    requires PartsOk(f, script, parts) && Padded(f, pic, script, parts)
    decreases |script|
  {
    if script == [] then ImageRead(true, pic, pos) else
    if !StandsAt(input, pos, parts[0].header) then ImageRead(false, pic, pos) else
    PlanFits(f, script[0], parts[0]);
    var r := DecodePicture(parts[0].c, input, pos + |parts[0].header|, stats, pic, PlanOf(f, script[0]));
    if !r.ok || r.end.pos < 2 then ImageRead(false, r.pic, r.end.pos) else
    DecodeKeys(parts[0].c, input, pos + |parts[0].header|, stats, pic, PlanOf(f, script[0]));
    DecodeScans(f, script[1..], parts[1..], input, r.end.pos - 2, r.stats, r.pic)
  }

  lemma DecodeKeys(c: Scan, input: seq<byte>, pos: nat, stats: Statistics, pic: Image, plan: seq<seq<Cell>>)
    requires pos <= |input| && HoldsAll(pic, plan) && GoodPlan(c, plan)
    ensures DecodePicture(c, input, pos, stats, pic, plan).pic.Keys == pic.Keys
  {
  }

  /** What follows a scan begins with a marker. */
  lemma NextIsMarker(f: Frame, script: seq<ScanInfo>, parts: seq<Part>, stats: Statistics, img: Image, m: byte)
    requires PartsOk(f, script, parts) && m != 0 && m != 0xFF
    ensures var rest := EncodeScans(f, script, parts, stats, img) + [0xFF, m];
            |rest| >= 2 && rest[0] == 0xFF && rest[1] != 0 && rest[1] != 0xFF
  {
    if script != [] {
      assert PartOk(f, script[0], parts[0]);
    }
  }

  lemma StandsParts(input: seq<byte>, pos: nat, a: seq<byte>, b: seq<byte>)
    requires StandsAt(input, pos, a + b)
    ensures StandsAt(input, pos, a) && StandsAt(input, pos + |a|, b)
  {
    var w := a + b;
    var s := input[pos..pos + |w|];
    assert input[pos..pos + |a|] == s[..|a|];
    assert input[pos + |a|..pos + |w|] == s[|a|..];
  }

  /** Where the pieces of the file stand. */
  lemma FilePieces(input: seq<byte>, pos: nat, header: seq<byte>, bytes: seq<byte>, rest: seq<byte>, m: byte)
    requires var after := rest + [0xFF, m]; |after| >= 2 && after[0] == 0xFF
    requires StandsAt(input, pos, header + bytes + rest + [0xFF, m])
    ensures StandsAt(input, pos, header)
    ensures StandsAt(input, pos + |header| + |bytes|, rest + [0xFF, m])
    ensures StandsAt(input, pos + |header|, bytes + [0xFF, (rest + [0xFF, m])[1]])
  {
    hide StandsAt;
    var after := rest + [0xFF, m];
    assert header + bytes + rest + [0xFF, m] == header + (bytes + after);
    StandsParts(input, pos, header, bytes + after);
    StandsParts(input, pos + |header|, bytes, after);
    assert bytes + after == (bytes + [0xFF, after[1]]) + after[2..];
    StandsParts(input, pos + |header|, bytes + [0xFF, after[1]], after[2..]);
  }

  /** One scan into the arrays. */
  lemma ScanIntoPicture(f: Frame, h: History, s: ScanInfo, part: Part, stats: Statistics, img: Image,
                        input: seq<byte>, pos: nat, pic: Image, m: byte)
    requires GoodImage(f, img) && Reconstructed(f, h, img, pic) && StepOk(f, h, s) && PartOk(f, s, part)
    requires HoldsAll(pic, PlanOf(f, s)) && GoodPlan(part.c, PlanOf(f, s)) && m != 0 && m != 0xFF
    requires StandsAt(input, pos, EncodeScan(part.c, stats, McusOf(f, s, part, img)).0 + [0xFF, m])
    ensures pos <= |input|
    ensures var (bytes, stats') := EncodeScan(part.c, stats, McusOf(f, s, part, img));
            var r := DecodePicture(part.c, input, pos, stats, pic, PlanOf(f, s));
            && (PictureClean(part.c, input, pos, stats, pic, PlanOf(f, s)) <==> Fits(part.c, stats, McusOf(f, s, part, img)))
            && (Fits(part.c, stats, McusOf(f, s, part, img)) ==>
                  && r.ok && r.end == Cursor(pos + |bytes| + 2, m) && r.stats == stats'
                  && Reconstructed(f, Script.Update(h, s), img, r.pic))
  {
    ScanKeeps(f, h, s, img, pic);
    PlanPlaces(f, s);
    hide EncodeScan, Fits, DecodePicture, PictureAfter, PictureReady, Reconstructed, Visited, Distinct, GoodImage, StandsAt,
      PlanOf, PlanBlocks, KindOf, StepOk, Params, HoldsAll, GoodPlan, PictureClean;
    PictureExact(part.c, f, img, stats, input, pos, pic, PlanOf(f, s), m);
    if Fits(part.c, stats, McusOf(f, s, part, img)) {
      PictureRoundTrip(part.c, f, img, stats, input, pos, pic, PlanOf(f, s), m);
    }
  }

  lemma EncodeFirstScan(f: Frame, script: seq<ScanInfo>, parts: seq<Part>, stats: Statistics, img: Image)
    requires PartsOk(f, script, parts) && script != []
    ensures PartOk(f, script[0], parts[0]) && PartsOk(f, script[1..], parts[1..])
    ensures Script.CompsOk(script[0], |f.comps|)
    ensures var (bytes, stats') := EncodeScan(parts[0].c, stats, McusOf(f, script[0], parts[0], img));
            && EncodeScans(f, script, parts, stats, img)
               == parts[0].header + bytes + EncodeScans(f, script[1..], parts[1..], stats', img)
            && (ScansFit(f, script, parts, stats, img) <==>
                  && Fits(parts[0].c, stats, McusOf(f, script[0], parts[0], img))
                  && ScansFit(f, script[1..], parts[1..], stats', img))
  {
    hide EncodeScan, McusOf, Fits;
  }

  /** The arrays hold every block of the padded image. */
  ghost predicate HoldsPadded(f: Frame, pic: Image) {
    forall p :: InPadded(f, p) ==> p in pic
  }

  lemma PaddedHolds(f: Frame, pic: Image, s: ScanInfo)
    requires ValidFrame(f) && HoldsPadded(f, pic) && Script.CompsOk(s, |f.comps|)
    ensures HoldsAll(pic, PlanOf(f, s))
  {
    PlanPlaces(f, s);
    hide Visited, PlanOf;
    forall p | p in Visited(PlanOf(f, s)) ensures p in pic {
      if Real(f, p) {
        RealInPadded(f, p);
      }
    }
  }

  lemma PaddedHoldsAll(f: Frame, pic: Image, script: seq<ScanInfo>, parts: seq<Part>)
    requires ValidFrame(f) && HoldsPadded(f, pic) && PartsOk(f, script, parts)
    ensures Padded(f, pic, script, parts)
  {
    forall i | 0 <= i < |script| ensures HoldsAll(pic, PlanOf(f, script[i])) {
      assert PartOk(f, script[i], parts[i]);
      PaddedHolds(f, pic, script[i]);
    }
  }

  /**
   Progressive reconstruction: for any script whose scans are in order, any image,
   any restart intervals and conditioning, and whatever follows, decoding the scans
   leaves each coefficient of each block as sent down to its latest bit position.
   */
  lemma {:induction false} ScansRoundTrip(f: Frame, h: History, script: seq<ScanInfo>, parts: seq<Part>, stats: Statistics,
                                          img: Image, input: seq<byte>, pos: nat, pic: Image, m: byte)
    requires GoodImage(f, img) && Reconstructed(f, h, img, pic) && InOrder(f, h, script)
    requires PartsOk(f, script, parts) && ScansFit(f, script, parts, stats, img)
    requires m != 0 && m != 0xFF && StandsAt(input, pos, EncodeScans(f, script, parts, stats, img) + [0xFF, m])
    ensures Padded(f, pic, script, parts)
    ensures var r := DecodeScans(f, script, parts, input, pos, stats, pic);
            && r.ok && r.pos == pos + |EncodeScans(f, script, parts, stats, img)|
            && Reconstructed(f, Script.After(h, script), img, r.pic)
    decreases |script|
  {
    hide EncodeScan, Fits, DecodePicture, GoodImage, StandsAt, McusOf, PlanOf, KindOf, PartOk, HoldsAll, GoodPlan,
      StepOk, Script.Update, HoldsPadded, PictureClean;
    assert ValidFrame(f) by { GoodFrame(f, img); }
    assert HoldsPadded(f, pic) by { PaddedHeld(f, h, img, pic); }
    hide Reconstructed;
    PaddedHoldsAll(f, pic, script, parts);
    if script != [] {
      var s, part := script[0], parts[0];
      EncodeFirstScan(f, script, parts, stats, img);
      var (bytes, stats') := EncodeScan(part.c, stats, McusOf(f, s, part, img));
      var rest := EncodeScans(f, script[1..], parts[1..], stats', img);
      NextIsMarker(f, script[1..], parts[1..], stats', img, m);
      FilePieces(input, pos, part.header, bytes, rest, m);
      PlanFits(f, s, part);
      assert HoldsAll(pic, PlanOf(f, s));
      ScanIntoPicture(f, h, s, part, stats, img, input, pos + |part.header|, pic, (rest + [0xFF, m])[1]);
      var r := DecodePicture(part.c, input, pos + |part.header|, stats, pic, PlanOf(f, s));
      ScansRoundTrip(f, Script.Update(h, s), script[1..], parts[1..], stats', img, input,
                     pos + |part.header| + |bytes|, r.pic, m);
    }
  }

  /** In all the scans, no MCU makes the decoder give up on a segment. */
  predicate ScansClean(f: Frame, script: seq<ScanInfo>, parts: seq<Part>, input: seq<byte>, pos: nat,
                       stats: Statistics, pic: Image)
    requires PartsOk(f, script, parts) && Padded(f, pic, script, parts)
    decreases |script|
  {
    script == [] ||
    (StandsAt(input, pos, parts[0].header) &&
     (PlanFits(f, script[0], parts[0]);
      var at := pos + |parts[0].header|;
      PictureClean(parts[0].c, input, at, stats, pic, PlanOf(f, script[0])) &&
      (var r := DecodePicture(parts[0].c, input, at, stats, pic, PlanOf(f, script[0]));
       DecodeKeys(parts[0].c, input, at, stats, pic, PlanOf(f, script[0]));
       r.ok && r.end.pos >= 2 && ScansClean(f, script[1..], parts[1..], input, r.end.pos - 2, r.stats, r.pic))))
  }

  /** A file is read cleanly exactly when no DC difference in it is beyond 2^15. */
  lemma {:induction false} ScansExact(f: Frame, h: History, script: seq<ScanInfo>, parts: seq<Part>, stats: Statistics,
                                      img: Image, input: seq<byte>, pos: nat, pic: Image, m: byte)
    requires GoodImage(f, img) && Reconstructed(f, h, img, pic) && InOrder(f, h, script) && PartsOk(f, script, parts)
    requires m != 0 && m != 0xFF && StandsAt(input, pos, EncodeScans(f, script, parts, stats, img) + [0xFF, m])
    ensures Padded(f, pic, script, parts)
    ensures ScansClean(f, script, parts, input, pos, stats, pic) <==> ScansFit(f, script, parts, stats, img)
    decreases |script|
  {
    hide EncodeScan, Fits, DecodePicture, GoodImage, StandsAt, McusOf, PlanOf, KindOf, PartOk, HoldsAll, GoodPlan,
      StepOk, Script.Update, HoldsPadded, PictureClean;
    assert ValidFrame(f) by { GoodFrame(f, img); }
    assert HoldsPadded(f, pic) by { PaddedHeld(f, h, img, pic); }
    hide Reconstructed;
    PaddedHoldsAll(f, pic, script, parts);
    if script != [] {
      var s, part := script[0], parts[0];
      EncodeFirstScan(f, script, parts, stats, img);
      var (bytes, stats') := EncodeScan(part.c, stats, McusOf(f, s, part, img));
      var rest := EncodeScans(f, script[1..], parts[1..], stats', img);
      NextIsMarker(f, script[1..], parts[1..], stats', img, m);
      FilePieces(input, pos, part.header, bytes, rest, m);
      PlanFits(f, s, part);
      assert HoldsAll(pic, PlanOf(f, s));
      ScanIntoPicture(f, h, s, part, stats, img, input, pos + |part.header|, pic, (rest + [0xFF, m])[1]);
      if Fits(part.c, stats, McusOf(f, s, part, img)) {
        var r := DecodePicture(part.c, input, pos + |part.header|, stats, pic, PlanOf(f, s));
        ScansExact(f, Script.Update(h, s), script[1..], parts[1..], stats', img, input,
                   pos + |part.header| + |bytes|, r.pic, m);
      }
    }
  }

  lemma GoodFrame(f: Frame, img: Image)
    requires GoodImage(f, img)
    ensures ValidFrame(f)
  {
  }

  lemma PaddedHeld(f: Frame, h: History, img: Image, pic: Image)
    requires Reconstructed(f, h, img, pic)
    ensures HoldsPadded(f, pic)
  {
  }
}
