/**
 One scan into the decoder's coefficient arrays: blocks are read from and written
 back to the places the scan visits.
 */
module ImageScan {
  import opened Bytes
  import opened CodingInterval
  import opened SegmentSource
  import opened BlockModel
  import opened ScanModel
  import opened ScanStream
  import opened Geometry
  import opened BlockPadding

  predicate Holds(pic: Image, mcu: seq<Cell>) {
    forall j :: 0 <= j < |mcu| ==> mcu[j].at in pic
  }

  function Gather(pic: Image, mcu: seq<Cell>): (bs: seq<McuBlock>)
    requires Holds(pic, mcu)
    ensures |bs| == |mcu| && forall j :: 0 <= j < |mcu| ==> bs[j] == McuBlock(mcu[j].ci, pic[mcu[j].at])
  {
    seq(|mcu|, j requires 0 <= j < |mcu| => McuBlock(mcu[j].ci, pic[mcu[j].at]))
  }

  function Store(pic: Image, mcu: seq<Cell>, bs: seq<McuBlock>): (pic': Image)
    requires |bs| == |mcu|
    ensures pic'.Keys == pic.Keys + CellsOf(mcu)
    decreases |mcu|
  {
    if mcu == [] then pic else
    var last := |mcu| - 1;
    assert mcu == mcu[..last] + [mcu[last]];
    CellsConcat(mcu[..last], [mcu[last]]);
    assert CellsOf([mcu[last]]) == {mcu[last].at} by { OneCell(mcu[last]); }
    Store(pic, mcu[..last], bs[..last])[mcu[last].at := bs[last].z]
  }

  lemma OneCell(x: Cell)
    ensures CellsOf([x]) == {x.at}
  {
    assert [x][0].at in CellsOf([x]);
  }

  lemma {:induction false} StoreIs(pic: Image, mcu: seq<Cell>, bs: seq<McuBlock>)
    requires |bs| == |mcu| && Inner(mcu)
    ensures forall j :: 0 <= j < |mcu| ==> mcu[j].at in Store(pic, mcu, bs) && Store(pic, mcu, bs)[mcu[j].at] == bs[j].z
    ensures forall p :: p in pic && p !in CellsOf(mcu) ==> Store(pic, mcu, bs)[p] == pic[p]
    decreases |mcu|
  {
    if mcu != [] {
      var last := |mcu| - 1;
      assert mcu == mcu[..last] + [mcu[last]];
      CellsConcat(mcu[..last], [mcu[last]]);
      OneCell(mcu[last]);
      StoreIs(pic, mcu[..last], bs[..last]);
    }
  }

  predicate HoldsAll(pic: Image, plan: seq<seq<Cell>>) {
    Visited(plan) <= pic.Keys
  }

  predicate GoodPlan(c: Scan, plan: seq<seq<Cell>>) {
    forall i :: 0 <= i < |plan| ==> GoodFor(c, plan[i])
  }

  predicate GoodFor(c: Scan, mcu: seq<Cell>) {
    forall j :: 0 <= j < |mcu| ==> mcu[j].ci < |c.qs|
  }

  lemma HoldsHead(pic: Image, plan: seq<seq<Cell>>)
    requires HoldsAll(pic, plan) && plan != []
    ensures Holds(pic, plan[0]) && HoldsAll(pic, plan[1..])
    ensures CellsOf(plan[0]) <= pic.Keys
  {
    forall j | 0 <= j < |plan[0]| ensures plan[0][j].at in pic {
      assert plan[0][j].at in CellsOf(plan[0]);
    }
  }

  lemma GatherValid(c: Scan, pic: Image, mcu: seq<Cell>)
    requires Holds(pic, mcu) && GoodFor(c, mcu)
    ensures ValidMcu(Gather(pic, mcu), |c.qs|)
  {
  }

  /** Decodes the MCUs of a scan, each from and into its places in the arrays. */
  function DecodePlan(c: Scan, input: seq<byte>, s: DecoderState, pic: Image, plan: seq<seq<Cell>>): (r: (DecoderState, Image))
    requires DecoderReady(c, input, s) && HoldsAll(pic, plan) && GoodPlan(c, plan)
    ensures DecoderReady(c, input, r.0) && r.1.Keys == pic.Keys
    decreases |plan|
  {
    if plan == [] then (s, pic) else
    HoldsHead(pic, plan);
    GatherValid(c, pic, plan[0]);
    var (s1, bs) := DecodeMcu(c, input, s, Gather(pic, plan[0]));
    DecodePlan(c, input, s1, Store(pic, plan[0], bs), plan[1..])
  }

  /** The arrays after a scan of the original `img`. */
  function PictureAfter(f: Frame, kind: Kind, img: Image, pic: Image, plan: seq<seq<Cell>>): (r: Image)
    requires ValidKind(kind)
    ensures r.Keys == pic.Keys
  {
    map p | p in pic :: if p in Visited(plan) then After(kind, pic[p], PaddedAt(f, img, p)) else pic[p]
  }

  /** Every visited block is ready for the scan. */
  ghost predicate PictureReady(f: Frame, kind: Kind, img: Image, pic: Image, plan: seq<seq<Cell>>)
    requires ValidKind(kind)
  {
    forall p :: p in Visited(plan) ==>
      p in pic && Coefs(PaddedAt(f, img, p)) && Ready(kind, pic[p], PaddedAt(f, img, p))
  }

  /** The blocks of the visited places, as the decoder has them. */
  function GatherAll(pic: Image, plan: seq<seq<Cell>>): (ms: seq<seq<McuBlock>>)
    requires HoldsAll(pic, plan)
    ensures |ms| == |plan|
    decreases |plan|
  {
    if plan == [] then [] else
    HoldsHead(pic, plan);
    [Gather(pic, plan[0])] + GatherAll(pic, plan[1..])
  }

  lemma {:induction false} GatherSame(pic: Image, other: Image, plan: seq<seq<Cell>>)
    requires HoldsAll(pic, plan) && HoldsAll(other, plan)
    requires forall p :: p in Visited(plan) ==> pic[p] == other[p]
    ensures GatherAll(pic, plan) == GatherAll(other, plan)
    decreases |plan|
  {
    if plan != [] {
      HoldsHead(pic, plan);
      HoldsHead(other, plan);
      forall j | 0 <= j < |plan[0]| ensures Gather(pic, plan[0])[j] == Gather(other, plan[0])[j] {
        assert plan[0][j].at in CellsOf(plan[0]);
      }
      assert Gather(pic, plan[0]) == Gather(other, plan[0]);
      GatherSame(pic, other, plan[1..]);
      assert GatherAll(pic, plan) == [Gather(pic, plan[0])] + GatherAll(pic, plan[1..]);
      assert GatherAll(other, plan) == [Gather(other, plan[0])] + GatherAll(other, plan[1..]);
    }
  }

  lemma {:induction false} GatherGood(c: Scan, pic: Image, plan: seq<seq<Cell>>)
    requires HoldsAll(pic, plan) && GoodPlan(c, plan)
    ensures ValidMcus(c, GatherAll(pic, plan))
    decreases |plan|
  {
    if plan != [] {
      HoldsHead(pic, plan);
      GatherValid(c, pic, plan[0]);
      GatherGood(c, pic, plan[1..]);
    }
  }

  function StoreAll(pic: Image, plan: seq<seq<Cell>>, ms: seq<seq<McuBlock>>): (pic': Image)
    requires |ms| == |plan| && forall i :: 0 <= i < |plan| ==> |ms[i]| == |plan[i]|
    decreases |plan|
  {
    if plan == [] then pic else StoreAll(Store(pic, plan[0], ms[0]), plan[1..], ms[1..])
  }

  /** No block is visited twice, so reading as one goes is reading beforehand. */
  lemma {:induction false} DecodePlanIs(c: Scan, input: seq<byte>, s: DecoderState, pic: Image, plan: seq<seq<Cell>>)
    requires DecoderReady(c, input, s) && HoldsAll(pic, plan) && GoodPlan(c, plan) && Distinct(plan)
    ensures ValidMcus(c, GatherAll(pic, plan))
    ensures var (s', rs) := DecodeMcus(c, input, s, GatherAll(pic, plan));
            && |rs| == |plan| && (forall i :: 0 <= i < |plan| ==> |rs[i]| == |plan[i]|)
            && DecodePlan(c, input, s, pic, plan) == (s', StoreAll(pic, plan, rs))
    decreases |plan|
  {
    hide DecodeMcu, Store, CellsOf, Visited;
    GatherGood(c, pic, plan);
    if plan != [] {
      HoldsHead(pic, plan);
      GatherValid(c, pic, plan[0]);
      var (s1, bs) := DecodeMcu(c, input, s, Gather(pic, plan[0]));
      var pic1 := Store(pic, plan[0], bs);
      StoreIs(pic, plan[0], bs);
      assert pic1.Keys == pic.Keys;
      DecodePlanIs(c, input, s1, pic1, plan[1..]);
      assert forall p :: p in Visited(plan[1..]) ==> p in pic && pic[p] == pic1[p];
      GatherSame(pic, pic1, plan[1..]);
      assert GatherAll(pic, plan)[1..] == GatherAll(pic1, plan[1..]);
      var rest := DecodeMcus(c, input, s1, GatherAll(pic1, plan[1..])).1;
      assert ([bs] + rest)[1..] == rest;
    }
  }

  /** Storing one MCU's blocks is the first step of what the scan does to the arrays. */
  lemma FirstMcuStored(f: Frame, kind: Kind, img: Image, pic: Image, plan: seq<seq<Cell>>, bs: seq<McuBlock>)
    requires ValidKind(kind) && HoldsAll(pic, plan) && Distinct(plan) && plan != []
    requires McuAfter(f, kind, img, pic, plan[0], bs)
    ensures var pic1 := Store(pic, plan[0], bs);
            && pic1.Keys == pic.Keys
            && (forall p :: p in Visited(plan[1..]) ==> p in pic && pic1[p] == pic[p])
            && PictureAfter(f, kind, img, pic1, plan[1..]) == PictureAfter(f, kind, img, pic, plan)
  {
    hide After, PaddedAt, Store, CellsOf;
    HoldsHead(pic, plan);
    StoreIs(pic, plan[0], bs);
    var pic1 := Store(pic, plan[0], bs);
    assert pic1.Keys == pic.Keys;
    var a, b := PictureAfter(f, kind, img, pic1, plan[1..]), PictureAfter(f, kind, img, pic, plan);
    forall p | p in pic ensures a[p] == b[p] {
      if p in CellsOf(plan[0]) {
        var j := CellAt(plan[0], p);
        assert p !in Visited(plan[1..]);
      } else if p in Visited(plan[1..]) {
        assert pic1[p] == pic[p];
      }
    }
    assert a == b;
  }

  lemma CellAt(mcu: seq<Cell>, p: Place) returns (j: nat)
    requires p in CellsOf(mcu)
    ensures j < |mcu| && mcu[j].at == p
  {
    j :| 0 <= j < |mcu| && mcu[j].at == p;
  }

  /** The decoded blocks, as given by the originals. */
  lemma {:induction false} StoreAllIs(f: Frame, kind: Kind, img: Image, pic: Image, plan: seq<seq<Cell>>, ms: seq<seq<McuBlock>>)
    requires ValidKind(kind) && HoldsAll(pic, plan) && Distinct(plan)
    requires |ms| == |plan| && forall i :: 0 <= i < |plan| ==> |ms[i]| == |plan[i]|
    requires forall i :: 0 <= i < |plan| ==> McuAfter(f, kind, img, pic, plan[i], ms[i])
    ensures StoreAll(pic, plan, ms) == PictureAfter(f, kind, img, pic, plan)
    decreases |plan|
  {
    hide After, PaddedAt, Store, McuAfter, PictureAfter, Visited, CellsOf;
    if plan != [] {
      HoldsHead(pic, plan);
      var pic1 := Store(pic, plan[0], ms[0]);
      FirstMcuStored(f, kind, img, pic, plan, ms[0]);
      forall i | 0 <= i < |plan| - 1 ensures McuAfter(f, kind, img, pic1, plan[1..][i], ms[1..][i]) {
        assert McuAfter(f, kind, img, pic, plan[i + 1], ms[i + 1]);
        McuVisited(plan[1..], i);
        McuAfterSame(f, kind, img, pic, pic1, plan[1..][i], ms[1..][i]);
      }
      StoreAllIs(f, kind, img, pic1, plan[1..], ms[1..]);
    } else {
      NothingVisited(f, kind, img, pic);
    }
  }

  lemma NothingVisited(f: Frame, kind: Kind, img: Image, pic: Image)
    requires ValidKind(kind)
    ensures PictureAfter(f, kind, img, pic, []) == pic
  {
    hide After, PaddedAt;
  }

  lemma McuAfterSame(f: Frame, kind: Kind, img: Image, pic: Image, pic1: Image, mcu: seq<Cell>, bs: seq<McuBlock>)
    requires ValidKind(kind) && McuAfter(f, kind, img, pic, mcu, bs)
    requires forall j :: 0 <= j < |mcu| ==> mcu[j].at in pic1 && mcu[j].at in pic && pic1[mcu[j].at] == pic[mcu[j].at]
    ensures McuAfter(f, kind, img, pic1, mcu, bs)
  {
    hide After, PaddedAt;
  }

  predicate McuAfter(f: Frame, kind: Kind, img: Image, pic: Image, mcu: seq<Cell>, bs: seq<McuBlock>)
    requires ValidKind(kind)
  {
    |bs| == |mcu| && forall j :: 0 <= j < |mcu| ==>
      mcu[j].at in pic && bs[j].z == After(kind, pic[mcu[j].at], PaddedAt(f, img, mcu[j].at))
  }

  lemma {:induction false} McuVisited(plan: seq<seq<Cell>>, i: nat)
    requires i < |plan|
    ensures CellsOf(plan[i]) <= Visited(plan)
    ensures forall j :: 0 <= j < |plan[i]| ==> plan[i][j].at in CellsOf(plan[i])
    decreases i
  {
    if i > 0 {
      McuVisited(plan[1..], i - 1);
    }
  }

  lemma {:induction false} GatherAt(pic: Image, plan: seq<seq<Cell>>, i: nat)
    requires HoldsAll(pic, plan) && i < |plan|
    ensures Holds(pic, plan[i]) && GatherAll(pic, plan)[i] == Gather(pic, plan[i])
    decreases i
  {
    HoldsHead(pic, plan);
    if i > 0 {
      GatherAt(pic, plan[1..], i - 1);
    }
  }

  // ----- one scan

  datatype PictureRead = PictureRead(ok: bool, pic: Image, stats: Statistics, end: Cursor)

  function DecodePicture(c: Scan, input: seq<byte>, pos: nat, stats: Statistics, pic: Image, plan: seq<seq<Cell>>): PictureRead
    requires pos <= |input| && HoldsAll(pic, plan) && GoodPlan(c, plan)
  {
    var (s, pic') := DecodePlan(c, input, StartDecode(c, input, pos, stats), pic, plan);
    PictureRead(!s.failed, pic', s.x.stats, s.end)
  }

  lemma PlanBlocksValid(c: Scan, f: Frame, img: Image, plan: seq<seq<Cell>>)
    requires GoodPlan(c, plan)
    ensures ValidMcus(c, PlanBlocks(f, img, plan))
  {
    hide PaddedAt;
    var ms := PlanBlocks(f, img, plan);
    forall i | 0 <= i < |ms| ensures ValidMcu(ms[i], |c.qs|) {
      assert GoodFor(c, plan[i]);
    }
  }

  lemma PictureScanReady(c: Scan, f: Frame, img: Image, pic: Image, plan: seq<seq<Cell>>)
    requires HoldsAll(pic, plan) && PictureReady(f, c.kind, img, pic, plan)
    ensures ScanReady(c, GatherAll(pic, plan), PlanBlocks(f, img, plan))
    ensures var rs := ScanAfter(c, GatherAll(pic, plan), PlanBlocks(f, img, plan));
            forall i :: 0 <= i < |plan| ==> McuAfter(f, c.kind, img, pic, plan[i], rs[i])
  {
    hide PaddedAt, Ready, After, Coefs, Visited, GatherAll, CellsOf;
    var zs, os := GatherAll(pic, plan), PlanBlocks(f, img, plan);
    forall i | 0 <= i < |plan|
      ensures AllReady(c.kind, zs[i], os[i])
      ensures McuAfter(f, c.kind, img, pic, plan[i], AllAfter(c.kind, zs[i], os[i]))
    {
      GatherAt(pic, plan, i);
      McuVisited(plan, i);
    }
  }

  /** A scan takes every visited block to what the scan sends of the original. */
  lemma PictureRoundTrip(c: Scan, f: Frame, img: Image, stats: Statistics, input: seq<byte>, pos: nat,
                         pic: Image, plan: seq<seq<Cell>>, m: byte)
    requires GoodPlan(c, plan) && Distinct(plan) && HoldsAll(pic, plan) && PictureReady(f, c.kind, img, pic, plan)
    requires ValidMcus(c, PlanBlocks(f, img, plan)) && Fits(c, stats, PlanBlocks(f, img, plan))
    requires m != 0 && m != 0xFF && StandsAt(input, pos, EncodeScan(c, stats, PlanBlocks(f, img, plan)).0 + [0xFF, m])
    ensures pos <= |input|
    ensures var (bytes, stats') := EncodeScan(c, stats, PlanBlocks(f, img, plan));
            DecodePicture(c, input, pos, stats, pic, plan)
            == PictureRead(true, PictureAfter(f, c.kind, img, pic, plan), stats', Cursor(pos + |bytes| + 2, m))
  {
    hide EncodeScan, Fits, DecodeMcus, DecodePlan, StoreAll, PictureAfter, PictureReady, GatherAll, PlanBlocks,
      Visited, Distinct, ScanAfter;
    var os, zs := PlanBlocks(f, img, plan), GatherAll(pic, plan);
    PictureScanReady(c, f, img, pic, plan);
    ScanRoundTrip(c, stats, input, pos, zs, os, m);
    DecodePlanIs(c, input, StartDecode(c, input, pos, stats), pic, plan);
    StoreAllIs(f, c.kind, img, pic, plan, ScanAfter(c, zs, os));
  }

  /** Reading the scan, no MCU makes the decoder give up on a segment. */
  predicate PictureClean(c: Scan, input: seq<byte>, pos: nat, stats: Statistics, pic: Image, plan: seq<seq<Cell>>)
    requires pos <= |input| && HoldsAll(pic, plan) && GoodPlan(c, plan)
  {
    GatherGood(c, pic, plan);
    Clean(c, input, StartDecode(c, input, pos, stats), GatherAll(pic, plan))
  }

  /** A scan is read cleanly exactly when its DC differences are within range. */
  lemma PictureExact(c: Scan, f: Frame, img: Image, stats: Statistics, input: seq<byte>, pos: nat,
                     pic: Image, plan: seq<seq<Cell>>, m: byte)
    requires GoodPlan(c, plan) && Distinct(plan) && HoldsAll(pic, plan) && PictureReady(f, c.kind, img, pic, plan)
    requires ValidMcus(c, PlanBlocks(f, img, plan))
    requires m != 0 && m != 0xFF && StandsAt(input, pos, EncodeScan(c, stats, PlanBlocks(f, img, plan)).0 + [0xFF, m])
    ensures pos <= |input|
    ensures PictureClean(c, input, pos, stats, pic, plan) <==> Fits(c, stats, PlanBlocks(f, img, plan))
  {
    hide EncodeScan, Fits, DecodeMcus, PictureReady, GatherAll, PlanBlocks, Visited, Distinct, ScanAfter, Clean, AllBlank;
    PictureScanReady(c, f, img, pic, plan);
    StartInside(input, pos, EncodeScan(c, stats, PlanBlocks(f, img, plan)).0 + [0xFF, m]);
    ScanExact(c, stats, input, pos, GatherAll(pic, plan), PlanBlocks(f, img, plan), m);
  }
}
