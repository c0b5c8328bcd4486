/**
 The three coefficient controllers: single-pass compression, multi-pass compression
 (jccoefct.c) and transcoding (jctrans.c). All send the entropy coder the same MCUs.
 */
module BlockControllers {
  import opened Products
  import opened BlockModel
  import opened ScanModel
  import opened Geometry
  import opened BlockPadding

  // ----- positions within a pass

  function LastRowHeight(f: Frame, c: nat): nat
    requires ValidFrame(f) && c < |f.comps|
  {
    assert Covers(f.comps[c].height, f.comps[c].v, f.mcuRows);
    LastCount(f.comps[c].height, f.comps[c].v)
  }

  function LastColWidth(f: Frame, comps: seq<nat>, c: nat): nat
    requires ValidFrame(f) && c < |f.comps|
  {
    assert Covers(f.comps[c].width, f.comps[c].h, f.mcuCols);
    if |comps| == 1 then 1 else LastCount(f.comps[c].width, f.comps[c].h)
  }

  /** MCU rows in an iMCU row. */
  function RowsPer(f: Frame, comps: seq<nat>, g: nat): nat
    requires ValidFrame(f) && ValidComps(f, comps)
  {
    if |comps| > 1 then 1
    else if g + 1 < f.mcuRows then f.comps[comps[0]].v
    else LastRowHeight(f, comps[0])
  }

  /** MCU rows before iMCU row `g`. */
  function BaseRow(f: Frame, comps: seq<nat>, g: nat): nat
    requires ValidFrame(f) && ValidComps(f, comps)
  {
    if |comps| > 1 then g
    else if g < f.mcuRows then g * f.comps[comps[0]].v
    else f.comps[comps[0]].height
  }

  lemma BaseRowNext(f: Frame, comps: seq<nat>, g: nat)
    requires ValidFrame(f) && ValidComps(f, comps) && g < f.mcuRows
    ensures BaseRow(f, comps, g + 1) == BaseRow(f, comps, g) + RowsPer(f, comps, g)
    ensures RowsPer(f, comps, g) > 0
    ensures BaseRow(f, comps, 0) == 0
  {
    var c := f.comps[comps[0]];
    assert Covers(c.height, c.v, f.mcuRows);
    LastCountIs(c.height, c.v, f.mcuRows);
    MulSum(g, 1, c.v);
  }

  lemma BaseRowLast(f: Frame, comps: seq<nat>)
    requires ValidFrame(f) && ValidComps(f, comps)
    ensures BaseRow(f, comps, f.mcuRows) == McuRowsInScan(f, comps)
  {
  }

  /** Whether a block row of an MCU is real, as the controllers test it. */
  predicate RowIsReal(f: Frame, c: nat, g: nat, offset: nat)
    requires ValidFrame(f) && c < |f.comps|
  {
    g < f.mcuRows - 1 || offset < LastRowHeight(f, c)
  }

  lemma RowIsRealIs(f: Frame, comps: seq<nat>, ci: nat, g: nat, yoffset: nat, yindex: nat)
    requires ValidFrame(f) && ValidComps(f, comps) && ci < |comps| && g < f.mcuRows
    requires yoffset < RowsPer(f, comps, g) && yindex < McuHeight(f, comps, comps[ci])
    ensures var c := comps[ci];
            var row := (BaseRow(f, comps, g) + yoffset) * McuHeight(f, comps, c) + yindex;
            && row == g * f.comps[c].v + yoffset + yindex
            && row < (g + 1) * f.comps[c].v
            && (RowIsReal(f, c, g, yoffset + yindex) <==> row < f.comps[c].height)
            && (|comps| == 1 ==> row < f.comps[c].height)
            && (yindex == 0 ==> row < f.comps[c].height)
  {
    var c := f.comps[comps[ci]];
    assert Covers(c.height, c.v, f.mcuRows);
    LastCountIs(c.height, c.v, f.mcuRows);
    MulSum(g, 1, c.v);
    if g + 1 < f.mcuRows {
      MulMonotone(g + 1, f.mcuRows - 1, c.v);
    }
  }

  lemma ColumnsReal(f: Frame, comps: seq<nat>, c: nat, m: nat)
    requires ValidFrame(f) && ValidComps(f, comps) && c in comps && m < McusPerRow(f, comps)
    ensures var w, last := McuWidth(f, comps, c), m + 1 == McusPerRow(f, comps);
            var cnt := if last then LastColWidth(f, comps, c) else w;
            && 0 < cnt <= w && m * w + cnt <= f.comps[c].width
            && (cnt < w ==> |comps| > 1 && m * w + cnt == f.comps[c].width)
  {
    var k := f.comps[c];
    assert Covers(k.width, k.h, f.mcuCols);
    LastCountIs(k.width, k.h, f.mcuCols);
    if |comps| > 1 && m + 1 < f.mcuCols {
      MulMonotone(m + 1, f.mcuCols - 1, k.h);
      MulSum(m, 1, k.h);
    }
  }

  /** The MCUs sent when the pass stands at MCU row `r` and column `m`. */
  function SentAt(f: Frame, img: Image, comps: seq<nat>, r: nat, m: nat): seq<seq<McuBlock>>
    requires ValidComps(f, comps)
  {
    PlanBlocks(f, img, PlanRows(f, comps, r) + PlanRow(f, comps, r, m))
  }

  function McuToSend(f: Frame, img: Image, comps: seq<nat>, r: nat, m: nat): seq<McuBlock>
    requires ValidComps(f, comps)
  {
    PaddedBlocks(f, img, McuCells(f, comps, r, m))
  }

  lemma SentMcu(f: Frame, img: Image, comps: seq<nat>, r: nat, m: nat)
    requires ValidComps(f, comps)
    ensures SentAt(f, img, comps, r, m + 1) == SentAt(f, img, comps, r, m) + [McuToSend(f, img, comps, r, m)]
  {
    hide McuCells, PaddedBlocks, PlanRows;
    var a, b := PlanRows(f, comps, r), PlanRow(f, comps, r, m);
    assert PlanRow(f, comps, r, m + 1) == b + [McuCells(f, comps, r, m)];
    assert a + (b + [McuCells(f, comps, r, m)]) == (a + b) + [McuCells(f, comps, r, m)];
    PlanBlocksConcat(f, img, a + b, [McuCells(f, comps, r, m)]);
  }

  lemma SentRow(f: Frame, img: Image, comps: seq<nat>, r: nat)
    requires ValidComps(f, comps)
    ensures SentAt(f, img, comps, r, McusPerRow(f, comps)) == SentAt(f, img, comps, r + 1, 0)
    ensures SentAt(f, img, comps, 0, 0) == []
    ensures SentAt(f, img, comps, r, 0) == PlanBlocks(f, img, PlanRows(f, comps, r))
  {
    assert PlanRow(f, comps, r + 1, 0) == [] && PlanRow(f, comps, r, 0) == [];
    assert PlanRows(f, comps, r + 1) + [] == PlanRows(f, comps, r) + PlanRow(f, comps, r, McusPerRow(f, comps));
    assert PlanRows(f, comps, r) + [] == PlanRows(f, comps, r);
    assert PlanRows(f, comps, 0) + PlanRow(f, comps, 0, 0) == [];
  }

  // ----- pointers to blocks

  /** An element of the list of block pointers the transcoder builds. */
  datatype Pointer = At(ci: nat, place: Place) | DummyAt(ci: nat, i: nat)

  predicate InBounds(whole: Image, dummies: seq<Block>, p: Pointer) {
    match p
    case At(_, place) => place in whole
    case DummyAt(_, i) => i < |dummies|
  }

  function Deref(whole: Image, dummies: seq<Block>, p: Pointer): McuBlock
    requires InBounds(whole, dummies, p)
  {
    McuBlock(p.ci, match p case At(_, place) => whole[place] case DummyAt(_, i) => dummies[i])
  }

  /** Blocks before position `n` are real or in an earlier slot of the dummy buffer. */
  predicate Pointers(whole: Image, dummies: seq<Block>, ps: seq<Pointer>) {
    forall j :: 0 <= j < |ps| ==> InBounds(whole, dummies, ps[j]) && (ps[j].DummyAt? ==> ps[j].i == j)
  }

  function DerefAll(whole: Image, dummies: seq<Block>, ps: seq<Pointer>): (bs: seq<McuBlock>)
    requires Pointers(whole, dummies, ps)
    ensures |bs| == |ps|
  {
    seq(|ps|, j requires 0 <= j < |ps| => Deref(whole, dummies, ps[j]))
  }

  /** All AC entries of the dummy buffer are zero. */
  predicate ZeroAc(dummies: seq<Block>) {
    |dummies| == C_MAX_BLOCKS_IN_MCU && forall i :: 0 <= i < |dummies| ==> dummies[i] == Dummy(dummies[i][0])
  }

  lemma DummySet(b: Block, dc: int)
    requires b == Dummy(b[0])
    ensures b[0 := dc] == Dummy(dc)
  {
  }

  /** Outside rows `row` to `row + n - 1` of component `c`, two images agree. */
  ghost predicate SameOutside(a: Image, b: Image, c: nat, row: nat, n: nat) {
    forall p: Place :: !(p.comp == c && row <= p.row < row + n) ==> (p in a <==> p in b) && (p in a ==> a[p] == b[p])
  }

  /** The padded row is in the array, up to column `n`. */
  predicate RowLoaded(f: Frame, img: Image, whole: Image, c: nat, row: nat, n: nat) {
    forall x :: 0 <= x < n ==>
      Place(c, row, x) in whole && whole[Place(c, row, x)] == PaddedAt(f, img, Place(c, row, x))
  }

  /** The padded blocks of the first `g` iMCU rows are in the arrays. */
  ghost predicate Loaded(f: Frame, img: Image, whole: Image, g: nat) {
    forall p :: InPadded(f, p) && p.row < g * f.comps[p.comp].v ==> p in whole && whole[p] == PaddedAt(f, img, p)
  }

  lemma RowCellsSplit(ci: nat, c: nat, y: nat, x: nat, n: nat, w: nat)
    requires n <= w
    ensures RowCells(ci, c, y, x, w) == RowCells(ci, c, y, x, n) + RowCells(ci, c, y, x + n, w - n)
  {
  }

  lemma PaddedRow(f: Frame, img: Image, ci: nat, c: nat, y: nat, x: nat, n: nat, w: nat)
    requires n <= w
    ensures PaddedBlocks(f, img, RowCells(ci, c, y, x, w))
            == PaddedBlocks(f, img, RowCells(ci, c, y, x, n)) + PaddedBlocks(f, img, RowCells(ci, c, y, x + n, w - n))
  {
    RowCellsSplit(ci, c, y, x, n, w);
    PaddedConcat(f, img, RowCells(ci, c, y, x, n), RowCells(ci, c, y, x + n, w - n));
  }

  function PaddedRect(f: Frame, img: Image, ci: nat, c: nat, y: nat, n: nat, x: nat, w: nat): seq<McuBlock> {
    PaddedBlocks(f, img, Rect(ci, c, y, n, x, w))
  }

  lemma PaddedRectRow(f: Frame, img: Image, ci: nat, c: nat, y: nat, n: nat, x: nat, w: nat)
    ensures PaddedRect(f, img, ci, c, y, 0, x, w) == []
    ensures PaddedRect(f, img, ci, c, y, n + 1, x, w)
            == PaddedRect(f, img, ci, c, y, n, x, w) + PaddedBlocks(f, img, RowCells(ci, c, y + n, x, w))
    ensures n > 0 && w > 0 ==>
              var bs := PaddedRect(f, img, ci, c, y, n, x, w);
              bs != [] && bs[|bs| - 1].z == PaddedAt(f, img, Place(c, y + n - 1, x + w - 1))
  {
    PaddedConcat(f, img, Rect(ci, c, y, n, x, w), RowCells(ci, c, y + n, x, w));
    if n > 0 {
      PaddedConcat(f, img, Rect(ci, c, y, n - 1, x, w), RowCells(ci, c, y + n - 1, x, w));
    }
  }

  lemma PaddedPart(f: Frame, img: Image, comps: seq<nat>, r: nat, m: nat, k: nat)
    requires ValidComps(f, comps) && k < |comps|
    ensures PaddedBlocks(f, img, McuPart(f, comps, r, m, 0)) == []
    ensures var c := comps[k];
            var w, h := McuWidth(f, comps, c), McuHeight(f, comps, c);
            PaddedBlocks(f, img, McuPart(f, comps, r, m, k + 1))
            == PaddedBlocks(f, img, McuPart(f, comps, r, m, k)) + PaddedRect(f, img, k, c, r * h, h, m * w, w)
  {
    var c := comps[k];
    var w, h := McuWidth(f, comps, c), McuHeight(f, comps, c);
    PaddedConcat(f, img, McuPart(f, comps, r, m, k), Rect(k, c, r * h, h, m * w, w));
  }

  // ----- the controllers

  /** Where the blocks of an MCU come from. */
  datatype Mode = ForwardDct | WholeImage | Transcode

  class Controller {
    const f: Frame
    var comps: seq<nat>

    // The position at the start of a call; `vertOffset` and `mcuCtr` are not 0 only after a suspension.
    var imcuRow: nat
    var mcuCtr: nat
    var vertOffset: nat
    var rowsPer: nat

    // Virtual arrays, and the transcoder's dummy blocks.
    var whole: Image
    var dummies: seq<Block>

    // The entropy coder: MCUs it has taken in this pass, and how many more it takes before it suspends.
    var sent: seq<seq<McuBlock>>
    var room: nat

    constructor (frame: Frame, scan: seq<nat>)
      requires ValidFrame(frame) && ScanSetup(frame, scan)
      ensures f == frame && comps == scan && ZeroAc(dummies)
    {
      f, comps := frame, scan;
      imcuRow, mcuCtr, vertOffset, rowsPer, room := 0, 0, 0, 0, 0;
      whole, sent := map[], [];
      dummies := seq(C_MAX_BLOCKS_IN_MCU, i => Dummy(0));
    }

    ghost predicate Valid(img: Image)
      reads this`comps, this`imcuRow, this`mcuCtr, this`vertOffset, this`rowsPer, this`sent
    {
      && ValidFrame(f) && ScanSetup(f, comps) && RealImage(f, img)
      && imcuRow <= f.mcuRows && rowsPer == RowsPer(f, comps, imcuRow)
      && mcuCtr <= McusPerRow(f, comps)
      && (if imcuRow == f.mcuRows then vertOffset == 0 && mcuCtr == 0 else vertOffset < rowsPer)
      && sent == SentAt(f, img, comps, BaseRow(f, comps, imcuRow) + vertOffset, mcuCtr)
    }

    method StartIMcuRow()
      requires ValidFrame(f) && ValidComps(f, comps)
      modifies this`rowsPer, this`mcuCtr, this`vertOffset
      ensures rowsPer == RowsPer(f, comps, imcuRow) && mcuCtr == 0 && vertOffset == 0
    {
      if |comps| > 1 {
        rowsPer := 1;
      } else if imcuRow + 1 < f.mcuRows {
        rowsPer := f.comps[comps[0]].v;
      } else {
        rowsPer := LastRowHeight(f, comps[0]);
      }
      mcuCtr, vertOffset := 0, 0;
    }

    /** Starts a pass over the blocks of the scan. */
    method StartPass(ghost img: Image)
      requires ValidFrame(f) && ScanSetup(f, comps) && RealImage(f, img)
      modifies this`imcuRow, this`rowsPer, this`mcuCtr, this`vertOffset, this`sent
      ensures Valid(img) && imcuRow == 0 && mcuCtr == 0 && vertOffset == 0 && sent == []
    {
      imcuRow := 0;
      StartIMcuRow();
      sent := [];
      if f.mcuRows > 0 {
        BaseRowNext(f, comps, 0);
      }
      assert ValidComps(f, comps) && comps[0] < |f.comps|;
      assert Covers(f.comps[comps[0]].height, f.comps[comps[0]].v, f.mcuRows);
      SentRow(f, img, comps, 0);
    }

    /** The entropy coder takes an MCU whole, or suspends and takes nothing. */
    method EncodeMcu(mcu: seq<McuBlock>) returns (ok: bool)
      modifies this`sent, this`room
      ensures ok <==> old(room) > 0
      ensures ok ==> sent == old(sent) + [mcu] && room == old(room) - 1
      ensures !ok ==> sent == old(sent) && room == 0
    {
      if room == 0 {
        return false;
      }
      sent, room := sent + [mcu], room - 1;
      ok := true;
    }

    /** A row of blocks of the component, ready to be coded. */
    ghost predicate InStrip(yoffset: nat, m: nat)
      reads this`comps, this`imcuRow
    {
      && ValidFrame(f) && ScanSetup(f, comps) && imcuRow < f.mcuRows
      && yoffset < RowsPer(f, comps, imcuRow) && m < McusPerRow(f, comps)
    }

    // ----- single-pass compression

    /** The forward DCT of `n` blocks of a row. */
    method DctRow(img: Image, ci: nat, c: nat, y: nat, x: nat, n: nat, before: seq<McuBlock>) returns (bs: seq<McuBlock>)
      requires RealImage(f, img) && c < |f.comps| && y < f.comps[c].height && x + n <= f.comps[c].width
      ensures bs == before + PaddedBlocks(f, img, RowCells(ci, c, y, x, n))
    {
      bs := before;
      RealRow(f, img, ci, c, y, x, n);
      for j := 0 to n
        invariant bs == before + PaddedBlocks(f, img, RowCells(ci, c, y, x, n))[..j]
      {
        bs := bs + [McuBlock(ci, img[Place(c, y, x + j)])];
      }
    }

    /** Dummy blocks with the DC value of the block before them. */
    method FillDummies(ci: nat, n: nat, before: seq<McuBlock>) returns (bs: seq<McuBlock>)
      requires before != []
      ensures bs == before + Dummies(ci, before[|before| - 1].z[0], n)
    {
      hide Dummy;
      bs := before;
      for j := 0 to n
        invariant bs == before + Dummies(ci, before[|before| - 1].z[0], j)
      {
        bs := bs + [McuBlock(ci, Dummy(bs[|bs| - 1].z[0]))];
      }
    }

    /** One row of blocks of a component in an MCU; `inside` tells whether it is above the bottom edge. */
    method DctMcuRow(img: Image, ci: nat, row: nat, m: nat, inside: bool, before: seq<McuBlock>) returns (bs: seq<McuBlock>)
      requires ValidFrame(f) && ValidComps(f, comps) && RealImage(f, img) && ci < |comps| && m < McusPerRow(f, comps)
      requires inside <==> row < f.comps[comps[ci]].height
      requires !inside ==> |comps| > 1 && before != [] && AboveIs(f, img, comps[ci], row, m, before[|before| - 1])
      ensures var w := McuWidth(f, comps, comps[ci]);
              bs == before + PaddedBlocks(f, img, RowCells(ci, comps[ci], row, m * w, w))
    {
      hide Dummies, RowCells, PaddedBlocks, PaddedAt, LastColWidth, RealImage, AboveIs;
      var c := comps[ci];
      var w := McuWidth(f, comps, c);
      if inside {
        var blockcnt := if m + 1 < McusPerRow(f, comps) then w else LastColWidth(f, comps, c);
        ColumnsReal(f, comps, c, m);
        bs := DctRow(img, ci, c, row, m * w, blockcnt, before);
        RealPiecesAfter(f, img, comps, ci, row, m, before);
        if w - blockcnt == 0 {
          return;
        }
        bs := FillDummies(ci, w - blockcnt, bs);
      } else {
        BelowPieces(f, img, comps, ci, row, m, before[|before| - 1]);
        bs := FillDummies(ci, w, before);
      }
    }

    /** The blocks of one component of an MCU. */
    method DctComponent(img: Image, ci: nat, yoffset: nat, m: nat, before: seq<McuBlock>) returns (bs: seq<McuBlock>)
      requires InStrip(yoffset, m) && RealImage(f, img) && ci < |comps|
      ensures bs == before + ComponentBlocks(f, img, comps, ci, BaseRow(f, comps, imcuRow) + yoffset, m,
                                             McuHeight(f, comps, comps[ci]))
    {
      hide PaddedBlocks, ComponentBlocks, RealImage, LastRowHeight, BaseRow, RowsPer, RowIsReal, AboveIs;
      var c := comps[ci];
      ghost var r := BaseRow(f, comps, imcuRow) + yoffset;
      bs := before;
      ComponentRow(f, img, comps, ci, r, m, 0);
      var yindex := 0;
      while yindex < McuHeight(f, comps, c)
        invariant 0 <= yindex <= McuHeight(f, comps, c)
        invariant bs == before + ComponentBlocks(f, img, comps, ci, r, m, yindex)
      {
        RowIsRealIs(f, comps, ci, imcuRow, yoffset, yindex);
        ComponentRow(f, img, comps, ci, r, m, yindex);
        SeqLast(before, ComponentBlocks(f, img, comps, ci, r, m, yindex));
        var row: nat := imcuRow * f.comps[c].v + yoffset + yindex;
        bs := DctMcuRow(img, ci, row, m, RowIsReal(f, c, imcuRow, yoffset + yindex), bs);
        yindex := yindex + 1;
      }
    }

    /** The MCU as single-pass compression builds it. */
    method DctMcu(img: Image, yoffset: nat, m: nat) returns (mcu: seq<McuBlock>)
      requires InStrip(yoffset, m) && RealImage(f, img)
      ensures mcu == McuToSend(f, img, comps, BaseRow(f, comps, imcuRow) + yoffset, m)
    {
      hide PaddedBlocks, ComponentBlocks, RealImage, BaseRow, RowsPer, McuPart, McuHeight;
      ghost var r := BaseRow(f, comps, imcuRow) + yoffset;
      mcu := [];
      PartBlocks(f, img, comps, r, m, 0);
      var ci := 0;
      while ci < |comps|
        invariant 0 <= ci <= |comps| && mcu == PaddedBlocks(f, img, McuPart(f, comps, r, m, ci))
      {
        PartBlocks(f, img, comps, r, m, ci);
        mcu := DctComponent(img, ci, yoffset, m, mcu);
        ci := ci + 1;
      }
    }

    // ----- later passes of multi-pass compression

    /** The blocks of one component of an MCU, from the virtual arrays. */
    method StoredComponent(ghost img: Image, ci: nat, yoffset: nat, m: nat, before: seq<McuBlock>) returns (bs: seq<McuBlock>)
      requires InStrip(yoffset, m) && Loaded(f, img, whole, imcuRow + 1) && ci < |comps|
      ensures bs == before + ComponentBlocks(f, img, comps, ci, BaseRow(f, comps, imcuRow) + yoffset, m,
                                             McuHeight(f, comps, comps[ci]))
    {
      hide PaddedBlocks, PaddedAt, ComponentBlocks, BaseRow, RowsPer, RowIsReal, Loaded, AboveIs;
      var c := comps[ci];
      var w := McuWidth(f, comps, c);
      ghost var r := BaseRow(f, comps, imcuRow) + yoffset;
      bs := before;
      ComponentRow(f, img, comps, ci, r, m, 0);
      var yindex := 0;
      while yindex < McuHeight(f, comps, c)
        invariant 0 <= yindex <= McuHeight(f, comps, c)
        invariant bs == before + ComponentBlocks(f, img, comps, ci, r, m, yindex)
      {
        RowIsRealIs(f, comps, ci, imcuRow, yoffset, yindex);
        ComponentRow(f, img, comps, ci, r, m, yindex);
        bs := StoredRow(img, ci, imcuRow * f.comps[c].v + yoffset + yindex, m, bs);
        yindex := yindex + 1;
      }
    }

    method StoredRow(ghost img: Image, ci: nat, row: nat, m: nat, before: seq<McuBlock>) returns (bs: seq<McuBlock>)
      requires ValidFrame(f) && ValidComps(f, comps) && ci < |comps| && m < McusPerRow(f, comps) && imcuRow < f.mcuRows
      requires Loaded(f, img, whole, imcuRow + 1) && row < (imcuRow + 1) * f.comps[comps[ci]].v
      ensures var w := McuWidth(f, comps, comps[ci]);
              bs == before + PaddedBlocks(f, img, RowCells(ci, comps[ci], row, m * w, w))
    {
      hide PaddedAt, Loaded;
      var c := comps[ci];
      var w := McuWidth(f, comps, c);
      bs := before;
      var x := 0;
      while x < w
        invariant 0 <= x <= w && bs == before + PaddedBlocks(f, img, RowCells(ci, c, row, m * w, w))[..x]
      {
        StripBlock(f, img, whole, comps, ci, imcuRow, row, m, x);
        bs := bs + [McuBlock(ci, whole[Place(c, row, m * w + x)])];
        x := x + 1;
      }
    }

    /** The MCU as later passes read it. */
    method StoredMcu(ghost img: Image, yoffset: nat, m: nat) returns (mcu: seq<McuBlock>)
      requires InStrip(yoffset, m) && Loaded(f, img, whole, imcuRow + 1)
      ensures mcu == McuToSend(f, img, comps, BaseRow(f, comps, imcuRow) + yoffset, m)
    {
      hide PaddedBlocks, ComponentBlocks, BaseRow, RowsPer, Loaded, McuPart, McuHeight;
      ghost var r := BaseRow(f, comps, imcuRow) + yoffset;
      mcu := [];
      PartBlocks(f, img, comps, r, m, 0);
      var ci := 0;
      while ci < |comps|
        invariant 0 <= ci <= |comps| && mcu == PaddedBlocks(f, img, McuPart(f, comps, r, m, ci))
      {
        PartBlocks(f, img, comps, r, m, ci);
        mcu := StoredComponent(img, ci, yoffset, m, mcu);
        ci := ci + 1;
      }
    }

    // ----- transcoding

    /** The transcoder's list of pointers, read through, is the given list of blocks. */
    ghost predicate Points(ps: seq<Pointer>, bs: seq<McuBlock>)
      reads this`whole, this`dummies
    {
      Pointers(whole, dummies, ps) && DerefAll(whole, dummies, ps) == bs
    }

    ghost predicate HoldsReal(img: Image)
      reads this`whole
    {
      forall p :: p in img ==> p in whole && whole[p] == img[p]
    }

    method PointReal(img: Image, ci: nat, c: nat, y: nat, x: nat, n: nat, before: seq<Pointer>, ghost bs: seq<McuBlock>)
      returns (ps: seq<Pointer>)
      requires RealImage(f, img) && HoldsReal(img) && c < |f.comps|
      requires y < f.comps[c].height && x + n <= f.comps[c].width && Points(before, bs)
      ensures Points(ps, bs + PaddedBlocks(f, img, RowCells(ci, c, y, x, n)))
    {
      ps := before;
      ghost var row := PaddedBlocks(f, img, RowCells(ci, c, y, x, n));
      RealRow(f, img, ci, c, y, x, n);
      assert row[..0] == [] && bs + row[..0] == bs;
      for j := 0 to n
        invariant Points(ps, bs + row[..j])
      {
        PointOne(whole, dummies, ps, bs + row[..j], At(ci, Place(c, y, x + j)));
        assert row[j] == McuBlock(ci, img[Place(c, y, x + j)]);
        assert bs + row[..j + 1] == (bs + row[..j]) + [row[j]];
        ps := ps + [At(ci, Place(c, y, x + j))];
      }
      assert row[..n] == row;
    }

    /** Dummy blocks in the slots of the dummy buffer at the same position. */
    method PointDummies(ci: nat, n: nat, before: seq<Pointer>, ghost bs: seq<McuBlock>) returns (ps: seq<Pointer>)
      requires Points(before, bs) && bs != [] && ZeroAc(dummies) && |bs| + n <= C_MAX_BLOCKS_IN_MCU
      modifies this`dummies
      ensures ZeroAc(dummies) && Points(ps, bs + Dummies(ci, bs[|bs| - 1].z[0], n))
    {
      hide Dummy;
      ps := before;
      ghost var dc := bs[|bs| - 1].z[0];
      assert bs + Dummies(ci, dc, 0) == bs;
      for j := 0 to n
        invariant ZeroAc(dummies) && Points(ps, bs + Dummies(ci, dc, j))
      {
        var blkn := |ps|;
        ghost var now := bs + Dummies(ci, dc, j);
        assert now[blkn - 1].z[0] == dc && |now| == blkn;
        var last := Deref(whole, dummies, ps[blkn - 1]).z[0];
        assert last == DerefAll(whole, dummies, ps)[blkn - 1].z[0] == dc;
        DummySet(dummies[blkn], last);
        DummyWritten(whole, dummies, ps, blkn, dummies[blkn][0 := last]);
        dummies := dummies[blkn := dummies[blkn][0 := last]];
        PointOne(whole, dummies, ps, now, DummyAt(ci, blkn));
        assert bs + Dummies(ci, dc, j + 1) == now + [McuBlock(ci, Dummy(dc))];
        ps := ps + [DummyAt(ci, blkn)];
      }
    }

    method PointMcuRow(img: Image, ci: nat, row: nat, m: nat, inside: bool, before: seq<Pointer>, ghost bs: seq<McuBlock>)
      returns (ps: seq<Pointer>)
      requires ValidFrame(f) && ValidComps(f, comps) && RealImage(f, img) && ci < |comps| && m < McusPerRow(f, comps)
      requires HoldsReal(img) && ZeroAc(dummies) && Points(before, bs)
      requires |bs| + McuWidth(f, comps, comps[ci]) <= C_MAX_BLOCKS_IN_MCU
      requires inside <==> row < f.comps[comps[ci]].height
      requires !inside ==> |comps| > 1 && bs != [] && AboveIs(f, img, comps[ci], row, m, bs[|bs| - 1])
      modifies this`dummies
      ensures var w := McuWidth(f, comps, comps[ci]);
              ZeroAc(dummies) && Points(ps, bs + PaddedBlocks(f, img, RowCells(ci, comps[ci], row, m * w, w)))
    {
      hide Points, ZeroAc, Dummies, RowCells, PaddedBlocks, PaddedAt, LastColWidth, RealImage, HoldsReal, AboveIs;
      var c := comps[ci];
      var w := McuWidth(f, comps, c);
      if inside {
        var blockcnt := if m + 1 < McusPerRow(f, comps) then w else LastColWidth(f, comps, c);
        ColumnsReal(f, comps, c, m);
        ghost var now := PaddedBlocks(f, img, RowCells(ci, c, row, m * w, blockcnt));
        ps := PointReal(img, ci, c, row, m * w, blockcnt, before, bs);
        RealPiecesAfter(f, img, comps, ci, row, m, bs);
        if w - blockcnt == 0 {
          return;
        }
        ps := PointDummies(ci, w - blockcnt, ps, bs + now);
      } else {
        BelowPieces(f, img, comps, ci, row, m, bs[|bs| - 1]);
        ps := PointDummies(ci, w, before, bs);
      }
    }

    method PointComponent(img: Image, ci: nat, yoffset: nat, m: nat, before: seq<Pointer>, ghost bs: seq<McuBlock>)
      returns (ps: seq<Pointer>)
      requires InStrip(yoffset, m) && RealImage(f, img) && ci < |comps|
      requires HoldsReal(img) && ZeroAc(dummies) && Points(before, bs)
      requires |bs| == BlocksIn(f, comps, ci)
      modifies this`dummies
      ensures ZeroAc(dummies)
      ensures Points(ps, bs + ComponentBlocks(f, img, comps, ci, BaseRow(f, comps, imcuRow) + yoffset, m,
                                              McuHeight(f, comps, comps[ci])))
    {
      hide PaddedBlocks, ComponentBlocks, RealImage, LastRowHeight, BaseRow, RowsPer, RowIsReal, AboveIs, Points, ZeroAc,
        HoldsReal, RowCells, BlocksIn;
      var c := comps[ci];
      ghost var w := McuWidth(f, comps, c);
      ghost var x: nat := m * w;
      ghost var r := BaseRow(f, comps, imcuRow) + yoffset;
      ps := before;
      ComponentRow(f, img, comps, ci, r, m, 0);
      assert bs + ComponentBlocks(f, img, comps, ci, r, m, 0) == bs;
      var yindex := 0;
      while yindex < McuHeight(f, comps, c)
        invariant 0 <= yindex <= McuHeight(f, comps, c) && ZeroAc(dummies)
        invariant Points(ps, bs + ComponentBlocks(f, img, comps, ci, r, m, yindex))
      {
        RowIsRealIs(f, comps, ci, imcuRow, yoffset, yindex);
        ComponentRow(f, img, comps, ci, r, m, yindex);
        SlotsLeft(f, img, comps, ci, r, m, yindex);
        ghost var now := ComponentBlocks(f, img, comps, ci, r, m, yindex);
        SeqLast(bs, now);
        var row: nat := imcuRow * f.comps[c].v + yoffset + yindex;
        ps := PointMcuRow(img, ci, row, m, RowIsReal(f, c, imcuRow, yoffset + yindex), ps, bs + now);
        AppendAssoc(bs, now, PaddedBlocks(f, img, RowCells(ci, c, row, x, w)));
        yindex := yindex + 1;
      }
    }

    /** The MCU as the transcoder builds it, with dummy blocks made on the fly. */
    method TranscodeMcu(img: Image, yoffset: nat, m: nat) returns (mcu: seq<McuBlock>)
      requires InStrip(yoffset, m) && RealImage(f, img) && HoldsReal(img) && ZeroAc(dummies)
      modifies this`dummies
      ensures ZeroAc(dummies) && mcu == McuToSend(f, img, comps, BaseRow(f, comps, imcuRow) + yoffset, m)
    {
      hide PaddedBlocks, ComponentBlocks, RealImage, BaseRow, RowsPer, ZeroAc, McuPart, McuHeight;
      ghost var r := BaseRow(f, comps, imcuRow) + yoffset;
      var ps: seq<Pointer> := [];
      PartBlocks(f, img, comps, r, m, 0);
      var ci := 0;
      while ci < |comps|
        invariant 0 <= ci <= |comps| && ZeroAc(dummies)
        invariant Points(ps, PaddedBlocks(f, img, McuPart(f, comps, r, m, ci)))
      {
        PartBlocks(f, img, comps, r, m, ci);
        PartLength(f, img, comps, r, m, ci);
        ps := PointComponent(img, ci, yoffset, m, ps, PaddedBlocks(f, img, McuPart(f, comps, r, m, ci)));
        ci := ci + 1;
      }
      mcu := DerefAll(whole, dummies, ps);
    }

    // ----- first pass of multi-pass compression

    /** Stores a row of real blocks, and dummy blocks to its right. */
    method LoadRow(img: Image, c: nat, row: nat)
      requires ValidFrame(f) && RealImage(f, img) && c < |f.comps| && row < f.comps[c].height
      modifies this`whole
      ensures RowLoaded(f, img, whole, c, row, f.mcuCols * f.comps[c].h)
      ensures SameOutside(old(whole), whole, c, row, 1)
    {
      hide Dummy, Source, PaddedAt, RealImage, SameOutside, Copied, Repeated;
      var across, h := f.comps[c].width, f.comps[c].h;
      SameStart(whole, img, c, row);
      for x := 0 to across
        invariant Copied(whole, img, c, row, x) && SameOutside(old(whole), whole, c, row, 1)
      {
        RealHere(f, img, c, row, x);
        CopyStep(old(whole), whole, img, c, row, x);
        whole := whole[Place(c, row, x) := img[Place(c, row, x)]];
      }
      PaddingIs(f, c);
      var ndummy := across % h;
      if ndummy > 0 {
        ndummy := h - ndummy;
      }
      CopiedAt(whole, img, c, row, across, across - 1);
      var lastDC := whole[Place(c, row, across - 1)][0];
      NoneRepeated(whole, c, row, across, Dummy(lastDC));
      for bi := 0 to ndummy
        invariant Copied(whole, img, c, row, across) && Repeated(whole, c, row, across, bi, Dummy(lastDC))
        invariant SameOutside(old(whole), whole, c, row, 1)
      {
        RepeatStep(old(whole), whole, img, c, row, across, bi, Dummy(lastDC));
        whole := whole[Place(c, row, across + bi) := Dummy(lastDC)];
      }
      CopiedAt(whole, img, c, row, across, across - 1);
      RowIsPadded(f, img, whole, c, row, lastDC);
    }

    /** Makes a row of dummy blocks below the image from the row above. */
    method LoadDummyRow(ghost img: Image, c: nat, row: nat)
      requires ValidFrame(f) && RealImage(f, img) && c < |f.comps| && f.comps[c].height <= row && row > 0
      requires RowLoaded(f, img, whole, c, row - 1, f.mcuCols * f.comps[c].h)
      modifies this`whole
      ensures RowLoaded(f, img, whole, c, row, f.mcuCols * f.comps[c].h)
      ensures SameOutside(old(whole), whole, c, row, 1)
    {
      hide Dummy, PaddedAt, RealImage, ValidFrame;
      var h := f.comps[c].h;
      var m := 0;
      while m < f.mcuCols
        invariant 0 <= m <= f.mcuCols
        invariant RowLoaded(f, img, whole, c, row, m * h)
        invariant SameOutside(old(whole), whole, c, row, 1)
      {
        AboveBottom(f, img, c, row, m);
        MulSum(m, 1, h);
        MulMonotone(m + 1, f.mcuCols, h);
        assert Place(c, row - 1, m * h + h - 1) in whole;
        var lastDC := whole[Place(c, row - 1, m * h + h - 1)][0];
        for bi := 0 to h
          invariant RowLoaded(f, img, whole, c, row, m * h + bi)
          invariant SameOutside(old(whole), whole, c, row, 1)
        {
          BottomDummy(f, img, c, row, m, bi);
          whole := whole[Place(c, row, m * h + bi) := Dummy(lastDC)];
        }
        m := m + 1;
      }
    }

    /** Brings one component's part of the strip into its virtual array. */
    method LoadComponent(img: Image, c: nat)
      requires ValidFrame(f) && RealImage(f, img) && c < |f.comps| && imcuRow < f.mcuRows
      modifies this`whole
      ensures var v := f.comps[c].v;
              && (forall y :: imcuRow * v <= y < imcuRow * v + v ==> RowLoaded(f, img, whole, c, y, f.mcuCols * f.comps[c].h))
              && SameOutside(old(whole), whole, c, imcuRow * v, v)
    {
      hide RowLoaded, PaddedAt, RealImage;
      var v := f.comps[c].v;
      var block_rows := if imcuRow < f.mcuRows - 1 then v else LastRowHeight(f, c);
      StripRows(f, c, imcuRow);
      var block_row := 0;
      while block_row < block_rows
        invariant 0 <= block_row <= block_rows
        invariant forall y :: imcuRow * v <= y < imcuRow * v + block_row ==>
                    RowLoaded(f, img, whole, c, y, f.mcuCols * f.comps[c].h)
        invariant SameOutside(old(whole), whole, c, imcuRow * v, v)
      {
        ghost var before := whole;
        LoadRow(img, c, imcuRow * v + block_row);
        RowsKept(f, img, before, whole, c, imcuRow * v + block_row);
        block_row := block_row + 1;
      }
      while block_row < v
        invariant block_rows <= block_row <= v
        invariant forall y :: imcuRow * v <= y < imcuRow * v + block_row ==>
                    RowLoaded(f, img, whole, c, y, f.mcuCols * f.comps[c].h)
        invariant SameOutside(old(whole), whole, c, imcuRow * v, v)
      {
        ghost var before := whole;
        LoadDummyRow(img, c, imcuRow * v + block_row);
        RowsKept(f, img, before, whole, c, imcuRow * v + block_row);
        block_row := block_row + 1;
      }
    }

    /** Brings the current strip of every component into the virtual arrays. */
    method LoadStrip(img: Image)
      requires ValidFrame(f) && RealImage(f, img) && imcuRow < f.mcuRows && Loaded(f, img, whole, imcuRow)
      modifies this`whole
      ensures Loaded(f, img, whole, imcuRow + 1)
    {
      hide Loaded, PaddedAt, RealImage;
      assert LoadedUpTo(f, img, whole, imcuRow, 0) by { LoadedStart(f, img, whole, imcuRow); }
      var ci := 0;
      while ci < |f.comps|
        invariant 0 <= ci <= |f.comps| && LoadedUpTo(f, img, whole, imcuRow, ci)
      {
        ghost var before := whole;
        LoadComponent(img, ci);
        LoadedMore(f, img, before, whole, imcuRow, ci);
        ci := ci + 1;
      }
      LoadedEnd(f, img, whole, imcuRow);
    }

    // ----- sending an iMCU row

    /** What a controller needs to have in its buffers. */
    ghost predicate Supplied(mode: Mode, img: Image)
      reads this`whole, this`dummies, this`imcuRow
    {
      match mode
      case ForwardDct => true
      case WholeImage => Loaded(f, img, whole, imcuRow + 1)
      case Transcode => HoldsReal(img) && ZeroAc(dummies)
    }

    method BuildMcu(mode: Mode, img: Image, yoffset: nat, m: nat) returns (mcu: seq<McuBlock>)
      requires InStrip(yoffset, m) && RealImage(f, img) && Supplied(mode, img)
      modifies this`dummies
      ensures Supplied(mode, img) && mcu == McuToSend(f, img, comps, BaseRow(f, comps, imcuRow) + yoffset, m)
    {
      hide McuToSend, BaseRow, RealImage, Loaded, ZeroAc;
      match mode
      case ForwardDct => mcu := DctMcu(img, yoffset, m);
      case WholeImage => mcu := StoredMcu(img, yoffset, m);
      case Transcode => mcu := TranscodeMcu(img, yoffset, m);
    }

    /** Sends the rest of an MCU row, or saves the position. */
    method SendRow(mode: Mode, img: Image, yoffset: nat) returns (ok: bool)
      requires ValidFrame(f) && ScanSetup(f, comps) && ValidComps(f, comps) && RealImage(f, img) && Supplied(mode, img)
      requires imcuRow < f.mcuRows && yoffset < RowsPer(f, comps, imcuRow) && mcuCtr <= McusPerRow(f, comps)
      requires sent == SentAt(f, img, comps, BaseRow(f, comps, imcuRow) + yoffset, mcuCtr)
      modifies this`dummies, this`sent, this`room, this`mcuCtr, this`vertOffset
      ensures Supplied(mode, img) && mcuCtr <= McusPerRow(f, comps)
      ensures ok ==> mcuCtr == 0 && vertOffset == old(vertOffset)
                     && sent == SentAt(f, img, comps, BaseRow(f, comps, imcuRow) + yoffset + 1, 0)
      ensures !ok ==> room == 0 && vertOffset == yoffset
                      && sent == SentAt(f, img, comps, BaseRow(f, comps, imcuRow) + yoffset, mcuCtr)
      ensures old(sent) <= sent && |sent| + room == |old(sent)| + old(room)
    {
      hide SentAt, McuToSend, BaseRow, RowsPer, RealImage, Supplied, ScanSetup;
      ghost var r := BaseRow(f, comps, imcuRow) + yoffset;
      var col := mcuCtr;
      while col < McusPerRow(f, comps)
        invariant mcuCtr <= col <= McusPerRow(f, comps) && mcuCtr == old(mcuCtr) && vertOffset == old(vertOffset)
        invariant Supplied(mode, img) && sent == SentAt(f, img, comps, r, col)
        invariant old(sent) <= sent && |sent| + room == |old(sent)| + old(room)
      {
        var mcu := BuildMcu(mode, img, yoffset, col);
        SentMcu(f, img, comps, r, col);
        ok := EncodeMcu(mcu);
        if !ok {
          vertOffset, mcuCtr := yoffset, col;
          return;
        }
        col := col + 1;
      }
      SentRow(f, img, comps, r);
      mcuCtr := 0;
      ok := true;
    }

    /**
     Sends the current iMCU row, from where the last call was suspended. On
     suspension the position is saved and nothing is lost or sent twice.
     */
    method CompressStrip(mode: Mode, img: Image) returns (done: bool)
      requires Valid(img) && imcuRow < f.mcuRows && Supplied(mode, img)
      modifies this`dummies, this`sent, this`room, this`imcuRow, this`mcuCtr, this`vertOffset, this`rowsPer
      ensures Valid(img)
      ensures done ==> imcuRow == old(imcuRow) + 1 && mcuCtr == 0 && vertOffset == 0
      ensures !done ==> imcuRow == old(imcuRow) && room == 0 && Supplied(mode, img)
      ensures old(sent) <= sent && |sent| + room == |old(sent)| + old(room)
      ensures mode.Transcode? ==> ZeroAc(dummies)
    {
      hide SentAt, McuToSend, BaseRow, RowsPer, RealImage, Supplied, ZeroAc, ScanSetup;
      assert ValidComps(f, comps) by { SetupComps(f, comps); }
      ghost var base := BaseRow(f, comps, imcuRow);
      var yoffset := vertOffset;
      while yoffset < rowsPer
        invariant vertOffset <= yoffset <= rowsPer && mcuCtr <= McusPerRow(f, comps)
        invariant yoffset > vertOffset ==> mcuCtr == 0
        invariant Supplied(mode, img) && sent == SentAt(f, img, comps, base + yoffset, mcuCtr)
        invariant old(sent) <= sent && |sent| + room == |old(sent)| + old(room)
        invariant vertOffset == old(vertOffset) && rowsPer == old(rowsPer) && imcuRow == old(imcuRow)
      {
        var ok := SendRow(mode, img, yoffset);
        if !ok {
          FromSupplied(mode, img);
          return false;
        }
        yoffset := yoffset + 1;
      }
      FromSupplied(mode, img);
      BaseRowNext(f, comps, imcuRow);
      imcuRow := imcuRow + 1;
      StartIMcuRow();
      if imcuRow < f.mcuRows {
        BaseRowNext(f, comps, imcuRow);
      }
      done := true;
    }

    lemma FromSupplied(mode: Mode, img: Image)
      ensures Supplied(mode, img) && mode.Transcode? ==> ZeroAc(dummies)
    {
    }

    /** First pass with virtual arrays: load the strip, then send it. */
    method CompressFirstPass(img: Image) returns (done: bool)
      requires Valid(img) && imcuRow < f.mcuRows && Loaded(f, img, whole, imcuRow)
      modifies this`whole, this`dummies, this`sent, this`room, this`imcuRow, this`mcuCtr, this`vertOffset, this`rowsPer
      ensures Valid(img) && Loaded(f, img, whole, imcuRow)
      ensures done ==> imcuRow == old(imcuRow) + 1
      ensures !done ==> imcuRow == old(imcuRow) && room == 0
      ensures old(sent) <= sent && |sent| + room == |old(sent)| + old(room)
    {
      LoadStrip(img);
      LoadedLess(f, img, whole, imcuRow, imcuRow + 1);
      done := CompressStrip(WholeImage, img);
    }

    /** The buffers hold what the mode needs for every strip from the current one on. */
    ghost predicate Provided(mode: Mode, img: Image)
      reads this`whole, this`dummies
    {
      && (mode.WholeImage? ==> Loaded(f, img, whole, f.mcuRows))
      && (mode.Transcode? ==> HoldsReal(img) && ZeroAc(dummies))
    }

    /**
     The rest of a pass, row by row: in the end the entropy coder has been given exactly
     the MCUs of the scan, whatever the mode. If it suspends, the pass can be resumed
     later by the same call, however often that happens.
     */
    method RunPass(mode: Mode, img: Image) returns (ok: bool)
      requires Valid(img) && Provided(mode, img)
      modifies this`dummies, this`sent, this`room, this`imcuRow, this`mcuCtr, this`vertOffset, this`rowsPer
      ensures ValidComps(f, comps) && Valid(img) && Provided(mode, img)
      ensures ok ==> sent == PlanBlocks(f, img, Plan(f, comps))
      ensures !ok ==> room == 0
      ensures old(sent) <= sent && |sent| + room == |old(sent)| + old(room)
    {
      hide SentAt, McuToSend, BaseRow, RowsPer, RealImage, ZeroAc, Loaded, PlanRows, McusPerRow;
      while imcuRow < f.mcuRows
        invariant imcuRow <= f.mcuRows && Valid(img)
        invariant mode.Transcode? ==> ZeroAc(dummies)
        invariant old(sent) <= sent && |sent| + room == |old(sent)| + old(room)
        decreases f.mcuRows - imcuRow
      {
        if mode.WholeImage? {
          LoadedLess(f, img, whole, imcuRow + 1, f.mcuRows);
        }
        ok := CompressStrip(mode, img);
        if !ok {
          return;
        }
      }
      AllSent(img);
      ok := true;
    }

    /** A pass at its end has sent the MCUs of the scan. */
    lemma AllSent(img: Image)
      requires Valid(img) && imcuRow == f.mcuRows
      ensures ValidComps(f, comps) && sent == PlanBlocks(f, img, Plan(f, comps))
    {
      hide McuToSend, RealImage, PlanRows, McusPerRow;
      BaseRowLast(f, comps);
      SentRow(f, img, comps, McuRowsInScan(f, comps));
    }

    /** The rest of the first pass with virtual arrays: it sends its scan and leaves the padded image in the arrays. */
    method RunFirstPass(img: Image) returns (ok: bool)
      requires Valid(img) && Loaded(f, img, whole, imcuRow)
      modifies this`whole, this`dummies, this`sent, this`room, this`imcuRow, this`mcuCtr, this`vertOffset, this`rowsPer
      ensures ValidComps(f, comps) && Valid(img) && Loaded(f, img, whole, imcuRow)
      ensures ok ==> sent == PlanBlocks(f, img, Plan(f, comps)) && imcuRow == f.mcuRows
      ensures !ok ==> room == 0
      ensures old(sent) <= sent && |sent| + room == |old(sent)| + old(room)
    {
      hide SentAt, McuToSend, BaseRow, RowsPer, RealImage, Loaded, PlanRows, McusPerRow;
      while imcuRow < f.mcuRows
        invariant imcuRow <= f.mcuRows && Valid(img) && Loaded(f, img, whole, imcuRow)
        invariant old(sent) <= sent && |sent| + room == |old(sent)| + old(room)
        decreases f.mcuRows - imcuRow
      {
        ok := CompressFirstPass(img);
        if !ok {
          return;
        }
      }
      AllSent(img);
      ok := true;
    }

    /** Moves on to another scan. */
    method NextScan(scan: seq<nat>, ghost img: Image)
      requires ValidFrame(f) && ScanSetup(f, scan) && RealImage(f, img)
      modifies this`comps, this`imcuRow, this`rowsPer, this`mcuCtr, this`vertOffset, this`sent
      ensures Valid(img) && comps == scan && imcuRow == 0 && sent == []
    {
      hide RealImage, SentAt, RowsPer;
      comps := scan;
      StartPass(img);
    }

    /** Starts multi-pass compression with empty arrays. */
    method StartScans(ghost img: Image, scans: seq<seq<nat>>)
      requires ValidFrame(f) && RealImage(f, img) && scans != [] && ScanSetup(f, scans[0])
      modifies this`comps, this`imcuRow, this`rowsPer, this`mcuCtr, this`vertOffset, this`sent
      ensures Valid(img) && comps == scans[0] && Loaded(f, img, whole, imcuRow)
    {
      hide RealImage, SentAt, RowsPer;
      NextScan(scans[0], img);
      NothingLoaded(f, img, whole);
    }

    /**
     Multi-pass compression: the first scan is sent while the arrays are filled, the
     others from the arrays, and each gets its MCUs. A suspension in the first pass
     leaves a state from which the same call goes on; in a later pass it is an error.
     */
    method RunScans(img: Image, scans: seq<seq<nat>>) returns (r: Progress, passes: seq<seq<seq<McuBlock>>>)
      requires scans != [] && forall i :: 0 <= i < |scans| ==> ScanSetup(f, scans[i])
      requires Valid(img) && comps == scans[0] && Loaded(f, img, whole, imcuRow)
      modifies this
      ensures forall i :: 0 <= i < |scans| ==> ValidComps(f, scans[i])
      ensures r.Finished? ==> |passes| == |scans|
                              && forall i :: 0 <= i < |scans| ==> passes[i] == PlanBlocks(f, img, Plan(f, scans[i]))
      ensures r.Suspended? ==> room == 0 && Valid(img) && comps == scans[0] && Loaded(f, img, whole, imcuRow)
      ensures r.CantSuspend? ==> room == 0
    {
      hide SentAt, McuToSend, BaseRow, RowsPer, RealImage, Loaded, PlanRows, McusPerRow, Plan, PlanBlocks, ScanSetup;
      forall i | 0 <= i < |scans| ensures ValidComps(f, scans[i]) {
        SetupComps(f, scans[i]);
      }
      passes := [];
      var ok := RunFirstPass(img);
      if !ok {
        return Suspended, passes;
      }
      passes := [sent];
      while |passes| < |scans|
        invariant 1 <= |passes| <= |scans| && Valid(img) && Loaded(f, img, whole, f.mcuRows)
        invariant forall i :: 0 <= i < |passes| ==> passes[i] == PlanBlocks(f, img, Plan(f, scans[i]))
        decreases |scans| - |passes|
      {
        NextScan(scans[|passes|], img);
        ok := RunPass(WholeImage, img);
        if !ok {
          return CantSuspend, passes;
        }
        passes := passes + [sent];
      }
      r := Finished;
    }
  }

  /** How far a multi-pass compression came. */
  datatype Progress = Finished | Suspended | CantSuspend

  lemma NothingLoaded(f: Frame, img: Image, whole: Image)
    ensures Loaded(f, img, whole, 0)
  {
  }

  lemma SetupComps(f: Frame, comps: seq<nat>)
    requires ScanSetup(f, comps)
    ensures ValidComps(f, comps)
  {
  }

  lemma LoadedLess(f: Frame, img: Image, whole: Image, g: nat, n: nat)
    requires g <= n && Loaded(f, img, whole, n)
    ensures Loaded(f, img, whole, g)
  {
    hide PaddedAt;
    forall p | InPadded(f, p) && p.row < g * f.comps[p.comp].v ensures p in whole && whole[p] == PaddedAt(f, img, p) {
      MulMonotone(g, n, f.comps[p.comp].v);
    }
  }

  /** Width of the padded row, as the first pass counts it. */
  lemma PaddingIs(f: Frame, c: nat)
    requires ValidFrame(f) && c < |f.comps|
    ensures var (w, h) := (f.comps[c].width, f.comps[c].h);
            w > 0 && h > 0 && f.mcuCols * h == w + if w % h > 0 then h - w % h else 0
  {
    var w, h := f.comps[c].width, f.comps[c].h;
    assert Covers(w, h, f.mcuCols);
    LastCountIs(w, h, f.mcuCols);
    MulSum(f.mcuCols - 1, 1, h);
  }

  /** The first `n` blocks of the row are those of the image. */
  predicate Copied(whole: Image, img: Image, c: nat, row: nat, n: nat) {
    forall j :: 0 <= j < n ==>
      Place(c, row, j) in whole && Place(c, row, j) in img && whole[Place(c, row, j)] == img[Place(c, row, j)]
  }

  /** From column `x` on, `n` blocks of the row are the same. */
  predicate Repeated(whole: Image, c: nat, row: nat, x: nat, n: nat, d: Block) {
    forall j :: x <= j < x + n ==> Place(c, row, j) in whole && whole[Place(c, row, j)] == d
  }

  lemma SameStart(whole: Image, img: Image, c: nat, row: nat)
    ensures Copied(whole, img, c, row, 0) && SameOutside(whole, whole, c, row, 1)
  {
  }

  lemma NoneRepeated(whole: Image, c: nat, row: nat, x: nat, d: Block)
    ensures Repeated(whole, c, row, x, 0, d)
  {
  }

  lemma RealHere(f: Frame, img: Image, c: nat, row: nat, x: nat)
    requires RealImage(f, img) && c < |f.comps| && row < f.comps[c].height && x < f.comps[c].width
    ensures Place(c, row, x) in img
  {
  }

  lemma CopiedAt(whole: Image, img: Image, c: nat, row: nat, n: nat, x: nat)
    requires Copied(whole, img, c, row, n) && x < n
    ensures Place(c, row, x) in whole && Place(c, row, x) in img && whole[Place(c, row, x)] == img[Place(c, row, x)]
  {
  }

  lemma CopyStep(was: Image, whole: Image, img: Image, c: nat, row: nat, x: nat)
    requires Copied(whole, img, c, row, x) && SameOutside(was, whole, c, row, 1) && Place(c, row, x) in img
    ensures var next := whole[Place(c, row, x) := img[Place(c, row, x)]];
            Copied(next, img, c, row, x + 1) && SameOutside(was, next, c, row, 1)
  {
  }

  lemma RepeatStep(was: Image, whole: Image, img: Image, c: nat, row: nat, x: nat, n: nat, d: Block)
    requires Copied(whole, img, c, row, x) && Repeated(whole, c, row, x, n, d) && SameOutside(was, whole, c, row, 1)
    ensures var next := whole[Place(c, row, x + n) := d];
            Copied(next, img, c, row, x) && Repeated(next, c, row, x, n + 1, d) && SameOutside(was, next, c, row, 1)
  {
  }

  lemma RowIsPadded(f: Frame, img: Image, whole: Image, c: nat, row: nat, dc: int)
    requires ValidFrame(f) && RealImage(f, img) && c < |f.comps| && row < f.comps[c].height && f.comps[c].width > 0
    requires Copied(whole, img, c, row, f.comps[c].width) && f.comps[c].width <= f.mcuCols * f.comps[c].h
    requires Repeated(whole, c, row, f.comps[c].width, f.mcuCols * f.comps[c].h - f.comps[c].width, Dummy(dc))
    requires var p := Place(c, row, f.comps[c].width - 1); p in whole && whole[p][0] == dc
    ensures RowLoaded(f, img, whole, c, row, f.mcuCols * f.comps[c].h)
  {
    hide Dummy;
    forall x | 0 <= x < f.mcuCols * f.comps[c].h
      ensures Place(c, row, x) in whole && whole[Place(c, row, x)] == PaddedAt(f, img, Place(c, row, x))
    {
      if x >= f.comps[c].width {
        assert !Real(f, Place(c, row, x));
        assert Source(f, Place(c, row, x)) == Place(c, row, f.comps[c].width - 1);
      }
    }
  }

  lemma StripRows(f: Frame, c: nat, g: nat)
    requires ValidFrame(f) && c < |f.comps| && g < f.mcuRows
    ensures var v := f.comps[c].v;
            var rows := if g < f.mcuRows - 1 then v else LastRowHeight(f, c);
            && 0 < rows <= v && g * v + rows <= f.comps[c].height
            && (rows < v ==> g * v + rows == f.comps[c].height)
  {
    var k := f.comps[c];
    assert Covers(k.height, k.v, f.mcuRows);
    LastCountIs(k.height, k.v, f.mcuRows);
    MulSum(g, 1, k.v);
    if g + 1 < f.mcuRows {
      MulMonotone(g + 1, f.mcuRows - 1, k.v);
    }
  }

  lemma RowsKept(f: Frame, img: Image, before: Image, after: Image, c: nat, row: nat)
    requires c < |f.comps| && SameOutside(before, after, c, row, 1)
    ensures forall y, n :: y != row && RowLoaded(f, img, before, c, y, n) ==> RowLoaded(f, img, after, c, y, n)
  {
    hide PaddedAt;
  }

  /** The strips before `g` are loaded, and strip `g` of the first `k` components. */
  ghost predicate LoadedUpTo(f: Frame, img: Image, whole: Image, g: nat, k: nat) {
    forall p :: InPadded(f, p) && p.row < (if p.comp < k then g + 1 else g) * f.comps[p.comp].v ==>
      p in whole && whole[p] == PaddedAt(f, img, p)
  }

  lemma LoadedStart(f: Frame, img: Image, whole: Image, g: nat)
    requires Loaded(f, img, whole, g)
    ensures LoadedUpTo(f, img, whole, g, 0)
  {
    hide PaddedAt;
  }

  lemma LoadedEnd(f: Frame, img: Image, whole: Image, g: nat)
    requires LoadedUpTo(f, img, whole, g, |f.comps|)
    ensures Loaded(f, img, whole, g + 1)
  {
    hide PaddedAt;
  }

  lemma LoadedMore(f: Frame, img: Image, before: Image, after: Image, g: nat, c: nat)
    requires c < |f.comps| && LoadedUpTo(f, img, before, g, c)
    requires var v := f.comps[c].v;
             && (forall y :: g * v <= y < g * v + v ==> RowLoaded(f, img, after, c, y, f.mcuCols * f.comps[c].h))
             && SameOutside(before, after, c, g * v, v)
    ensures LoadedUpTo(f, img, after, g, c + 1)
  {
    hide PaddedAt;
    MulSum(g, 1, f.comps[c].v);
    forall p | InPadded(f, p) && p.row < (if p.comp < c + 1 then g + 1 else g) * f.comps[p.comp].v
      ensures p in after && after[p] == PaddedAt(f, img, p)
    {
      if p.comp == c && g * f.comps[c].v <= p.row {
        assert RowLoaded(f, img, after, c, p.row, f.mcuCols * f.comps[c].h);
        assert p == Place(c, p.row, p.col);
      }
    }
  }

  lemma AppendAssoc(a: seq<McuBlock>, b: seq<McuBlock>, c: seq<McuBlock>)
    ensures (a + b) + c == a + (b + c)
  {
  }

  lemma PointOne(whole: Image, dummies: seq<Block>, ps: seq<Pointer>, bs: seq<McuBlock>, p: Pointer)
    requires Pointers(whole, dummies, ps) && DerefAll(whole, dummies, ps) == bs
    requires InBounds(whole, dummies, p) && (p.DummyAt? ==> p.i == |ps|)
    ensures Pointers(whole, dummies, ps + [p])
    ensures DerefAll(whole, dummies, ps + [p]) == bs + [Deref(whole, dummies, p)]
  {
  }

  /** Writing the next slot of the dummy buffer changes no block already listed. */
  lemma DummyWritten(whole: Image, dummies: seq<Block>, ps: seq<Pointer>, i: nat, b: Block)
    requires Pointers(whole, dummies, ps) && |ps| <= i < |dummies|
    ensures Pointers(whole, dummies[i := b], ps)
    ensures DerefAll(whole, dummies[i := b], ps) == DerefAll(whole, dummies, ps)
  {
  }

  lemma PartLength(f: Frame, img: Image, comps: seq<nat>, r: nat, m: nat, k: nat)
    requires ValidComps(f, comps) && k <= |comps|
    ensures |PaddedBlocks(f, img, McuPart(f, comps, r, m, k))| == BlocksIn(f, comps, k)
  {
    McuMembership(f, comps, r, m, k);
  }

  /** The dummy buffer has a slot for every block of the MCU. */
  lemma SlotsLeft(f: Frame, img: Image, comps: seq<nat>, ci: nat, r: nat, m: nat, n: nat)
    requires ScanSetup(f, comps) && ci < |comps| && n < McuHeight(f, comps, comps[ci])
    ensures BlocksIn(f, comps, ci) + |ComponentBlocks(f, img, comps, ci, r, m, n)| + McuWidth(f, comps, comps[ci])
            <= C_MAX_BLOCKS_IN_MCU
  {
    var c := comps[ci];
    var w, h := McuWidth(f, comps, c), McuHeight(f, comps, c);
    hide PaddedAt, Rect;
    RectIs(ci, c, r * h, n, m * w, w);
    MulMonotone(n + 1, h, w);
    MulSum(n, 1, w);
    BlocksInGrows(f, comps, ci + 1);
  }

  /** Blocks of the current strip are in the padded arrays. */
  lemma StripBlock(f: Frame, img: Image, whole: Image, comps: seq<nat>, ci: nat, g: nat, row: nat, m: nat, x: nat)
    requires ValidFrame(f) && ValidComps(f, comps) && ci < |comps| && m < McusPerRow(f, comps) && g < f.mcuRows
    requires Loaded(f, img, whole, g + 1) && row < (g + 1) * f.comps[comps[ci]].v
    requires x < McuWidth(f, comps, comps[ci])
    ensures var p := Place(comps[ci], row, m * McuWidth(f, comps, comps[ci]) + x);
            p in whole && whole[p] == PaddedAt(f, img, p)
  {
    hide PaddedAt;
    var c := f.comps[comps[ci]];
    assert Covers(c.width, c.h, f.mcuCols) && Covers(c.height, c.v, f.mcuRows);
    MulMonotone(g + 1, f.mcuRows, c.v);
    if |comps| > 1 {
      MulMonotone(m + 1, f.mcuCols, c.h);
      MulSum(m, 1, c.h);
    }
    assert InPadded(f, Place(comps[ci], row, m * McuWidth(f, comps, comps[ci]) + x));
  }

  lemma PartBlocks(f: Frame, img: Image, comps: seq<nat>, r: nat, m: nat, k: nat)
    requires ValidComps(f, comps) && k < |comps|
    ensures PaddedBlocks(f, img, McuPart(f, comps, r, m, 0)) == []
    ensures PaddedBlocks(f, img, McuPart(f, comps, r, m, k + 1))
            == PaddedBlocks(f, img, McuPart(f, comps, r, m, k))
               + ComponentBlocks(f, img, comps, k, r, m, McuHeight(f, comps, comps[k]))
  {
    PaddedPart(f, img, comps, r, m, k);
  }

  /** The last block of the row above ends the same MCU column. */
  predicate AboveIs(f: Frame, img: Image, c: nat, row: nat, m: nat, b: McuBlock) {
    c < |f.comps| && row > 0 && m * f.comps[c].h + f.comps[c].h > 0
    && b.z == PaddedAt(f, img, Place(c, row - 1, m * f.comps[c].h + f.comps[c].h - 1))
  }

  /** The blocks of the first `n` rows of a component in an MCU. */
  function ComponentBlocks(f: Frame, img: Image, comps: seq<nat>, ci: nat, r: nat, m: nat, n: nat): seq<McuBlock>
    requires ValidComps(f, comps) && ci < |comps|
  {
    var c := comps[ci];
    var (w, h) := (McuWidth(f, comps, c), McuHeight(f, comps, c));
    PaddedRect(f, img, ci, c, r * h, n, m * w, w)
  }

  lemma ComponentRow(f: Frame, img: Image, comps: seq<nat>, ci: nat, r: nat, m: nat, n: nat)
    requires ValidFrame(f) && ValidComps(f, comps) && ci < |comps|
    ensures ComponentBlocks(f, img, comps, ci, r, m, 0) == []
    ensures var c := comps[ci];
            var w, row := McuWidth(f, comps, c), r * McuHeight(f, comps, c) + n;
            var bs := ComponentBlocks(f, img, comps, ci, r, m, n);
            && ComponentBlocks(f, img, comps, ci, r, m, n + 1)
               == bs + PaddedBlocks(f, img, RowCells(ci, c, row, m * w, w))
            && (n > 0 && |comps| > 1 ==> bs != [] && AboveIs(f, img, c, row, m, bs[|bs| - 1]))
  {
    hide PaddedBlocks, PaddedRect, PaddedAt;
    var c := comps[ci];
    var w, h := McuWidth(f, comps, c), McuHeight(f, comps, c);
    assert Covers(f.comps[c].width, f.comps[c].h, f.mcuCols);
    PaddedRectRow(f, img, ci, c, r * h, n, m * w, w);
  }

  lemma SeqLast(a: seq<McuBlock>, b: seq<McuBlock>)
    ensures b != [] ==> (a + b)[|a + b| - 1] == b[|b| - 1]
  {
  }

  /** A row above the bottom edge: real blocks, then dummies with the DC value of the last. */
  lemma RealPieces(f: Frame, img: Image, comps: seq<nat>, ci: nat, row: nat, m: nat)
    requires ValidFrame(f) && ValidComps(f, comps) && RealImage(f, img) && ci < |comps| && m < McusPerRow(f, comps)
    requires row < f.comps[comps[ci]].height
    ensures var c := comps[ci];
            var w := McuWidth(f, comps, c);
            var cnt := if m + 1 < McusPerRow(f, comps) then w else LastColWidth(f, comps, c);
            var bs := PaddedBlocks(f, img, RowCells(ci, c, row, m * w, cnt));
            && 0 < cnt <= w && bs != []
            && PaddedBlocks(f, img, RowCells(ci, c, row, m * w, w)) == bs + Dummies(ci, bs[|bs| - 1].z[0], w - cnt)
  {
    var c := comps[ci];
    var w := McuWidth(f, comps, c);
    var cnt := if m + 1 < McusPerRow(f, comps) then w else LastColWidth(f, comps, c);
    ColumnsReal(f, comps, c, m);
    hide PaddedBlocks, RowCells, PaddedAt, LastColWidth;
    PaddedRow(f, img, ci, c, row, m * w, cnt, w);
    LastOfRow(f, img, ci, c, row, m * w, cnt);
    if cnt < w {
      RightDummies(f, img, ci, c, row, w - cnt);
      RealAt(f, img, Place(c, row, m * w + cnt - 1));
    } else {
      NoCells(f, img, ci, c, row, m * w + cnt);
      assert Dummies(ci, PaddedBlocks(f, img, RowCells(ci, c, row, m * w, cnt))[cnt - 1].z[0], 0) == [];
    }
  }

  lemma BelowPieces(f: Frame, img: Image, comps: seq<nat>, ci: nat, row: nat, m: nat, above: McuBlock)
    requires ValidFrame(f) && ValidComps(f, comps) && RealImage(f, img) && ci < |comps| && |comps| > 1
    requires f.comps[comps[ci]].height <= row && AboveIs(f, img, comps[ci], row, m, above)
    ensures var c := comps[ci];
            var w := McuWidth(f, comps, c);
            PaddedBlocks(f, img, RowCells(ci, c, row, m * w, w)) == Dummies(ci, above.z[0], w)
  {
    hide PaddedBlocks, RowCells, PaddedAt, RealImage, Dummies;
    BottomDummies(f, img, ci, comps[ci], row, m);
  }

  lemma RealPiecesAfter(f: Frame, img: Image, comps: seq<nat>, ci: nat, row: nat, m: nat, before: seq<McuBlock>)
    requires ValidFrame(f) && ValidComps(f, comps) && RealImage(f, img) && ci < |comps| && m < McusPerRow(f, comps)
    requires row < f.comps[comps[ci]].height
    ensures var c := comps[ci];
            var w := McuWidth(f, comps, c);
            var cnt := if m + 1 < McusPerRow(f, comps) then w else LastColWidth(f, comps, c);
            var bs, all := PaddedBlocks(f, img, RowCells(ci, c, row, m * w, cnt)),
                           PaddedBlocks(f, img, RowCells(ci, c, row, m * w, w));
            && 0 < cnt <= w && before + bs != [] && |bs| == cnt
            && before + all == (before + bs) + Dummies(ci, (before + bs)[|before + bs| - 1].z[0], w - cnt)
            && (cnt == w ==> before + all == before + bs)
  {
    hide PaddedBlocks, RowCells, LastColWidth, Dummies;
    RealPieces(f, img, comps, ci, row, m);
    var c := comps[ci];
    var w := McuWidth(f, comps, c);
    var cnt := if m + 1 < McusPerRow(f, comps) then w else LastColWidth(f, comps, c);
    var bs := PaddedBlocks(f, img, RowCells(ci, c, row, m * w, cnt));
    SeqLast(before, bs);
    AppendAssoc(before, bs, Dummies(ci, bs[|bs| - 1].z[0], w - cnt));
  }

  lemma RealAt(f: Frame, img: Image, p: Place)
    ensures p in img ==> PaddedAt(f, img, p) == img[p]
  {
  }

  lemma LastOfRow(f: Frame, img: Image, ci: nat, c: nat, y: nat, x: nat, n: nat)
    requires n > 0
    ensures var bs := PaddedBlocks(f, img, RowCells(ci, c, y, x, n));
            bs != [] && bs[|bs| - 1].z == PaddedAt(f, img, Place(c, y, x + n - 1))
  {
  }

  lemma NoCells(f: Frame, img: Image, ci: nat, c: nat, y: nat, x: nat)
    ensures PaddedBlocks(f, img, RowCells(ci, c, y, x, 0)) == []
  {
  }
}
