/**
 Dummy blocks at the right and bottom edges, and the blocks of each MCU: what
 every coefficient controller must send (jccoefct.c, jctrans.c).
 */
module BlockPadding {
  import opened Products
  import opened BlockModel
  import opened ScanModel
  import opened Geometry

  const MAX_COMPS_IN_SCAN := 4
  const C_MAX_BLOCKS_IN_MCU := 10

  type Image = map<Place, Block>

  /** The real blocks of the frame, and no others. */
  ghost predicate RealImage(f: Frame, img: Image) {
    forall p :: p in img <==> Real(f, p)
  }

  /** A block of zeros but for its DC entry. */
  function Dummy(dc: int): (b: Block)
    ensures b[0] == dc
  {
    seq(64, k => if k == 0 then dc else 0)
  }

  /** The real block whose DC value a dummy block repeats: the last real one before it in its MCU. */
  function Source(f: Frame, p: Place): Place
    requires p.comp < |f.comps|
  {
    var c := f.comps[p.comp];
    if p.row < c.height then Place(p.comp, p.row, c.width - (if c.width > 0 then 1 else 0))
    else if c.h == 0 || c.height == 0 || c.width == 0 then p
    else Place(p.comp, c.height - 1, Min(LastInMcu(p.col, c.h), c.width - 1))
  }

  function Min(a: nat, b: nat): nat {
    if a < b then a else b
  }

  /** The last block column of the MCU that holds column `col`. */
  function LastInMcu(col: nat, h: nat): nat
    requires h > 0
  {
    col / h * h + h - 1
  }

  lemma LastInMcuIs(m: nat, h: nat, i: nat)
    requires i < h
    ensures LastInMcu(m * h + i, h) == m * h + h - 1
  {
    DivModUnique(m * h + i, h, m, i);
  }

  /** The block at a place of the padded arrays. */
  function PaddedAt(f: Frame, img: Image, p: Place): Block {
    if p in img then img[p]
    else if p.comp < |f.comps| && Source(f, p) in img then Dummy(img[Source(f, p)][0])
    else Dummy(0)
  }

  function PaddedBlocks(f: Frame, img: Image, cells: seq<Cell>): (bs: seq<McuBlock>)
    ensures |bs| == |cells|
  {
    seq(|cells|, j requires 0 <= j < |cells| => McuBlock(cells[j].ci, PaddedAt(f, img, cells[j].at)))
  }

  lemma PaddedConcat(f: Frame, img: Image, a: seq<Cell>, b: seq<Cell>)
    ensures PaddedBlocks(f, img, a + b) == PaddedBlocks(f, img, a) + PaddedBlocks(f, img, b)
  {
  }

  /** The MCUs a scan must send. */
  function PlanBlocks(f: Frame, img: Image, plan: seq<seq<Cell>>): (ms: seq<seq<McuBlock>>)
    ensures |ms| == |plan|
  {
    seq(|plan|, i requires 0 <= i < |plan| => PaddedBlocks(f, img, plan[i]))
  }

  lemma PlanBlocksConcat(f: Frame, img: Image, a: seq<seq<Cell>>, b: seq<seq<Cell>>)
    ensures PlanBlocks(f, img, a + b) == PlanBlocks(f, img, a) + PlanBlocks(f, img, b)
  {
  }

  function Dummies(ci: nat, dc: int, n: nat): (bs: seq<McuBlock>)
    ensures |bs| == n
  {
    seq(n, j => McuBlock(ci, Dummy(dc)))
  }

  /** A row of real blocks. */
  lemma RealRow(f: Frame, img: Image, ci: nat, c: nat, y: nat, x: nat, n: nat)
    requires RealImage(f, img) && c < |f.comps| && y < f.comps[c].height && x + n <= f.comps[c].width
    ensures forall j :: 0 <= j < n ==>
              && Place(c, y, x + j) in img
              && PaddedBlocks(f, img, RowCells(ci, c, y, x, n))[j] == McuBlock(ci, img[Place(c, y, x + j)])
  {
  }

  /** Dummy blocks at the right edge repeat the last real DC value of their row. */
  lemma RightDummies(f: Frame, img: Image, ci: nat, c: nat, y: nat, n: nat)
    requires ValidFrame(f) && RealImage(f, img) && c < |f.comps| && y < f.comps[c].height
    ensures var w := f.comps[c].width;
            && 0 < w && Place(c, y, w - 1) in img
            && PaddedBlocks(f, img, RowCells(ci, c, y, w, n)) == Dummies(ci, img[Place(c, y, w - 1)][0], n)
  {
    var w := f.comps[c].width;
    assert Covers(w, f.comps[c].h, f.mcuCols);
    var bs, ds := PaddedBlocks(f, img, RowCells(ci, c, y, w, n)), Dummies(ci, img[Place(c, y, w - 1)][0], n);
    forall j | 0 <= j < |bs| ensures bs[j] == ds[j] {
      assert Source(f, Place(c, y, w + j)) == Place(c, y, w - 1);
    }
  }

  /** The real block that ends the MCU column `m` of the bottom row. */
  function BottomSource(f: Frame, c: nat, m: nat): Place
    requires ValidFrame(f) && c < |f.comps|
  {
    var comp := f.comps[c];
    assert Covers(comp.width, comp.h, f.mcuCols) && Covers(comp.height, comp.v, f.mcuRows);
    Place(c, comp.height - 1, Min(m * comp.h + comp.h - 1, comp.width - 1))
  }

  lemma BottomDummy(f: Frame, img: Image, c: nat, y: nat, m: nat, i: nat)
    requires ValidFrame(f) && RealImage(f, img) && c < |f.comps|
    requires f.comps[c].height <= y && i < f.comps[c].h
    ensures var source := BottomSource(f, c, m);
            source in img && PaddedAt(f, img, Place(c, y, m * f.comps[c].h + i)) == Dummy(img[source][0])
  {
    hide LastInMcu;
    var comp := f.comps[c];
    assert Covers(comp.width, comp.h, f.mcuCols) && Covers(comp.height, comp.v, f.mcuRows);
    LastInMcuIs(m, comp.h, i);
    assert Source(f, Place(c, y, m * comp.h + i)) == BottomSource(f, c, m);
  }

  lemma AboveBottom(f: Frame, img: Image, c: nat, y: nat, m: nat)
    requires ValidFrame(f) && RealImage(f, img) && c < |f.comps|
    requires f.comps[c].height <= y
    ensures var h, source := f.comps[c].h, BottomSource(f, c, m);
            && y > 0 && h > 0 && source in img
            && PaddedAt(f, img, Place(c, y - 1, m * h + h - 1))[0] == img[source][0]
  {
    hide LastInMcu, Dummy;
    var comp := f.comps[c];
    assert Covers(comp.width, comp.h, f.mcuCols) && Covers(comp.height, comp.v, f.mcuRows);
    var above := Place(c, y - 1, m * comp.h + comp.h - 1);
    if y > comp.height {
      BottomDummy(f, img, c, y - 1, m, comp.h - 1);
    } else if above !in img {
      assert Source(f, above) == BottomSource(f, c, m);
    }
  }

  /** Dummy rows at the bottom repeat the last DC value of the row above in their MCU. */
  lemma BottomDummies(f: Frame, img: Image, ci: nat, c: nat, y: nat, m: nat)
    requires ValidFrame(f) && RealImage(f, img) && c < |f.comps|
    requires f.comps[c].height <= y
    ensures var h := f.comps[c].h;
            && y > 0 && h > 0
            && PaddedBlocks(f, img, RowCells(ci, c, y, m * h, h))
               == Dummies(ci, PaddedAt(f, img, Place(c, y - 1, m * h + h - 1))[0], h)
  {
    hide Dummy, PaddedAt, RealImage, BottomSource, ValidFrame;
    AboveBottom(f, img, c, y, m);
    var h := f.comps[c].h;
    var bs := PaddedBlocks(f, img, RowCells(ci, c, y, m * h, h));
    var ds := Dummies(ci, PaddedAt(f, img, Place(c, y - 1, m * h + h - 1))[0], h);
    forall j | 0 <= j < |bs| ensures bs[j] == ds[j] {
      BottomDummy(f, img, c, y, m, j);
    }
  }

  // ----- per_scan_setup

  function BlocksIn(f: Frame, comps: seq<nat>, k: nat): nat
    requires ValidComps(f, comps) && k <= |comps|
    decreases k
  {
    if k == 0 then 0
    else BlocksIn(f, comps, k - 1) + McuHeight(f, comps, comps[k - 1]) * McuWidth(f, comps, comps[k - 1])
  }

  // ----- dummy blocks as their MCU shows them

  /** Of two neighbours on the way through an MCU, a dummy repeats the DC value of the block before it. */
  lemma DummyRepeats(f: Frame, img: Image, c: nat, y: nat, m: nat, i: nat)
    requires ValidFrame(f) && RealImage(f, img) && c < |f.comps| && m < f.mcuCols && i < f.comps[c].h
    requires !Real(f, Place(c, y, m * f.comps[c].h + i))
    ensures i > 0 || (y > 0 && y >= f.comps[c].height)
    ensures var h := f.comps[c].h;
            && m * h + h > 0
            && var before := if i > 0 then Place(c, y, m * h + i - 1) else Place(c, y - 1, m * h + h - 1);
               PaddedAt(f, img, Place(c, y, m * h + i)) == Dummy(PaddedAt(f, img, before)[0])
  {
    hide LastInMcu;
    var comp := f.comps[c];
    var h := comp.h;
    assert Covers(comp.width, h, f.mcuCols) && Covers(comp.height, comp.v, f.mcuRows);
    if y < comp.height {
      MulMonotone(m, f.mcuCols - 1, h);
      LastCountIs(comp.width, h, f.mcuCols);
      var p, edge := Place(c, y, m * h + i), Place(c, y, comp.width - 1);
      assert Source(f, p) == edge && edge in img;
      var before := Place(c, y, m * h + i - 1);
      if before != edge {
        assert Source(f, before) == edge && before !in img;
      }
    } else {
      BottomDummy(f, img, c, y, m, i);
      if i > 0 {
        BottomDummy(f, img, c, y, m, i - 1);
      } else {
        AboveBottom(f, img, c, y, m);
      }
    }
  }

  lemma {:induction false} RectAt(ci: nat, comp: nat, row: nat, n: nat, col: nat, w: nat, a: nat, b: nat)
    requires a < n && b < w
    ensures a * w + b < n * w == |Rect(ci, comp, row, n, col, w)|
    ensures Rect(ci, comp, row, n, col, w)[a * w + b] == Cell(ci, Place(comp, row + a, col + b))
    decreases n
  {
    hide RowCells;
    RectIs(ci, comp, row, n, col, w);
    RectIs(ci, comp, row, n - 1, col, w);
    MulSum(n - 1, 1, w);
    MulSum(a, 1, w);
    MulMonotone(a + 1, n, w);
    if a < n - 1 {
      RectAt(ci, comp, row, n - 1, col, w, a, b);
    } else {
      RowCellAt(ci, comp, row + a, col, w, b);
    }
  }

  lemma RowCellAt(ci: nat, comp: nat, row: nat, col: nat, n: nat, x: nat)
    requires x < n
    ensures RowCells(ci, comp, row, col, n)[x] == Cell(ci, Place(comp, row, col + x))
  {
  }

  /** A dummy in the part of an MCU that belongs to one component. */
  lemma RectDummy(f: Frame, img: Image, ci: nat, c: nat, r: nat, m: nat, j: nat)
    requires ValidFrame(f) && RealImage(f, img) && c < |f.comps| && r < f.mcuRows && m < f.mcuCols
    requires var (h, v) := (f.comps[c].h, f.comps[c].v);
             var cells := Rect(ci, c, r * v, v, m * h, h);
             j < |cells| && !Real(f, cells[j].at)
    ensures var (h, v) := (f.comps[c].h, f.comps[c].v);
            var cells := Rect(ci, c, r * v, v, m * h, h);
            && j > 0 && cells[j - 1].ci == cells[j].ci == ci
            && PaddedAt(f, img, cells[j].at) == Dummy(PaddedAt(f, img, cells[j - 1].at)[0])
  {
    hide PaddedAt, Dummy, Rect, RealImage;
    var h, v := f.comps[c].h, f.comps[c].v;
    RectIs(ci, c, r * v, v, m * h, h);
    assert Covers(f.comps[c].width, h, f.mcuCols) && Covers(f.comps[c].height, v, f.mcuRows);
    var a, b := Quotient(j, h), j - Quotient(j, h) * h;
    CancelOrder(a, v, h);
    RectAt(ci, c, r * v, v, m * h, h, a, b);
    DummyRepeats(f, img, c, r * v + a, m, b);
    if b > 0 {
      RectAt(ci, c, r * v, v, m * h, h, a, b - 1);
    } else {
      FirstRowReal(f, c, r);
      MulSum(a - 1, 1, h);
      RectAt(ci, c, r * v, v, m * h, h, a - 1, h - 1);
    }
  }

  lemma FirstRowReal(f: Frame, c: nat, r: nat)
    requires ValidFrame(f) && c < |f.comps| && r < f.mcuRows
    ensures r * f.comps[c].v < f.comps[c].height
  {
    var k := f.comps[c];
    assert Covers(k.height, k.v, f.mcuRows);
    LastCountIs(k.height, k.v, f.mcuRows);
    MulMonotone(r, f.mcuRows - 1, k.v);
  }

  lemma {:induction false} PartDummy(f: Frame, img: Image, comps: seq<nat>, r: nat, m: nat, k: nat, j: nat)
    requires ValidFrame(f) && RealImage(f, img) && ValidComps(f, comps) && |comps| > 1 && k <= |comps|
    requires r < f.mcuRows && m < f.mcuCols && j < |McuPart(f, comps, r, m, k)| && !Real(f, McuPart(f, comps, r, m, k)[j].at)
    ensures var cells := McuPart(f, comps, r, m, k);
            && j > 0 && cells[j - 1].ci == cells[j].ci
            && PaddedAt(f, img, cells[j].at) == Dummy(PaddedAt(f, img, cells[j - 1].at)[0])
    decreases k
  {
    hide PaddedAt, Dummy, Rect, RealImage, Real;
    var n := |McuPart(f, comps, r, m, k - 1)|;
    if j < n {
      PartDummy(f, img, comps, r, m, k - 1, j);
    } else {
      RectDummy(f, img, k - 1, comps[k - 1], r, m, j - n);
    }
  }

  /**
   In every MCU of several components, a dummy block is zero but for its DC value, and
   that is the DC value of the block just before it, which is of the same component.
   */
  lemma DummyFollows(f: Frame, img: Image, comps: seq<nat>, r: nat, m: nat, j: nat)
    requires ValidFrame(f) && RealImage(f, img) && ValidComps(f, comps) && |comps| > 1 && r < f.mcuRows && m < f.mcuCols
    requires j < |McuCells(f, comps, r, m)| && !Real(f, McuCells(f, comps, r, m)[j].at)
    ensures var bs := PaddedBlocks(f, img, McuCells(f, comps, r, m));
            && j > 0 && bs[j - 1].ci == bs[j].ci && bs[j].z[0] == bs[j - 1].z[0]
            && forall k :: 1 <= k < 64 ==> bs[j].z[k] == 0
  {
    hide PaddedAt, RealImage, Real, McuPart;
    PartDummy(f, img, comps, r, m, |comps|, j);
  }

  /** The scans the compressor accepts: an MCU holds at most ten blocks. */
  predicate ScanSetup(f: Frame, comps: seq<nat>) {
    ValidComps(f, comps) && |comps| <= MAX_COMPS_IN_SCAN && (|comps| == 1 || BlocksIn(f, comps, |comps|) <= C_MAX_BLOCKS_IN_MCU)
  }

  lemma {:induction false} BlocksInGrows(f: Frame, comps: seq<nat>, k: nat)
    requires ValidComps(f, comps) && k <= |comps|
    ensures BlocksIn(f, comps, k) <= BlocksIn(f, comps, |comps|)
    decreases |comps| - k
  {
    if k < |comps| {
      BlocksInGrows(f, comps, k + 1);
    }
  }

  function Membership(cells: seq<Cell>): (r: seq<nat>)
    ensures |r| == |cells|
  {
    seq(|cells|, j requires 0 <= j < |cells| => cells[j].ci)
  }

  /** The component index of each block of an MCU, component by component. */
  function MembershipOf(f: Frame, comps: seq<nat>, k: nat): (r: seq<nat>)
    requires ValidComps(f, comps) && k <= |comps|
    ensures |r| == BlocksIn(f, comps, k)
    decreases k
  {
    if k == 0 then [] else
    var c := comps[k - 1];
    MembershipOf(f, comps, k - 1) + Times(k - 1, McuHeight(f, comps, c) * McuWidth(f, comps, c))
  }

  function Times(x: nat, n: nat): (r: seq<nat>)
    ensures |r| == n
  {
    seq(n, j => x)
  }

  /** All MCUs have the same composition. */
  lemma {:induction false} McuMembership(f: Frame, comps: seq<nat>, r: nat, m: nat, k: nat)
    requires ValidComps(f, comps) && k <= |comps|
    ensures Membership(McuPart(f, comps, r, m, k)) == MembershipOf(f, comps, k)
    decreases k
  {
    hide Rect;
    if k > 0 {
      var c := comps[k - 1];
      var w, h := McuWidth(f, comps, c), McuHeight(f, comps, c);
      RectIs(k - 1, c, r * h, h, m * w, w);
      McuMembership(f, comps, r, m, k - 1);
    }
  }

  /** Computes which component each block of an MCU belongs to, the same for every MCU. */
  method PerScanSetup(f: Frame, comps: seq<nat>) returns (ok: bool, membership: seq<nat>)
    requires ValidComps(f, comps)
    ensures ok <==> ScanSetup(f, comps)
    ensures ok ==> forall r, m :: Membership(McuCells(f, comps, r, m)) == membership
  {
    hide McuCells, Membership, McuHeight, McuWidth;
    membership := [];
    if |comps| == 1 {
      membership := [0];
      forall r: nat, m: nat ensures Membership(McuCells(f, comps, r, m)) == [0] {
        SingleMcu(f, comps, r, m);
      }
      return true, membership;
    }
    if |comps| <= 0 || |comps| > MAX_COMPS_IN_SCAN {
      return false, membership;
    }
    var ci := 0;
    while ci < |comps|
      invariant 0 <= ci <= |comps| && |membership| <= C_MAX_BLOCKS_IN_MCU
      invariant membership == MembershipOf(f, comps, ci)
    {
      var c := comps[ci];
      BlocksInGrows(f, comps, ci + 1);
      var mcublks := McuHeight(f, comps, c) * McuWidth(f, comps, c);
      if |membership| + mcublks > C_MAX_BLOCKS_IN_MCU {
        return false, membership;
      }
      ghost var was, n := membership, mcublks;
      while mcublks > 0
        invariant 0 <= mcublks <= n && membership == was + Times(ci, n - mcublks)
      {
        membership := membership + [ci];
        mcublks := mcublks - 1;
      }
      ci := ci + 1;
    }
    ok := true;
    forall r, m ensures Membership(McuCells(f, comps, r, m)) == membership {
      McuMembershipAll(f, comps, r, m);
    }
  }

  lemma McuMembershipAll(f: Frame, comps: seq<nat>, r: nat, m: nat)
    requires ValidComps(f, comps)
    ensures Membership(McuCells(f, comps, r, m)) == MembershipOf(f, comps, |comps|)
  {
    McuMembership(f, comps, r, m, |comps|);
  }

  lemma SingleMcu(f: Frame, comps: seq<nat>, r: nat, m: nat)
    requires ValidComps(f, comps) && |comps| == 1
    ensures McuCells(f, comps, r, m) == [Cell(0, Place(comps[0], r, m))]
    ensures Membership(McuCells(f, comps, r, m)) == [0]
  {
    assert McuPart(f, comps, r, m, 0) == [];
    assert Rect(0, comps[0], r * 1, 0, m * 1, 1) == [];
    assert Rect(0, comps[0], r * 1, 1, m * 1, 1) == [] + RowCells(0, comps[0], r, m, 1);
    assert RowCells(0, comps[0], r, m, 1) == [Cell(0, Place(comps[0], r, m))];
  }
}
