/**
 Image and MCU geometry (jcmaster.c): component sizes in blocks, the blocks of
 each MCU, and the order in which a scan visits them.
 */
module Geometry {
  import opened Products

  const MAX_COMPONENTS := 10
  const MAX_SAMP_FACTOR := 4
  const JPEG_MAX_DIMENSION := 65500

  /** Sampling factors and real size in blocks. */
  datatype Component = Component(h: nat, v: nat, width: nat, height: nat)

  /** Components, the size in fully interleaved MCUs, and the last coefficient of a block. */
  datatype Frame = Frame(comps: seq<Component>, mcuCols: nat, mcuRows: nat, limSe: nat)

  /** `mcus` MCUs of `unit` blocks hold the blocks, and one less would not. */
  predicate Covers(blocks: nat, unit: nat, mcus: nat) {
    0 < unit && 0 < mcus && (mcus - 1) * unit < blocks <= mcus * unit
  }

  predicate ValidFrame(f: Frame) {
    f.limSe < 64 && forall c :: 0 <= c < |f.comps| ==>
      Covers(f.comps[c].width, f.comps[c].h, f.mcuCols) && Covers(f.comps[c].height, f.comps[c].v, f.mcuRows)
  }

  function DivRoundUp(a: nat, b: nat): nat
    requires b > 0
  {
    (a + b - 1) / b
  }

  lemma RoundUpBounds(a: nat, b: nat)
    requires a > 0 && b > 0
    ensures var q: int := DivRoundUp(a, b); 0 < q && (q - 1) * b < a <= q * b
  {
    var q: int := Quotient(a + b - 1, b);
    MulSum(q - 1, 1, b);
    if q <= 0 {
      MulMonotone(q, 0, b);
    }
  }

  /** The ceiling divisions of component sizes and MCU counts fit each other. */
  lemma SizesCover(size: nat, factor: nat, maxFactor: nat, blockSize: nat)
    requires size > 0 && factor > 0 && maxFactor * blockSize > 0
    ensures Covers(DivRoundUp(size * factor, maxFactor * blockSize), factor, DivRoundUp(size, maxFactor * blockSize))
  {
    SizesCoverUnit(size, factor, maxFactor * blockSize);
  }

  lemma SizesCoverUnit(size: nat, factor: nat, d: nat)
    requires size > 0 && factor > 0 && d > 0
    ensures Covers(DivRoundUp(size * factor, d), factor, DivRoundUp(size, d))
  {
    hide DivRoundUp;
    MulMonotone(1, size, factor);
    RoundUpBounds(size, d);
    RoundUpBounds(size * factor, d);
    var m: int, b: int := DivRoundUp(size, d), DivRoundUp(size * factor, d);
    MulMonotone(size, m * d, factor);
    MulMonotone((m - 1) * d, size, factor);
    MulMonotone((m - 1) * d + 1, size, factor);
    MulSum((m - 1) * d, 1, factor);
    MulSwap(factor, m, d);
    assert (m * d) * factor == (m * factor) * d;
    assert ((m - 1) * d) * factor == ((m - 1) * factor) * d;
    CancelOrder(b - 1, m * factor, d);
    CancelOrder((m - 1) * factor, b, d);
  }

  /** Number of real blocks in the last MCU. */
  function LastCount(blocks: nat, unit: nat): nat
    requires unit > 0
  {
    if blocks % unit == 0 then unit else blocks % unit
  }

  lemma LastCountIs(blocks: nat, unit: nat, mcus: nat)
    requires Covers(blocks, unit, mcus)
    ensures 0 < LastCount(blocks, unit) <= unit
    ensures blocks == (mcus - 1) * unit + LastCount(blocks, unit)
  {
    var last := blocks - (mcus - 1) * unit;
    MulSum(mcus - 1, 1, unit);
    if last == unit {
      DivModUnique(blocks, unit, mcus, 0);
    } else {
      DivModUnique(blocks, unit, mcus - 1, last);
    }
  }

  // ----- initial_setup

  datatype Factors = Factors(h: int, v: int)

  datatype Setup = Failed | Sized(frame: Frame)

  predicate FactorsOk(s: Factors) {
    0 < s.h <= MAX_SAMP_FACTOR && 0 < s.v <= MAX_SAMP_FACTOR
  }

  predicate SizesOk(width: int, height: int, precision: int, blockSize: int, factors: seq<Factors>) {
    && 1 <= blockSize <= 16 && width > 0 && height > 0 && factors != []
    && width <= JPEG_MAX_DIMENSION && height <= JPEG_MAX_DIMENSION
    && 8 <= precision <= 12 && |factors| <= MAX_COMPONENTS
    && (forall c :: 0 <= c < |factors| ==> FactorsOk(factors[c]))
  }

  predicate IsMax(m: int, xs: seq<int>) {
    (m == 1 || m in xs) && m >= 1 && forall x :: x in xs ==> x <= m
  }

  function Hs(factors: seq<Factors>): (r: seq<int>)
    ensures |r| == |factors|
  {
    seq(|factors|, c requires 0 <= c < |factors| => factors[c].h)
  }

  function Vs(factors: seq<Factors>): (r: seq<int>)
    ensures |r| == |factors|
  {
    seq(|factors|, c requires 0 <= c < |factors| => factors[c].v)
  }

  const DCTSIZE := 8

  /** Blocks smaller than the DCT have fewer coefficients. */
  function LimSe(blockSize: int): (lim: nat)
    requires 1 <= blockSize
    ensures lim < 64
  {
    if blockSize < DCTSIZE then
      MulMonotone(blockSize, 7, blockSize);
      MulMonotone(1, blockSize, blockSize);
      blockSize * blockSize - 1
    else 63
  }

  /** Checks the image parameters and computes the size of each component. */
  method InitialSetup(width: int, height: int, precision: int, blockSize: int, factors: seq<Factors>)
    returns (r: Setup, ghost maxH: nat, ghost maxV: nat)
    ensures r.Sized? <==> SizesOk(width, height, precision, blockSize, factors)
    ensures r.Sized? ==>
              && var f := r.frame;
              && ValidFrame(f) && |f.comps| == |factors|
              && IsMax(maxH, Hs(factors)) && IsMax(maxV, Vs(factors))
              && f.limSe == LimSe(blockSize)
              && f.mcuCols == DivRoundUp(width, maxH * blockSize) && f.mcuRows == DivRoundUp(height, maxV * blockSize)
              && forall c :: 0 <= c < |factors| ==>
                   && f.comps[c].h == factors[c].h && f.comps[c].v == factors[c].v
                   && f.comps[c].width == DivRoundUp(width * factors[c].h, maxH * blockSize)
                   && f.comps[c].height == DivRoundUp(height * factors[c].v, maxV * blockSize)
  {
    maxH, maxV := 1, 1;
    if blockSize < 1 || blockSize > 16 {
      return Failed, maxH, maxV;
    }
    if height <= 0 || width <= 0 || |factors| <= 0 {
      return Failed, maxH, maxV;
    }
    if height > JPEG_MAX_DIMENSION || width > JPEG_MAX_DIMENSION {
      return Failed, maxH, maxV;
    }
    if precision < 8 || precision > 12 {
      return Failed, maxH, maxV;
    }
    if |factors| > MAX_COMPONENTS {
      return Failed, maxH, maxV;
    }
    var maxh, maxv := 1, 1;
    var ci := 0;
    while ci < |factors|
      invariant 0 <= ci <= |factors|
      invariant forall c :: 0 <= c < ci ==> FactorsOk(factors[c])
      invariant IsMax(maxh, Hs(factors)[..ci]) && IsMax(maxv, Vs(factors)[..ci])
    {
      var s := factors[ci];
      if s.h <= 0 || s.h > MAX_SAMP_FACTOR || s.v <= 0 || s.v > MAX_SAMP_FACTOR {
        return Failed, maxH, maxV;
      }
      assert Hs(factors)[..ci + 1] == Hs(factors)[..ci] + [s.h];
      assert Vs(factors)[..ci + 1] == Vs(factors)[..ci] + [s.v];
      maxh := if s.h > maxh then s.h else maxh;
      maxv := if s.v > maxv then s.v else maxv;
      ci := ci + 1;
    }
    assert Hs(factors)[..|factors|] == Hs(factors) && Vs(factors)[..|factors|] == Vs(factors);
    maxH, maxV := maxh, maxv;
    MulMonotone(1, maxh, blockSize);
    MulMonotone(1, maxv, blockSize);
    var f := SizeComponents(width, height, maxh * blockSize, maxv * blockSize, factors, LimSe(blockSize));
    r := Sized(f);
  }

  method SizeComponents(width: nat, height: nat, unitH: nat, unitV: nat, factors: seq<Factors>, limSe: nat)
    returns (f: Frame)
    requires limSe < 64
    requires width > 0 && height > 0 && unitH > 0 && unitV > 0
    requires forall c :: 0 <= c < |factors| ==> FactorsOk(factors[c])
    ensures ValidFrame(f) && |f.comps| == |factors| && f.limSe == limSe
    ensures f.mcuCols == DivRoundUp(width, unitH) && f.mcuRows == DivRoundUp(height, unitV)
    ensures forall c :: 0 <= c < |factors| ==>
              && f.comps[c].h == factors[c].h && f.comps[c].v == factors[c].v
              && f.comps[c].width == DivRoundUp(width * factors[c].h, unitH)
              && f.comps[c].height == DivRoundUp(height * factors[c].v, unitV)
  {
    hide DivRoundUp, Covers;
    var cols, rows := DivRoundUp(width, unitH), DivRoundUp(height, unitV);
    var comps: seq<Component> := [];
    var ci := 0;
    while ci < |factors|
      invariant 0 <= ci == |comps| <= |factors|
      invariant forall c :: 0 <= c < ci ==>
                  && comps[c].h == factors[c].h && comps[c].v == factors[c].v
                  && comps[c].width == DivRoundUp(width * factors[c].h, unitH)
                  && comps[c].height == DivRoundUp(height * factors[c].v, unitV)
      invariant forall c :: 0 <= c < ci ==> Covers(comps[c].width, comps[c].h, cols) && Covers(comps[c].height, comps[c].v, rows)
    {
      var s := factors[ci];
      SizesCoverUnit(width, s.h, unitH);
      SizesCoverUnit(height, s.v, unitV);
      comps := comps + [Component(s.h, s.v, DivRoundUp(width * s.h, unitH), DivRoundUp(height * s.v, unitV))];
      ci := ci + 1;
    }
    f := Frame(comps, cols, rows, limSe);
  }

  // ----- places and cells

  /** A block of the image: component, block row and block column. */
  datatype Place = Place(comp: nat, row: nat, col: nat)

  /** A block within a scan: the index of its component in the scan, and its place. */
  datatype Cell = Cell(ci: nat, at: Place)

  predicate Real(f: Frame, p: Place) {
    p.comp < |f.comps| && p.row < f.comps[p.comp].height && p.col < f.comps[p.comp].width
  }

  /** Places of the arrays padded to whole MCUs. */
  predicate InPadded(f: Frame, p: Place) {
    p.comp < |f.comps| && p.row < f.mcuRows * f.comps[p.comp].v && p.col < f.mcuCols * f.comps[p.comp].h
  }

  predicate ValidComps(f: Frame, comps: seq<nat>) {
    && comps != []
    && (forall i :: 0 <= i < |comps| ==> comps[i] < |f.comps|)
    && (forall i, j :: 0 <= i < j < |comps| ==> comps[i] < comps[j])
  }

  /** Blocks of a component across and down an MCU of the scan: one only if it is alone. */
  function McuWidth(f: Frame, comps: seq<nat>, c: nat): nat
    requires c < |f.comps|
  {
    if |comps| == 1 then 1 else f.comps[c].h
  }

  function McuHeight(f: Frame, comps: seq<nat>, c: nat): nat
    requires c < |f.comps|
  {
    if |comps| == 1 then 1 else f.comps[c].v
  }

  function McusPerRow(f: Frame, comps: seq<nat>): nat
    requires ValidComps(f, comps)
  {
    if |comps| == 1 then f.comps[comps[0]].width else f.mcuCols
  }

  function McuRowsInScan(f: Frame, comps: seq<nat>): nat
    requires ValidComps(f, comps)
  {
    if |comps| == 1 then f.comps[comps[0]].height else f.mcuRows
  }

  function RowCells(ci: nat, comp: nat, row: nat, col: nat, n: nat): (r: seq<Cell>)
    ensures |r| == n
  {
    seq(n, x requires 0 <= x < n => Cell(ci, Place(comp, row, col + x)))
  }

  function Rect(ci: nat, comp: nat, row: nat, n: nat, col: nat, w: nat): seq<Cell>
    decreases n
  {
    if n == 0 then [] else Rect(ci, comp, row, n - 1, col, w) + RowCells(ci, comp, row + n - 1, col, w)
  }

  /** The cells of the first `k` components of the MCU at row `r` and column `m`. */
  function McuPart(f: Frame, comps: seq<nat>, r: nat, m: nat, k: nat): seq<Cell>
    requires ValidComps(f, comps) && k <= |comps|
    decreases k
  {
    if k == 0 then [] else
    var c := comps[k - 1];
    var (w, h) := (McuWidth(f, comps, c), McuHeight(f, comps, c));
    McuPart(f, comps, r, m, k - 1) + Rect(k - 1, c, r * h, h, m * w, w)
  }

  function McuCells(f: Frame, comps: seq<nat>, r: nat, m: nat): seq<Cell>
    requires ValidComps(f, comps)
  {
    McuPart(f, comps, r, m, |comps|)
  }

  function PlanRow(f: Frame, comps: seq<nat>, r: nat, m: nat): (plan: seq<seq<Cell>>)
    requires ValidComps(f, comps)
    ensures |plan| == m
  {
    seq(m, j requires 0 <= j < m => McuCells(f, comps, r, j))
  }

  function PlanRows(f: Frame, comps: seq<nat>, r: nat): seq<seq<Cell>>
    requires ValidComps(f, comps)
    decreases r
  {
    if r == 0 then [] else PlanRows(f, comps, r - 1) + PlanRow(f, comps, r - 1, McusPerRow(f, comps))
  }

  /** The MCUs of a scan in the order they are coded. */
  function Plan(f: Frame, comps: seq<nat>): seq<seq<Cell>>
    requires ValidComps(f, comps)
  {
    PlanRows(f, comps, McuRowsInScan(f, comps))
  }

  // ----- what a scan visits

  function CellsOf(mcu: seq<Cell>): set<Place> {
    set j | 0 <= j < |mcu| :: mcu[j].at
  }

  function Visited(plan: seq<seq<Cell>>): set<Place>
    decreases |plan|
  {
    if plan == [] then {} else CellsOf(plan[0]) + Visited(plan[1..])
  }

  /** No two cells of an MCU are at the same place. */
  predicate Inner(mcu: seq<Cell>) {
    forall i, j :: 0 <= i < j < |mcu| ==> mcu[i].at != mcu[j].at
  }

  /** No place is visited twice. */
  predicate Distinct(plan: seq<seq<Cell>>)
    decreases |plan|
  {
    plan == [] || (Inner(plan[0]) && CellsOf(plan[0]) !! Visited(plan[1..]) && Distinct(plan[1..]))
  }

  lemma {:induction false} VisitedConcat(a: seq<seq<Cell>>, b: seq<seq<Cell>>)
    ensures Visited(a + b) == Visited(a) + Visited(b)
    ensures Distinct(a) && Distinct(b) && Visited(a) !! Visited(b) ==> Distinct(a + b)
    decreases |a|
  {
    hide CellsOf, Inner;
    if a == [] {
      assert a + b == b;
    } else {
      assert (a + b)[1..] == a[1..] + b;
      VisitedConcat(a[1..], b);
    }
  }

  lemma CellsConcat(a: seq<Cell>, b: seq<Cell>)
    ensures CellsOf(a + b) == CellsOf(a) + CellsOf(b)
    ensures Inner(a) && Inner(b) && CellsOf(a) !! CellsOf(b) ==> Inner(a + b)
  {
    var s := a + b;
    forall p | p in CellsOf(a) + CellsOf(b) ensures p in CellsOf(s) {
      if p in CellsOf(a) {
        var j :| 0 <= j < |a| && a[j].at == p;
        assert s[j].at == p;
      } else {
        var j :| 0 <= j < |b| && b[j].at == p;
        assert s[|a| + j].at == p;
      }
    }
    if Inner(a) && Inner(b) && CellsOf(a) !! CellsOf(b) {
      forall i, j | 0 <= i < j < |s| ensures s[i].at != s[j].at {
        if i < |a| <= j {
          assert a[i].at in CellsOf(a) && b[j - |a|].at in CellsOf(b);
        }
      }
    }
  }

  lemma OneMcu(mcu: seq<Cell>)
    requires Inner(mcu)
    ensures Visited([mcu]) == CellsOf(mcu) && Distinct([mcu])
  {
    assert [mcu][1..] == [] && Visited([]) == {};
  }

  predicate InRect(p: Place, comp: nat, row: nat, n: nat, col: nat, w: nat) {
    p.comp == comp && row <= p.row < row + n && col <= p.col < col + w
  }

  lemma RowCellsAre(ci: nat, comp: nat, row: nat, col: nat, w: nat)
    ensures forall p :: p in CellsOf(RowCells(ci, comp, row, col, w)) <==> InRect(p, comp, row, 1, col, w)
    ensures Inner(RowCells(ci, comp, row, col, w))
  {
    var s := RowCells(ci, comp, row, col, w);
    forall p | InRect(p, comp, row, 1, col, w) ensures p in CellsOf(s) {
      assert s[p.col - col].at == p;
    }
  }

  lemma {:induction false} RectIs(ci: nat, comp: nat, row: nat, n: nat, col: nat, w: nat)
    ensures forall p :: p in CellsOf(Rect(ci, comp, row, n, col, w)) <==> InRect(p, comp, row, n, col, w)
    ensures Inner(Rect(ci, comp, row, n, col, w))
    ensures forall j :: 0 <= j < |Rect(ci, comp, row, n, col, w)| ==> Rect(ci, comp, row, n, col, w)[j].ci == ci
    ensures |Rect(ci, comp, row, n, col, w)| == n * w
    decreases n
  {
    if n > 0 {
      RectIs(ci, comp, row, n - 1, col, w);
      RowCellsAre(ci, comp, row + n - 1, col, w);
      CellsConcat(Rect(ci, comp, row, n - 1, col, w), RowCells(ci, comp, row + n - 1, col, w));
      MulSum(n - 1, 1, w);
    }
  }

  /** The place belongs to the MCU at row `r` and column `m`. */
  predicate InMcu(f: Frame, comps: seq<nat>, p: Place, r: nat, m: nat) {
    p.comp < |f.comps| &&
    var (w, h) := (McuWidth(f, comps, p.comp), McuHeight(f, comps, p.comp));
    InRect(p, p.comp, r * h, h, m * w, w)
  }

  predicate GoodCell(f: Frame, comps: seq<nat>, x: Cell) {
    x.ci < |comps| && x.at.comp == comps[x.ci]
  }

  lemma {:induction false} McuPartIs(f: Frame, comps: seq<nat>, r: nat, m: nat, k: nat)
    requires ValidComps(f, comps) && k <= |comps|
    ensures forall p :: p in CellsOf(McuPart(f, comps, r, m, k))
                        <==> p.comp in comps[..k] && InMcu(f, comps, p, r, m)
    ensures Inner(McuPart(f, comps, r, m, k))
    ensures GoodMcu(f, comps, McuPart(f, comps, r, m, k))
    decreases k
  {
    hide Rect;
    if k > 0 {
      var c := comps[k - 1];
      var w, h := McuWidth(f, comps, c), McuHeight(f, comps, c);
      McuPartIs(f, comps, r, m, k - 1);
      var a, b := McuPart(f, comps, r, m, k - 1), Rect(k - 1, c, r * h, h, m * w, w);
      RectIs(k - 1, c, r * h, h, m * w, w);
      forall j | 0 <= j < |b| ensures GoodCell(f, comps, b[j]) {
        assert b[j].at in CellsOf(b);
      }
      assert comps[..k] == comps[..k - 1] + [c];
      assert c !in comps[..k - 1];
      CellsConcat(a, b);
    }
  }

  lemma McuIs(f: Frame, comps: seq<nat>, r: nat, m: nat)
    requires ValidComps(f, comps)
    ensures forall p :: p in CellsOf(McuCells(f, comps, r, m)) <==> p.comp in comps && InMcu(f, comps, p, r, m)
    ensures Inner(McuCells(f, comps, r, m))
    ensures GoodMcu(f, comps, McuCells(f, comps, r, m))
  {
    assert comps[..|comps|] == comps;
    McuPartIs(f, comps, r, m, |comps|);
  }

  /** The place is in MCU row `r`, before column `m`. */
  predicate InRow(f: Frame, comps: seq<nat>, p: Place, r: nat, m: nat) {
    && p.comp in comps && p.comp < |f.comps|
    && var (w, h) := (McuWidth(f, comps, p.comp), McuHeight(f, comps, p.comp));
       r * h <= p.row < r * h + h && p.col < m * w
  }

  lemma {:induction false} PlanRowIs(f: Frame, comps: seq<nat>, r: nat, m: nat)
    requires ValidComps(f, comps)
    ensures forall p :: p in Visited(PlanRow(f, comps, r, m)) <==> InRow(f, comps, p, r, m)
    ensures Distinct(PlanRow(f, comps, r, m))
    decreases m
  {
    hide McuCells, CellsOf, Inner, Visited, Distinct, InRow, InMcu;
    if m > 0 {
      var a, b := PlanRow(f, comps, r, m - 1), McuCells(f, comps, r, m - 1);
      PlanRowIs(f, comps, r, m - 1);
      McuIs(f, comps, r, m - 1);
      assert PlanRow(f, comps, r, m) == a + [b];
      OneMcu(b);
      RowColumns(f, comps, r, m - 1);
      VisitedConcat(a, [b]);
    } else {
      assert PlanRow(f, comps, r, 0) == [];
      VisitedNone();
      NoColumns(f, comps, r);
    }
  }

  lemma NoColumns(f: Frame, comps: seq<nat>, r: nat)
    requires ValidComps(f, comps)
    ensures forall p :: !InRow(f, comps, p, r, 0)
  {
  }

  lemma RowColumns(f: Frame, comps: seq<nat>, r: nat, m: nat)
    requires ValidComps(f, comps)
    ensures forall p ::
              && (InRow(f, comps, p, r, m + 1)
                  <==> InRow(f, comps, p, r, m) || (p.comp in comps && InMcu(f, comps, p, r, m)))
              && !(InRow(f, comps, p, r, m) && p.comp in comps && InMcu(f, comps, p, r, m))
  {
    forall p: Place | p.comp in comps && p.comp < |f.comps|
      ensures InRow(f, comps, p, r, m + 1) <==> InRow(f, comps, p, r, m) || InMcu(f, comps, p, r, m)
    {
      MulSum(m, 1, McuWidth(f, comps, p.comp));
    }
  }

  predicate InRows(f: Frame, comps: seq<nat>, p: Place, r: nat)
    requires ValidComps(f, comps)
  {
    && p.comp in comps && p.comp < |f.comps|
    && p.row < r * McuHeight(f, comps, p.comp)
    && p.col < McusPerRow(f, comps) * McuWidth(f, comps, p.comp)
  }

  lemma {:induction false} PlanRowsIs(f: Frame, comps: seq<nat>, r: nat)
    requires ValidComps(f, comps)
    ensures forall p :: p in Visited(PlanRows(f, comps, r)) <==> InRows(f, comps, p, r)
    ensures Distinct(PlanRows(f, comps, r))
    decreases r
  {
    hide Distinct, Visited, McusPerRow;
    if r > 0 {
      var a, b := PlanRows(f, comps, r - 1), PlanRow(f, comps, r - 1, McusPerRow(f, comps));
      PlanRowsIs(f, comps, r - 1);
      PlanRowIs(f, comps, r - 1, McusPerRow(f, comps));
      RowsRow(f, comps, r - 1);
      VisitedConcat(a, b);
    } else {
      VisitedNone();
    }
  }

  lemma VisitedNone()
    ensures Visited([]) == {} && Distinct([])
  {
  }

  lemma RowsRow(f: Frame, comps: seq<nat>, r: nat)
    requires ValidComps(f, comps)
    ensures forall p ::
              && (InRows(f, comps, p, r + 1) <==> InRows(f, comps, p, r) || InRow(f, comps, p, r, McusPerRow(f, comps)))
              && !(InRows(f, comps, p, r) && InRow(f, comps, p, r, McusPerRow(f, comps)))
  {
    forall p: Place | p.comp in comps && p.comp < |f.comps|
      ensures InRows(f, comps, p, r + 1) <==> InRows(f, comps, p, r) || InRow(f, comps, p, r, McusPerRow(f, comps))
    {
      MulSum(r, 1, McuHeight(f, comps, p.comp));
    }
  }

  /** The places a scan visits: the real blocks of a component alone, else the padded arrays. */
  predicate InScan(f: Frame, comps: seq<nat>, p: Place) {
    p.comp in comps && if |comps| == 1 then Real(f, p) else InPadded(f, p)
  }

  /** A scan visits exactly the places it should, each of them once. */
  lemma PlanVisits(f: Frame, comps: seq<nat>)
    requires ValidFrame(f) && ValidComps(f, comps)
    ensures forall p :: p in Visited(Plan(f, comps)) <==> InScan(f, comps, p)
    ensures Distinct(Plan(f, comps))
  {
    hide Visited, Distinct;
    PlanRowsIs(f, comps, McuRowsInScan(f, comps));
    forall p ensures InRows(f, comps, p, McuRowsInScan(f, comps)) <==> InScan(f, comps, p) {
    }
  }

  // ----- and in which order

  /** By component of the scan, then from top to bottom, then from left to right. */
  predicate Precedes(a: Cell, b: Cell) {
    a.ci < b.ci || (a.ci == b.ci && (a.at.row < b.at.row || (a.at.row == b.at.row && a.at.col < b.at.col)))
  }

  predicate Ascends(mcu: seq<Cell>) {
    forall i, j :: 0 <= i < j < |mcu| ==> Precedes(mcu[i], mcu[j])
  }

  lemma AscendsJoin(a: seq<Cell>, b: seq<Cell>)
    requires Ascends(a) && Ascends(b)
    requires forall i, j :: 0 <= i < |a| && 0 <= j < |b| ==> Precedes(a[i], b[j])
    ensures Ascends(a + b)
  {
    hide Precedes;
  }

  lemma {:induction false} RectAscends(ci: nat, comp: nat, row: nat, n: nat, col: nat, w: nat)
    ensures Ascends(Rect(ci, comp, row, n, col, w))
    decreases n
  {
    if n > 0 {
      var a, b := Rect(ci, comp, row, n - 1, col, w), RowCells(ci, comp, row + n - 1, col, w);
      RectAscends(ci, comp, row, n - 1, col, w);
      RectIs(ci, comp, row, n - 1, col, w);
      forall i, j | 0 <= i < |a| && 0 <= j < |b| ensures Precedes(a[i], b[j]) {
        assert a[i].at in CellsOf(a);
      }
      AscendsJoin(a, b);
    }
  }

  lemma {:induction false} PartAscends(f: Frame, comps: seq<nat>, r: nat, m: nat, k: nat)
    requires ValidComps(f, comps) && k <= |comps|
    ensures Ascends(McuPart(f, comps, r, m, k))
    ensures forall i :: 0 <= i < |McuPart(f, comps, r, m, k)| ==> McuPart(f, comps, r, m, k)[i].ci < k
    decreases k
  {
    hide Rect;
    if k > 0 {
      var c := comps[k - 1];
      var w, h := McuWidth(f, comps, c), McuHeight(f, comps, c);
      PartAscends(f, comps, r, m, k - 1);
      RectIs(k - 1, c, r * h, h, m * w, w);
      RectAscends(k - 1, c, r * h, h, m * w, w);
      AscendsJoin(McuPart(f, comps, r, m, k - 1), Rect(k - 1, c, r * h, h, m * w, w));
    }
  }

  lemma {:induction false} PlanAt(f: Frame, comps: seq<nat>, rows: nat, r: nat, m: nat)
    requires ValidComps(f, comps) && r < rows && m < McusPerRow(f, comps)
    ensures var n := McusPerRow(f, comps);
            && |PlanRows(f, comps, rows)| == rows * n && r * n + m < rows * n
            && PlanRows(f, comps, rows)[r * n + m] == McuCells(f, comps, r, m)
    decreases rows
  {
    hide McuCells, McusPerRow;
    var n := McusPerRow(f, comps);
    MulSum(rows - 1, 1, n);
    RowsSize(f, comps, rows - 1);
    if r < rows - 1 {
      PlanAt(f, comps, rows - 1, r, m);
    }
  }

  lemma {:induction false} RowsSize(f: Frame, comps: seq<nat>, rows: nat)
    requires ValidComps(f, comps)
    ensures |PlanRows(f, comps, rows)| == rows * McusPerRow(f, comps)
    decreases rows
  {
    hide McuCells, McusPerRow;
    if rows > 0 {
      RowsSize(f, comps, rows - 1);
      MulSum(rows - 1, 1, McusPerRow(f, comps));
    }
  }

  /**
   The MCUs come row by row from left to right; each holds exactly the blocks at its
   own place in the grid, by component, and then row by row from left to right.
   */
  lemma PlanOrder(f: Frame, comps: seq<nat>, r: nat, m: nat)
    requires ValidComps(f, comps) && r < McuRowsInScan(f, comps) && m < McusPerRow(f, comps)
    ensures |Plan(f, comps)| == McuRowsInScan(f, comps) * McusPerRow(f, comps) > r * McusPerRow(f, comps) + m
    ensures var mcu := Plan(f, comps)[r * McusPerRow(f, comps) + m];
            && Ascends(mcu) && GoodMcu(f, comps, mcu)
            && forall p :: p in CellsOf(mcu) <==> p.comp in comps && InMcu(f, comps, p, r, m)
  {
    hide McusPerRow, McuRowsInScan, Ascends, GoodMcu, McuCells, CellsOf, InMcu;
    PlanAt(f, comps, McuRowsInScan(f, comps), r, m);
    McuIs(f, comps, r, m);
    McuAscends(f, comps, r, m);
  }

  lemma McuAscends(f: Frame, comps: seq<nat>, r: nat, m: nat)
    requires ValidComps(f, comps)
    ensures Ascends(McuCells(f, comps, r, m))
  {
    PartAscends(f, comps, r, m, |comps|);
  }

  lemma RealInPadded(f: Frame, p: Place)
    requires ValidFrame(f) && Real(f, p)
    ensures InPadded(f, p)
  {
    var c := f.comps[p.comp];
    assert Covers(c.width, c.h, f.mcuCols) && Covers(c.height, c.v, f.mcuRows);
  }

  predicate GoodMcu(f: Frame, comps: seq<nat>, mcu: seq<Cell>) {
    forall j :: 0 <= j < |mcu| ==> GoodCell(f, comps, mcu[j])
  }

  lemma {:induction false} PlanGood(f: Frame, comps: seq<nat>, r: nat)
    requires ValidComps(f, comps)
    ensures forall i :: 0 <= i < |PlanRows(f, comps, r)| ==> GoodMcu(f, comps, PlanRows(f, comps, r)[i])
    decreases r
  {
    if r > 0 {
      PlanGood(f, comps, r - 1);
      var row := PlanRow(f, comps, r - 1, McusPerRow(f, comps));
      forall m | 0 <= m < |row| ensures GoodMcu(f, comps, row[m]) {
        McuIs(f, comps, r - 1, m);
      }
    }
  }
}
