/**
 Which tables a Huffman-coded scan uses (jchuff.c:1465-1509): symbols come from the
 tables of its components only, and each of those tables gets at least one.
 */
module HuffmanNeeds {
  import opened BlockModel
  import opened ScanModel
  import opened HuffmanItems
  import opened HuffmanWords
  import opened HuffmanStream

  /** Whether a scan of this kind has DC symbols, or AC symbols. */
  predicate Needs(kind: Kind, dc: bool) {
    if dc then kind.Sequential? || kind.DcFirst?
    else (kind.Sequential? && kind.limSe > 0) || kind.AcFirst? || kind.AcRefine?
  }

  function TableOf(t: Tables, dc: bool): nat {
    if dc then t.dc else t.ac
  }

  predicate InScan(c: Config, dc: bool, t: nat) {
    Needs(c.kind, dc) && exists i :: 0 <= i < |c.tbls| && TableOf(c.tbls[i], dc) == t
  }

  /** A progressive AC scan has one component. */
  predicate OneAc(c: Config) {
    c.kind.AcFirst? || c.kind.AcRefine? ==> |c.tbls| == 1
  }

  predicate FromScan(c: Config, items: seq<Item>) {
    forall i :: 0 <= i < |items| ==> items[i].Symbol? ==> InScan(c, items[i].dc, items[i].tbl)
  }

  predicate Has(items: seq<Item>, dc: bool, t: nat) {
    exists i :: 0 <= i < |items| && items[i].Symbol? && items[i].dc == dc && items[i].tbl == t
  }

  lemma HasMore(a: seq<Item>, b: seq<Item>, dc: bool, t: nat)
    requires Has(a, dc, t) && a <= b
    ensures Has(b, dc, t)
  {
    var i :| 0 <= i < |a| && a[i].Symbol? && a[i].dc == dc && a[i].tbl == t;
    assert b[i] == a[i];
  }

  lemma HasPart(a: seq<Item>, x: Item, b: seq<Item>)
    requires x.Symbol?
    ensures Has(a + [x] + b, x.dc, x.tbl)
  {
    assert (a + [x] + b)[|a|] == x;
  }

  lemma FromBoth(c: Config, a: seq<Item>, b: seq<Item>)
    ensures FromScan(c, a + b) <==> FromScan(c, a) && FromScan(c, b)
  {
    hide InScan;
    var s := a + b;
    if FromScan(c, s) {
      forall i | 0 <= i < |a| ensures a[i].Symbol? ==> InScan(c, a[i].dc, a[i].tbl) {
        assert s[i] == a[i];
      }
      forall i | 0 <= i < |b| ensures b[i].Symbol? ==> InScan(c, b[i].dc, b[i].tbl) {
        assert s[|a| + i] == b[i];
      }
    }
  }

  // ----- AC items

  /** A run that is sent is a symbol, then plain bits. */
  lemma EmitEobShape(t: nat, a: Ac) returns (n: nat, rest: seq<Item>)
    requires 0 < a.eobrun <= MAX_EOBRUN
    ensures n <= 14 && EmitEob(t, a).items == a.items + [Symbol(false, t, n * 16)] + rest
    ensures forall i :: 0 <= i < |rest| ==> rest[i].Plain?
  {
    EobWidth(a.eobrun);
    hide Width;
    n := Width(a.eobrun) - 1;
    rest := (if n > 0 then [Plain(a.eobrun, n)] else []) + PlainBits(a.pend);
  }

  lemma EmitEobFrom(c: Config, t: nat, a: Ac)
    requires InScan(c, false, t) && FromScan(c, a.items) && a.eobrun <= MAX_EOBRUN
    ensures FromScan(c, EmitEob(t, a).items)
    ensures a.eobrun > 0 ==> Has(EmitEob(t, a).items, false, t)
  {
    if a.eobrun > 0 {
      hide InScan, FromScan, Has, EmitEob;
      var n, rest := EmitEobShape(t, a);
      var x := Symbol(false, t, n * 16);
      HasPart(a.items, x, rest);
      SymbolFrom(c, x);
      PlainFrom(c, rest);
      FromBoth(c, a.items, [x]);
      FromBoth(c, a.items + [x], rest);
    }
  }

  lemma SymbolFrom(c: Config, x: Item)
    requires x.Symbol? && InScan(c, x.dc, x.tbl)
    ensures FromScan(c, [x])
  {
  }

  lemma PlainFrom(c: Config, items: seq<Item>)
    requires forall i :: 0 <= i < |items| ==> items[i].Plain?
    ensures FromScan(c, items)
  {
  }

  lemma RunFrom(c: Config, t: nat, r: nat, v: int)
    requires InScan(c, false, t) && AcFits(v)
    ensures FromScan(c, RunValue(t, r, v)) && Has(RunValue(t, r, v), false, t)
  {
    hide InScan;
    var items, n := RunValue(t, r, v), Width(Abs(v));
    assert items[r / 16] == Symbol(false, t, r % 16 * 16 + n);
  }

  lemma NewFrom(c: Config, t: nat, r: nat, v: int, br: seq<bit>)
    requires InScan(c, false, t) && r < 16
    ensures FromScan(c, NewCoef(t, r, v, br)) && Has(NewCoef(t, r, v, br), false, t)
  {
    hide InScan;
    assert NewCoef(t, r, v, br)[0] == Symbol(false, t, r * 16 + 1);
  }

  /** A symbol of the table was sent, or one is owed for the pending run. */
  predicate Owed(a: Ac, t: nat) {
    Has(a.items, false, t) || a.eobrun > 0
  }

  lemma EndFrom(c: Config, t: nat, a: Ac, br: seq<bit>)
    requires InScan(c, false, t) && FromScan(c, a.items) && a.eobrun < MAX_EOBRUN
    ensures FromScan(c, EndBlock(t, a, br).items) && Owed(EndBlock(t, a, br), t)
  {
    hide InScan, FromScan, Has, EmitEob;
    EmitEobFrom(c, t, Ac(a.items, a.eobrun + 1, a.pend + br));
  }

  lemma {:induction false} FirstFrom(c: Config, t: nat, z: Block, k: nat, se: nat, al: nat, r: nat, a: Ac)
    requires InScan(c, false, t) && FromScan(c, a.items) && se < 64 && CoefsFit(z, k, se, al) && a.eobrun < MAX_EOBRUN
    ensures FromScan(c, FirstItems(t, z, k, se, al, r, a).items)
    ensures k <= se || r > 0 || Owed(a, t) ==> Owed(FirstItems(t, z, k, se, al, r, a), t)
    decreases se + 1 - k
  {
    hide InScan, FromScan, Has, EmitEob, EndBlock, RunValue, Shifted;
    if k > se {
      EndFrom(c, t, a, []);
    } else if Shifted(z[k], al) == 0 {
      FirstFrom(c, t, z, k + 1, se, al, r + 1, a);
    } else {
      var b, run := EmitEob(t, a), RunValue(t, r, Shifted(z[k], al));
      EmitEobFrom(c, t, a);
      RunFrom(c, t, r, Shifted(z[k], al));
      FromBoth(c, b.items, run);
      HasLast(b.items, run, false, t);
      FirstFrom(c, t, z, k + 1, se, al, 0, b.(items := b.items + run));
    }
  }

  lemma HasLast(a: seq<Item>, b: seq<Item>, dc: bool, t: nat)
    requires Has(b, dc, t)
    ensures Has(a + b, dc, t)
  {
    var i :| 0 <= i < |b| && b[i].Symbol? && b[i].dc == dc && b[i].tbl == t;
    assert (a + b)[|a| + i] == b[i];
  }

  lemma {:induction false} RunsFrom(c: Config, t: nat, r: nat, br: seq<bit>, a: Ac)
    requires InScan(c, false, t) && FromScan(c, a.items) && a.eobrun < MAX_EOBRUN
    ensures FromScan(c, Runs(t, r, br, a).a.items)
    decreases r
  {
    hide InScan, FromScan, EmitEob;
    if r > 15 {
      var b, x := EmitEob(t, a), Symbol(false, t, 0xF0);
      EmitEobFrom(c, t, a);
      SymbolFrom(c, x);
      PlainFrom(c, PlainBits(br));
      FromBoth(c, b.items, [x]);
      FromBoth(c, b.items + [x], PlainBits(br));
      RunsFrom(c, t, r - 16, [], b.(items := b.items + [x] + PlainBits(br)));
    }
  }

  lemma {:induction false} RefineFrom(c: Config, t: nat, z: Block, k: nat, se: nat, al: nat, eob: nat, r: nat, br: seq<bit>, a: Ac)
    requires InScan(c, false, t) && FromScan(c, a.items) && se < 64 && a.eobrun < MAX_EOBRUN
    requires forall i :: k <= i <= se && Mag(z[i], al) == 1 ==> i <= eob
    ensures FromScan(c, RefineItems(t, z, k, se, al, eob, r, br, a).items)
    ensures k <= se || r > 0 || br != [] || Owed(a, t) ==> Owed(RefineItems(t, z, k, se, al, eob, r, br, a), t)
    decreases se + 1 - k
  {
    hide InScan, FromScan, Has, EmitEob, EndBlock, Runs, Mag, NewCoef;
    if k > se {
      EndFrom(c, t, a, br);
    } else {
      var m := Mag(z[k], al);
      if m == 0 {
        RefineFrom(c, t, z, k + 1, se, al, eob, r + 1, br, a);
      } else {
        RunsFrom(c, t, r, br, a);
        var x := if k <= eob then Runs(t, r, br, a) else Run(r, br, a);
        if m > 1 {
          RefineFrom(c, t, z, k + 1, se, al, eob, x.r, x.br + [m % 2], x.a);
        } else {
          var b := EmitEob(t, x.a);
          EmitEobFrom(c, t, x.a);
          NewFrom(c, t, x.r, z[k], x.br);
          FromBoth(c, b.items, NewCoef(t, x.r, z[k], x.br));
          HasLast(b.items, NewCoef(t, x.r, z[k], x.br), false, t);
          RefineFrom(c, t, z, k + 1, se, al, eob, 0, [], b.(items := b.items + NewCoef(t, x.r, z[k], x.br)));
        }
      }
    }
  }

  lemma {:induction false} AcFrom(c: Config, t: nat, z: Block, k: nat, se: nat, r: nat)
    requires InScan(c, false, t) && se < 64 && CoefsFit(z, k, se, 0)
    ensures FromScan(c, AcItems(t, z, k, se, r))
    ensures k <= se || r > 0 ==> Has(AcItems(t, z, k, se, r), false, t)
    decreases se + 1 - k
  {
    hide InScan, FromScan, RunValue, Shifted;
    if k > se {
      PlainFrom(c, []);
      SymbolFrom(c, Symbol(false, t, 0));
      assert [Symbol(false, t, 0)][0].Symbol?;
    } else if Shifted(z[k], 0) == 0 {
      AcFrom(c, t, z, k + 1, se, r + 1);
    } else {
      var run, rest := RunValue(t, r, Shifted(z[k], 0)), AcItems(t, z, k + 1, se, 0);
      RunFrom(c, t, r, Shifted(z[k], 0));
      AcFrom(c, t, z, k + 1, se, 0);
      FromBoth(c, run, rest);
      HasMore(run, run + rest, false, t);
    }
  }

  lemma DcFrom(c: Config, t: nat, diff: int)
    requires InScan(c, true, t) && DcFits(diff)
    ensures FromScan(c, DcItems(t, diff)) && Has(DcItems(t, diff), true, t)
  {
    hide InScan;
    assert DcItems(t, diff)[0] == Symbol(true, t, Width(Abs(diff)));
  }

  // ----- scans

  /** Component `ci` has, in this segment, the symbols its tables are made for, sent or owed. */
  predicate Seen(c: Config, st: State, ci: nat)
    requires ci < |c.tbls|
  {
    match c.kind
    case Sequential(limSe) =>
      Has(st.ac.items, true, c.tbls[ci].dc) && (limSe > 0 ==> Has(st.ac.items, false, c.tbls[ci].ac))
    case DcFirst(_) => Has(st.ac.items, true, c.tbls[ci].dc)
    case DcRefine(_) => true
    case AcFirst(_, _, _) => Owed(st.ac, c.tbls[0].ac)
    case AcRefine(_, _, _) => Owed(st.ac, c.tbls[0].ac)
  }

  lemma InScanAt(c: Config, dc: bool, ci: nat)
    requires ci < |c.tbls| && Needs(c.kind, dc)
    ensures InScan(c, dc, TableOf(c.tbls[ci], dc))
  {
  }

  lemma SequentialFrom(c: Config, z: Block, ci: nat, diff: int, limSe: nat)
    requires ci < |c.tbls| && c.kind == Sequential(limSe) && limSe < 64 && DcFits(diff) && CoefsFit(z, 1, limSe, 0)
    ensures var items := DcItems(c.tbls[ci].dc, diff) + AcItems(c.tbls[ci].ac, z, 1, limSe, 0);
            FromScan(c, items) && Has(items, true, c.tbls[ci].dc) && (limSe > 0 ==> Has(items, false, c.tbls[ci].ac))
  {
    hide FromScan, Has, InScan, DcItems;
    var t := c.tbls[ci];
    var d, a := DcItems(t.dc, diff), AcItems(t.ac, z, 1, limSe, 0);
    InScanAt(c, true, ci);
    DcFrom(c, t.dc, diff);
    if limSe > 0 {
      InScanAt(c, false, ci);
      AcFrom(c, t.ac, z, 1, limSe, 0);
      HasLast(d, a, false, t.ac);
    } else {
      PlainFrom(c, a);
    }
    FromBoth(c, d, a);
    HasMore(d, d + a, true, t.dc);
  }

  /** A block leaves its component seen, and takes its symbols from the scan's tables. */
  lemma BlockSeen(c: Config, st: State, b: McuBlock)
    requires ValidConfig(c) && ValidState(c, st) && b.ci < |c.tbls| && InRange(c, st, b) && FromScan(c, st.ac.items)
    ensures FromScan(c, SendBlock(c, st, b).ac.items) && Seen(c, SendBlock(c, st, b), b.ci)
  {
    hide FromScan, Has, InScan, DcItems, AcItems, FirstItems, RefineItems, CoefsFit, DcFits;
    var t := c.tbls[b.ci];
    match c.kind {
      case Sequential(limSe) =>
        var items := DcItems(t.dc, b.z[0] - st.lastDc[b.ci]) + AcItems(t.ac, b.z, 1, limSe, 0);
        SequentialFrom(c, b.z, b.ci, b.z[0] - st.lastDc[b.ci], limSe);
        MoreSeen(c, st.ac.items, items);
      case DcFirst(al) =>
        InScanAt(c, true, b.ci);
        DcFrom(c, t.dc, DcShift(b.z[0], al) - st.lastDc[b.ci]);
        MoreSeen(c, st.ac.items, DcItems(t.dc, DcShift(b.z[0], al) - st.lastDc[b.ci]));
      case AcFirst(ss, se, al) =>
        InScanAt(c, false, 0);
        FirstFrom(c, c.tbls[0].ac, b.z, ss, se, al, 0, st.ac);
      case DcRefine(al) =>
        PlainFrom(c, [Plain(BitAt(b.z[0], al), 1)]);
        MoreSeen(c, st.ac.items, [Plain(BitAt(b.z[0], al), 1)]);
      case AcRefine(ss, se, al) =>
        InScanAt(c, false, 0);
        RefineFrom(c, c.tbls[0].ac, b.z, ss, se, al, EobOf(b.z, ss, se, al), 0, [], st.ac);
    }
  }

  lemma MoreSeen(c: Config, a: seq<Item>, b: seq<Item>)
    requires FromScan(c, a) && FromScan(c, b)
    ensures FromScan(c, a + b) && forall dc, t :: Has(b, dc, t) ==> Has(a + b, dc, t)
  {
    hide FromScan;
    FromBoth(c, a, b);
    forall dc, t | Has(b, dc, t) ensures Has(a + b, dc, t) {
      HasLast(a, b, dc, t);
    }
  }

  /** A component seen stays so. */
  lemma BlockKeeps(c: Config, st: State, b: McuBlock, ci: nat)
    requires ValidConfig(c) && ValidState(c, st) && b.ci < |c.tbls| && InRange(c, st, b) && FromScan(c, st.ac.items)
    requires ci < |c.tbls| && Seen(c, st, ci)
    ensures Seen(c, SendBlock(c, st, b), ci)
  {
    hide FromScan, Has, InScan, DcItems, AcItems, FirstItems, RefineItems, CoefsFit, DcFits, SendBlock;
    BlockSeen(c, st, b);
    BlockValid(c, st, b);
    var s := SendBlock(c, st, b);
    forall dc, t | Has(st.ac.items, dc, t) ensures Has(s.ac.items, dc, t) {
      HasMore(st.ac.items, s.ac.items, dc, t);
    }
  }

  predicate HasBlock(bs: seq<McuBlock>, ci: nat) {
    exists i :: 0 <= i < |bs| && bs[i].ci == ci
  }

  lemma BlockLater(bs: seq<McuBlock>, ci: nat)
    requires bs != []
    ensures HasBlock(bs, ci) ==> bs[0].ci == ci || HasBlock(bs[1..], ci)
  {
    if i :| 0 <= i < |bs| && bs[i].ci == ci {
      if i > 0 {
        assert bs[1..][i - 1].ci == ci;
      }
    }
  }

  lemma {:induction false} BlocksSeen(c: Config, st: State, bs: seq<McuBlock>, ci: nat)
    requires ValidConfig(c) && ValidState(c, st) && ValidMcu(bs, |c.tbls|) && McuInRange(c, st, bs) && FromScan(c, st.ac.items)
    requires ci < |c.tbls|
    ensures FromScan(c, SendBlocks(c, st, bs).ac.items)
    ensures Seen(c, st, ci) || HasBlock(bs, ci) ==> Seen(c, SendBlocks(c, st, bs), ci)
    decreases |bs|
  {
    hide FromScan, Seen, SendBlock, InRange, ValidState;
    if bs != [] {
      BlockValid(c, st, bs[0]);
      BlockSeen(c, st, bs[0]);
      if Seen(c, st, ci) {
        BlockKeeps(c, st, bs[0], ci);
      }
      BlocksSeen(c, SendBlock(c, st, bs[0]), bs[1..], ci);
      BlockLater(bs, ci);
    }
  }

  lemma FlushedFrom(c: Config, st: State)
    requires ValidConfig(c) && ValidState(c, st) && FromScan(c, st.ac.items) && FromScan(c, Joined(st.done))
    ensures FromScan(c, Flushed(c, st).ac.items) && FromScan(c, Total(Flushed(c, st)))
  {
    hide FromScan, EmitEob;
    if st.ac.eobrun > 0 {
      InScanAt(c, false, 0);
      EmitEobFrom(c, c.tbls[0].ac, st.ac);
    }
    FromBoth(c, Joined(st.done), Flushed(c, st).ac.items);
  }

  lemma BeforeFrom(c: Config, st: State)
    requires ValidConfig(c) && ValidState(c, st) && FromScan(c, st.ac.items) && FromScan(c, Joined(st.done))
    ensures FromScan(c, BeforeMcu(c, st).ac.items) && FromScan(c, Joined(BeforeMcu(c, st).done))
  {
    hide FromScan, EmitEob;
    FlushedFrom(c, st);
    JoinedMore(Flushed(c, st).done, Flushed(c, st).ac.items);
    PlainFrom(c, []);
  }

  /** Every MCU has blocks of every component of the scan. */
  predicate Complete(c: Config, bs: seq<McuBlock>) {
    forall ci :: 0 <= ci < |c.tbls| ==> HasBlock(bs, ci)
  }

  lemma {:induction false} McusSeen(c: Config, st: State, ms: seq<seq<McuBlock>>, ci: nat)
    requires ValidConfig(c) && ValidState(c, st) && (forall i :: 0 <= i < |ms| ==> ValidMcu(ms[i], |c.tbls|)) && ScanInRange(c, st, ms)
    requires (forall i :: 0 <= i < |ms| ==> Complete(c, ms[i])) && FromScan(c, st.ac.items) && FromScan(c, Joined(st.done))
    requires ci < |c.tbls|
    ensures var s := SendMcus(c, st, ms);
            && FromScan(c, s.ac.items) && FromScan(c, Joined(s.done)) && (ms != [] || Seen(c, st, ci) ==> Seen(c, s, ci))
    decreases |ms|
  {
    hide FromScan, Seen, McuInRange, SendBlocks, BeforeMcu, ValidState, Joined;
    if ms != [] {
      var s0 := BeforeMcu(c, st);
      var s1 := SendBlocks(c, s0, ms[0]);
      BeforeFrom(c, st);
      assert Complete(c, ms[0]);
      BlocksSeen(c, s0, ms[0], ci);
      McusSeen(c, s1, ms[1..], ci);
    }
  }

  /** The items of a scan come from its tables, and each table of a component gets one. */
  lemma TablesUsed(c: Config, ms: seq<seq<McuBlock>>)
    requires ValidConfig(c) && OneAc(c) && (forall i :: 0 <= i < |ms| ==> ValidMcu(ms[i], |c.tbls|) && Complete(c, ms[i]))
    requires ms != [] && ScanInRange(c, Start(c), ms)
    ensures forall dc, t :: Has(AllItems(c, ms), dc, t) <==> InScan(c, dc, t)
  {
    hide FromScan, SendMcus, ScanInRange, Flushed, Seen;
    var end := SendMcus(c, Start(c), ms);
    PlainFrom(c, []);
    McusSeen(c, Start(c), ms, 0);
    FlushedFrom(c, end);
    forall dc, t ensures Has(AllItems(c, ms), dc, t) <==> InScan(c, dc, t) {
      if Has(AllItems(c, ms), dc, t) {
        HasInScan(c, AllItems(c, ms), dc, t);
      }
      if InScan(c, dc, t) {
        var ci :| 0 <= ci < |c.tbls| && TableOf(c.tbls[ci], dc) == t;
        McusSeen(c, Start(c), ms, ci);
        SeenHas(c, end, ci, dc);
      }
    }
  }

  lemma HasInScan(c: Config, items: seq<Item>, dc: bool, t: nat)
    requires FromScan(c, items) && Has(items, dc, t)
    ensures InScan(c, dc, t)
  {
    hide InScan;
  }

  lemma SeenHas(c: Config, st: State, ci: nat, dc: bool)
    requires ValidConfig(c) && OneAc(c) && ValidState(c, st) && ci < |c.tbls| && Seen(c, st, ci) && Needs(c.kind, dc)
    requires FromScan(c, st.ac.items)
    ensures Has(Total(Flushed(c, st)), dc, TableOf(c.tbls[ci], dc))
  {
    hide FromScan, EmitEob, Has;
    var t, f := TableOf(c.tbls[ci], dc), Flushed(c, st).ac.items;
    if Has(st.ac.items, dc, t) {
      HasMore(st.ac.items, f, dc, t);
    } else {
      InScanAt(c, false, 0);
      EmitEobFrom(c, c.tbls[0].ac, st.ac);
    }
    HasLast(Joined(Flushed(c, st).done), f, dc, t);
  }
}
