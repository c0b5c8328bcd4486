/**
 The trial encoding of sequential scans (jchuff.c:1118-1221): a second program beside
 the one that writes, with count arrays, predictions and a restart counter of its own.
 It must count exactly the symbols that the other writes.
 */
module HuffmanGather {
  import opened BlockModel
  import opened ScanModel
  import opened HuffmanItems
  import opened HuffmanStream
  import opened HuffmanEncoder
  import opened HuffmanNeeds

  // ----- counts

  lemma {:induction false} CountConcat(a: seq<Item>, b: seq<Item>, x: Item)
    ensures Count(a + b, x) == Count(a, x) + Count(b, x)
    decreases |b|
  {
    if b == [] {
      assert a + b == a;
    } else {
      var n := |b| - 1;
      assert (a + b)[..|a + b| - 1] == a + b[..n] && (a + b)[|a + b| - 1] == b[n];
      CountConcat(a, b[..n], x);
    }
  }

  lemma {:induction false} CountNone(items: seq<Item>, x: Item)
    requires x !in items
    ensures Count(items, x) == 0
    decreases |items|
  {
    if items != [] {
      CountNone(items[..|items| - 1], x);
    }
  }

  /** Counts of one table before and after a list of items was counted; the last place is not for symbols. */
  predicate Tallied(was: seq<nat>, now: seq<nat>, dc: bool, t: nat, items: seq<Item>) {
    && |was| == |now| == 257 && now[256] == was[256]
    && forall s :: 0 <= s < 256 ==> now[s] == was[s] + Count(items, Symbol(dc, t, s))
  }

  lemma TalliedBoth(was: seq<nat>, mid: seq<nat>, now: seq<nat>, dc: bool, t: nat, a: seq<Item>, b: seq<Item>)
    requires Tallied(was, mid, dc, t, a) && Tallied(mid, now, dc, t, b)
    ensures Tallied(was, now, dc, t, a + b)
  {
    hide Count;
    forall s | 0 <= s < 256 ensures now[s] == was[s] + Count(a + b, Symbol(dc, t, s)) {
      CountConcat(a, b, Symbol(dc, t, s));
    }
  }

  /** One symbol more. */
  lemma TalliedSymbol(was: seq<nat>, now: seq<nat>, dc: bool, t: nat, items: seq<Item>, s: nat)
    requires Tallied(was, now, dc, t, items) && s < 256
    ensures Tallied(was, now[s := now[s] + 1], dc, t, items + [Symbol(dc, t, s)])
  {
    hide Count;
    CountMore(items, Symbol(dc, t, s));
  }

  /** Items that are not symbols of the table are not counted in it. */
  lemma TalliedOther(was: seq<nat>, now: seq<nat>, dc: bool, t: nat, items: seq<Item>, more: seq<Item>)
    requires Tallied(was, now, dc, t, items) && !Has(more, dc, t)
    ensures Tallied(was, now, dc, t, items + more)
  {
    hide Count;
    forall s | 0 <= s < 256 ensures Count(items + more, Symbol(dc, t, s)) == Count(items, Symbol(dc, t, s)) {
      CountConcat(items, more, Symbol(dc, t, s));
      CountNone(more, Symbol(dc, t, s));
    }
  }

  lemma TalliedStart(f: seq<nat>, dc: bool, t: nat)
    requires |f| == 257
    ensures Tallied(f, f, dc, t, [])
  {
  }

  // ----- what a block may have

  /** Symbols of one table only, all of the form the coder makes. */
  predicate OfTable(items: seq<Item>, dc: bool, t: nat) {
    forall i :: 0 <= i < |items| ==> WellFormed(items[i]) && (items[i].Symbol? ==> items[i].dc == dc && items[i].tbl == t)
  }

  lemma OfTableBoth(a: seq<Item>, b: seq<Item>, dc: bool, t: nat)
    requires OfTable(a, dc, t) && OfTable(b, dc, t)
    ensures OfTable(a + b, dc, t)
  {
    hide WellFormed;
  }

  lemma OfTableHas(items: seq<Item>, dc: bool, t: nat)
    requires OfTable(items, dc, t)
    ensures forall d, u :: d != dc || u != t ==> !Has(items, d, u)
  {
    hide WellFormed;
  }

  lemma DcOfTable(t: nat, diff: int)
    requires t < NUM_HUFF_TBLS && DcFits(diff)
    ensures OfTable(DcItems(t, diff), true, t)
  {
    hide Width, ValueBits;
  }

  lemma RunOfTable(t: nat, r: nat, v: int)
    requires t < NUM_HUFF_TBLS && AcFits(v) && v != 0
    ensures OfTable(RunValue(t, r, v), false, t)
  {
    WidthPositive(Abs(v));
    var n, items := Width(Abs(v)), RunValue(t, r, v);
    hide Width, ValueBits;
    ZrlWellFormed(t);
    RunWellFormed(t, r % 16, n);
  }

  lemma {:induction false} AcOfTable(t: nat, z: Block, k: nat, se: nat, r: nat)
    requires t < NUM_HUFF_TBLS && se < 64 && CoefsFit(z, k, se, 0)
    ensures OfTable(AcItems(t, z, k, se, r), false, t)
    decreases se + 1 - k
  {
    hide RunValue, Shifted, AcFits;
    if k <= se {
      if Shifted(z[k], 0) == 0 {
        AcOfTable(t, z, k + 1, se, r + 1);
      } else {
        RunOfTable(t, r, Shifted(z[k], 0));
        AcOfTable(t, z, k + 1, se, 0);
        OfTableBoth(RunValue(t, r, Shifted(z[k], 0)), AcItems(t, z, k + 1, se, 0), false, t);
      }
    }
  }

  // ----- htest_one_block

  /** Counts the symbol of a DC difference, unless it is out of range. */
  method CountDc(diff: int, dcCounts: array<nat>, ghost t: nat) returns (ok: bool)
    requires dcCounts.Length == 257 && t < NUM_HUFF_TBLS
    modifies dcCounts
    ensures ok <==> DcFits(diff)
    ensures ok ==> Tallied(old(dcCounts[..]), dcCounts[..], true, t, DcItems(t, diff))
  {
    hide Tallied;
    ghost var was := dcCounts[..];
    var temp: nat := if diff < 0 then -diff else diff;
    ghost var m := temp;
    var nbits := 0;
    while temp != 0
      invariant nbits + Width(temp) == Width(m)
      decreases temp
    {
      nbits := nbits + 1;
      temp := temp / 2;
    }
    if nbits > MAX_COEF_BITS + 1 {
      return false;
    }
    hide Width;
    ghost var x := Symbol(true, t, nbits);
    TalliedStart(was, true, t);
    TalliedSymbol(was, was, true, t, [], nbits);
    dcCounts[nbits] := dcCounts[nbits] + 1;
    ghost var plain := if nbits > 0 then [Plain(ValueBits(diff, nbits), nbits)] else [];
    assert dcCounts[..] == was[nbits := was[nbits] + 1];
    TalliedOther(was, dcCounts[..], true, t, [] + [x], plain);
    assert [] + [x] + plain == DcItems(t, diff);
    ok := true;
  }

  /** Counts the runs of sixteen zeros. */
  method CountZrls(run: nat, acCounts: array<nat>, ghost t: nat, ghost was: seq<nat>, ghost items: seq<Item>) returns (r: nat)
    requires acCounts.Length == 257 && Tallied(was, acCounts[..], false, t, items)
    modifies acCounts
    ensures r == run % 16 && Tallied(was, acCounts[..], false, t, items + Zrls(t, run / 16))
  {
    hide Tallied, Zrls;
    r := run;
    ghost var k := 0;
    assert items + Zrls(t, 0) == items by { NoZrls(t); }
    while r > 15
      invariant run == r + 16 * k && Tallied(was, acCounts[..], false, t, items + Zrls(t, k))
    {
      ghost var now := acCounts[..];
      TalliedSymbol(was, now, false, t, items + Zrls(t, k), 0xF0);
      NextZrl(t, k);
      SeqAppend(items, Zrls(t, k), Symbol(false, t, 0xF0));
      acCounts[0xF0] := acCounts[0xF0] + 1;
      assert acCounts[..] == now[0xF0 := now[0xF0] + 1];
      r := r - 16;
      k := k + 1;
    }
  }

  /** Counts the symbols of a value after `run` zeros, unless it is out of range. */
  method CountRun(run: nat, v: int, acCounts: array<nat>, ghost t: nat, ghost was: seq<nat>, ghost items: seq<Item>)
    returns (ok: bool)
    requires acCounts.Length == 257 && t < NUM_HUFF_TBLS && v != 0 && Tallied(was, acCounts[..], false, t, items)
    modifies acCounts
    ensures ok <==> AcFits(v)
    ensures ok ==> Tallied(was, acCounts[..], false, t, items + RunValue(t, run, v))
  {
    hide Tallied, Zrls, ValueBits;
    var r := CountZrls(run, acCounts, t, was, items);
    var temp: nat := if v < 0 then -v else v;
    var nbits := 1;
    temp := temp / 2;
    while temp != 0
      invariant nbits + Width(temp) == Width(Abs(v))
      decreases temp
    {
      nbits := nbits + 1;
      temp := temp / 2;
    }
    if nbits > MAX_COEF_BITS {
      return false;
    }
    hide Width;
    ghost var now := acCounts[..];
    var s := r * 16 + nbits;
    TalliedSymbol(was, now, false, t, items + Zrls(t, run / 16), s);
    acCounts[s] := acCounts[s] + 1;
    assert acCounts[..] == now[s := now[s] + 1];
    ghost var plain := Plain(ValueBits(v, nbits), nbits);
    TalliedOther(was, acCounts[..], false, t, items + Zrls(t, run / 16) + [Symbol(false, t, s)], [plain]);
    RunIs(t, run, v, items);
    ok := true;
  }

  lemma RunIs(t: nat, run: nat, v: int, items: seq<Item>)
    requires AcFits(v)
    ensures var n := Width(Abs(v));
            items + RunValue(t, run, v)
            == items + Zrls(t, run / 16) + [Symbol(false, t, run % 16 * 16 + n)] + [Plain(ValueBits(v, n), n)]
  {
    hide Width, ValueBits, Zrls;
  }

  lemma NoZrls(t: nat)
    ensures Zrls(t, 0) == []
  {
  }

  lemma NextZrl(t: nat, k: nat)
    ensures Zrls(t, k + 1) == Zrls(t, k) + [Symbol(false, t, 0xF0)]
  {
  }

  /** Counts the AC symbols of a block, unless a coefficient is out of range. */
  method CountAc(z: Block, se: nat, acCounts: array<nat>, ghost t: nat) returns (ok: bool)
    requires acCounts.Length == 257 && t < NUM_HUFF_TBLS && se < 64
    modifies acCounts
    ensures ok <==> CoefsFit(z, 1, se, 0)
    ensures ok ==> Tallied(old(acCounts[..]), acCounts[..], false, t, AcItems(t, z, 1, se, 0))
  {
    hide Tallied, RunValue, AcFits;
    ghost var was, fits, items: seq<Item> := acCounts[..], CoefsFit(z, 1, se, 0), [];
    TalliedStart(was, false, t);
    var r, k := 0, 1;
    while k <= se
      invariant 1 <= k <= se + 1 && CoefsFit(z, 1, k - 1, 0) && Tallied(was, acCounts[..], false, t, items)
      invariant fits ==> items + AcItems(t, z, k, se, r) == AcItems(t, z, 1, se, 0)
    {
      ShiftedWhole(z[k]);
      if z[k] == 0 {
        AcFitsZero();
        r := r + 1;
      } else {
        ok := CountRun(r, z[k], acCounts, t, was, items);
        if !ok {
          return;
        }
        if fits {
          SeqGroupAll(items, RunValue(t, r, z[k]), AcItems(t, z, k + 1, se, 0));
        }
        items := items + RunValue(t, r, z[k]);
        r := 0;
      }
      k := k + 1;
    }
    if r > 0 {
      ghost var now := acCounts[..];
      TalliedSymbol(was, now, false, t, items, 0);
      acCounts[0] := acCounts[0] + 1;
      assert acCounts[..] == now[0 := now[0] + 1];
    } else {
      assert items + [] == items;
    }
    ok := true;
  }

  /** The items that the writing program sends for a block. */
  function BlockItems(t: Tables, z: Block, lastDc: int, limSe: nat): seq<Item>
    requires limSe < 64 && DcFits(z[0] - lastDc) && CoefsFit(z, 1, limSe, 0)
  {
    DcItems(t.dc, z[0] - lastDc) + AcItems(t.ac, z, 1, limSe, 0)
  }

  lemma BlockOfTables(t: Tables, z: Block, lastDc: int, limSe: nat)
    requires t.dc < NUM_HUFF_TBLS && t.ac < NUM_HUFF_TBLS
    requires limSe < 64 && DcFits(z[0] - lastDc) && CoefsFit(z, 1, limSe, 0)
    ensures var items := BlockItems(t, z, lastDc, limSe);
            && AllWellFormed(items)
            && (forall dc, u :: u != TableOf(t, dc) ==> !Has(items, dc, u))
    ensures !Has(DcItems(t.dc, z[0] - lastDc), false, t.ac) && !Has(AcItems(t.ac, z, 1, limSe, 0), true, t.dc)
  {
    hide DcItems, AcItems, CoefsFit, DcFits, WellFormed;
    DcOfTable(t.dc, z[0] - lastDc);
    AcOfTable(t.ac, z, 1, limSe, 0);
    OfTableHas(DcItems(t.dc, z[0] - lastDc), true, t.dc);
    OfTableHas(AcItems(t.ac, z, 1, limSe, 0), false, t.ac);
    HasEither(DcItems(t.dc, z[0] - lastDc), AcItems(t.ac, z, 1, limSe, 0));
  }

  lemma HasEither(a: seq<Item>, b: seq<Item>)
    ensures forall dc, t :: Has(a + b, dc, t) ==> Has(a, dc, t) || Has(b, dc, t)
  {
    forall dc, t | Has(a + b, dc, t) ensures Has(a, dc, t) || Has(b, dc, t) {
      var i :| 0 <= i < |a + b| && (a + b)[i].Symbol? && (a + b)[i].dc == dc && (a + b)[i].tbl == t;
      if i < |a| {
        assert a[i] == (a + b)[i];
      } else {
        assert b[i - |a|] == (a + b)[i];
      }
    }
  }

  /** Counts the symbols of a block: it fails, and counts, exactly as the block would be written. */
  method HtestOneBlock(z: Block, lastDc: int, limSe: nat, dcCounts: array<nat>, acCounts: array<nat>, ghost t: Tables)
    returns (ok: bool)
    requires dcCounts.Length == 257 && acCounts.Length == 257 && dcCounts != acCounts && limSe < 64
    requires t.dc < NUM_HUFF_TBLS && t.ac < NUM_HUFF_TBLS
    modifies dcCounts, acCounts
    ensures ok <==> DcFits(z[0] - lastDc) && CoefsFit(z, 1, limSe, 0)
    ensures ok ==>
              && Tallied(old(dcCounts[..]), dcCounts[..], true, t.dc, BlockItems(t, z, lastDc, limSe))
              && Tallied(old(acCounts[..]), acCounts[..], false, t.ac, BlockItems(t, z, lastDc, limSe))
  {
    hide Tallied, DcItems, AcItems, CoefsFit, DcFits, Has;
    ghost var dcWas, acWas := dcCounts[..], acCounts[..];
    ok := CountDc(z[0] - lastDc, dcCounts, t.dc);
    if !ok {
      return;
    }
    ok := CountAc(z, limSe, acCounts, t.ac);
    if !ok {
      return;
    }
    BlockOfTables(t, z, lastDc, limSe);
    ghost var d, a := DcItems(t.dc, z[0] - lastDc), AcItems(t.ac, z, 1, limSe, 0);
    TalliedOther(dcWas, dcCounts[..], true, t.dc, d, a);
    TalliedStart(acWas, false, t.ac);
    TalliedOther(acWas, acWas, false, t.ac, [], d);
    assert [] + d == d;
    TalliedBoth(acWas, acWas, acCounts[..], false, t.ac, d, a);
  }

  // ----- encode_mcu_gather

  /** A sequential scan. */
  predicate SequentialScan(c: Config) {
    ValidConfig(c) && c.kind.Sequential?
  }

  /** In a sequential scan nothing is ever pending, so a restart only starts another list. */
  lemma BeforeIs(c: Config, st: State)
    requires SequentialScan(c) && ValidState(c, st)
    ensures var s0 := BeforeMcu(c, st);
            && Total(s0) == Total(st)
            && s0.lastDc == (if c.interval > 0 && st.toGo == 0 then Zeros(|c.tbls|) else st.lastDc)
            && s0.toGo == if c.interval == 0 then st.toGo else (if st.toGo == 0 then c.interval else st.toGo) - 1
  {
    JoinedMore(st.done, st.ac.items);
    assert Joined(st.done + [st.ac.items]) + [] == Joined(st.done + [st.ac.items]);
  }

  lemma BlockIs(c: Config, st: State, b: McuBlock)
    requires SequentialScan(c) && ValidState(c, st) && b.ci < |c.tbls|
    ensures InRange(c, st, b) <==> DcFits(b.z[0] - st.lastDc[b.ci]) && CoefsFit(b.z, 1, c.kind.limSe, 0)
    ensures InRange(c, st, b) ==>
              && ValidState(c, SendBlock(c, st, b))
              && SendBlock(c, st, b).lastDc == st.lastDc[b.ci := b.z[0]] && SendBlock(c, st, b).toGo == st.toGo
              && Total(SendBlock(c, st, b))
                 == Total(st) + BlockItems(c.tbls[b.ci], b.z, st.lastDc[b.ci], c.kind.limSe)
  {
    hide DcFits, CoefsFit, DcItems, AcItems;
    if InRange(c, st, b) {
      BlockValid(c, st, b);
      var more := BlockItems(c.tbls[b.ci], b.z, st.lastDc[b.ci], c.kind.limSe);
      assert SendBlock(c, st, b).ac.items == st.ac.items + more;
      assert Joined(st.done) + (st.ac.items + more) == Joined(st.done) + st.ac.items + more;
    }
  }

  /** The entropy coder in a gathering pass of a sequential scan. */
  class Gatherer {
    const c: Config
    const dcCounts: seq<array<nat>>
    const acCounts: seq<array<nat>>
    var lastDc: seq<int>
    var restartsToGo: nat

    // The items that will be written.
    ghost var items: seq<Item>

    ghost predicate Separate() {
      && |dcCounts| == NUM_HUFF_TBLS && |acCounts| == NUM_HUFF_TBLS
      && (forall t :: 0 <= t < NUM_HUFF_TBLS ==> dcCounts[t].Length == 257 && acCounts[t].Length == 257)
      && (forall t, u :: 0 <= t < u < NUM_HUFF_TBLS ==> dcCounts[t] != dcCounts[u] && acCounts[t] != acCounts[u])
      && (forall t, u :: 0 <= t < NUM_HUFF_TBLS && 0 <= u < NUM_HUFF_TBLS ==> dcCounts[t] != acCounts[u])
    }

    ghost predicate Valid()
      reads this`items, dcCounts, acCounts
    {
      && SequentialScan(c) && Separate() && AllWellFormed(items)
      && (forall t :: 0 <= t < NUM_HUFF_TBLS ==> Holds(dcCounts[t][..], true, t, items) && Holds(acCounts[t][..], false, t, items))
    }

    ghost predicate At(st: State)
      reads this`items, this`lastDc, this`restartsToGo
    {
      items == Total(st) && lastDc == st.lastDc && restartsToGo == st.toGo
    }

    constructor (conf: Config)
      requires SequentialScan(conf)
      ensures Valid() && At(Start(conf)) && c == conf
      ensures fresh(dcCounts) && fresh(acCounts)
    {
      hide Holds;
      c := conf;
      var dc := ZeroCounts();
      var ac := ZeroCounts();
      dcCounts, acCounts := dc, ac;
      lastDc, restartsToGo := seq(|conf.tbls|, i => 0), conf.interval;
      items := [];
      new;
      forall t | 0 <= t < NUM_HUFF_TBLS ensures Holds(dcCounts[t][..], true, t, []) && Holds(acCounts[t][..], false, t, []) {
        HoldsNothing(dcCounts[t][..], true, t);
        HoldsNothing(acCounts[t][..], false, t);
      }
      assert Total(Start(conf)) == [];
    }

    /** Takes the restart interval into account: predictions start again from zero. */
    method CountMcu(ghost st: State)
      requires Valid() && ValidState(c, st) && At(st)
      modifies this`lastDc, this`restartsToGo
      ensures Valid() && At(BeforeMcu(c, st))
    {
      BeforeIs(c, st);
      if c.interval > 0 {
        if restartsToGo == 0 {
          lastDc := seq(|c.tbls|, i => 0);
          assert lastDc == Zeros(|c.tbls|);
          restartsToGo := c.interval;
        }
        restartsToGo := restartsToGo - 1;
      }
    }

    method CountBlock(b: McuBlock, ghost st: State) returns (ok: bool)
      requires Valid() && ValidState(c, st) && At(st) && b.ci < |c.tbls|
      modifies this`lastDc, this`items, dcCounts, acCounts
      ensures ok <==> InRange(c, st, b)
      ensures ok ==> Valid() && At(SendBlock(c, st, b))
    {
      hide Tallied, Holds, DcFits, CoefsFit, Has, AllWellFormed;
      var t := c.tbls[b.ci];
      BlockIs(c, st, b);
      ghost var dcWas := seq(NUM_HUFF_TBLS, u requires 0 <= u < NUM_HUFF_TBLS reads dcCounts => dcCounts[u][..]);
      ghost var acWas := seq(NUM_HUFF_TBLS, u requires 0 <= u < NUM_HUFF_TBLS reads acCounts => acCounts[u][..]);
      ok := HtestOneBlock(b.z, lastDc[b.ci], c.kind.limSe, dcCounts[t.dc], acCounts[t.ac], t);
      if !ok {
        return;
      }
      ghost var more := BlockItems(t, b.z, lastDc[b.ci], c.kind.limSe);
      BlockOfTables(t, b.z, lastDc[b.ci], c.kind.limSe);
      forall u | 0 <= u < NUM_HUFF_TBLS
        ensures Holds(dcCounts[u][..], true, u, items + more) && Holds(acCounts[u][..], false, u, items + more)
      {
        HoldsMore(dcWas[u], dcCounts[u][..], true, u, items, more);
        HoldsMore(acWas[u], acCounts[u][..], false, u, items, more);
      }
      WellFormedBoth(items, more);
      items := items + more;
      lastDc := lastDc[b.ci := b.z[0]];
    }

    method CountBlocks(bs: seq<McuBlock>, ghost st: State) returns (ok: bool)
      requires Valid() && ValidState(c, st) && At(st) && ValidMcu(bs, |c.tbls|)
      modifies this`lastDc, this`items, dcCounts, acCounts
      ensures ok <==> McuInRange(c, st, bs)
      ensures ok ==> Valid() && At(SendBlocks(c, st, bs))
    {
      hide Valid, InRange, SendBlock, ValidState, At;
      assert SequentialScan(c) by { OfScan(); }
      ghost var fits, cur := McuInRange(c, st, bs), st;
      ghost var end := if fits then SendBlocks(c, st, bs) else st;
      var blkn := 0;
      assert bs[0..] == bs;
      while blkn < |bs|
        invariant 0 <= blkn <= |bs| && Valid() && ValidState(c, cur) && At(cur)
        invariant McuInRange(c, cur, bs[blkn..]) <==> fits
        invariant fits ==> SendBlocks(c, cur, bs[blkn..]) == end
      {
        BlocksStep(c, cur, bs[blkn..]);
        assert bs[blkn..][0] == bs[blkn] && bs[blkn..][1..] == bs[blkn + 1..];
        ok := CountBlock(bs[blkn], cur);
        if !ok {
          return;
        }
        cur := SendBlock(c, cur, bs[blkn]);
        blkn := blkn + 1;
      }
      BlocksEnd(c, cur);
      ok := true;
    }

    lemma OfScan()
      requires Valid()
      ensures SequentialScan(c)
    {
    }

    /** encode_mcu_gather. */
    method EncodeMcuGather(bs: seq<McuBlock>, ghost st: State) returns (ok: bool)
      requires Valid() && ValidState(c, st) && At(st) && ValidMcu(bs, |c.tbls|)
      modifies this`lastDc, this`restartsToGo, this`items, dcCounts, acCounts
      ensures ok <==> McuInRange(c, BeforeMcu(c, st), bs)
      ensures ok ==> Valid() && At(SendBlocks(c, BeforeMcu(c, st), bs))
    {
      hide Valid, At, ValidState, McuInRange, SendBlocks, BeforeMcu;
      assert SequentialScan(c) by { OfScan(); }
      CountMcu(st);
      ok := CountBlocks(bs, BeforeMcu(c, st));
    }

    /**
     A gathering pass over all MCUs. It fails exactly if some coefficient is out of
     range, and otherwise has counted exactly the symbols that will be written.
     */
    method Gather(ms: seq<seq<McuBlock>>) returns (ok: bool)
      requires Valid() && At(Start(c)) && forall i :: 0 <= i < |ms| ==> ValidMcu(ms[i], |c.tbls|)
      modifies this`lastDc, this`restartsToGo, this`items, dcCounts, acCounts
      ensures ok <==> ScanInRange(c, Start(c), ms)
      ensures ok ==> Valid() && items == AllItems(c, ms)
    {
      hide Valid, ScanInRange, SendMcus, McuInRange, SendBlocks, BeforeMcu, Joined;
      assert SequentialScan(c) by { OfScan(); }
      ghost var fits, st := ScanInRange(c, Start(c), ms), Start(c);
      ghost var end := if fits then SendMcus(c, Start(c), ms) else Start(c);
      var i := 0;
      assert ms[0..] == ms;
      while i < |ms|
        invariant 0 <= i <= |ms| && Valid() && ValidState(c, st) && At(st)
        invariant ScanInRange(c, st, ms[i..]) <==> fits
        invariant fits ==> SendMcus(c, st, ms[i..]) == end
      {
        ScanStep(c, st, ms[i..]);
        assert ms[i..][0] == ms[i] && ms[i..][1..] == ms[i + 1..];
        ok := EncodeMcuGather(ms[i], st);
        if !ok {
          return;
        }
        st := SendBlocks(c, BeforeMcu(c, st), ms[i]);
        i := i + 1;
      }
      ScanDone(c, st);
      ok := true;
    }

    /** The counts as the table maker takes them. */
    method Counts() returns (dc: seq<seq<nat>>, ac: seq<seq<nat>>)
      requires Valid()
      ensures CountsAre(dc, true, items) && CountsAre(ac, false, items) && AllWellFormed(items)
    {
      hide Count, AllWellFormed;
      dc := [dcCounts[0][..], dcCounts[1][..], dcCounts[2][..], dcCounts[3][..]];
      ac := [acCounts[0][..], acCounts[1][..], acCounts[2][..], acCounts[3][..]];
      forall t | 0 <= t < NUM_HUFF_TBLS ensures Holds(dc[t], true, t, items) && Holds(ac[t], false, t, items) {
      }
    }
  }

  /** The counts of a table for all items so far. */
  predicate Holds(f: seq<nat>, dc: bool, t: nat, items: seq<Item>) {
    |f| == 257 && forall s :: 0 <= s < 256 ==> f[s] == Count(items, Symbol(dc, t, s))
  }

  lemma HoldsNothing(f: seq<nat>, dc: bool, t: nat)
    requires |f| == 257 && forall s :: 0 <= s < 257 ==> f[s] == 0
    ensures Holds(f, dc, t, [])
  {
  }

  /** Count arrays for all tables, as a pass starts with them. */
  method ZeroCounts() returns (a: seq<array<nat>>)
    ensures fresh(a) && |a| == NUM_HUFF_TBLS
    ensures forall t :: 0 <= t < |a| ==> a[t].Length == 257 && forall s :: 0 <= s < 257 ==> a[t][s] == 0
    ensures forall t, u :: 0 <= t < u < |a| ==> a[t] != a[u]
  {
    a := [];
    while |a| < NUM_HUFF_TBLS
      invariant |a| <= NUM_HUFF_TBLS && fresh(a)
      invariant forall t :: 0 <= t < |a| ==> a[t].Length == 257 && forall s :: 0 <= s < 257 ==> a[t][s] == 0
      invariant forall t, u :: 0 <= t < u < |a| ==> a[t] != a[u]
      decreases NUM_HUFF_TBLS - |a|
    {
      var f := new nat[257](_ => 0);
      a := a + [f];
    }
  }

  lemma HoldsMore(was: seq<nat>, now: seq<nat>, dc: bool, t: nat, items: seq<Item>, more: seq<Item>)
    requires Holds(was, dc, t, items)
    requires Tallied(was, now, dc, t, more) || (now == was && !Has(more, dc, t))
    ensures Holds(now, dc, t, items + more)
  {
    hide Count;
    forall s | 0 <= s < 256 ensures now[s] == Count(items + more, Symbol(dc, t, s)) {
      CountConcat(items, more, Symbol(dc, t, s));
      if !Has(more, dc, t) {
        CountNone(more, Symbol(dc, t, s));
      }
    }
  }

  lemma WellFormedBoth(a: seq<Item>, b: seq<Item>)
    requires AllWellFormed(a) && AllWellFormed(b)
    ensures AllWellFormed(a + b)
  {
    hide WellFormed;
  }
}
