/**
 Huffman coding with optimisation: a gathering pass, tables made from its counts,
 and an output pass that never lacks a code word.
 */
module HuffmanPasses {
  import opened Bytes
  import opened ScanModel
  import Code = HuffmanCode
  import opened HuffmanWords
  import opened HuffmanItems
  import opened HuffmanStream
  import opened HuffmanEncoder
  import opened HuffmanNeeds
  import opened HuffmanGather
  import opened HuffmanFile
  import Tree = HuffmanTree
  import Tables = HuffmanTables
  import Sorting = SymbolList

  /** Everything sent so far can be coded if everything in the end can. */
  lemma SureSoFar(e: Encoder, st: State, end: State)
    requires Total(st) <= Total(end) && e.Sure(Total(end))
    ensures e.Sure(Total(st))
  {
    e.SurePrefix(Total(st), Total(end));
  }

  lemma FlushGrows(c: Config, st: State)
    requires ValidConfig(c) && ValidState(c, st)
    ensures Total(st) <= Total(Flushed(c, st))
    ensures Flushed(c, st).done == st.done
  {
    PrefixJoined(Joined(st.done), st.ac.items, Flushed(c, st).ac.items);
  }

  /** A pass over all MCUs of a scan. */
  method RunPass(e: Encoder, ms: seq<seq<McuBlock>>) returns (o: Outcome)
    requires e.Valid() && ValidConfig(e.c) && ValidMcus(e.c, ms) && e.At(Start(e.c))
    modifies e, e.w, e.bitBuffer
    ensures o.Done? ==> ScanInRange(e.c, Start(e.c), ms) && Joined(e.done) + e.items == AllItems(e.c, ms)
    ensures o.Done? ==> e.done + [e.items] == Segments(e.c, ms)
    ensures ScanInRange(e.c, Start(e.c), ms) && e.Sure(AllItems(e.c, ms)) ==> o.Done?
    ensures o.Done? && e.gather ==> e.Valid()
    ensures o.Done? && !e.gather ==> Stored(e.dcTables, e.acTables, e.w.out, e.done, e.items, e.segs, e.w.data)
  {
    hide Encoder.Valid, Encoder.Sure, Encoder.At, ScanInRange, SendMcus, McuInRange, SendBlocks, BeforeMcu, ValidState,
      Flushed, Joined, Stored;
    ghost var c := e.c;
    StartValid(c);
    e.ValidTables();
    ghost var st, fits := Start(c), ScanInRange(c, Start(c), ms);
    ghost var end := if fits then Flushed(c, SendMcus(c, Start(c), ms)) else Start(c);
    var i := 0;
    assert ms[0..] == ms;
    while i < |ms|
      invariant 0 <= i <= |ms| && e.Valid() && ValidState(c, st) && e.At(st)
      invariant ScanInRange(c, st, ms[i..]) <==> fits
      invariant fits ==> Flushed(c, SendMcus(c, st, ms[i..])) == end
    {
      assert ms[i..][0] == ms[i] && ms[i..][1..] == ms[i + 1..];
      ScanStep(c, st, ms[i..]);
      if fits && e.Sure(Total(end)) {
        var next := SendBlocks(c, BeforeMcu(c, st), ms[i]);
        TotalGrows(c, next, ms[i + 1..]);
        FlushGrows(c, SendMcus(c, next, ms[i + 1..]));
        SureSoFar(e, SendMcus(c, next, ms[i + 1..]), end);
        SureSoFar(e, next, SendMcus(c, next, ms[i + 1..]));
      }
      o := e.EncodeMcu(ms[i], st);
      if !o.Done? {
        return;
      }
      st := SendBlocks(c, BeforeMcu(c, st), ms[i]);
      i := i + 1;
    }
    ScanDone(c, st);
    FlushGrows(c, st);
    if e.Sure(Total(end)) {
      SureLast(e, end);
    }
    var ok := e.FinishPass(st);
    o := if ok then Done else MissingCode;
  }

  lemma SureLast(e: Encoder, st: State)
    requires e.Sure(Total(st))
    ensures e.Sure(st.ac.items)
  {
    if !e.gather {
      CoveredTail(e.dcTables, e.acTables, Joined(st.done), st.ac.items);
    }
  }

  // ----- what the counts say

  lemma {:induction false} CountPositive(items: seq<Item>, x: Item)
    ensures Count(items, x) > 0 <==> x in items
    decreases |items|
  {
    if items != [] {
      CountPositive(items[..|items| - 1], x);
      assert items == items[..|items| - 1] + [items[|items| - 1]];
    }
  }

  /** Counts of one table for the symbols of a list. */
  predicate TableCounts(f: seq<nat>, dc: bool, t: nat, items: seq<Item>) {
    |f| == 257 && forall s :: 0 <= s < 256 ==> f[s] == Count(items, Symbol(dc, t, s))
  }

  lemma {:induction false} NoCounts(f: seq<nat>, n: nat)
    requires n <= |f| && forall s :: 0 <= s < n ==> f[s] == 0
    ensures Tree.Sum(f, n) == 0
    decreases n
  {
    if n > 0 {
      NoCounts(f, n - 1);
    }
  }

  /** A table has no more counts than there are items. */
  lemma {:induction false} SumOfCounts(f: seq<nat>, dc: bool, t: nat, items: seq<Item>, n: nat)
    requires TableCounts(f, dc, t, items) && n == 256
    ensures Tree.Sum(f, n) <= |items|
    decreases |items|
  {
    hide Tree.Sum;
    if items == [] {
      NoCounts(f, n);
    } else {
      var rest, x := items[..|items| - 1], items[|items| - 1];
      assert items == rest + [x];
      CountMore(rest, x);
      if x.Symbol? && x.dc == dc && x.tbl == t {
        var g := f[x.s as int := f[x.s] - 1];
        SumOfCounts(g, dc, t, rest, n);
        Tree.SumSet(g, x.s, f[x.s], n);
        assert g[x.s as int := f[x.s]] == f;
      } else {
        SumOfCounts(f, dc, t, rest, n);
      }
    }
  }

  /** How many numbers below `n` have a low digit of at most 10 in base 16. */
  function Sparse(n: nat): nat {
    11 * (n / 16) + if n % 16 < 11 then n % 16 else 11
  }

  lemma SparseNext(n: nat)
    ensures Sparse(n + 1) == Sparse(n) + if n % 16 <= 10 then 1 else 0
  {
  }

  lemma {:induction false} RootsSparse(f: seq<nat>, n: nat)
    requires n <= |f| && forall s :: 0 <= s < n && f[s] > 0 ==> s % 16 <= 10
    ensures Tree.Roots(f, n) <= Sparse(n)
    decreases n
  {
    hide Sparse;
    if n > 0 {
      RootsSparse(f, n - 1);
      SparseNext(n - 1);
    }
  }

  lemma {:induction false} RootsLow(f: seq<nat>, n: nat)
    requires n <= |f| && forall s :: 0 <= s < n && f[s] > 0 ==> s <= 11
    ensures Tree.Roots(f, n) <= if n < 12 then n else 12
    decreases n
  {
    if n > 0 {
      RootsLow(f, n - 1);
    }
  }

  /** The counts of a table are as the table maker needs them. */
  lemma CountsFit(f: seq<nat>, dc: bool, t: nat, items: seq<Item>, n: nat)
    requires TableCounts(f, dc, t, items) && AllWellFormed(items) && n == 256
    ensures Tree.Roots(f, n) <= 176 && Tree.Sum(f, n) <= |items|
    ensures dc ==> forall s :: 15 < s < 256 ==> f[s] == 0
  {
    hide Tree.Roots, Tree.Sum;
    SumOfCounts(f, dc, t, items, n);
    forall s | 0 <= s < 256 && f[s] > 0 ensures if dc then s <= 11 else s % 16 <= 10 {
      CountPositive(items, Symbol(dc, t, s));
    }
    if dc {
      RootsLow(f, n);
    } else {
      RootsSparse(f, n);
    }
  }

  // ----- tables

  /** A table with words of at most 16 bits, none of them a prefix of another. */
  predicate Decodable(t: Table) {
    TableOk(t) && PrefixCode(t)
  }

  lemma NoWords()
    ensures Decodable(Table(Code.Times(0, 256), Code.Times(0, 256)))
  {
  }

  /** A table with a word for every counted symbol. */
  predicate Serves(t: Table, f: seq<nat>) {
    Decodable(t) && |f| == 257 && forall s :: 0 <= s < 256 && f[s] > 0 ==> t.si[s] > 0
  }

  lemma DerivedServes(t: Table, bits: seq<byte>, vals: seq<byte>, counts: seq<nat>, f: seq<nat>)
    requires |t.co| == 256 && |t.si| == 256 && Tables.OptimalTable(counts, bits, vals)
    requires Code.Listed(t.co, t.si, vals, Code.Sizes(bits, 16), Code.Total(bits, 16))
    requires |f| == 257 && counts == f[256 := 1]
    ensures Serves(t, f)
  {
    hide Code.Total, Code.Sizes, Code.CountsOk, Code.CodeAt, Sorting.Sorted;
    Code.SizesAre(bits, 16);
    Tables.OptimalUsable(counts, bits, vals, false);
    DerivedPrefixCode(t, bits, vals);
    hide PrefixCode;
    var n := Code.Total(bits, 16);
    forall s | 0 <= s < 256 ensures t.si[s] <= 16 && (f[s] > 0 ==> t.si[s] > 0) {
      if s in vals[..n] {
        var p :| 0 <= p < n && vals[..n][p] == s;
        assert vals[p] == s;
      } else {
        forall p | 0 <= p < n ensures vals[p] != s {
          assert vals[..n][p] == vals[p];
        }
      }
    }
  }

  /** Makes and derives the table for one set of counts. */
  method MakeTable(f: seq<nat>, isDC: bool) returns (ok: bool, t: Table)
    requires |f| == 257 && Tree.Roots(f, 256) <= 254 && Tree.Sum(f, 256) < Tree.MAX_COUNT
    requires exists s :: 0 <= s < 256 && f[s] > 0
    requires isDC ==> forall s :: 15 < s < 256 ==> f[s] == 0
    ensures Decodable(t) && (ok ==> Serves(t, f))
    ensures Tree.Sum(f, 256) + 1 < Tables.SAFE_COUNT ==> ok
  {
    hide Tree.Roots, Tree.Sum, Code.Total, Code.Sizes, Code.Listed, Code.CountsOk, Code.Usable;
    t := Table(Code.Times(0, 256), Code.Times(0, 256));
    NoWords();
    hide PrefixCode;
    var freq := new nat[257](i requires 0 <= i < 257 => f[i]);
    assert freq[..] == f;
    var bits, huffval;
    ghost var sizes;
    ok, bits, huffval, sizes := Tables.GenOptimalTable(freq);
    if !ok {
      return;
    }
    t := DeriveFor(f, bits, huffval[..], isDC);
  }

  /** The derived table, as the output pass makes it; it is never refused. */
  method DeriveFor(f: seq<nat>, bits: seq<byte>, vals: seq<byte>, isDC: bool) returns (t: Table)
    requires |f| == 257 && Tables.OptimalTable(f[256 := 1], bits, vals)
    requires isDC ==> forall s :: 15 < s < 256 ==> f[s] == 0
    ensures Serves(t, f)
  {
    hide Code.Total, Code.Sizes, Code.Listed, Code.CountsOk, Code.Usable, Serves;
    var co, si := new nat[256](_ => 0), new nat[256](_ => 0);
    Tables.OptimalUsable(f[256 := 1], bits, vals, isDC);
    var accepted := Code.DeriveTable(bits, vals, isDC, co, si);
    t := Table(co[..], si[..]);
    DerivedServes(t, bits, vals, f[256 := 1], f);
  }

  /** A table of the scan has a count; others have none. */
  lemma HasCounts(f: seq<nat>, dc: bool, t: nat, items: seq<Item>)
    requires TableCounts(f, dc, t, items)
    ensures Has(items, dc, t) <==> exists s :: 0 <= s < 256 && f[s] > 0
  {
    hide Count;
    if Has(items, dc, t) {
      var i :| 0 <= i < |items| && items[i].Symbol? && items[i].dc == dc && items[i].tbl == t;
      CountPositive(items, items[i]);
      var s: int := items[i].s;
      assert items[i] == Symbol(dc, t, s) && f[s] > 0;
    }
    if s :| 0 <= s < 256 && f[s] > 0 {
      CountPositive(items, Symbol(dc, t, s));
      var i :| 0 <= i < |items| && items[i] == Symbol(dc, t, s);
      assert items[i].Symbol?;
    }
  }

  lemma UnusedServes(t: Table, f: seq<nat>, dc: bool, tbl: nat, items: seq<Item>)
    requires Decodable(t) && TableCounts(f, dc, tbl, items) && !Has(items, dc, tbl)
    ensures Serves(t, f)
  {
    HasCounts(f, dc, tbl, items);
  }

  /**
   Makes the tables of a scan's components, each once. Every one of them has a count,
   so a table is always made of something.
   */
  method MakeTables(c: Config, counts: seq<seq<nat>>, isDC: bool, ghost items: seq<Item>) returns (ok: bool, ts: seq<Table>)
    requires ValidConfig(c) && CountsAre(counts, isDC, items) && AllWellFormed(items) && |items| < Tree.MAX_COUNT
    requires forall t :: Has(items, isDC, t) <==> InScan(c, isDC, t)
    ensures |ts| == NUM_HUFF_TBLS && forall i :: 0 <= i < |ts| ==> Decodable(ts[i])
    ensures ok ==> forall i :: 0 <= i < |ts| ==> Serves(ts[i], counts[i])
    ensures |items| + 1 < Tables.SAFE_COUNT ==> ok
  {
    hide AllWellFormed, Tree.Roots, Tree.Sum, Serves, Count, Has, InScan, Needs;
    var none := Table(Code.Times(0, 256), Code.Times(0, 256));
    NoWords();
    hide PrefixCode, Decodable;
    ts, ok := [none, none, none, none], true;
    var did := [false, false, false, false];
    var ci := 0;
    while ci < |c.tbls|
      invariant 0 <= ci <= |c.tbls| && |ts| == |did| == NUM_HUFF_TBLS
      invariant forall i :: 0 <= i < NUM_HUFF_TBLS ==> Decodable(ts[i])
      invariant ok ==> forall i :: 0 <= i < NUM_HUFF_TBLS && did[i] ==> Serves(ts[i], counts[i])
      invariant Needs(c.kind, isDC) ==> forall j :: 0 <= j < ci ==> did[TableOf(c.tbls[j], isDC)]
      invariant |items| + 1 < Tables.SAFE_COUNT ==> ok
    {
      if Needs(c.kind, isDC) {
        var tbl := TableOf(c.tbls[ci], isDC);
        if !did[tbl] {
          InScanAt(c, isDC, ci);
          CountsFit(counts[tbl], isDC, tbl, items, 256);
          HasCounts(counts[tbl], isDC, tbl, items);
          var good, t := MakeTable(counts[tbl], isDC);
          ok := ok && good;
          ts := ts[tbl := t];
          did := did[tbl := true];
        }
      }
      ci := ci + 1;
    }
    forall i | 0 <= i < NUM_HUFF_TBLS ensures ok ==> Serves(ts[i], counts[i]) {
      if !did[i] {
        NotInScan(c, isDC, i, did);
        UnusedServes(ts[i], counts[i], isDC, i, items);
      }
    }
  }

  lemma NotInScan(c: Config, dc: bool, t: nat, did: seq<bool>)
    requires ValidConfig(c) && t < NUM_HUFF_TBLS == |did| && !did[t]
    requires Needs(c.kind, dc) ==> forall j :: 0 <= j < |c.tbls| ==> did[TableOf(c.tbls[j], dc)]
    ensures !InScan(c, dc, t)
  {
  }

  /** Tables made from the counts of a list of items have a word for every symbol of it. */
  lemma CountedCovered(dc: seq<Table>, ac: seq<Table>, dcCounts: seq<seq<nat>>, acCounts: seq<seq<nat>>, items: seq<Item>)
    requires TablesOk(dc, ac) && AllWellFormed(items)
    requires CountsAre(dcCounts, true, items) && CountsAre(acCounts, false, items)
    requires forall i :: 0 <= i < NUM_HUFF_TBLS ==> Serves(dc[i], dcCounts[i]) && Serves(ac[i], acCounts[i])
    ensures Covered(dc, ac, items)
  {
    hide Count;
    forall i | 0 <= i < |items| ensures Writable(dc, ac, items[i]) {
      assert WellFormed(items[i]);
      CountPositive(items, items[i]);
      if items[i].Symbol? {
        var t, s := items[i].tbl, items[i].s;
        assert Serves(dc[t], dcCounts[t]) && Serves(ac[t], acCounts[t]);
        if items[i].dc {
          assert dcCounts[t][s] == Count(items, Symbol(true, t, s));
        } else {
          assert acCounts[t][s] == Count(items, Symbol(false, t, s));
        }
      }
    }
  }

  lemma EncoderFacts(e: Encoder)
    requires e.Valid() && e.gather
    ensures AllWellFormed(Joined(e.done) + e.items)
    ensures CountsAre(e.dcCounts, true, Joined(e.done) + e.items) && CountsAre(e.acCounts, false, Joined(e.done) + e.items)
  {
  }

  /**
   A gathering pass: by the trial encoder of sequential scans, or by the progressive
   encoder. Both count exactly the symbols that an output pass writes.
   */
  method GatherScan(c: Config, ms: seq<seq<McuBlock>>) returns (ok: bool, dcCounts: seq<seq<nat>>, acCounts: seq<seq<nat>>)
    requires ValidConfig(c) && ValidMcus(c, ms)
    ensures ok <==> ScanInRange(c, Start(c), ms)
    ensures ok ==>
              && CountsAre(dcCounts, true, AllItems(c, ms)) && CountsAre(acCounts, false, AllItems(c, ms))
              && AllWellFormed(AllItems(c, ms))
  {
    hide Encoder.Valid, Encoder.Sure, Encoder.At, Gatherer.Valid, Gatherer.At, ScanInRange, AllItems, Joined, CountsAre,
      AllWellFormed;
    dcCounts, acCounts := [], [];
    if c.kind.Sequential? {
      var trial := new Gatherer(c);
      ok := trial.Gather(ms);
      if ok {
        dcCounts, acCounts := trial.Counts();
      }
    } else {
      var none := Table(Code.Times(0, 256), Code.Times(0, 256));
      assert TableOk(none);
      var empty := [none, none, none, none];
      var gathering := new Encoder(c, true, empty, empty);
      AnythingGathers(gathering);
      var o := RunPass(gathering, ms);
      ok := o.Done?;
      if ok {
        EncoderFacts(gathering);
        dcCounts, acCounts := gathering.dcCounts, gathering.acCounts;
      }
    }
  }

  datatype Result = Coded(out: seq<byte>) | Failed(why: Outcome) | TreeTooDeep

  /**
   A scan with optimisation. The symbols counted are exactly those written, so the
   output pass never meets a symbol without a code word; and the scan can fail
   only for a coefficient out of range, or a count of symbols above nine million.
   */
  method EncodeOptimized(c: Config, ms: seq<seq<McuBlock>>)
    returns (r: Result, ghost dc: seq<Table>, ghost ac: seq<Table>, ghost done: seq<seq<Item>>, ghost last: seq<Item>,
             ghost segs: seq<seq<byte>>, ghost data: seq<byte>)
    requires ValidConfig(c) && OneAc(c) && ValidMcus(c, ms) && ms != [] && forall i :: 0 <= i < |ms| ==> Complete(c, ms[i])
    requires ScanInRange(c, Start(c), ms) ==> |AllItems(c, ms)| < Tree.MAX_COUNT
    ensures !(r.Failed? && r.why.MissingCode?)
    ensures ScanInRange(c, Start(c), ms) && |AllItems(c, ms)| + 1 < Tables.SAFE_COUNT ==> r.Coded?
    ensures r.Coded? ==>
              && ScanInRange(c, Start(c), ms) && Joined(done) + last == AllItems(c, ms)
              && Stored(dc, ac, r.out, done, last, segs, data)
              && done + [last] == Segments(c, ms) && PrefixCodes(dc, ac)
    ensures !ScanInRange(c, Start(c), ms) ==> r == Failed(BadCoef)
  {
    hide Encoder.Valid, Encoder.Sure, Encoder.At, ScanInRange, AllItems, Joined, Covered, Serves, CountsAre, Stored, Complete, OneAc, Has, InScan;
    dc, ac, done, last, segs, data := [], [], [], [], [], [];
    var counted, dcCounts, acCounts := GatherScan(c, ms);
    if !counted {
      r := Failed(BadCoef);
      return;
    }
    ghost var items := AllItems(c, ms);
    TablesUsed(c, ms);
    var ok, dcTables := MakeTables(c, dcCounts, true, items);
    if !ok {
      r := TreeTooDeep;
      return;
    }
    var fine, acTables := MakeTables(c, acCounts, false, items);
    if !fine {
      r := TreeTooDeep;
      return;
    }
    CountedCovered(dcTables, acTables, dcCounts, acCounts, items);
    var output := new Encoder(c, false, dcTables, acTables);
    var o := RunPass(output, ms);
    CoveredSure(output, items);
    r := if o.Done? then Coded(output.w.out) else Failed(o);
    dc, ac, done, last, segs, data := dcTables, acTables, output.done, output.items, output.segs, output.w.data;
  }

  lemma AnythingGathers(e: Encoder)
    ensures e.gather ==> forall list :: e.Sure(list)
  {
  }

  lemma CoveredSure(e: Encoder, items: seq<Item>)
    requires TablesOk(e.dcTables, e.acTables) && Covered(e.dcTables, e.acTables, items)
    ensures e.Sure(items)
  {
  }
}
