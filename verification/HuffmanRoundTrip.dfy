/**
 Huffman-coded scans come back: in all five procedures, with restarts, from the bits
 that the coder writes.
 */
module HuffmanRoundTrip {
  import opened Bytes
  import opened BlockModel
  import opened ScanModel
  import opened HuffmanWords
  import opened HuffmanItems
  import opened HuffmanStream
  import opened HuffmanReading
  import opened HuffmanTape
  import opened HuffmanBands
  import opened HuffmanRefining

  /** The reader, when the items of `st` and its pending run, grown by `x`, have been read. */
  function ReaderAt(c: Config, tp: Tape, st: State, x: nat, last: seq<int>, more: seq<seq<bit>>): Reader
    requires ValidConfig(c) && ValidTape(tp) && Good(st.ac, x) && Ahead(c.tbls[0].ac, st.ac, x) <= tp.items
  {
    Reader(Left(tp, |Ahead(c.tbls[0].ac, st.ac, x)|), x, last, st.toGo, more)
  }

  /** The predictions agree where they matter. */
  predicate SameLast(c: Config, st: State, last: seq<int>) {
    |last| == |st.lastDc| && (DcScan(c.kind) ==> last == st.lastDc)
  }

  function LastAfter(c: Config, st: State, last: seq<int>): seq<int> {
    if DcScan(c.kind) then st.lastDc else last
  }

  lemma ValidGood(c: Config, st: State)
    requires ValidConfig(c) && ValidState(c, st)
    ensures Good(st.ac, 0) && st.ac.eobrun < MAX_EOBRUN && |st.lastDc| == |c.tbls|
    ensures c.tbls[0].ac < NUM_HUFF_TBLS
    ensures DcScan(c.kind) ==> st.ac.eobrun == 0
    ensures !c.kind.AcRefine? ==> st.ac.pend == []
  {
  }

  /** What a block's coder sends is read back, up to what is known of it after the scan. */
  lemma BlockRead(c: Config, tp: Tape, st: State, b: McuBlock, z: Block, y: nat, last: seq<int>, more: seq<seq<bit>>)
    returns (x: nat)
    requires ValidConfig(c) && ValidTape(tp) && ValidState(c, st) && b.ci < |c.tbls| && InRange(c, st, b)
    requires Coefs(b.z) && Ready(c.kind, z, b.z) && SameLast(c, st, last)
    requires var s1 := SendBlock(c, st, b); Good(s1.ac, y) && Ahead(c.tbls[0].ac, s1.ac, y) <= tp.items
    ensures Good(st.ac, x) && Ahead(c.tbls[0].ac, st.ac, x) <= tp.items && |last| == |c.tbls|
    ensures var s1 := SendBlock(c, st, b);
            DecodeBlock(c, tp.codes, ReaderAt(c, tp, st, x, last, more), b.(z := z))
            == Ok(b.(z := After(c.kind, z, b.z)),
                  ReaderAt(c, tp, s1, y, LastAfter(c, s1, last), more))
  {
    hide Left, ValidTape, Ahead, Coefs, ValidState, DecodeBlock;
    ValidGood(c, st);
    match c.kind
    case Sequential(limSe) => x := 0; SequentialRead(c, tp, st, b, z, y, more);
    case DcFirst(al) => x := 0; DcFirstRead(c, tp, st, b, z, y, more);
    case DcRefine(al) => x := 0; DcRefineRead(c, tp, st, b, z, y, more);
    case AcFirst(ss, se, al) => x := AcFirstRead(c, tp, st, b, z, y, last, more);
    case AcRefine(ss, se, al) => x := AcRefineRead(c, tp, st, b, z, y, last, more);
  }

  lemma SequentialRead(c: Config, tp: Tape, st: State, b: McuBlock, z: Block, y: nat, more: seq<seq<bit>>)
    requires ValidConfig(c) && ValidTape(tp) && ValidState(c, st) && b.ci < |c.tbls| && InRange(c, st, b)
    requires c.kind.Sequential? && Coefs(b.z) && Ready(c.kind, z, b.z)
    requires var s1 := SendBlock(c, st, b); Good(s1.ac, y) && Ahead(c.tbls[0].ac, s1.ac, y) <= tp.items
    ensures Good(st.ac, 0) && Ahead(c.tbls[0].ac, st.ac, 0) <= tp.items && |st.lastDc| == |c.tbls|
    ensures var s1 := SendBlock(c, st, b);
            DecodeBlock(c, tp.codes, ReaderAt(c, tp, st, 0, st.lastDc, more), b.(z := z))
            == Ok(b.(z := After(c.kind, z, b.z)), ReaderAt(c, tp, s1, y, s1.lastDc, more))
  {
    hide Left, ValidTape, At, DcItems, AcItems, NextDiff, ReadAc, ToCoef, Sent, DcFits, CoefsFit, Ahead;
    ValidGood(c, st);
    var t, o, limSe := c.tbls[b.ci], b.z, c.kind.limSe;
    var s1, diff := SendBlock(c, st, b), o[0] - st.lastDc[b.ci];
    var dc, ac := DcItems(t.dc, diff), AcItems(t.ac, o, 1, limSe, 0);
    NothingPending(c.tbls[0].ac, st.ac);
    NothingPending(c.tbls[0].ac, s1.ac);
    PrefixAt(tp, st.ac.items, dc + ac);
    AtBoth(tp, |st.ac.items|, dc, ac);
    DiffRead(tp, |st.ac.items|, t.dc, diff);
    CoefAt(o, 0);
    CoefKept(o[0]);
    AcRead(tp, |st.ac.items + dc|, t.ac, o, z[0 := o[0]], 1, 1, limSe);
    assert |st.ac.items + (dc + ac)| == |st.ac.items| + |dc| + |ac|;
    hide Coefs;
  }

  lemma DcFirstRead(c: Config, tp: Tape, st: State, b: McuBlock, z: Block, y: nat, more: seq<seq<bit>>)
    requires ValidConfig(c) && ValidTape(tp) && ValidState(c, st) && b.ci < |c.tbls| && InRange(c, st, b)
    requires c.kind.DcFirst? && Coefs(b.z)
    requires var s1 := SendBlock(c, st, b); Good(s1.ac, y) && Ahead(c.tbls[0].ac, s1.ac, y) <= tp.items
    ensures Good(st.ac, 0) && Ahead(c.tbls[0].ac, st.ac, 0) <= tp.items && |st.lastDc| == |c.tbls|
    ensures var s1 := SendBlock(c, st, b);
            DecodeBlock(c, tp.codes, ReaderAt(c, tp, st, 0, st.lastDc, more), b.(z := z))
            == Ok(b.(z := After(c.kind, z, b.z)), ReaderAt(c, tp, s1, y, s1.lastDc, more))
  {
    hide Left, ValidTape, At, DcItems, NextDiff, ToCoef, DcFits, Ahead, DcShift, Pow2, IsCoef;
    ValidGood(c, st);
    var t, o, al := c.tbls[b.ci], b.z, c.kind.al;
    var v := DcShift(o[0], al);
    var s1, diff := SendBlock(c, st, b), v - st.lastDc[b.ci];
    var dc := DcItems(t.dc, diff);
    NothingPending(c.tbls[0].ac, st.ac);
    NothingPending(c.tbls[0].ac, s1.ac);
    PrefixAt(tp, st.ac.items, dc);
    DiffRead(tp, |st.ac.items|, t.dc, diff);
    CoefAt(o, 0);
    DcApproxIsCoef(o[0], al);
    CoefKept(DcApprox(o[0], al));
    hide Coefs;
  }

  lemma DcRefineRead(c: Config, tp: Tape, st: State, b: McuBlock, z: Block, y: nat, more: seq<seq<bit>>)
    requires ValidConfig(c) && ValidTape(tp) && ValidState(c, st) && b.ci < |c.tbls| && InRange(c, st, b)
    requires c.kind.DcRefine?
    requires var s1 := SendBlock(c, st, b); Good(s1.ac, y) && Ahead(c.tbls[0].ac, s1.ac, y) <= tp.items
    ensures Good(st.ac, 0) && Ahead(c.tbls[0].ac, st.ac, 0) <= tp.items && |st.lastDc| == |c.tbls|
    ensures var s1 := SendBlock(c, st, b);
            DecodeBlock(c, tp.codes, ReaderAt(c, tp, st, 0, st.lastDc, more), b.(z := z))
            == Ok(b.(z := After(c.kind, z, b.z)), ReaderAt(c, tp, s1, y, s1.lastDc, more))
  {
    hide Left, ValidTape, At, Ahead, BitAt, SetBit;
    ValidGood(c, st);
    var bit := BitAt(b.z[0], c.kind.al);
    var s1 := SendBlock(c, st, b);
    NothingPending(c.tbls[0].ac, st.ac);
    NothingPending(c.tbls[0].ac, s1.ac);
    assert [Plain(bit, 1)] == [Plain(bit, 1)] + [];
    PrefixAt(tp, st.ac.items, [Plain(bit, 1)]);
    AtFirst(tp, |st.ac.items|, Plain(bit, 1), []);
    TakeBit(tp, |st.ac.items|, bit);
  }

  lemma AcFirstRead(c: Config, tp: Tape, st: State, b: McuBlock, z: Block, y: nat, last: seq<int>, more: seq<seq<bit>>)
    returns (x: nat)
    requires ValidConfig(c) && ValidTape(tp) && ValidState(c, st) && b.ci < |c.tbls| && InRange(c, st, b) && |last| == |c.tbls|
    requires c.kind.AcFirst? && Coefs(b.z) && Ready(c.kind, z, b.z)
    requires var s1 := SendBlock(c, st, b); Good(s1.ac, y) && Ahead(c.tbls[0].ac, s1.ac, y) <= tp.items
    ensures Good(st.ac, x) && Ahead(c.tbls[0].ac, st.ac, x) <= tp.items
    ensures var s1 := SendBlock(c, st, b);
            DecodeBlock(c, tp.codes, ReaderAt(c, tp, st, x, last, more), b.(z := z))
            == Ok(b.(z := After(c.kind, z, b.z)), ReaderAt(c, tp, s1, y, last, more))
  {
    hide Left, ValidTape, Ahead, FirstItems, FirstBlock, Sent, Coefs, CoefsFit, Settled;
    ValidGood(c, st);
    x := FirstRead(tp, c.tbls[0].ac, b.z, z, c.kind.ss, c.kind.ss, c.kind.se, c.kind.al, st.ac, y);
  }

  lemma AcRefineRead(c: Config, tp: Tape, st: State, b: McuBlock, z: Block, y: nat, last: seq<int>, more: seq<seq<bit>>)
    returns (x: nat)
    requires ValidConfig(c) && ValidTape(tp) && ValidState(c, st) && b.ci < |c.tbls| && InRange(c, st, b) && |last| == |c.tbls|
    requires c.kind.AcRefine? && Coefs(b.z) && Ready(c.kind, z, b.z)
    requires var s1 := SendBlock(c, st, b); Good(s1.ac, y) && Ahead(c.tbls[0].ac, s1.ac, y) <= tp.items
    ensures Good(st.ac, x) && Ahead(c.tbls[0].ac, st.ac, x) <= tp.items
    ensures var s1 := SendBlock(c, st, b);
            DecodeBlock(c, tp.codes, ReaderAt(c, tp, st, x, last, more), b.(z := z))
            == Ok(b.(z := After(c.kind, z, b.z)), ReaderAt(c, tp, s1, y, last, more))
  {
    hide Left, ValidTape, Ahead, RefineItems, RefineBlock, Sent, Coefs, Settled, Approx, Mag, EobOf, NoNew, Tight, ZerosIn,
      BitsIn;
    ValidGood(c, st);
    var ss, se, al := c.kind.ss, c.kind.se, c.kind.al;
    FreshStart(b.z, ss, al);
    x := RefineRead(tp, c.tbls[0].ac, b.z, z, ss, ss, se, al, EobOf(b.z, ss, se, al), st.ac, y);
  }

  lemma LastSame(c: Config, st: State, s1: State, last: seq<int>)
    requires SameLast(c, st, last) && |s1.lastDc| == |st.lastDc|
    ensures SameLast(c, s1, LastAfter(c, s1, last))
    ensures s1 == st ==> LastAfter(c, s1, last) == last
  {
  }

  /** Blocks one after the other. */
  lemma {:induction false} BlocksRead(c: Config, tp: Tape, st: State, os: seq<McuBlock>, zs: seq<McuBlock>, y: nat,
                                      last: seq<int>, more: seq<seq<bit>>)
    returns (x: nat)
    requires ValidConfig(c) && ValidTape(tp) && ValidState(c, st) && ValidMcu(os, |c.tbls|) && McuInRange(c, st, os)
    requires AllReady(c.kind, zs, os) && SameLast(c, st, last)
    requires var s1 := SendBlocks(c, st, os); Good(s1.ac, y) && Ahead(c.tbls[0].ac, s1.ac, y) <= tp.items
    ensures Good(st.ac, x) && Ahead(c.tbls[0].ac, st.ac, x) <= tp.items && |last| == |c.tbls| && ValidMcu(zs, |c.tbls|)
    ensures var s1 := SendBlocks(c, st, os);
            && SameLast(c, s1, LastAfter(c, s1, last))
            && DecodeBlocks(c, tp.codes, ReaderAt(c, tp, st, x, last, more), zs)
               == Ok(AllAfter(c.kind, zs, os), ReaderAt(c, tp, s1, y, LastAfter(c, s1, last), more))
    decreases |os|
  {
    hide Left, ValidTape, Ahead, ValidState, DecodeBlock, SendBlock, InRange, After, Ready, AllReady, AllAfter, Good,
      SameLast, Coefs;
    AllReadyHead(c.kind, zs, os);
    StateSize(c, st, last);
    if os == [] {
      x := y;
      LastSame(c, st, st, last);
    } else {
      BlockValid(c, st, os[0]);
      var s1 := SendBlock(c, st, os[0]);
      StateSize(c, s1, s1.lastDc);
      LastSame(c, st, s1, last);
      var last1 := LastAfter(c, s1, last);
      var x1 := BlocksRead(c, tp, s1, os[1..], zs[1..], y, last1, more);
      x := BlockRead(c, tp, st, os[0], zs[0].z, x1, last, more);
      LastTwice(c, s1, SendBlocks(c, st, os), last);
    }
  }

  lemma StateSize(c: Config, st: State, last: seq<int>)
    requires ValidState(c, st)
    ensures |st.lastDc| == |c.tbls| && (SameLast(c, st, last) ==> |last| == |c.tbls|) && SameLast(c, st, st.lastDc)
  {
  }

  lemma LastTwice(c: Config, s1: State, s2: State, last: seq<int>)
    ensures LastAfter(c, s2, LastAfter(c, s1, last)) == LastAfter(c, s2, last)
  {
  }

  // ----- scans

  /** All segments of a scan, each with its padding. */
  datatype Scan = Scan(codes: Codes, segments: seq<seq<Item>>, pads: seq<seq<bit>>)

  function TapeOf(sc: Scan, j: nat): Tape
    requires j < |sc.segments| == |sc.pads|
  {
    Tape(sc.codes, sc.segments[j], sc.pads[j])
  }

  predicate ValidScan(sc: Scan) {
    |sc.segments| == |sc.pads| && forall j :: 0 <= j < |sc.segments| ==> ValidTape(TapeOf(sc, j))
  }

  /** The bits of the segments from `j` on. */
  function BitsFrom(sc: Scan, j: nat): (r: seq<seq<bit>>)
    requires ValidScan(sc) && j <= |sc.segments|
    ensures |r| == |sc.segments| - j
  {
    seq(|sc.segments| - j, i requires 0 <= i < |sc.segments| - j => Left(TapeOf(sc, j + i), 0))
  }

  lemma BitsNext(sc: Scan, j: nat)
    requires ValidScan(sc) && j < |sc.segments|
    ensures BitsFrom(sc, j) == [Left(TapeOf(sc, j), 0)] + BitsFrom(sc, j + 1)
  {
    hide Left, ValidTape;
  }

  predicate McusReady(kind: Kind, zs: seq<seq<McuBlock>>, ms: seq<seq<McuBlock>>)
    requires ValidKind(kind)
  {
    |zs| == |ms| && forall i :: 0 <= i < |ms| ==> AllReady(kind, zs[i], ms[i])
  }

  /** What the scan makes of every block. */
  function McusAfter(kind: Kind, zs: seq<seq<McuBlock>>, ms: seq<seq<McuBlock>>): seq<seq<McuBlock>>
    requires ValidKind(kind) && McusReady(kind, zs, ms)
  {
    seq(|ms|, i requires 0 <= i < |ms| => AllAfter(kind, zs[i], ms[i]))
  }

  lemma McusHead(kind: Kind, zs: seq<seq<McuBlock>>, ms: seq<seq<McuBlock>>)
    requires ValidKind(kind) && McusReady(kind, zs, ms) && ms != []
    ensures |zs| == |ms| && AllReady(kind, zs[0], ms[0]) && |zs[0]| == |ms[0]| && McusReady(kind, zs[1..], ms[1..])
    ensures McusAfter(kind, zs, ms) == [AllAfter(kind, zs[0], ms[0])] + McusAfter(kind, zs[1..], ms[1..])
  {
    hide AllAfter;
  }

  lemma {:induction false} ReadyMcus(c: Config, zs: seq<seq<McuBlock>>, ms: seq<seq<McuBlock>>)
    requires ValidKind(c.kind) && McusReady(c.kind, zs, ms) && ValidMcus(c, ms)
    ensures ValidMcus(c, zs)
  {
    forall i | 0 <= i < |zs| ensures ValidMcu(zs[i], |c.tbls|) {
      AllReadyHead(c.kind, zs[i], ms[i]);
    }
  }

  /** What the coder has sent is on its way in the segment that it is in. */
  predicate Underway(c: Config, sc: Scan, st: State, x: nat) {
    && ValidConfig(c) && st.done <= sc.segments && |st.done| < |sc.segments|
    && Good(st.ac, x) && Ahead(c.tbls[0].ac, st.ac, x) <= sc.segments[|st.done|]
  }

  /** The reader stands in the segment that the coder is in, and the later ones follow. */
  function ReaderIn(c: Config, sc: Scan, st: State, x: nat, last: seq<int>): Reader
    requires ValidScan(sc) && Underway(c, sc, st, x)
  {
    ReaderAt(c, TapeOf(sc, |st.done|), st, x, last, BitsFrom(sc, |st.done| + 1))
  }

  /** The reader reads everything, and nothing but padding is left. */
  predicate ReadsAll(c: Config, sc: Scan, rd: Reader, zs: seq<seq<McuBlock>>, ms: seq<seq<McuBlock>>)
    requires ValidConfig(c) && ValidScan(sc) && ValidCodes(sc.codes) && ValidMcus(c, zs) && McusReady(c.kind, zs, ms)
    requires sc.segments != [] && ValidReader(c, rd)
  {
    var r := DecodeMcus(c, sc.codes, rd, zs);
    && r.Ok? && r.v == McusAfter(c.kind, zs, ms)
    && r.rd.bits == sc.pads[|sc.pads| - 1] && r.rd.eobrun == 0 && r.rd.more == []
  }

  lemma EndRead(c: Config, sc: Scan, st: State, last: seq<int>)
    requires ValidConfig(c) && ValidState(c, st) && ValidScan(sc) && ValidCodes(sc.codes) && |last| == |c.tbls|
    requires var end := Flushed(c, st); end.done + [end.ac.items] == sc.segments
    ensures Underway(c, sc, st, 0) && sc.segments != []
    ensures ReadsAll(c, sc, ReaderIn(c, sc, st, 0, last), [], [])
  {
    hide ValidTape, EmitEob, ValidState;
    ValidGood(c, st);
    EmitAhead(c.tbls[0].ac, st.ac);
    var n := |st.done|;
    assert sc.segments[n] == Ahead(c.tbls[0].ac, st.ac, 0) && st.done == sc.segments[..n];
    hide Ahead;
    var tp := TapeOf(sc, n);
    assert tp.items[|tp.items|..] == [];
    assert [] + tp.pad == tp.pad;
    assert BitsFrom(sc, n + 1) == [];
  }

  /** A restart clears the reader's predictions. */
  function LastBefore(c: Config, st: State, last: seq<int>): seq<int> {
    if c.interval > 0 && st.toGo == 0 then Zeros(|c.tbls|) else last
  }

  /** A restart takes reader and coder to the next segment. */
  lemma RestartRead(c: Config, sc: Scan, st: State, x0: nat, last: seq<int>) returns (x: nat)
    requires ValidConfig(c) && ValidState(c, st) && ValidScan(sc) && SameLast(c, st, last)
    requires Underway(c, sc, BeforeMcu(c, st), x0)
    ensures Underway(c, sc, st, x) && |last| == |c.tbls|
    ensures var r := NextSegment(c, ReaderIn(c, sc, st, x, last)); r.Ok? && r.rd == ReaderIn(c, sc, BeforeMcu(c, st), x0, LastBefore(c, st, last))
  {
    hide ValidTape, EmitEob, ValidState, Left, Ahead;
    ValidGood(c, st);
    if c.interval == 0 || st.toGo > 0 {
      x := x0;
    } else {
      x := 0;
      var n := |st.done|;
      EmitAhead(c.tbls[0].ac, st.ac);
      NothingPending(c.tbls[0].ac, NoAc());
      var f := Flushed(c, st);
      RestartPlace(st.done, f.ac.items, sc.segments);
      BitsNext(sc, n + 1);
    }
  }

  lemma LastSound(c: Config, st: State, last: seq<int>)
    requires ValidConfig(c) && ValidState(c, st) && SameLast(c, st, last)
    ensures SameLast(c, BeforeMcu(c, st), LastBefore(c, st, last))
  {
    ValidGood(c, st);
    hide ValidState, EmitEob;
  }

  lemma RestartPlace(done: seq<seq<Item>>, items: seq<Item>, segments: seq<seq<Item>>)
    requires done + [items] <= segments
    ensures done <= segments && segments[|done|] == items
  {
    assert (done + [items])[|done|] == items;
  }

  /** The MCUs left, whatever the restarts. */
  lemma {:induction false} McusRead(c: Config, sc: Scan, st: State, ms: seq<seq<McuBlock>>, zs: seq<seq<McuBlock>>, last: seq<int>)
    returns (x: nat)
    requires ValidConfig(c) && ValidState(c, st) && ValidScan(sc) && ValidCodes(sc.codes) && SameLast(c, st, last)
    requires ValidMcus(c, ms) && McusReady(c.kind, zs, ms) && ScanInRange(c, st, ms) && ValidMcus(c, zs)
    requires var end := Flushed(c, SendMcus(c, st, ms)); end.done + [end.ac.items] == sc.segments
    ensures Underway(c, sc, st, x) && sc.segments != [] && |last| == |c.tbls|
    ensures ReadsAll(c, sc, ReaderIn(c, sc, st, x, last), zs, ms)
    decreases |ms|
  {
    hide ValidTape, EmitEob, ValidState, SendBlocks, McuInRange, AllReady, SameLast, BeforeMcu, Flushed, McusReady, ValidMcu,
      SendMcus, ScanInRange, ReadsAll, ReaderIn, Underway, ValidScan;
    StateSize(c, st, last);
    if ms == [] {
      ScanDone(c, st);
      assert zs == [] by { SameCount(c, zs, ms); }
      x := 0;
      EndRead(c, sc, st, last);
    } else {
      ScanStep(c, st, ms);
      McusHead(c.kind, zs, ms);
      var s0 := BeforeMcu(c, st);
      var s1 := SendBlocks(c, s0, ms[0]);
      LastSound(c, st, last);
      var last0 := LastBefore(c, st, last);
      var last1 := LastAfter(c, s1, last0);
      StateSize(c, s1, s1.lastDc);
      StateSize(c, s0, last0);
      LastSame(c, s0, s1, last0);
      var x1 := McusRead(c, sc, s1, ms[1..], zs[1..], last1);
      var x0 := McuBlocksRead(c, sc, s0, ms[0], zs[0], x1, last0);
      x := RestartRead(c, sc, st, x0, last);
      McusReadOn(c, sc, st, x, last, zs, ms, ReaderIn(c, sc, s0, x0, last0), ReaderIn(c, sc, s1, x1, last1));
    }
  }

  lemma SameCount(c: Config, zs: seq<seq<McuBlock>>, ms: seq<seq<McuBlock>>)
    requires ValidKind(c.kind) && McusReady(c.kind, zs, ms)
    ensures |zs| == |ms|
  {
  }

  /** The blocks of one MCU, in the segment that the coder is in. */
  lemma McuBlocksRead(c: Config, sc: Scan, s0: State, os: seq<McuBlock>, zs: seq<McuBlock>, x1: nat, last0: seq<int>)
    returns (x0: nat)
    requires ValidConfig(c) && ValidState(c, s0) && ValidScan(sc) && ValidCodes(sc.codes) && ValidMcu(os, |c.tbls|)
    requires McuInRange(c, s0, os) && AllReady(c.kind, zs, os) && SameLast(c, s0, last0)
    requires Underway(c, sc, SendBlocks(c, s0, os), x1)
    ensures Underway(c, sc, s0, x0) && |last0| == |c.tbls| && ValidMcu(zs, |c.tbls|)
    ensures var s1 := SendBlocks(c, s0, os);
            DecodeBlocks(c, sc.codes, ReaderIn(c, sc, s0, x0, last0), zs)
            == Ok(AllAfter(c.kind, zs, os), ReaderIn(c, sc, s1, x1, LastAfter(c, s1, last0)))
  {
    hide ValidTape, ValidState, Left, Ahead, SendBlocks, McuInRange, AllReady, AllAfter, Good, SameLast, DecodeBlocks, BitsFrom,
      ValidMcu;
    var n := |s0.done|;
    x0 := BlocksRead(c, TapeOf(sc, n), s0, os, zs, x1, last0, BitsFrom(sc, n + 1));
  }

  /** From the start of an MCU: the restart, its blocks, and the MCUs after it. */
  lemma McusReadOn(c: Config, sc: Scan, st: State, x: nat, last: seq<int>, zs: seq<seq<McuBlock>>, ms: seq<seq<McuBlock>>,
                   rd0: Reader, rd1: Reader)
    requires ValidConfig(c) && ValidScan(sc) && ValidCodes(sc.codes) && ValidMcus(c, zs) && McusReady(c.kind, zs, ms) && ms != []
    requires Underway(c, sc, st, x) && |last| == |c.tbls| && ValidReader(c, rd0) && ValidReader(c, rd1) && sc.segments != []
    requires var r := NextSegment(c, ReaderIn(c, sc, st, x, last)); r.Ok? && r.rd == rd0
    requires |zs| == |ms| && AllReady(c.kind, zs[0], ms[0]) && |zs[0]| == |ms[0]| && McusReady(c.kind, zs[1..], ms[1..])
    requires DecodeBlocks(c, sc.codes, rd0, zs[0]) == Ok(AllAfter(c.kind, zs[0], ms[0]), rd1)
    requires ReadsAll(c, sc, rd1, zs[1..], ms[1..])
    ensures ReadsAll(c, sc, ReaderIn(c, sc, st, x, last), zs, ms)
  {
    hide ValidTape, Left, Ahead, AllReady, AllAfter, Good, DecodeBlocks, BitsFrom, ValidMcu, NextSegment, McusReady, McusAfter;
    McusHead(c.kind, zs, ms);
  }

  /**
   A whole scan, sent in any of the five procedures and with any restart interval, is
   read back from its bits: every block is taken to what the scan sends of it, and
   nothing but the padding of the last segment is left.
   */
  lemma ScanReads(c: Config, sc: Scan, ms: seq<seq<McuBlock>>, zs: seq<seq<McuBlock>>)
    requires ValidConfig(c) && ValidMcus(c, ms) && ScanInRange(c, Start(c), ms) && McusReady(c.kind, zs, ms)
    requires ValidScan(sc) && ValidCodes(sc.codes) && sc.segments == Segments(c, ms)
    ensures ValidMcus(c, zs) && sc.segments != []
    ensures var r := DecodeScan(c, sc.codes, BitsFrom(sc, 0), zs);
            && r.Ok? && r.v == McusAfter(c.kind, zs, ms)
            && r.rd.bits == sc.pads[|sc.pads| - 1] && r.rd.eobrun == 0 && r.rd.more == []
  {
    hide ValidTape, EmitEob, ValidState, AllReady, Flushed, McusReady, ValidMcu, SendMcus, ScanInRange, ValidScan, McusAfter;
    ReadyMcus(c, zs, ms);
    StartValid(c);
    assert SameLast(c, Start(c), Zeros(|c.tbls|));
    hide Left, SameLast, DecodeMcus;
    var x := McusRead(c, sc, Start(c), ms, zs, Zeros(|c.tbls|));
    NothingPending(c.tbls[0].ac, NoAc());
    hide Ahead;
    BitsNext(sc, 0);
  }
}
