/**
 The entropy decoder object of jdarith.c: it fills coefficient blocks in place,
 MCU by MCU, and never leaves its tables whatever the data.
 */
module ScanDecoder {
  import opened Bytes
  import opened CodingInterval
  import opened SegmentSource
  import opened DecisionStream
  import opened MagnitudeModel
  import opened BlockModel
  import opened ScanModel
  import opened ScanStream
  import opened ArithDecoder

  /** Doubles the category while ones follow; fails when it would reach 2^15. */
  method DecodeOnes(dec: Decoder, dc: bool, tbl: nat, i: nat, m0: nat, ghost n0: nat)
    returns (ok: bool, m: nat, st: nat, ghost n: nat)
    requires dec.Valid() && n0 < MAX_CATEGORY && m0 == Pow2(n0) && i + 15 - n0 < 64 + (if dc then 0 else 192)
    modifies dec
    ensures dec.Valid() && dec.data == old(dec.data) && dec.end == old(dec.end)
    ensures var r := ReadOnes(old(dec.Reader()), dc, tbl, i, n0); r.0 == ok && r.2 == dec.Reader() && (ok ==> r.1 == n)
    ensures ok ==> n0 <= n < MAX_CATEGORY && m == Pow2(n) && st == i + n - n0
  {
    hide Decoder.Valid, Next, Pow2;
    m, st, n := m0, i, n0;
    Pow2Masks();
    var bit := dec.Decode(Area(dc, tbl, st));
    ghost var s := old(dec.Reader());
    while bit == 1
      invariant dec.Valid() && dec.data == old(dec.data) && dec.end == old(dec.end)
      invariant n0 <= n < MAX_CATEGORY && m == Pow2(n) && st == i + n - n0 && bit <= 1
      invariant (bit, dec.Reader()) == Next(s, Area(dc, tbl, st))
      invariant ReadOnes(old(dec.Reader()), dc, tbl, i, n0) == ReadOnes(s, dc, tbl, st, n)
      decreases MAX_CATEGORY - n
    {
      CategoryLimit(n);
      m := 2 * m;
      CategoryLimit(n + 1);
      if m == 0x8000 {
        ok := false;
        return;
      }
      st := st + 1;
      n := n + 1;
      s := dec.Reader();
      bit := dec.Decode(Area(dc, tbl, st));
    }
    ok := true;
  }

  lemma CategoryLimit(n: nat)
    requires n <= MAX_CATEGORY
    ensures Pow2(n) == 0x8000 <==> n == MAX_CATEGORY
    ensures Pow2(n + 1) == 2 * Pow2(n)
  {
    Pow2Masks();
    if n < 15 {
      Pow2Monotone(n, 14);
    }
  }

  /** Adds the bits below the top bit `m`. */
  method DecodePattern(dec: Decoder, bin: Bin, m: nat, ghost n: nat) returns (v: nat)
    requires dec.Valid() && InArea(bin) && m == Pow2(n)
    modifies dec
    ensures dec.Valid() && dec.data == old(dec.data) && dec.end == old(dec.end)
    ensures (v, dec.Reader()) == ReadPattern(old(dec.Reader()), bin, n, m)
  {
    hide Decoder.Valid, Next;
    v := m;
    var p := m;
    ghost var k: nat := n;
    while p / 2 != 0
      invariant dec.Valid() && dec.data == old(dec.data) && dec.end == old(dec.end)
      invariant k <= n && p == Pow2(k)
      invariant ReadPattern(old(dec.Reader()), bin, n, m) == ReadPattern(dec.Reader(), bin, k, v)
      decreases k
    {
      p := p / 2;
      var bit := dec.Decode(bin);
      if bit == 1 {
        v := v + p;
      }
      k := k - 1;
    }
  }

  method DecodeDcMagnitude(dec: Decoder, tbl: nat, i: nat) returns (ok: bool, m: nat, w: nat)
    requires dec.Valid() && i < 20
    modifies dec
    ensures dec.Valid() && dec.data == old(dec.data) && dec.end == old(dec.end)
    ensures Magnitude(ok, m, w, dec.Reader()) == ReadDcMagnitude(old(dec.Reader()), tbl, i)
  {
    hide Decoder.Valid, Next, ReadOnes, ReadPattern, Pow2;
    Pow2Masks();
    var bit := dec.Decode(DcBin(tbl, i));
    if bit == 0 {
      return true, 0, 0;
    }
    var st;
    ghost var n;
    ok, m, st, n := DecodeOnes(dec, true, tbl, X1, 1, 0);
    if !ok {
      return false, 0, 0;
    }
    w := DecodePattern(dec, DcBin(tbl, st + 14), m, n);
  }

  method DecodeAcMagnitude(dec: Decoder, tbl: nat, i: nat, x2: nat) returns (ok: bool, m: nat, w: nat)
    requires dec.Valid() && i < 192 && x2 <= 217
    modifies dec
    ensures dec.Valid() && dec.data == old(dec.data) && dec.end == old(dec.end)
    ensures Magnitude(ok, m, w, dec.Reader()) == ReadAcMagnitude(old(dec.Reader()), tbl, i, x2)
  {
    hide Decoder.Valid, Next, ReadOnes, ReadPattern, Pow2;
    Pow2Masks();
    var bit := dec.Decode(AcBin(tbl, i));
    if bit == 0 {
      return true, 0, 0;
    }
    bit := dec.Decode(AcBin(tbl, i));
    if bit == 0 {
      return true, 1, 1;
    }
    var st;
    ghost var n;
    ok, m, st, n := DecodeOnes(dec, false, tbl, x2, 2, 1);
    if !ok {
      return false, 0, 0;
    }
    w := DecodePattern(dec, AcBin(tbl, st + 14), m, n);
  }

  /** A DC difference and the next conditioning category. */
  method DecodeDcDiff(dec: Decoder, q: Conditioning, ctx: nat) returns (ok: bool, v: int, ctx': nat)
    requires dec.Valid() && ctx <= 16
    modifies dec
    ensures dec.Valid() && dec.data == old(dec.data) && dec.end == old(dec.end)
    ensures DcRead(ok, v, ctx', dec.Reader()) == ReadDc(old(dec.Reader()), q, ctx) && ctx' <= 16
  {
    hide Decoder.Valid, Next, ReadDcMagnitude, Pow2;
    var bit := dec.Decode(DcBin(q.dcTbl, ctx));
    if bit == 0 {
      return true, 0, 0;
    }
    var sign := dec.Decode(DcBin(q.dcTbl, ctx + 1));
    var m, w;
    ok, m, w := DecodeDcMagnitude(dec, q.dcTbl, ctx + 2 + sign);
    if !ok {
      return false, 0, ctx;
    }
    if m < ShiftLeft(1, q.dcL) / 2 {
      ctx' := 0;
    } else if m > ShiftLeft(1, q.dcU) / 2 {
      ctx' := 12 + sign * 4;
    } else {
      ctx' := 4 + sign * 4;
    }
    v := w + 1;
    if sign == 1 {
      v := -v;
    }
  }

  /** Skips zero coefficients; fails on running past the band. */
  method SeekAc(dec: Decoder, q: Conditioning, k0: nat, se: nat, al: nat, ghost z: Block) returns (ok: bool, k: nat)
    requires dec.Valid() && k0 < se < 64
    modifies dec
    ensures dec.Valid() && dec.data == old(dec.data) && dec.end == old(dec.end)
    ensures ok ==> k0 < k <= se
                   && ReadAcSeek(old(dec.Reader()), q, z, k0, se, al) == ReadAcValue(dec.Reader(), q, z, k - 1, se, al)
    ensures !ok ==> ReadAcSeek(old(dec.Reader()), q, z, k0, se, al) == BlockRead(false, z, dec.Reader())
  {
    hide Decoder.Valid, Next, ReadAcValue;
    var st := 3 * k0;
    k := k0;
    while true
      invariant dec.Valid() && dec.data == old(dec.data) && dec.end == old(dec.end)
      invariant k0 <= k < se && st == 3 * k
      invariant ReadAcSeek(old(dec.Reader()), q, z, k0, se, al) == ReadAcSeek(dec.Reader(), q, z, k, se, al)
      decreases se - k
    {
      k := k + 1;
      var found := dec.Decode(AcBin(q.acTbl, st + 1));
      if found == 1 {
        return true, k;
      }
      st := st + 3;
      if k >= se {
        return false, k;
      }
    }
  }

  /** Sign and magnitude of the coefficient at `k`, stored scaled. */
  method DecodeAcValue(dec: Decoder, q: Conditioning, block: array<int>, order: seq<nat>, k: nat, se: nat, al: nat)
    returns (ok: bool)
    requires dec.Valid() && block.Length == 64 && ValidOrder(order) && 1 <= k <= se < 64
    modifies dec, block
    ensures dec.Valid() && dec.data == old(dec.data) && dec.end == old(dec.end)
    ensures var r := ReadAcValue(old(dec.Reader()), q, old(Zigzag(block[..], order)), k - 1, se, al);
            var z := Zigzag(block[..], order);
            if ok then r == ReadAcFrom(dec.Reader(), q, z, k, se, al) else r == BlockRead(false, z, dec.Reader())
  {
    hide Decoder.Valid, Next, ReadAcMagnitude, ReadAcFrom, Pow2;
    var sign := dec.Decode(FixedBin);
    var m, w;
    ok, m, w := DecodeAcMagnitude(dec, q.acTbl, 3 * (k - 1) + 2, if k <= q.acK then 189 else 217);
    if !ok {
      return;
    }
    var v: int := w + 1;
    if sign == 1 {
      v := -v;
    }
    ZigzagUpdate(block[..], order, k, ToCoef(v * Pow2(al)));
    ghost var was := block[..];
    block[order[k]] := ToCoef(v * Pow2(al));
    assert block[..] == was[order[k] := ToCoef(v * Pow2(al))];
  }

  /** First pass over a band of AC coefficients. */
  method DecodeBand(dec: Decoder, q: Conditioning, block: array<int>, order: seq<nat>, ss: nat, se: nat, al: nat)
    returns (ok: bool)
    requires dec.Valid() && block.Length == 64 && ValidOrder(order) && 1 <= ss && se < 64
    modifies dec, block
    ensures dec.Valid() && dec.data == old(dec.data) && dec.end == old(dec.end)
    ensures BlockRead(ok, Zigzag(block[..], order), dec.Reader())
            == ReadAcFrom(old(dec.Reader()), q, old(Zigzag(block[..], order)), ss - 1, se, al)
  {
    hide Decoder.Valid, Next, ReadAcSeek, ReadAcValue, Zigzag;
    ghost var r := ReadAcFrom(dec.Reader(), q, Zigzag(block[..], order), ss - 1, se, al);
    var k := ss - 1;
    while k < se
      invariant dec.Valid() && dec.data == old(dec.data) && dec.end == old(dec.end)
      invariant r == ReadAcFrom(dec.Reader(), q, Zigzag(block[..], order), k, se, al)
      decreases se - k
    {
      var eob := dec.Decode(AcBin(q.acTbl, 3 * k));
      if eob == 1 {
        return true;
      }
      ok, k := SeekAc(dec, q, k, se, al, Zigzag(block[..], order));
      if !ok {
        return;
      }
      ok := DecodeAcValue(dec, q, block, order, k, se, al);
      if !ok {
        return;
      }
    }
    ok := true;
  }

  /** Refinement: reads on to the next coefficient that is, or becomes, nonzero, and gives its new value. */
  method RefineValue(dec: Decoder, q: Conditioning, block: array<int>, order: seq<nat>,
                     k0: nat, ghost kex: nat, se: nat, al: nat) returns (ok: bool, k: nat, v: int)
    requires dec.Valid() && block.Length == 64 && ValidOrder(order) && k0 < se < 64
    modifies dec
    ensures dec.Valid() && dec.data == old(dec.data) && dec.end == old(dec.end)
    ensures k0 < k <= se
    ensures var z := Zigzag(block[..], order);
            var r := ReadRefineSeek(old(dec.Reader()), q, z, k0, kex, se, al);
            if ok then r == ReadRefineFrom(dec.Reader(), q, z[k := v], k, kex, se, al)
            else r == BlockRead(false, z, dec.Reader())
  {
    hide Decoder.Valid, Next, ReadRefineFrom, Pow2;
    ghost var z := Zigzag(block[..], order);
    ghost var r := ReadRefineSeek(dec.Reader(), q, z, k0, kex, se, al);
    var p1 := ShiftLeft(1, al);
    var st := 3 * k0;
    k := k0;
    while true
      invariant dec.Valid() && dec.data == old(dec.data) && dec.end == old(dec.end)
      invariant k0 <= k < se && st == 3 * k
      invariant r == ReadRefineSeek(dec.Reader(), q, z, k, kex, se, al)
      decreases se - k
    {
      k := k + 1;
      var c := block[order[k]];
      if c != 0 {
        var bit := dec.Decode(AcBin(q.acTbl, st + 2));
        return true, k, if bit == 0 then c else if c < 0 then ToCoef(c - p1) else ToCoef(c + p1);
      }
      var found := dec.Decode(AcBin(q.acTbl, st + 1));
      if found == 1 {
        var sign := dec.Decode(FixedBin);
        return true, k, ToCoef(Signed(sign, p1));
      }
      st := st + 3;
      if k >= se {
        return false, k, 0;
      }
    }
  }

  method StoreCoef(block: array<int>, order: seq<nat>, k: nat, v: int)
    requires block.Length == 64 && ValidOrder(order) && k < 64
    modifies block
    ensures Zigzag(block[..], order) == old(Zigzag(block[..], order))[k := v]
  {
    ZigzagUpdate(block[..], order, k, v);
    ghost var was := block[..];
    block[order[k]] := v;
    assert block[..] == was[order[k] := v];
  }

  /** Refinement of a band by one bit. */
  method DecodeRefinement(dec: Decoder, q: Conditioning, block: array<int>, order: seq<nat>, ss: nat, se: nat, al: nat)
    returns (ok: bool)
    requires dec.Valid() && block.Length == 64 && ValidOrder(order) && 1 <= ss && se < 64
    modifies dec, block
    ensures dec.Valid() && dec.data == old(dec.data) && dec.end == old(dec.end)
    ensures var z0 := old(Zigzag(block[..], order));
            BlockRead(ok, Zigzag(block[..], order), dec.Reader())
            == ReadRefineFrom(old(dec.Reader()), q, z0, ss - 1, EobIndex(z0, se, 0), se, al)
  {
    hide Decoder.Valid, Next, ReadRefineSeek, Zigzag, EobIndex;
    var kex := FindEob(block, order, se, 0);
    ghost var r := ReadRefineFrom(dec.Reader(), q, Zigzag(block[..], order), ss - 1, kex, se, al);
    var k := ss - 1;
    while k < se
      invariant dec.Valid() && dec.data == old(dec.data) && dec.end == old(dec.end)
      invariant r == ReadRefineFrom(dec.Reader(), q, Zigzag(block[..], order), k, kex, se, al)
      decreases se - k
    {
      if k >= kex {
        var eob := dec.Decode(AcBin(q.acTbl, 3 * k));
        if eob == 1 {
          return true;
        }
      }
      var v;
      ok, k, v := RefineValue(dec, q, block, order, k, kex, se, al);
      if !ok {
        return;
      }
      StoreCoef(block, order, k, v);
    }
    ok := true;
  }

  /** The arithmetic entropy decoder of a scan. */
  class EntropyDecoder {
    const c: Scan
    const order: seq<nat>   // natural order of the coefficients
    const dec: Decoder
    var lastDc: seq<int>
    var dcContext: seq<nat>
    var restartsToGo: nat
    var nextRestartNum: nat
    var failed: bool        // set on bad data, until the next restart

    ghost predicate Valid()
      reads this, dec
    {
      && dec.Valid() && dec.table == c.t && ValidOrder(order)
      && ValidPrediction(Prediction(lastDc, dcContext), |c.qs|) && nextRestartNum < 8
    }

    ghost function State(): DecoderState
      reads this, dec
      requires Valid()
    {
      DecoderState(dec.data, dec.end, dec.State(), Prediction(lastDc, dcContext),
                   restartsToGo, nextRestartNum, failed)
    }

    /** Starts a scan whose data begin at `pos`. */
    constructor (c: Scan, order: seq<nat>, stats: Statistics, input: seq<byte>, pos: nat)
      requires ValidOrder(order) && pos <= |input|
      ensures Valid() && fresh(dec) && this.c == c && this.order == order && dec.input == input
      ensures State() == StartDecode(c, input, pos, stats)
    {
      this.c, this.order := c, order;
      dec := new Decoder(c.t, input, pos, ResetStats(c, stats));
      lastDc, dcContext := seq(|c.qs|, i => 0), seq(|c.qs|, i => 0);
      restartsToGo, nextRestartNum, failed := c.interval, 0, false;
    }

    lemma Ready()
      requires Valid()
      ensures DecoderReady(c, dec.input, State())
    {
      hide Decoder.Valid;
      dec.EndReady();
    }

    method ProcessRestart()
      requires Valid()
      modifies this, dec
      ensures Valid() && DecoderReady(c, dec.input, old(State()))
      ensures State() == DecodeRestart(c, dec.input, old(State()))
    {
      hide Decoder.Valid, ReadRestart, Remaining, EndMarker, ResetStats;
      Ready();
      dec.NextSegment(nextRestartNum, ResetStats(c, dec.stats));
      lastDc, dcContext := seq(|c.qs|, i => 0), seq(|c.qs|, i => 0);
      restartsToGo, failed := c.interval, false;
      nextRestartNum := (nextRestartNum + 1) % 8;
    }

    /** Processes a restart marker if one is due, and counts the MCU. */
    method PrepareMcu()
      requires Valid()
      modifies this, dec
      ensures Valid() && DecoderReady(c, dec.input, old(State()))
      ensures State() == BeforeRead(c, dec.input, old(State()))
    {
      hide Decoder.Valid, ReadRestart, Remaining, EndMarker, ResetStats;
      Ready();
      if c.interval > 0 {
        if restartsToGo == 0 {
          ProcessRestart();
        }
        restartsToGo := restartsToGo - 1;
      }
    }

    /** Reads a DC difference and updates the prediction. */
    method DecodeDc(ci: nat) returns (ok: bool)
      requires Valid() && ci < |c.qs|
      modifies this`lastDc, this`dcContext, dec
      ensures Valid() && dec.data == old(dec.data) && dec.end == old(dec.end)
      ensures DcStepRead(ok, Prediction(lastDc, dcContext), dec.Reader())
              == ReadDcStep(old(dec.Reader()), c.qs, old(Prediction(lastDc, dcContext)), ci)
    {
      hide Decoder.Valid, ReadDc;
      var v, ctx';
      ok, v, ctx' := DecodeDcDiff(dec, c.qs[ci], dcContext[ci]);
      if ok {
        dcContext := dcContext[ci := ctx'];
        lastDc := lastDc[ci := lastDc[ci] + v];
      }
    }

    /** Reads one block in place by the procedure of the scan. */
    method DecodeBlock(block: array<int>, ci: nat) returns (ok: bool)
      requires Valid() && ci < |c.qs| && block.Length == 64
      modifies this`lastDc, this`dcContext, dec, block
      ensures Valid() && dec.data == old(dec.data) && dec.end == old(dec.end)
      ensures McuRead(ok, Prediction(lastDc, dcContext), [McuBlock(ci, Zigzag(block[..], order))], dec.Reader())
              == ReadBlock(c.kind, c.qs, old(Prediction(lastDc, dcContext)),
                           McuBlock(ci, old(Zigzag(block[..], order))), old(dec.Reader()))
    {
      hide Decoder.Valid, ReadDcStep, ReadAcFrom, ReadRefineFrom, Next, Pow2, EobIndex, SetBit;
      var q := c.qs[ci];
      ok := true;
      match c.kind
      case Sequential(limSe) =>
        ok := DecodeDc(ci);
        if ok {
          StoreCoef(block, order, 0, ToCoef(lastDc[ci]));
          if limSe > 0 {
            ok := DecodeBand(dec, q, block, order, 1, limSe, 0);
          } else {
            NoBandRead(dec.Reader(), q, Zigzag(block[..], order));
          }
        }
      case DcFirst(al) =>
        ok := DecodeDc(ci);
        if ok {
          StoreCoef(block, order, 0, ToCoef(lastDc[ci] * Pow2(al)));
        }
      case AcFirst(ss, se, al) => ok := DecodeBand(dec, q, block, order, ss, se, al);
      case DcRefine(al) =>
        var bit := dec.Decode(FixedBin);
        if bit == 1 {
          StoreCoef(block, order, 0, SetBit(block[order[0]], al));
        }
      case AcRefine(ss, se, al) => ok := DecodeRefinement(dec, q, block, order, ss, se, al);
    }

    /** Reads block `i` of an MCU; the others stay as they are. */
    method DecodeBlockAt(blocks: seq<array<int>>, membership: seq<nat>, i: nat) returns (ok: bool)
      requires Valid() && i < |blocks| == |membership|
      requires forall i :: 0 <= i < |blocks| ==> blocks[i].Length == 64 && membership[i] < |c.qs|
      requires forall i, j :: 0 <= i < j < |blocks| ==> blocks[i] != blocks[j]
      modifies this`lastDc, this`dcContext, dec, blocks[i]
      ensures Valid() && dec.data == old(dec.data) && dec.end == old(dec.end)
      ensures var bs, bs' := old(McuOf(blocks, membership, order)), McuOf(blocks, membership, order);
              && bs' == bs[i := bs'[i]]
              && McuRead(ok, Prediction(lastDc, dcContext), [bs'[i]], dec.Reader())
                 == ReadBlock(c.kind, c.qs, old(Prediction(lastDc, dcContext)), bs[i], old(dec.Reader()))
    {
      hide Decoder.Valid, ReadBlock, Zigzag;
      ok := DecodeBlock(blocks[i], membership[i]);
    }

    /** Reads blocks in a row, stopping at the first that fails. */
    method DecodeBlocks(blocks: seq<array<int>>, membership: seq<nat>) returns (ok: bool)
      requires Valid() && |blocks| == |membership|
      requires forall i :: 0 <= i < |blocks| ==> blocks[i].Length == 64 && membership[i] < |c.qs|
      requires forall i, j :: 0 <= i < j < |blocks| ==> blocks[i] != blocks[j]
      modifies this`lastDc, this`dcContext, dec, blocks
      ensures Valid() && dec.data == old(dec.data) && dec.end == old(dec.end)
      ensures McuRead(ok, Prediction(lastDc, dcContext), McuOf(blocks, membership, order), dec.Reader())
              == ReadBlocks(c.kind, c.qs, old(Prediction(lastDc, dcContext)),
                            old(McuOf(blocks, membership, order)), old(dec.Reader()))
    {
      hide Decoder.Valid, ReadBlock, ReadBlocks, Zigzag, McuOf, Rest;
      ghost var bs := McuOf(blocks, membership, order);
      ghost var r := ReadBlocks(c.kind, c.qs, Prediction(lastDc, dcContext), bs, dec.Reader());
      RestAll(c.kind, c.qs, Prediction(lastDc, dcContext), bs, dec.Reader());
      var i := 0;
      while i < |blocks|
        invariant 0 <= i <= |blocks| && Valid() && dec.data == old(dec.data) && dec.end == old(dec.end)
        invariant McuOf(blocks, membership, order)[i..] == bs[i..]
        invariant Rest(c.kind, c.qs, Prediction(lastDc, dcContext), bs, i, dec.Reader(),
                       McuOf(blocks, membership, order)[..i], r)
      {
        ghost var before, dc, s := McuOf(blocks, membership, order), Prediction(lastDc, dcContext), dec.Reader();
        ok := DecodeBlockAt(blocks, membership, i);
        RestMove(c.kind, c.qs, dc, bs, i, s, before, McuOf(blocks, membership, order), r);
        if !ok {
          return;
        }
        i := i + 1;
      }
      ok := true;
      RestNone(c.kind, c.qs, Prediction(lastDc, dcContext), bs, dec.Reader(), McuOf(blocks, membership, order), r);
    }

    /** Reads an MCU in place, passing a restart marker if one is due. */
    method DecodeMcu(blocks: seq<array<int>>, membership: seq<nat>)
      requires Valid() && |blocks| == |membership|
      requires forall i :: 0 <= i < |blocks| ==> blocks[i].Length == 64 && membership[i] < |c.qs|
      requires forall i, j :: 0 <= i < j < |blocks| ==> blocks[i] != blocks[j]
      modifies this, dec, blocks
      ensures Valid() && DecoderReady(c, dec.input, old(State()))
      ensures (State(), McuOf(blocks, membership, order))
              == ScanStream.DecodeMcu(c, dec.input, old(State()), old(McuOf(blocks, membership, order)))
    {
      hide Decoder.Valid, ReadBlocks, Zigzag, BeforeRead;
      PrepareMcu();
      if !failed {
        var ok := DecodeBlocks(blocks, membership);
        failed := !ok;
      }
    }
  }

  /** `r` is what has been read of `bs` so far, followed by what reading from block `i` on gives. */
  ghost predicate Rest(kind: Kind, qs: seq<Conditioning>, dc: Prediction, bs: seq<McuBlock>, i: nat, s: Stream,
                       done: seq<McuBlock>, r: McuRead)
    requires ValidKind(kind) && ValidPrediction(dc, |qs|) && ValidMcu(bs, |qs|) && i <= |bs|
  {
    var t := ReadBlocks(kind, qs, dc, bs[i..], s);
    r == McuRead(t.ok, t.dc, done + t.bs, t.s)
  }

  lemma RestStep(kind: Kind, qs: seq<Conditioning>, dc: Prediction, bs: seq<McuBlock>, i: nat, s: Stream,
                 done: seq<McuBlock>, r: McuRead)
    requires ValidKind(kind) && ValidPrediction(dc, |qs|) && ValidMcu(bs, |qs|) && i < |bs|
    requires Rest(kind, qs, dc, bs, i, s, done, r)
    ensures var q := ReadBlock(kind, qs, dc, bs[i], s);
            if q.ok then Rest(kind, qs, q.dc, bs, i + 1, q.s, done + q.bs, r)
            else r == McuRead(false, q.dc, done + q.bs + bs[i + 1..], q.s)
  {
    hide ReadBlock;
    assert bs[i..][0] == bs[i] && bs[i..][1..] == bs[i + 1..];
    var q := ReadBlock(kind, qs, dc, bs[i], s);
    if q.ok {
      SeqAssoc(done, q.bs, ReadBlocks(kind, qs, q.dc, bs[i + 1..], q.s).bs);
    } else {
      SeqAssoc(done, q.bs, bs[i + 1..]);
    }
  }

  lemma RestMove(kind: Kind, qs: seq<Conditioning>, dc: Prediction, bs: seq<McuBlock>, i: nat, s: Stream,
                 before: seq<McuBlock>, after: seq<McuBlock>, r: McuRead)
    requires ValidKind(kind) && ValidPrediction(dc, |qs|) && ValidMcu(bs, |qs|)
    requires i < |bs| == |before| == |after| && before[i..] == bs[i..] && after == before[i := after[i]]
    requires Rest(kind, qs, dc, bs, i, s, before[..i], r)
    ensures before[i].ci < |qs| && after[i + 1..] == bs[i + 1..]
    ensures var q := ReadBlock(kind, qs, dc, before[i], s);
            q.bs == [after[i]] ==>
              if q.ok then Rest(kind, qs, q.dc, bs, i + 1, q.s, after[..i + 1], r)
              else r == McuRead(false, q.dc, after, q.s)
  {
    hide ReadBlock, Rest, ReadBlocks;
    assert before[i] == before[i..][0] == bs[i..][0] == bs[i];
    assert after[i + 1..] == before[i..][1..] == bs[i..][1..] == bs[i + 1..];
    RestStep(kind, qs, dc, bs, i, s, before[..i], r);
    assert after[..i + 1] == before[..i] + [after[i]];
    assert after == before[..i] + [after[i]] + bs[i + 1..];
  }

  lemma RestAll(kind: Kind, qs: seq<Conditioning>, dc: Prediction, bs: seq<McuBlock>, s: Stream)
    requires ValidKind(kind) && ValidPrediction(dc, |qs|) && ValidMcu(bs, |qs|)
    ensures Rest(kind, qs, dc, bs, 0, s, bs[..0], ReadBlocks(kind, qs, dc, bs, s))
  {
    assert bs[0..] == bs;
    var t := ReadBlocks(kind, qs, dc, bs, s);
    assert bs[..0] + t.bs == t.bs;
  }

  lemma RestNone(kind: Kind, qs: seq<Conditioning>, dc: Prediction, bs: seq<McuBlock>, s: Stream,
                 done: seq<McuBlock>, r: McuRead)
    requires ValidKind(kind) && ValidPrediction(dc, |qs|) && ValidMcu(bs, |qs|) && |done| == |bs|
    requires Rest(kind, qs, dc, bs, |bs|, s, done[..|bs|], r)
    ensures r == McuRead(true, dc, done, s)
  {
    assert bs[|bs|..] == [] && done[..|bs|] == done;
  }

  lemma NoBandRead(s: Stream, q: Conditioning, z: Block)
    ensures ReadAcFrom(s, q, z, 0, 0, 0) == BlockRead(true, z, s)
  {
  }
}
