/**
 What restarts are for: each segment of an arithmetic-coded scan is coded on its own,
 whatever came before it in the scan or in the file.
 */
module RestartSegments {
  import opened Bytes
  import opened ProbabilityTable
  import opened CodingInterval
  import opened Termination
  import opened SegmentSource
  import opened MagnitudeModel
  import opened BlockModel
  import opened ScanModel
  import opened ScanStream

  // ----- the bins that a scan uses are those that it clears

  /** Only bins of one kind of area of one table, or the fixed bin. */
  predicate From(es: seq<Decision>, dc: bool, tbl: nat) {
    forall i :: 0 <= i < |es| ==>
      match es[i].bin
      case DcBin(t, _) => dc && t == tbl
      case AcBin(t, _) => !dc && t == tbl
      case FixedBin => true
  }

  lemma {:induction false} OnesFrom(dc: bool, tbl: nat, i: nat, n: nat)
    ensures From(Ones(dc, tbl, i, n), dc, tbl)
    decreases n
  {
    if n > 0 {
      OnesFrom(dc, tbl, i + 1, n - 1);
    }
  }

  lemma {:induction false} PatternFrom(dc: bool, tbl: nat, i: nat, w: nat, n: nat)
    ensures From(Pattern(Area(dc, tbl, i), w, n), dc, tbl)
    decreases n
  {
    hide Pow2;
    if n > 0 {
      PatternFrom(dc, tbl, i, w, n - 1);
    }
  }

  lemma DcFrom(q: Conditioning, ctx: nat, v: int)
    ensures From(DcDecisions(q, ctx, v), true, q.dcTbl)
  {
    if v != 0 && Abs(v) > 1 {
      var n := Log2(Abs(v) - 1);
      OnesFrom(true, q.dcTbl, X1, n);
      PatternFrom(true, q.dcTbl, X1 + n + 14, Abs(v) - 1, n);
    }
    hide Ones, Pattern, Log2;
  }

  lemma AcMagnitudeFrom(tbl: nat, i: nat, x2: nat, w: nat)
    ensures From(AcMagnitude(tbl, i, x2, w), false, tbl)
  {
    if w > 1 {
      var n := Log2(w);
      OnesFrom(false, tbl, x2, n - 1);
      PatternFrom(false, tbl, x2 + n - 1 + 14, w, n);
    }
    hide Ones, Pattern, Log2;
  }

  lemma {:induction false} BandFrom(q: Conditioning, z: Block, k: nat, ke: nat, se: nat, al: nat)
    requires ke <= se < 64 && (k < ke ==> Mag(z[ke], al) > 0)
    ensures From(AcFrom(q, z, k, ke, se, al), false, q.acTbl)
    decreases ke - k, 1
  {
    hide Mag, AcSeek;
    if k < ke {
      SeekFrom(q, z, k, ke, se, al);
    }
  }

  lemma {:induction false} SeekFrom(q: Conditioning, z: Block, k: nat, ke: nat, se: nat, al: nat)
    requires k < ke <= se < 64 && Mag(z[ke], al) > 0
    ensures From(AcSeek(q, z, k, ke, se, al), false, q.acTbl)
    decreases ke - k, 0
  {
    hide Mag, AcFrom, AcMagnitude;
    var m := Mag(z[k + 1], al);
    if m == 0 {
      SeekFrom(q, z, k + 1, ke, se, al);
    } else {
      AcMagnitudeFrom(q.acTbl, 3 * k + 2, X2(q, k + 1), m - 1);
      BandFrom(q, z, k + 1, ke, se, al);
    }
  }

  lemma {:induction false} RefineFromTables(q: Conditioning, z: Block, k: nat, ke: nat, kex: nat, se: nat, al: nat)
    requires ke <= se < 64 && (k < ke ==> Mag(z[ke], al) > 0)
    ensures From(RefineFrom(q, z, k, ke, kex, se, al), false, q.acTbl)
    decreases ke - k, 1
  {
    hide Mag, RefineSeek;
    if k < ke {
      RefineSeekFrom(q, z, k, ke, kex, se, al);
    }
  }

  lemma {:induction false} RefineSeekFrom(q: Conditioning, z: Block, k: nat, ke: nat, kex: nat, se: nat, al: nat)
    requires k < ke <= se < 64 && Mag(z[ke], al) > 0
    ensures From(RefineSeek(q, z, k, ke, kex, se, al), false, q.acTbl)
    decreases ke - k, 0
  {
    hide Mag, RefineFrom;
    if Mag(z[k + 1], al) == 0 {
      RefineSeekFrom(q, z, k + 1, ke, kex, se, al);
    } else {
      RefineFromTables(q, z, k + 1, ke, kex, se, al);
    }
  }

  /** A bin that the scan clears, or the fixed one. */
  predicate Own(c: Scan, b: Bin) {
    b == FixedBin || Cleared(c.kind, c.qs, b)
  }

  predicate AllOwn(c: Scan, es: seq<Decision>) {
    forall i :: 0 <= i < |es| ==> Own(c, es[i].bin)
  }

  lemma FromOwn(c: Scan, es: seq<Decision>, dc: bool, ci: nat)
    requires ci < |c.qs| && From(es, dc, if dc then c.qs[ci].dcTbl else c.qs[ci].acTbl)
    requires if dc then c.kind.Sequential? || c.kind.DcFirst?
             else (c.kind.Sequential? && c.kind.limSe > 0) || c.kind.AcFirst? || c.kind.AcRefine?
    ensures AllOwn(c, es)
  {
  }

  lemma OwnJoin(c: Scan, a: seq<Decision>, b: seq<Decision>)
    requires AllOwn(c, a) && AllOwn(c, b)
    ensures AllOwn(c, a + b)
  {
    hide Own;
  }

  /** A block is coded with bins that the scan clears. */
  lemma BlockOwn(c: Scan, dc: Prediction, b: McuBlock)
    requires ValidPrediction(dc, |c.qs|) && b.ci < |c.qs|
    ensures AllOwn(c, BlockDecisions(c.kind, c.qs, dc, b).0)
  {
    hide AllOwn, From, DcDecisions, AcFrom, RefineFrom, EobIndex, Mag, DcContextAfter, DcShift, BitAt;
    var q, z := c.qs[b.ci], b.z;
    match c.kind
    case Sequential(limSe) =>
      DcFrom(q, dc.ctx[b.ci], z[0] - dc.lastDc[b.ci]);
      FromOwn(c, DcDecisions(q, dc.ctx[b.ci], z[0] - dc.lastDc[b.ci]), true, b.ci);
      BandOwn(c, b, limSe);
      OwnJoin(c, DcDecisions(q, dc.ctx[b.ci], z[0] - dc.lastDc[b.ci]), BandDecisions(q, z, 1, limSe, 0));
    case DcFirst(al) =>
      DcFrom(q, dc.ctx[b.ci], DcShift(z[0], al) - dc.lastDc[b.ci]);
      FromOwn(c, DcDecisions(q, dc.ctx[b.ci], DcShift(z[0], al) - dc.lastDc[b.ci]), true, b.ci);
    case AcFirst(ss, se, al) =>
      BandFrom(q, z, ss - 1, EobIndex(z, se, al), se, al);
      FromOwn(c, AcFrom(q, z, ss - 1, EobIndex(z, se, al), se, al), false, b.ci);
    case DcRefine(al) =>
      FixedOwn(c, BitAt(z[0], al));
    case AcRefine(ss, se, al) =>
      var ke := EobIndex(z, se, al);
      RefineFromTables(q, z, ss - 1, ke, EobIndex(z, ke, al + 1), se, al);
      FromOwn(c, RefineFrom(q, z, ss - 1, ke, EobIndex(z, ke, al + 1), se, al), false, b.ci);
  }

  lemma FixedOwn(c: Scan, bit: nat)
    ensures AllOwn(c, [Decision(FixedBin, bit)])
  {
  }

  lemma BandOwn(c: Scan, b: McuBlock, limSe: nat)
    requires c.kind == Sequential(limSe) && b.ci < |c.qs|
    ensures AllOwn(c, BandDecisions(c.qs[b.ci], b.z, 1, limSe, 0))
  {
    hide From, Mag;
    var q, ke := c.qs[b.ci], EobIndex(b.z, limSe, 0);
    if limSe > 0 {
      BandFrom(q, b.z, 0, ke, limSe, 0);
      FromOwn(c, AcFrom(q, b.z, 0, ke, limSe, 0), false, b.ci);
    }
  }

  lemma {:induction false} BlocksOwn(c: Scan, dc: Prediction, bs: seq<McuBlock>)
    requires ValidPrediction(dc, |c.qs|) && ValidMcu(bs, |c.qs|)
    ensures AllOwn(c, BlocksDecisions(c.kind, c.qs, dc, bs).0)
    decreases |bs|
  {
    hide AllOwn, BlockDecisions;
    if bs == [] {
      assert AllOwn(c, []) by { NoneOwn(c); }
    } else {
      BlockOwn(c, dc, bs[0]);
      var (es, dc1) := BlockDecisions(c.kind, c.qs, dc, bs[0]);
      BlocksOwn(c, dc1, bs[1..]);
      OwnJoin(c, es, BlocksDecisions(c.kind, c.qs, dc1, bs[1..]).0);
    }
  }

  lemma NoneOwn(c: Scan)
    ensures AllOwn(c, [])
  {
  }

  // ----- coding depends on those bins only

  /** The same interval, and the same states of the scan's own bins. */
  ghost predicate Alike(c: Scan, x: Context, y: Context) {
    x.iv == y.iv && forall b :: Own(c, b) ==> StateOf(x.stats, b) == StateOf(y.stats, b)
  }

  lemma CodeAlike(c: Scan, x: Context, y: Context, e: Decision)
    requires Normal(x.iv) && Alike(c, x, y) && Own(c, e.bin)
    ensures Alike(c, Code(c.t, x, e), Code(c.t, y, e))
  {
    hide Renormalize, Select, Estimate, Own;
    forall b | Own(c, b) && b != e.bin
      ensures StateOf(Code(c.t, x, e).stats, b) == StateOf(x.stats, b)
      ensures StateOf(Code(c.t, y, e).stats, b) == StateOf(y.stats, b)
    {
    }
  }

  lemma {:induction false} CodeAllAlike(c: Scan, x: Context, y: Context, es: seq<Decision>)
    requires Normal(x.iv) && Alike(c, x, y) && AllOwn(c, es)
    ensures Alike(c, CodeAll(c.t, x, es), CodeAll(c.t, y, es))
    decreases |es|
  {
    hide Alike, Own, Code;
    if es != [] {
      AlikeNormal(c, x, y);
      CodeAlike(c, x, y, es[0]);
      CodeAllAlike(c, Code(c.t, x, es[0]), Code(c.t, y, es[0]), es[1..]);
    }
  }

  lemma AlikeNormal(c: Scan, x: Context, y: Context)
    requires Alike(c, x, y)
    ensures x.iv == y.iv
  {
  }

  /** The fixed bin's row of the table leads to itself. */
  predicate FixedRow(t: Table) {
    AfterLps(t, LAST_INDEX) == LAST_INDEX && AfterMps(t, LAST_INDEX) == LAST_INDEX
  }

  predicate FixedStill(s: Statistics) {
    StateOf(s, FixedBin) == LAST_INDEX
  }

  lemma {:induction false} FixedKept(t: Table, x: Context, es: seq<Decision>)
    requires Normal(x.iv) && FixedRow(t) && FixedStill(x.stats)
    ensures FixedStill(CodeAll(t, x, es).stats)
    decreases |es|
  {
    hide Renormalize, Select, Qe, AfterLps, AfterMps;
    if es != [] {
      FixedKept(t, Code(t, x, es[0]), es[1..]);
    }
  }

  lemma FreshAlike(c: Scan, stats: Statistics)
    requires FixedStill(stats)
    ensures Alike(c, Context(UNIT, ResetStats(c, stats)), Context(UNIT, map[])) && FixedStill(ResetStats(c, stats))
  {
  }

  // ----- segments

  function Flat(ms: seq<seq<McuBlock>>): seq<McuBlock>
    decreases |ms|
  {
    if ms == [] then [] else Flat(ms[..|ms| - 1]) + ms[|ms| - 1]
  }

  lemma {:induction false} FlatValid(c: Scan, ms: seq<seq<McuBlock>>)
    requires ScanStream.ValidMcus(c, ms)
    ensures ValidMcu(Flat(ms), |c.qs|)
    decreases |ms|
  {
    if ms != [] {
      FlatValid(c, ms[..|ms| - 1]);
    }
  }

  /** Some MCUs coded by themselves, from nothing. */
  function Alone(c: Scan, ms: seq<seq<McuBlock>>): (r: (Context, Prediction))
    requires ScanStream.ValidMcus(c, ms)
    ensures Normal(r.0.iv) && ValidPrediction(r.1, |c.qs|)
  {
    FlatValid(c, ms);
    var (es, dc) := BlocksDecisions(c.kind, c.qs, NoPrediction(|c.qs|), Flat(ms));
    (CodeAll(c.t, Context(UNIT, map[]), es), dc)
  }

  function AloneBytes(c: Scan, ms: seq<seq<McuBlock>>): seq<byte>
    requires ScanStream.ValidMcus(c, ms)
  {
    Stuff(SegmentFor(Alone(c, ms).0.iv))
  }

  /** MCUs of which `chunk` is in the current segment already: segments coded alone, with markers between. */
  function Separate(c: Scan, chunk: seq<seq<McuBlock>>, ms: seq<seq<McuBlock>>, toGo: nat, num: nat): seq<byte>
    requires ScanStream.ValidMcus(c, chunk) && ScanStream.ValidMcus(c, ms) && num < 8
    decreases |ms|
  {
    if ms == [] then AloneBytes(c, chunk)
    else if c.interval == 0 then Separate(c, chunk + [ms[0]], ms[1..], toGo, num)
    else if toGo > 0 then Separate(c, chunk + [ms[0]], ms[1..], toGo - 1, num)
    else AloneBytes(c, chunk) + [0xFF, RST0 + num] + Separate(c, [ms[0]], ms[1..], c.interval - 1, (num + 1) % 8)
  }

  /** The coder is where it would be if the current segment were all there is. */
  ghost predicate AsAlone(c: Scan, e: EncoderState, chunk: seq<seq<McuBlock>>)
    requires ScanStream.ValidMcus(c, chunk)
  {
    && EncoderReady(c, e) && FixedStill(e.x.stats)
    && Alike(c, e.x, Alone(c, chunk).0) && e.dc == Alone(c, chunk).1
  }

  lemma FlatMore(ms: seq<seq<McuBlock>>, m: seq<McuBlock>)
    ensures Flat(ms + [m]) == Flat(ms) + m
  {
    assert (ms + [m])[..|ms|] == ms;
  }

  lemma MoreAlone(c: Scan, e: EncoderState, chunk: seq<seq<McuBlock>>, bs: seq<McuBlock>)
    requires ScanStream.ValidMcus(c, chunk) && AsAlone(c, e, chunk) && ValidMcu(bs, |c.qs|) && FixedRow(c.t)
    ensures ScanStream.ValidMcus(c, chunk + [bs])
    ensures var (es, dc') := BlocksDecisions(c.kind, c.qs, e.dc, bs);
            AsAlone(c, e.(x := CodeAll(c.t, e.x, es), dc := dc'), chunk + [bs])
  {
    hide Alike, CodeAll, BlocksDecisions, FixedRow, FixedStill, AllOwn, ValidMcu, Flat;
    FlatMore(chunk, bs);
    FlatValid(c, chunk);
    var (es, dc') := BlocksDecisions(c.kind, c.qs, e.dc, bs);
    BlocksDecisionsAppend(c.kind, c.qs, NoPrediction(|c.qs|), Flat(chunk), bs);
    CodeAllAppend(c.t, Context(UNIT, map[]), BlocksDecisions(c.kind, c.qs, NoPrediction(|c.qs|), Flat(chunk)).0, es);
    BlocksOwn(c, e.dc, bs);
    CodeAllAlike(c, e.x, Alone(c, chunk).0, es);
    FixedKept(c.t, e.x, es);
  }

  lemma {:induction false} EncodeSeparate(c: Scan, e: EncoderState, chunk: seq<seq<McuBlock>>, ms: seq<seq<McuBlock>>)
    requires ScanStream.ValidMcus(c, chunk) && ScanStream.ValidMcus(c, ms) && AsAlone(c, e, chunk) && FixedRow(c.t)
    ensures Written(EncodeMcus(c, e, ms)) == e.out + Separate(c, chunk, ms, e.toGo, e.num)
    decreases |ms|
  {
    hide Alike, CodeAll, BlocksDecisions, FixedRow, FixedStill, Stuff, SegmentFor, Alone;
    WrittenAlone(c, e, chunk);
    if ms != [] {
      var e1 := ScanStream.BeforeMcu(c, e);
      if c.interval > 0 && e.toGo == 0 {
        StartAlone(c, e);
        AloneFirst(ms[0]);
        MoreAlone(c, e1, [], ms[0]);
        EncodeSeparate(c, EncodeMcu(c, e, ms[0]), [ms[0]], ms[1..]);
        SeqAssoc(e.out + AloneBytes(c, chunk), [0xFF, RST0 + e.num],
                 Separate(c, [ms[0]], ms[1..], c.interval - 1, (e.num + 1) % 8));
        SeqAssoc(e.out, AloneBytes(c, chunk), [0xFF, RST0 + e.num]);
        SeqAssoc(e.out, AloneBytes(c, chunk) + [0xFF, RST0 + e.num],
                 Separate(c, [ms[0]], ms[1..], c.interval - 1, (e.num + 1) % 8));
      } else {
        CountedAlone(c, e, chunk);
        MoreAlone(c, e1, chunk, ms[0]);
        EncodeSeparate(c, EncodeMcu(c, e, ms[0]), chunk + [ms[0]], ms[1..]);
      }
    }
  }

  lemma AloneFirst(m: seq<McuBlock>)
    ensures [] + [m] == [m]
  {
  }

  lemma WrittenAlone(c: Scan, e: EncoderState, chunk: seq<seq<McuBlock>>)
    requires ScanStream.ValidMcus(c, chunk) && AsAlone(c, e, chunk)
    ensures Written(e) == e.out + AloneBytes(c, chunk)
  {
  }

  lemma CountedAlone(c: Scan, e: EncoderState, chunk: seq<seq<McuBlock>>)
    requires ScanStream.ValidMcus(c, chunk) && AsAlone(c, e, chunk) && !(c.interval > 0 && e.toGo == 0)
    ensures AsAlone(c, ScanStream.BeforeMcu(c, e), chunk)
  {
    hide Alike, Alone;
  }

  /** A restart forgets everything. */
  lemma StartAlone(c: Scan, e: EncoderState)
    requires EncoderReady(c, e) && FixedStill(e.x.stats) && c.interval > 0 && e.toGo == 0
    ensures ScanStream.ValidMcus(c, []) && AsAlone(c, ScanStream.BeforeMcu(c, e), [])
  {
    FreshAlike(c, e.x.stats);
    hide Alike, FixedStill;
  }

  /**
   The bytes of a scan are those of its segments, each coded by itself from nothing,
   with the restart markers between them: no segment depends on an earlier one, nor on
   what the statistics were before the scan.
   */
  lemma SegmentsAlone(c: Scan, stats: Statistics, ms: seq<seq<McuBlock>>)
    requires ScanStream.ValidMcus(c, ms) && FixedRow(c.t) && FixedStill(stats)
    ensures EncodeScan(c, stats, ms).0 == Separate(c, [], ms, c.interval, 0)
  {
    hide Alike, FixedStill, FixedRow, AsAlone, Separate, EncodeMcus, ScanStream.Written;
    ScanStartsAlone(c, stats);
    EncodeSeparate(c, StartEncode(c, [], stats), [], ms);
    NothingBefore(Separate(c, [], ms, c.interval, 0));
  }

  lemma NothingBefore(s: seq<byte>)
    ensures [] + s == s
  {
  }

  lemma ScanStartsAlone(c: Scan, stats: Statistics)
    requires FixedStill(stats)
    ensures ScanStream.ValidMcus(c, []) && AsAlone(c, StartEncode(c, [], stats), [])
  {
    FreshAlike(c, stats);
    hide Alike, FixedStill;
  }
}
