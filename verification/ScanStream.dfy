/**
 A whole arithmetic-coded scan as bytes: segments separated by restart markers,
 statistics and predictions reset at each, and the decoder's walk through them.
 */
module ScanStream {
  import opened Bytes
  import opened ProbabilityTable
  import opened CodingInterval
  import opened Termination
  import opened SegmentSource
  import opened DecisionStream
  import opened BlockModel
  import opened ScanModel

  datatype Config = Config(t: Table, kind: Kind, qs: seq<Conditioning>, interval: nat)

  type Scan = c: Config | ValidKind(c.kind)
    witness Config(seq(114, i => Row(1, 0, 0, 0)), DcRefine(0), [], 0)

  /** The statistics areas a scan clears when it starts and at each restart. */
  predicate Cleared(kind: Kind, qs: seq<Conditioning>, b: Bin) {
    match b
    case DcBin(table, _) => (kind.Sequential? || kind.DcFirst?) && exists i :: 0 <= i < |qs| && qs[i].dcTbl == table
    case AcBin(table, _) =>
      ((kind.Sequential? && kind.limSe > 0) || kind.AcFirst? || kind.AcRefine?)
      && exists i :: 0 <= i < |qs| && qs[i].acTbl == table
    case FixedBin => false
  }

  function ResetStats(c: Scan, stats: Statistics): Statistics {
    map b | b in stats && !Cleared(c.kind, c.qs, b) :: stats[b]
  }

  // ----- encoder

  /** `out` holds the finished segments; the current one is still a coding interval. */
  datatype EncoderState = EncoderState(out: seq<byte>, x: Context, dc: Prediction, toGo: nat, num: nat)

  predicate EncoderReady(c: Scan, e: EncoderState) {
    Normal(e.x.iv) && ValidPrediction(e.dc, |c.qs|) && e.num < 8
  }

  function StartEncode(c: Scan, out: seq<byte>, stats: Statistics): (e: EncoderState)
    ensures EncoderReady(c, e)
  {
    EncoderState(out, Context(UNIT, ResetStats(c, stats)), NoPrediction(|c.qs|), c.interval, 0)
  }

  /** The finished bytes of the current segment. */
  function Written(e: EncoderState): seq<byte>
    requires Normal(e.x.iv)
  {
    e.out + Stuff(SegmentFor(e.x.iv))
  }

  function EncodeRestart(c: Scan, e: EncoderState): (e': EncoderState)
    requires EncoderReady(c, e)
    ensures EncoderReady(c, e')
  {
    EncoderState(Written(e) + [0xFF, RST0 + e.num], Context(UNIT, ResetStats(c, e.x.stats)),
                 NoPrediction(|c.qs|), c.interval, (e.num + 1) % 8)
  }

  function RestartDue(c: Scan, toGo: nat): bool {
    c.interval > 0 && toGo == 0
  }

  /** Emits a restart marker if it is due, and counts the MCU. */
  function BeforeMcu(c: Scan, e: EncoderState): (e': EncoderState)
    requires EncoderReady(c, e)
    ensures EncoderReady(c, e')
  {
    var e1 := if RestartDue(c, e.toGo) then EncodeRestart(c, e) else e;
    if c.interval > 0 then e1.(toGo := e1.toGo - 1) else e1
  }

  function EncodeMcu(c: Scan, e: EncoderState, bs: seq<McuBlock>): (e': EncoderState)
    requires EncoderReady(c, e) && ValidMcu(bs, |c.qs|)
    ensures EncoderReady(c, e')
  {
    var e1 := BeforeMcu(c, e);
    var (es, dc') := BlocksDecisions(c.kind, c.qs, e1.dc, bs);
    e1.(x := CodeAll(c.t, e1.x, es), dc := dc')
  }

  predicate ValidMcus(c: Scan, ms: seq<seq<McuBlock>>) {
    forall i :: 0 <= i < |ms| ==> ValidMcu(ms[i], |c.qs|)
  }

  function EncodeMcus(c: Scan, e: EncoderState, ms: seq<seq<McuBlock>>): (e': EncoderState)
    requires EncoderReady(c, e) && ValidMcus(c, ms)
    ensures EncoderReady(c, e')
    decreases |ms|
  {
    if ms == [] then e else EncodeMcus(c, EncodeMcu(c, e, ms[0]), ms[1..])
  }

  // ----- decoder

  /** The data of the current segment, and the marker that ends it. */
  datatype DecoderState = DecoderState(d: seq<byte>, end: Cursor, x: Context, dc: Prediction,
                                       toGo: nat, num: nat, failed: bool)

  predicate DecoderReady(c: Scan, input: seq<byte>, s: DecoderState) {
    && Normal(s.x.iv) && ValidPrediction(s.dc, |c.qs|) && s.num < 8
    && ValidCursor(input, s.end) && s.end.unread != 0 && (s.end.unread != EOI ==> s.end.pos <= |input|)
  }

  /** A fresh segment read from a cursor. */
  function OpenSegment(c: Scan, input: seq<byte>, at: Cursor, stats: Statistics, num: nat): (s: DecoderState)
    requires ValidCursor(input, at) && num < 8 && (at.unread != 0 && at.unread != EOI ==> at.pos <= |input|)
    ensures DecoderReady(c, input, s)
  {
    DecoderState(Remaining(input, at), EndMarker(input, at), Context(UNIT, ResetStats(c, stats)),
                 NoPrediction(|c.qs|), c.interval, num, false)
  }

  function DecodeRestart(c: Scan, input: seq<byte>, s: DecoderState): (s': DecoderState)
    requires DecoderReady(c, input, s)
    ensures DecoderReady(c, input, s')
  {
    OpenSegment(c, input, ReadRestart(input, s.end, s.num), s.x.stats, (s.num + 1) % 8)
  }

  function BeforeRead(c: Scan, input: seq<byte>, s: DecoderState): (s': DecoderState)
    requires DecoderReady(c, input, s)
    ensures DecoderReady(c, input, s')
  {
    var s1 := if RestartDue(c, s.toGo) then DecodeRestart(c, input, s) else s;
    if c.interval > 0 then s1.(toGo := s1.toGo - 1) else s1
  }

  /** After a failure nothing is read until the next restart. */
  function DecodeMcu(c: Scan, input: seq<byte>, s: DecoderState, bs: seq<McuBlock>): (r: (DecoderState, seq<McuBlock>))
    requires DecoderReady(c, input, s) && ValidMcu(bs, |c.qs|)
    ensures DecoderReady(c, input, r.0) && |r.1| == |bs|
  {
    var s1 := BeforeRead(c, input, s);
    if s1.failed then (s1, bs) else
    var r := ReadBlocks(c.kind, c.qs, s1.dc, bs, StreamState(c.t, s1.d, s1.x));
    (s1.(x := r.s.x, dc := r.dc, failed := !r.ok), r.bs)
  }

  function DecodeMcus(c: Scan, input: seq<byte>, s: DecoderState, ms: seq<seq<McuBlock>>)
    : (r: (DecoderState, seq<seq<McuBlock>>))
    requires DecoderReady(c, input, s) && ValidMcus(c, ms)
    ensures DecoderReady(c, input, r.0) && |r.1| == |ms|
    decreases |ms|
  {
    if ms == [] then (s, []) else
    var (s1, bs) := DecodeMcu(c, input, s, ms[0]);
    var (s2, rest) := DecodeMcus(c, input, s1, ms[1..]);
    (s2, [bs] + rest)
  }

  // ----- round trip

  /** The context in which the current segment will end. */
  function SegmentEnd(c: Scan, e: EncoderState, ms: seq<seq<McuBlock>>): (x: Context)
    requires EncoderReady(c, e) && ValidMcus(c, ms)
    ensures Normal(x.iv)
    decreases |ms|
  {
    if ms == [] || RestartDue(c, e.toGo) then e.x else SegmentEnd(c, EncodeMcu(c, e, ms[0]), ms[1..])
  }

  /** Number of the marker that will end the current segment; `m` ends the scan. */
  function MarkerAfter(c: Scan, e: EncoderState, ms: seq<seq<McuBlock>>, m: byte): byte
    requires EncoderReady(c, e) && ValidMcus(c, ms)
    decreases |ms|
  {
    if ms == [] then m
    else if RestartDue(c, e.toGo) then RST0 + e.num
    else MarkerAfter(c, EncodeMcu(c, e, ms[0]), ms[1..], m)
  }

  lemma BeforeMcuKeeps(c: Scan, e: EncoderState)
    requires EncoderReady(c, e) && !RestartDue(c, e.toGo)
    ensures BeforeMcu(c, e).x == e.x && BeforeMcu(c, e).out == e.out
    ensures BeforeMcu(c, e).dc == e.dc && BeforeMcu(c, e).num == e.num
  {
  }

  lemma IsPrefixTrans(a: seq<byte>, b: seq<byte>, d: seq<byte>)
    requires a <= b && b <= d
    ensures a <= d
  {
  }

  /** The current segment and its marker are at the front of what is still to be written. */
  lemma {:induction false} SegmentFirst(c: Scan, e: EncoderState, ms: seq<seq<McuBlock>>, m: byte)
    requires EncoderReady(c, e) && ValidMcus(c, ms)
    ensures e.out + Stuff(SegmentFor(SegmentEnd(c, e, ms).iv)) + [0xFF, MarkerAfter(c, e, ms, m)]
            <= Written(EncodeMcus(c, e, ms)) + [0xFF, m]
    decreases |ms|
  {
    hide SegmentFor, Stuff, BlocksDecisions, CodeAll, ResetStats;
    if ms == [] {
    } else if RestartDue(c, e.toGo) {
      OutGrows(c, EncodeMcu(c, e, ms[0]), ms[1..]);
      assert EncodeRestart(c, e).out == Written(e) + [0xFF, RST0 + e.num];
      assert EncodeRestart(c, e).out <= EncodeMcus(c, e, ms).out <= Written(EncodeMcus(c, e, ms)) + [0xFF, m];
    } else {
      BeforeMcuKeeps(c, e);
      SegmentFirst(c, EncodeMcu(c, e, ms[0]), ms[1..], m);
    }
  }

  lemma {:induction false} OutGrows(c: Scan, e: EncoderState, ms: seq<seq<McuBlock>>)
    requires EncoderReady(c, e) && ValidMcus(c, ms)
    ensures e.out <= EncodeMcus(c, e, ms).out
    decreases |ms|
  {
    hide SegmentFor, Stuff, BlocksDecisions, CodeAll, ResetStats;
    if ms != [] {
      var e1 := EncodeMcu(c, e, ms[0]);
      OutGrows(c, e1, ms[1..]);
      IsPrefixTrans(e.out, e1.out, EncodeMcus(c, e, ms).out);
    }
  }

  predicate StandsAt(input: seq<byte>, base: nat, bytes: seq<byte>) {
    base + |bytes| <= |input| && input[base..base + |bytes|] == bytes
  }

  lemma PrefixStandsAt(input: seq<byte>, base: nat, a: seq<byte>, b: seq<byte>)
    requires StandsAt(input, base, b) && a <= b
    ensures StandsAt(input, base, a)
  {
    assert input[base..base + |a|] == input[base..base + |b|][..|a|];
  }

  /** Decoder and encoder are at the same point of the segment that starts after `e.out`. */
  predicate InSync(c: Scan, input: seq<byte>, base: nat, e: EncoderState, s: DecoderState) {
    && s.x == e.x && s.dc == e.dc && s.toGo == e.toGo && s.num == e.num && !s.failed
    && base + |e.out| <= |input|
    && s.d == DataBytes(input, base + |e.out|)
    && s.end == EndMarker(input, Cursor(base + |e.out|, 0))
  }

  /** The decoder's segment data and end marker are the encoder's. */
  lemma SegmentFound(c: Scan, input: seq<byte>, base: nat, e: EncoderState, ms: seq<seq<McuBlock>>, m: byte)
    requires EncoderReady(c, e) && ValidMcus(c, ms) && m != 0 && m != 0xFF
    requires StandsAt(input, base, Written(EncodeMcus(c, e, ms)) + [0xFF, m])
    ensures base + |e.out| <= |input|
    ensures var d := SegmentFor(SegmentEnd(c, e, ms).iv);
            && DataBytes(input, base + |e.out|) == d
            && EndMarker(input, Cursor(base + |e.out|, 0))
               == Cursor(base + |e.out| + |Stuff(d)| + 2, MarkerAfter(c, e, ms, m))
  {
    hide SegmentFor, Stuff, Written, EncodeMcus, SegmentEnd, DataBytes, NextMarker, MarkerAfter;
    var d, m' := SegmentFor(SegmentEnd(c, e, ms).iv), MarkerAfter(c, e, ms, m);
    SegmentFirst(c, e, ms, m);
    MarkerAfterValid(c, e, ms, m);
    var w := e.out + Stuff(d) + [0xFF, m'];
    PrefixStandsAt(input, base, w, Written(EncodeMcus(c, e, ms)) + [0xFF, m]);
    var p := base + |e.out|;
    var q := p + |Stuff(d)|;
    assert input[base..base + |w|] == w;
    assert input[p..q] == w[|e.out|..|e.out| + |Stuff(d)|];
    assert input[q] == w[|w| - 2] && input[q + 1] == w[|w| - 1];
    DataBytesOfStuffed(input, p, d, m');
  }

  lemma {:induction false} MarkerAfterValid(c: Scan, e: EncoderState, ms: seq<seq<McuBlock>>, m: byte)
    requires EncoderReady(c, e) && ValidMcus(c, ms) && m != 0 && m != 0xFF
    ensures MarkerAfter(c, e, ms, m) != 0 && MarkerAfter(c, e, ms, m) != 0xFF
    decreases |ms|
  {
    if ms != [] && !RestartDue(c, e.toGo) {
      MarkerAfterValid(c, EncodeMcu(c, e, ms[0]), ms[1..], m);
    }
  }

  /** A string in the segment's final interval is in its interval at every earlier point. */
  lemma {:induction false} SegmentEndNested(c: Scan, e: EncoderState, ms: seq<seq<McuBlock>>, d: seq<byte>)
    requires EncoderReady(c, e) && ValidMcus(c, ms) && Contains(SegmentEnd(c, e, ms).iv, d)
    ensures Contains(e.x.iv, d)
    decreases |ms|
  {
    hide Contains, BlocksDecisions;
    if ms != [] && !RestartDue(c, e.toGo) {
      BeforeMcuKeeps(c, e);
      SegmentEndNested(c, EncodeMcu(c, e, ms[0]), ms[1..], d);
      CodeAllNested(c.t, e.x, BlocksDecisions(c.kind, c.qs, e.dc, ms[0]).0, d);
    }
  }

  lemma {:induction false} SegmentEndWithin(c: Scan, e: EncoderState, ms: seq<seq<McuBlock>>)
    requires EncoderReady(c, e) && ValidMcus(c, ms) && WithinUnit(e.x.iv)
    ensures WithinUnit(SegmentEnd(c, e, ms).iv)
    decreases |ms|
  {
    hide WithinUnit, BlocksDecisions;
    if ms != [] && !RestartDue(c, e.toGo) {
      BeforeMcuKeeps(c, e);
      CodeAllWithin(c.t, e.x, BlocksDecisions(c.kind, c.qs, e.dc, ms[0]).0);
      SegmentEndWithin(c, EncodeMcu(c, e, ms[0]), ms[1..]);
    }
  }

  /** The data of the segment carries the decisions of the MCU coded next. */
  lemma SegmentCarriesMcu(c: Scan, e: EncoderState, bs: seq<McuBlock>, ms: seq<seq<McuBlock>>)
    requires EncoderReady(c, e) && ValidMcu(bs, |c.qs|) && ValidMcus(c, ms) && WithinUnit(e.x.iv)
    ensures var e1 := BeforeMcu(c, e);
            var d := SegmentFor(SegmentEnd(c, EncodeMcu(c, e, bs), ms).iv);
            && Carries(StreamState(c.t, d, e1.x), BlocksDecisions(c.kind, c.qs, e1.dc, bs).0)
            && WithinUnit(EncodeMcu(c, e, bs).x.iv)
  {
    hide WithinUnit, BlocksDecisions, Contains, SegmentFor, Terminator, Exactly;
    var e1, e2 := BeforeMcu(c, e), EncodeMcu(c, e, bs);
    assert WithinUnit(e1.x.iv) by { UnitWithin(); }
    CodeAllWithin(c.t, e1.x, BlocksDecisions(c.kind, c.qs, e1.dc, bs).0);
    SegmentEndWithin(c, e2, ms);
    var iv := SegmentEnd(c, e2, ms).iv;
    SegmentForExact(iv);
    ExactlyContained(iv, SegmentFor(iv));
    SegmentEndNested(c, e2, ms, SegmentFor(iv));
  }

  /** A restart keeps encoder and decoder at the same point. */
  lemma RestartInSync(c: Scan, input: seq<byte>, base: nat, e: EncoderState, s: DecoderState,
                      ms: seq<seq<McuBlock>>, m: byte)
    requires EncoderReady(c, e) && DecoderReady(c, input, s) && ValidMcus(c, ms) && ms != []
    requires m != 0 && m != 0xFF && StandsAt(input, base, Written(EncodeMcus(c, e, ms)) + [0xFF, m])
    requires InSync(c, input, base, e, s)
    ensures InSync(c, input, base, BeforeMcu(c, e), BeforeRead(c, input, s))
  {
    hide SegmentFor, Stuff, EncodeMcus, DataBytes, NextMarker, ResetStats, EndMarker, Written, EncodeMcu, StandsAt;
    if RestartDue(c, e.toGo) {
      SegmentFound(c, input, base, e, ms, m);
      RestartWritten(c, e, ms, m);
      var e1, s1 := EncodeRestart(c, e), DecodeRestart(c, input, s);
      PrefixStandsAt(input, base, e1.out, Written(EncodeMcus(c, e, ms)) + [0xFF, m]);
      assert base + |e1.out| <= |input| by { StandsInside(input, base, e1.out); }
      assert s.end == Cursor(base + |e1.out|, RST0 + e.num);
      RestartRead(input, s.end, e.num);
    }
  }

  lemma StandsInside(input: seq<byte>, base: nat, a: seq<byte>)
    requires StandsAt(input, base, a)
    ensures base + |a| <= |input|
  {
  }

  lemma RestartRead(input: seq<byte>, s: Cursor, n: nat)
    requires n < 8 && s.unread == RST0 + n && s.pos <= |input|
    ensures ReadRestart(input, s, n) == Cursor(s.pos, 0)
  {
  }

  lemma RestartWritten(c: Scan, e: EncoderState, ms: seq<seq<McuBlock>>, m: byte)
    requires EncoderReady(c, e) && ValidMcus(c, ms) && ms != [] && RestartDue(c, e.toGo)
    ensures EncodeRestart(c, e).out <= Written(EncodeMcus(c, e, ms)) + [0xFF, m]
    ensures SegmentEnd(c, e, ms) == e.x && MarkerAfter(c, e, ms, m) == RST0 + e.num
    ensures |EncodeRestart(c, e).out| == |e.out| + |Stuff(SegmentFor(e.x.iv))| + 2
  {
    hide SegmentFor, Stuff, BlocksDecisions, ResetStats;
    var e2 := EncodeMcu(c, e, ms[0]);
    EncodeFirst(c, e, ms);
    OutGrows(c, e2, ms[1..]);
    assert e2.out == EncodeRestart(c, e).out;
    IsPrefixTrans(e2.out, EncodeMcus(c, e, ms).out, Written(EncodeMcus(c, e, ms)) + [0xFF, m]);
  }

  lemma EncodeFirst(c: Scan, e: EncoderState, ms: seq<seq<McuBlock>>)
    requires EncoderReady(c, e) && ValidMcus(c, ms) && ms != []
    ensures EncodeMcus(c, e, ms) == EncodeMcus(c, EncodeMcu(c, e, ms[0]), ms[1..])
  {
  }

  predicate ScanFits(c: Scan, e: EncoderState, ms: seq<seq<McuBlock>>)
    requires EncoderReady(c, e) && ValidMcus(c, ms)
    decreases |ms|
  {
    ms == [] ||
    (BlocksFit(c.kind, c.qs, BeforeMcu(c, e).dc, ms[0]) && ScanFits(c, EncodeMcu(c, e, ms[0]), ms[1..]))
  }

  predicate ScanReady(c: Scan, zs: seq<seq<McuBlock>>, os: seq<seq<McuBlock>>) {
    |zs| == |os| && forall i :: 0 <= i < |os| ==> AllReady(c.kind, zs[i], os[i])
  }

  function ScanAfter(c: Scan, zs: seq<seq<McuBlock>>, os: seq<seq<McuBlock>>): seq<seq<McuBlock>>
    requires ScanReady(c, zs, os)
  {
    seq(|os|, i requires 0 <= i < |os| => AllAfter(c.kind, zs[i], os[i]))
  }

  lemma ReadyValid(c: Scan, zs: seq<seq<McuBlock>>, os: seq<seq<McuBlock>>)
    requires ScanReady(c, zs, os) && ValidMcus(c, os)
    ensures ValidMcus(c, zs)
  {
    forall i | 0 <= i < |zs| ensures ValidMcu(zs[i], |c.qs|) {
      assert AllReady(c.kind, zs[i], os[i]) && ValidMcu(os[i], |c.qs|);
    }
  }

  /** One MCU comes back, exactly if it fits, and leaves encoder and decoder at the same point. */
  lemma McuInSync(c: Scan, input: seq<byte>, base: nat, e: EncoderState, s: DecoderState,
                  zs: seq<McuBlock>, os: seq<seq<McuBlock>>, m: byte)
    requires EncoderReady(c, e) && DecoderReady(c, input, s) && ValidMcus(c, os) && os != []
    requires AllReady(c.kind, zs, os[0]) && WithinUnit(e.x.iv)
    requires m != 0 && m != 0xFF && StandsAt(input, base, Written(EncodeMcus(c, e, os)) + [0xFF, m])
    requires InSync(c, input, base, e, s)
    ensures ValidMcu(zs, |c.qs|)
    ensures var (s', bs) := DecodeMcu(c, input, s, zs);
            var fits := BlocksFit(c.kind, c.qs, BeforeMcu(c, e).dc, os[0]);
            && (fits ==> InSync(c, input, base, EncodeMcu(c, e, os[0]), s') && bs == AllAfter(c.kind, zs, os[0]))
            && (!fits ==> s'.failed && (LastCoefs(e.dc) && DcBlank(c.kind, zs) ==> bs != AllAfter(c.kind, zs, os[0])))
    ensures WithinUnit(EncodeMcu(c, e, os[0]).x.iv)
    ensures LastCoefs(e.dc) ==> LastCoefs(EncodeMcu(c, e, os[0]).dc)
  {
    hide SegmentFor, Stuff, EncodeMcus, DataBytes, NextMarker, ResetStats, WithinUnit, BlocksDecisions,
      ReadBlocks, BlocksFit, AllReady, Carries, Written, SegmentEnd, DcBlank, LastCoefs;
    RestartInSync(c, input, base, e, s, os, m);
    var e1, s1, e2 := BeforeMcu(c, e), BeforeRead(c, input, s), EncodeMcu(c, e, os[0]);
    EncodeFirst(c, e, os);
    SegmentFound(c, input, base, e2, os[1..], m);
    SegmentCarriesMcu(c, e, os[0], os[1..]);
    var st := StreamState(c.t, s1.d, s1.x);
    BlocksRoundTrip(st, c.kind, c.qs, e1.dc, os[0], zs);
    if LastCoefs(e.dc) {
      BeforeCoefs(c, e);
      ReadyCoefs(c.kind, zs, os[0]);
      LastCoefsAll(c.kind, c.qs, e1.dc, os[0]);
      if DcBlank(c.kind, zs) && !BlocksFit(c.kind, c.qs, e1.dc, os[0]) {
        BlocksLost(st, c.kind, c.qs, e1.dc, os[0], zs);
      }
    }
  }

  lemma BeforeCoefs(c: Scan, e: EncoderState)
    requires EncoderReady(c, e) && LastCoefs(e.dc)
    ensures LastCoefs(BeforeMcu(c, e).dc)
  {
    hide Written, ResetStats;
  }

  lemma ReadyCoefs(kind: Kind, zs: seq<McuBlock>, os: seq<McuBlock>)
    requires ValidKind(kind) && AllReady(kind, zs, os)
    ensures forall i :: 0 <= i < |os| ==> Coefs(os[i].z)
  {
    hide Ready;
  }

  /** No MCU makes the decoder give up on a segment. */
  predicate Clean(c: Scan, input: seq<byte>, s: DecoderState, ms: seq<seq<McuBlock>>)
    requires DecoderReady(c, input, s) && ValidMcus(c, ms)
    decreases |ms|
  {
    ms == [] ||
    var s1 := DecodeMcu(c, input, s, ms[0]).0;
    !s1.failed && Clean(c, input, s1, ms[1..])
  }

  predicate AllBlank(c: Scan, zs: seq<seq<McuBlock>>) {
    forall i :: 0 <= i < |zs| ==> DcBlank(c.kind, zs[i])
  }

  /** Any number of MCUs, through any number of restarts. */
  lemma {:induction false} McusInSync(c: Scan, input: seq<byte>, base: nat, e: EncoderState, s: DecoderState,
                                      zs: seq<seq<McuBlock>>, os: seq<seq<McuBlock>>, m: byte)
    requires EncoderReady(c, e) && DecoderReady(c, input, s) && ValidMcus(c, os)
    requires ScanReady(c, zs, os) && WithinUnit(e.x.iv)
    requires m != 0 && m != 0xFF && StandsAt(input, base, Written(EncodeMcus(c, e, os)) + [0xFF, m])
    requires InSync(c, input, base, e, s)
    ensures ValidMcus(c, zs)
    ensures ScanFits(c, e, os) <==> Clean(c, input, s, zs)
    ensures var (s', rs) := DecodeMcus(c, input, s, zs);
            && (ScanFits(c, e, os) ==> InSync(c, input, base, EncodeMcus(c, e, os), s') && rs == ScanAfter(c, zs, os))
            && (!ScanFits(c, e, os) && LastCoefs(e.dc) && AllBlank(c, zs) ==> rs != ScanAfter(c, zs, os))
    decreases |os|
  {
    hide WithinUnit, EncodeMcu, DecodeMcu, BlocksFit, Written, InSync, AllAfter, Ready, LastCoefs, DcBlank, AllReady;
    ReadyValid(c, zs, os);
    if os != [] {
      var rest := ScanAfter(c, zs[1..], os[1..]);
      AfterFirst(c, zs, os);
      McuInSync(c, input, base, e, s, zs[0], os, m);
      EncodeFirst(c, e, os);
      if BlocksFit(c.kind, c.qs, BeforeMcu(c, e).dc, os[0]) {
        InSyncGoing(c, input, base, EncodeMcu(c, e, os[0]), DecodeMcu(c, input, s, zs[0]).0);
        McusInSync(c, input, base, EncodeMcu(c, e, os[0]), DecodeMcu(c, input, s, zs[0]).0, zs[1..], os[1..], m);
        assert ([AllAfter(c.kind, zs[0], os[0])] + rest)[1..] == rest;
        assert DecodeMcus(c, input, s, zs).1[1..] == DecodeMcus(c, input, DecodeMcu(c, input, s, zs[0]).0, zs[1..]).1;
      } else {
        assert DecodeMcus(c, input, s, zs).1[0] == DecodeMcu(c, input, s, zs[0]).1;
      }
    }
  }

  lemma AfterFirst(c: Scan, zs: seq<seq<McuBlock>>, os: seq<seq<McuBlock>>)
    requires ScanReady(c, zs, os) && os != []
    ensures ScanReady(c, zs[1..], os[1..]) && |zs[0]| == |os[0]|
    ensures ScanAfter(c, zs, os) == [AllAfter(c.kind, zs[0], os[0])] + ScanAfter(c, zs[1..], os[1..])
  {
    hide AllAfter, Ready;
    assert AllReady(c.kind, zs[0], os[0]);
  }

  lemma InSyncGoing(c: Scan, input: seq<byte>, base: nat, e: EncoderState, s: DecoderState)
    requires InSync(c, input, base, e, s)
    ensures !s.failed
  {
  }

  // ----- whole scans

  /** The bytes of a scan and the statistics it leaves. */
  function EncodeScan(c: Scan, stats: Statistics, ms: seq<seq<McuBlock>>): (r: (seq<byte>, Statistics))
    requires ValidMcus(c, ms)
  {
    var e := EncodeMcus(c, StartEncode(c, [], stats), ms);
    (Written(e), e.x.stats)
  }

  function StartDecode(c: Scan, input: seq<byte>, pos: nat, stats: Statistics): (s: DecoderState)
    requires pos <= |input|
    ensures DecoderReady(c, input, s)
  {
    OpenSegment(c, input, Cursor(pos, 0), stats, 0)
  }

  /** The blocks read, the statistics left, the cursor at the end, and whether all went well. */
  datatype ScanRead = ScanRead(ok: bool, ms: seq<seq<McuBlock>>, stats: Statistics, end: Cursor)

  function DecodeScan(c: Scan, input: seq<byte>, pos: nat, stats: Statistics, ms: seq<seq<McuBlock>>): ScanRead
    requires pos <= |input| && ValidMcus(c, ms)
  {
    var (s, rs) := DecodeMcus(c, input, StartDecode(c, input, pos, stats), ms);
    ScanRead(!s.failed, rs, s.x.stats, s.end)
  }

  predicate Fits(c: Scan, stats: Statistics, ms: seq<seq<McuBlock>>)
    requires ValidMcus(c, ms)
  {
    ScanFits(c, StartEncode(c, [], stats), ms)
  }

  /**
   Round trip of a scan: for any MCUs, any restart interval and any marker that
   follows, decoding gives every block back down to the bit position sent, with
   the statistics as the encoder left them, and stops at that marker.
   */
  lemma ScanRoundTrip(c: Scan, stats: Statistics, input: seq<byte>, pos: nat,
                      zs: seq<seq<McuBlock>>, os: seq<seq<McuBlock>>, m: byte)
    requires ValidMcus(c, os) && ScanReady(c, zs, os) && Fits(c, stats, os)
    requires m != 0 && m != 0xFF && StandsAt(input, pos, EncodeScan(c, stats, os).0 + [0xFF, m])
    ensures ValidMcus(c, zs)
    ensures var (bytes, stats') := EncodeScan(c, stats, os);
            DecodeScan(c, input, pos, stats, zs)
            == ScanRead(true, ScanAfter(c, zs, os), stats', Cursor(pos + |bytes| + 2, m))
  {
    hide SegmentFor, Stuff, EncodeMcus, DecodeMcus, WithinUnit, ScanFits, ResetStats, Clean, AllBlank, LastCoefs, StandsAt, EndMarker,
      DataBytes;
    StartInside(input, pos, EncodeScan(c, stats, os).0 + [0xFF, m]);
    var e := StartEncode(c, [], stats);
    ReadyValid(c, zs, os);
    UnitWithin();
    McusInSync(c, input, pos, e, StartDecode(c, input, pos, stats), zs, os, m);
    var e' := EncodeMcus(c, e, os);
    assert EncodeMcus(c, e', []) == e' by { EncodeNone(c, e'); }
    SegmentFound(c, input, pos, e', [], m);
  }

  /**
   And only then: a DC difference beyond 2^15 makes the decoder give up on a segment,
   and into blocks whose DC was still zero not everything comes back.
   */
  lemma ScanExact(c: Scan, stats: Statistics, input: seq<byte>, pos: nat,
                  zs: seq<seq<McuBlock>>, os: seq<seq<McuBlock>>, m: byte)
    requires ValidMcus(c, os) && ScanReady(c, zs, os)
    requires m != 0 && m != 0xFF && StandsAt(input, pos, EncodeScan(c, stats, os).0 + [0xFF, m])
    ensures ValidMcus(c, zs)
    ensures Fits(c, stats, os) <==> Clean(c, input, StartDecode(c, input, pos, stats), zs)
    ensures AllBlank(c, zs) ==> (Fits(c, stats, os) <==> DecodeScan(c, input, pos, stats, zs).ms == ScanAfter(c, zs, os))
  {
    hide SegmentFor, Stuff, EncodeMcus, DecodeMcus, WithinUnit, ScanFits, ResetStats, Clean, AllBlank, StandsAt;
    StartInside(input, pos, EncodeScan(c, stats, os).0 + [0xFF, m]);
    var e, s := StartEncode(c, [], stats), StartDecode(c, input, pos, stats);
    UnitWithin();
    McusInSync(c, input, pos, e, s, zs, os, m);
  }

  lemma StartInside(input: seq<byte>, base: nat, a: seq<byte>)
    requires StandsAt(input, base, a)
    ensures base <= |input|
  {
  }

  lemma EncodeNone(c: Scan, e: EncoderState)
    requires EncoderReady(c, e)
    ensures EncodeMcus(c, e, []) == e
  {
  }
}
