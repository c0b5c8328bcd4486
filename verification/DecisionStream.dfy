/**
 Reading decisions from a code string one statistics bin at a time, and the
 segments an encoder writes for a list of decisions.
 */
module DecisionStream {
  import opened Bytes
  import opened ProbabilityTable
  import opened CodingInterval
  import opened Termination
  import opened SegmentSource

  datatype StreamState = StreamState(t: Table, d: seq<byte>, x: Context)

  /** A code string together with the decoder's context. */
  type Stream = s: StreamState | Normal(s.x.iv)
    witness StreamState(seq(114, i => Row(1, 0, 0, 0)), [], Context(UNIT, map[]))

  function Next(s: Stream, bin: Bin): (r: (nat, Stream))
    ensures r.0 <= 1
  {
    var (bit, x) := DecodeBit(s.t, s.x, s.d, bin);
    (bit, s.(x := x))
  }

  /** The decisions `es` come next in the stream. */
  predicate Carries(s: Stream, es: seq<Decision>) {
    Codes(s.t, s.x, s.d, es)
  }

  function Advance(s: Stream, es: seq<Decision>): Stream {
    s.(x := CodeAll(s.t, s.x, es))
  }

  /** A stream carrying `es + fs` carries `es`, and `fs` after it. */
  lemma Split(s: Stream, es: seq<Decision>, fs: seq<Decision>)
    requires Carries(s, es + fs)
    ensures Carries(s, es) && Carries(Advance(s, es), fs)
    ensures Advance(s, es + fs) == Advance(Advance(s, es), fs)
  {
    CodeAllAppend(s.t, s.x, es, fs);
    assert forall i :: 0 <= i < |es| ==> es[i] == (es + fs)[i];
    assert forall i :: 0 <= i < |fs| ==> fs[i] == (es + fs)[|es| + i];
    CodeAllNested(s.t, CodeAll(s.t, s.x, es), fs, s.d);
  }

  /** The decoder returns the decision that comes next, and the rest follows. */
  lemma TakeOne(s: Stream, e: Decision, rest: seq<Decision>)
    requires Carries(s, [e] + rest)
    ensures Next(s, e.bin) == (e.bit, Advance(s, [e]))
    ensures Carries(Advance(s, [e]), rest)
    ensures Advance(s, [e] + rest) == Advance(Advance(s, [e]), rest)
  {
    hide Codes, Code, Decide;
    DecodeNext(s.t, s.x, s.d, e, rest);
    assert [e][1..] == [] && ([e] + rest)[1..] == rest;
    assert CodeAll(s.t, s.x, [e]) == Code(s.t, s.x, e);
  }

  lemma TakeLast(s: Stream, e: Decision)
    requires Carries(s, [e])
    ensures Next(s, e.bin) == (e.bit, Advance(s, [e]))
  {
    assert [e] + [] == [e];
    TakeOne(s, e, []);
  }

  lemma AdvanceNone(s: Stream)
    ensures Advance(s, []) == s
  {
  }

  // ----- whole segments

  function Begin(t: Table, stats: Statistics, d: seq<byte>): Stream {
    StreamState(t, d, Context(UNIT, stats))
  }

  lemma {:induction false} RenormalizeWithin(iv: Interval)
    requires 0 < iv.width <= 0x10000 && WithinUnit(iv)
    ensures WithinUnit(Renormalize(iv))
    decreases 0x10000 - iv.width
  {
    if iv.width < 0x8000 {
      RenormalizeWithin(Double(iv));
    }
  }

  /** Coding never leaves the unit interval. */
  lemma {:induction false} CodeAllWithin(t: Table, x: Context, es: seq<Decision>)
    requires Normal(x.iv) && WithinUnit(x.iv)
    ensures WithinUnit(CodeAll(t, x, es).iv)
    decreases |es|
  {
    if es != [] {
      hide Estimate;
      RenormalizeWithin(Select(t, x.iv, StateOf(x.stats, es[0].bin), es[0].bit));
      CodeAllWithin(t, Code(t, x, es[0]), es[1..]);
    }
  }

  lemma UnitWithin()
    ensures WithinUnit(UNIT)
  {
    Pow2Masks();
  }

  /** The bytes (before stuffing) written for decisions coded from the start of a segment. */
  function SegmentData(t: Table, stats: Statistics, es: seq<Decision>): seq<byte> {
    SegmentFor(CodeAll(t, Context(UNIT, stats), es).iv)
  }

  lemma SegmentCarries(t: Table, stats: Statistics, es: seq<Decision>)
    requires Binary(es)
    ensures Carries(Begin(t, stats, SegmentData(t, stats, es)), es)
  {
    var x := CodeAll(t, Context(UNIT, stats), es);
    UnitWithin();
    CodeAllWithin(t, Context(UNIT, stats), es);
    SegmentForExact(x.iv);
    ExactlyContained(x.iv, SegmentFor(x.iv));
  }

  /** The segment is the shortest string from which the decisions can be read back. */
  lemma SegmentShortest(t: Table, stats: Statistics, es: seq<Decision>, d: seq<byte>)
    requires Binary(es) && Carries(Begin(t, stats, d), es)
    ensures |SegmentData(t, stats, es)| <= |d|
  {
    hide Terminator, SegmentFor;
    var x := CodeAll(t, Context(UNIT, stats), es);
    UnitWithin();
    CodeAllWithin(t, Context(UNIT, stats), es);
    SegmentForExact(x.iv);
    Shortest(x.iv, SegmentFor(x.iv), d);
  }

  /**
   Byte-level round trip: whatever precedes the segment and whatever marker
   follows it, decoding the stuffed bytes returns the decisions coded and leaves
   every statistics bin as the encoder left it.
   */
  lemma SegmentRoundTrip(t: Table, stats: Statistics, es: seq<Decision>, input: seq<byte>, p: nat, m: byte)
    requires Binary(es) && m != 0 && m != 0xFF && SegmentAt(input, p, SegmentData(t, stats, es), m)
    ensures DecodeBits(t, Context(UNIT, stats), DataBytes(input, p), BinsOf(es))
            == (BitsOf(es), CodeAll(t, Context(UNIT, stats), es))
    ensures NextMarker(input, p) == Marker(m, p + |Stuff(SegmentData(t, stats, es))| + 2)
  {
    var d := SegmentData(t, stats, es);
    DataBytesOfStuffed(input, p, d, m);
    SegmentCarries(t, stats, es);
    DecodeInvertsCode(t, Context(UNIT, stats), d, es);
  }
}
