/**
 Exact binary arithmetic coding (sections D.1 and D.2 of ITU-T T.81), with an
 unbounded base instead of a code register. The interval after some decisions
 is [base, base + width) / 2^(16 + shifts), and a byte string denotes the
 number 0.d0 d1 d2 ... in base 256, continued by zeros.
 */
module CodingInterval {
  import opened Products
  import opened Bytes
  import opened ProbabilityTable

  datatype Interval = Interval(base: nat, width: nat, shifts: nat)

  const UNIT := Interval(0, 0x10000, 0)

  predicate Normal(iv: Interval) {
    0x8000 <= iv.width <= 0x10000
  }

  /** How many whole bytes are needed to see 16 + shifts bits. */
  function BytesSeen(shifts: nat): nat {
    (shifts + 23) / 8
  }

  /** How many bits those bytes show beyond the 16 + shifts needed. */
  function Slack(shifts: nat): (n: nat)
    ensures n <= 7
  {
    8 * BytesSeen(shifts) - 16 - shifts
  }

  /** The number denoted by `d` lies in the interval. */
  predicate Contains(iv: Interval, d: seq<byte>) {
    var unit := Pow2(Slack(iv.shifts));
    iv.base * unit <= Prefix(d, BytesSeen(iv.shifts)) < (iv.base + iv.width) * unit
  }

  // ----- one binary decision

  /** Conditional exchange: the upper part codes the less probable symbol unless it is the larger part. */
  predicate TakesUpper(t: Table, iv: Interval, st: byte, bit: nat)
    requires Normal(iv) && ValidState(st)
  {
    (bit != Mps(st)) == (iv.width - Qe(t, st) >= Qe(t, st))
  }

  function Select(t: Table, iv: Interval, st: byte, bit: nat): (r: Interval)
    requires Normal(iv) && ValidState(st)
    ensures 0 < r.width <= 0x10000
  {
    var qe := Qe(t, st);
    if TakesUpper(t, iv, st, bit) then Interval(iv.base + (iv.width - qe), qe, iv.shifts)
    else Interval(iv.base, iv.width - qe, iv.shifts)
  }

  function Double(iv: Interval): Interval {
    Interval(2 * iv.base, 2 * iv.width, iv.shifts + 1)
  }

  function Renormalize(iv: Interval): (r: Interval)
    requires 0 < iv.width <= 0x10000
    ensures Normal(r)
    decreases 0x10000 - iv.width
  {
    if iv.width < 0x8000 then Renormalize(Double(iv)) else iv
  }

  /** Statistics are re-estimated only when the interval is renormalized. */
  function Estimate(t: Table, iv: Interval, st: byte, bit: nat): (st': byte)
    requires Normal(iv) && ValidState(st)
    ensures ValidState(st')
  {
    if bit != Mps(st) then AfterLps(t, st)
    else if iv.width - Qe(t, st) >= 0x8000 then st
    else AfterMps(t, st)
  }

  /**
   A decision splits the interval in two, the upper part Qe wide, and the symbol that
   is taken to be more probable never gets the smaller part.
   */
  lemma SelectSplits(t: Table, iv: Interval, st: byte, d: seq<byte>)
    requires Normal(iv) && ValidState(st)
    ensures var m, l := Select(t, iv, st, Mps(st)), Select(t, iv, st, 1 - Mps(st));
            && m.width >= l.width && m.width + l.width == iv.width && m.shifts == l.shifts == iv.shifts
            && (if m.base < l.base then m.base == iv.base && l.base == m.base + m.width && l.width == Qe(t, st)
                else l.base == iv.base && m.base == l.base + l.width && m.width == Qe(t, st))
            && (Contains(iv, d) <==> Contains(m, d) || Contains(l, d)) && !(Contains(m, d) && Contains(l, d))
  {
    var m, l := Select(t, iv, st, Mps(st)), Select(t, iv, st, 1 - Mps(st));
    if Contains(m, d) {
      SelectNested(t, iv, st, Mps(st), d);
    }
    if Contains(l, d) {
      SelectNested(t, iv, st, 1 - Mps(st), d);
    }
    hide Prefix, BytesSeen, Slack;
  }

  /** A state is re-estimated exactly when the part chosen has to be renormalized. */
  lemma EstimateIs(t: Table, iv: Interval, st: byte, bit: nat)
    requires Normal(iv) && ValidState(st) && bit <= 1
    ensures Estimate(t, iv, st, bit)
            == if Select(t, iv, st, bit).width >= 0x8000 then st
               else if bit == Mps(st) then AfterMps(t, st) else AfterLps(t, st)
  {
  }

  /** The decision read off the code string. */
  function Decide(t: Table, iv: Interval, st: byte, d: seq<byte>): (bit: nat)
    requires Normal(iv) && ValidState(st)
    ensures bit <= 1
  {
    var upper := Prefix(d, BytesSeen(iv.shifts)) >= (iv.base + (iv.width - Qe(t, st))) * Pow2(Slack(iv.shifts));
    if upper == (iv.width - Qe(t, st) >= Qe(t, st)) then 1 - Mps(st) else Mps(st)
  }

  /** The sub-intervals of a decision lie inside the interval. */
  lemma SelectNested(t: Table, iv: Interval, st: byte, bit: nat, d: seq<byte>)
    requires Normal(iv) && ValidState(st)
    requires Contains(Select(t, iv, st, bit), d)
    ensures Contains(iv, d)
  {
    var r := Select(t, iv, st, bit);
    var unit := Pow2(Slack(iv.shifts));
    MulMonotone(iv.base, r.base, unit);
    MulMonotone(r.base + r.width, iv.base + iv.width, unit);
  }

  /** A code string inside the chosen sub-interval decodes to the coded symbol. */
  lemma DecideInverts(t: Table, iv: Interval, st: byte, bit: nat, d: seq<byte>)
    requires Normal(iv) && ValidState(st) && bit <= 1
    requires Contains(Select(t, iv, st, bit), d)
    ensures Decide(t, iv, st, d) == bit
  {
  }

  /** Whatever is decided, the code string stays inside the sub-interval decided for. */
  lemma DecideKeeps(t: Table, iv: Interval, st: byte, d: seq<byte>)
    requires Normal(iv) && ValidState(st) && Contains(iv, d)
    ensures Contains(Select(t, iv, st, Decide(t, iv, st, d)), d)
  {
    var qe := Qe(t, st);
    assert iv.base + (iv.width - qe) + qe == iv.base + iv.width;
  }

  lemma NextScale(shifts: nat)
    ensures Slack(shifts) == 0 ==>
              BytesSeen(shifts + 1) == BytesSeen(shifts) + 1 && Slack(shifts + 1) == 7
    ensures Slack(shifts) > 0 ==>
              BytesSeen(shifts + 1) == BytesSeen(shifts) && Slack(shifts + 1) == Slack(shifts) - 1
  {
  }

  /** Doubling the scale does not change which code strings an interval contains. */
  lemma DoubleContains(iv: Interval, d: seq<byte>)
    ensures Contains(Double(iv), d) <==> Contains(iv, d)
  {
    NextScale(iv.shifts);
    var k, n := BytesSeen(iv.shifts), Slack(iv.shifts);
    if n == 0 {
      Pow2Masks();
      assert Prefix(d, k + 1) == Prefix(d, k) * 256 + ByteAt(d, k);
      hide Pow2, Prefix, BytesSeen, Slack;
      NextByteInside(iv.base, iv.width, Prefix(d, k), ByteAt(d, k));
    } else {
      DoubleMul(iv.base, n);
      DoubleMul(iv.base + iv.width, n);
    }
  }

  lemma NextByteInside(base: nat, width: nat, p: nat, b: byte)
    ensures 2 * base * 128 <= p * 256 + b < (2 * base + 2 * width) * 128 <==> base <= p < base + width
  {
  }

  lemma DoubleMul(x: nat, n: nat)
    requires n > 0
    ensures x * Pow2(n) == (2 * x) * Pow2(n - 1)
  {
  }

  lemma {:induction false} RenormalizeContains(iv: Interval, d: seq<byte>)
    requires 0 < iv.width <= 0x10000
    ensures Contains(Renormalize(iv), d) <==> Contains(iv, d)
    decreases 0x10000 - iv.width
  {
    if iv.width < 0x8000 {
      DoubleContains(iv, d);
      RenormalizeContains(Double(iv), d);
    }
  }

  /** Every byte string lies in the initial interval. */
  lemma UnitContains(d: seq<byte>)
    ensures Contains(UNIT, d)
  {
    PrefixBound(d, 2);
    Pow2Masks();
  }

  // ----- runs of decisions

  /** A statistics bin: one of the DC or AC areas of a table slot, or the fixed 0.5 bin. */
  datatype Bin = DcBin(table: nat, index: nat) | AcBin(table: nat, index: nat) | FixedBin

  /** Sizes of the statistics areas. */
  const DC_STAT_BINS := 64
  const AC_STAT_BINS := 256

  predicate InArea(b: Bin) {
    match b
    case DcBin(_, i) => i < DC_STAT_BINS
    case AcBin(_, i) => i < AC_STAT_BINS
    case FixedBin => true
  }

  datatype Decision = Decision(bin: Bin, bit: nat)

  /** The areas start zeroed; the fixed bin uses the table's last row. */
  type Statistics = s: map<Bin, byte> | forall b :: b in s ==> ValidState(s[b])

  function StateOf(s: Statistics, b: Bin): (st: byte)
    ensures ValidState(st)
  {
    if b in s then s[b] else if b == FixedBin then 113 else 0
  }

  /** A bin is written only when its state changes. */
  function Store(s: Statistics, b: Bin, st: byte): (s': Statistics)
    requires ValidState(st)
    ensures StateOf(s', b) == st
  {
    if StateOf(s, b) == st then s else s[b := st]
  }

  /** The fixed bin's state does not move, and leaves both symbols about half of the interval. */
  lemma FixedBinStays()
    ensures StateOf(map[], FixedBin) == LAST_INDEX && Qe(ARITAB, LAST_INDEX) == 0x5A1D
    ensures AfterLps(ARITAB, LAST_INDEX) == LAST_INDEX && AfterMps(ARITAB, LAST_INDEX) == LAST_INDEX
  {
    assert ARITAB[LAST_INDEX] == ROWS_95_TO_113[18];
  }

  /** Everything encoder and decoder must keep in step. */
  datatype Context = Context(iv: Interval, stats: Statistics)

  function Code(t: Table, x: Context, e: Decision): (x': Context)
    requires Normal(x.iv)
    ensures Normal(x'.iv)
  {
    var st := StateOf(x.stats, e.bin);
    Context(Renormalize(Select(t, x.iv, st, e.bit)), Store(x.stats, e.bin, Estimate(t, x.iv, st, e.bit)))
  }

  function CodeAll(t: Table, x: Context, es: seq<Decision>): (x': Context)
    requires Normal(x.iv)
    ensures Normal(x'.iv)
    decreases |es|
  {
    if es == [] then x else CodeAll(t, Code(t, x, es[0]), es[1..])
  }

  lemma {:induction false} CodeAllAppend(t: Table, x: Context, es: seq<Decision>, fs: seq<Decision>)
    requires Normal(x.iv)
    ensures CodeAll(t, x, es + fs) == CodeAll(t, CodeAll(t, x, es), fs)
    decreases |es|
  {
    if es == [] {
      assert es + fs == fs;
    } else {
      assert (es + fs)[1..] == es[1..] + fs;
      CodeAllAppend(t, Code(t, x, es[0]), es[1..], fs);
    }
  }

  lemma CodeAllOne(t: Table, x: Context, es: seq<Decision>, e: Decision)
    requires Normal(x.iv)
    ensures CodeAll(t, x, es + [e]) == Code(t, CodeAll(t, x, es), e)
  {
    CodeAllAppend(t, x, es, [e]);
    assert [e][1..] == [];
  }

  predicate Binary(es: seq<Decision>) {
    forall i :: 0 <= i < |es| ==> es[i].bit <= 1
  }

  /** The decoder's side of one decision: what it returns and how its context moves. */
  function DecodeBit(t: Table, x: Context, d: seq<byte>, bin: Bin): (r: (nat, Context))
    requires Normal(x.iv)
    ensures r.0 <= 1 && Normal(r.1.iv)
  {
    var bit := Decide(t, x.iv, StateOf(x.stats, bin), d);
    (bit, Code(t, x, Decision(bin, bit)))
  }

  /** `d` codes the decisions `es` from context `x` on (and possibly more after them). */
  predicate Codes(t: Table, x: Context, d: seq<byte>, es: seq<Decision>)
    requires Normal(x.iv)
  {
    Binary(es) && Contains(CodeAll(t, x, es).iv, d)
  }

  lemma CodeNested(t: Table, x: Context, e: Decision, d: seq<byte>)
    requires Normal(x.iv) && Contains(Code(t, x, e).iv, d)
    ensures Contains(Select(t, x.iv, StateOf(x.stats, e.bin), e.bit), d)
    ensures Contains(x.iv, d)
  {
    var st := StateOf(x.stats, e.bin);
    RenormalizeContains(Select(t, x.iv, st, e.bit), d);
    SelectNested(t, x.iv, st, e.bit, d);
  }

  /** A code string in the final interval lies in every earlier one. */
  lemma {:induction false} CodeAllNested(t: Table, x: Context, es: seq<Decision>, d: seq<byte>)
    requires Normal(x.iv) && Contains(CodeAll(t, x, es).iv, d)
    ensures Contains(x.iv, d)
    decreases |es|
  {
    if es != [] {
      CodeAllNested(t, Code(t, x, es[0]), es[1..], d);
      CodeNested(t, x, es[0], d);
    }
  }

  /** The decoder returns the next coded decision and is then in step for the rest. */
  lemma DecodeNext(t: Table, x: Context, d: seq<byte>, e: Decision, rest: seq<Decision>)
    requires Normal(x.iv) && Codes(t, x, d, [e] + rest)
    ensures DecodeBit(t, x, d, e.bin) == (e.bit, Code(t, x, e))
    ensures Codes(t, Code(t, x, e), d, rest)
  {
    assert ([e] + rest)[0] == e && ([e] + rest)[1..] == rest;
    assert forall i :: 0 <= i < |rest| ==> rest[i] == ([e] + rest)[i + 1];
    CodeAllNested(t, Code(t, x, e), rest, d);
    CodeNested(t, x, e, d);
    DecideInverts(t, x.iv, StateOf(x.stats, e.bin), e.bit, d);
  }

  /** Decoding arbitrary data never leaves the interval. */
  lemma DecodeBitKeeps(t: Table, x: Context, d: seq<byte>, bin: Bin)
    requires Normal(x.iv) && Contains(x.iv, d)
    ensures Contains(DecodeBit(t, x, d, bin).1.iv, d)
    ensures DecodeBit(t, x, d, bin).1 == Code(t, x, Decision(bin, DecodeBit(t, x, d, bin).0))
  {
    var st := StateOf(x.stats, bin);
    DecideKeeps(t, x.iv, st, d);
    RenormalizeContains(Select(t, x.iv, st, Decide(t, x.iv, st, d)), d);
  }

  /** Decoding along a list of bins. */
  function DecodeBits(t: Table, x: Context, d: seq<byte>, bins: seq<Bin>): (r: (seq<nat>, Context))
    requires Normal(x.iv)
    ensures |r.0| == |bins| && Normal(r.1.iv)
    decreases |bins|
  {
    if bins == [] then ([], x) else
    var (bit, x1) := DecodeBit(t, x, d, bins[0]);
    var (bits, x2) := DecodeBits(t, x1, d, bins[1..]);
    ([bit] + bits, x2)
  }

  function BinsOf(es: seq<Decision>): (bins: seq<Bin>)
    ensures |bins| == |es|
  {
    seq(|es|, i requires 0 <= i < |es| => es[i].bin)
  }

  function BitsOf(es: seq<Decision>): (bits: seq<nat>)
    ensures |bits| == |es|
  {
    seq(|es|, i requires 0 <= i < |es| => es[i].bit)
  }

  /** Interval-level round trip: all decisions and all statistics are recovered. */
  lemma {:induction false} DecodeInvertsCode(t: Table, x: Context, d: seq<byte>, es: seq<Decision>)
    requires Normal(x.iv) && Codes(t, x, d, es)
    ensures DecodeBits(t, x, d, BinsOf(es)) == (BitsOf(es), CodeAll(t, x, es))
    decreases |es|
  {
    hide Codes, Code, DecodeBit, Contains;
    if es == [] {
    } else {
      assert es == [es[0]] + es[1..];
      DecodeNext(t, x, d, es[0], es[1..]);
      DecodeInvertsCode(t, Code(t, x, es[0]), d, es[1..]);
      assert BinsOf(es)[1..] == BinsOf(es[1..]);
      assert BitsOf(es) == [es[0].bit] + BitsOf(es[1..]);
    }
  }

  /** The decisions read along a list of bins. */
  function Decisions(bins: seq<Bin>, bits: seq<nat>): (es: seq<Decision>)
    requires |bits| == |bins|
    ensures |es| == |bins|
  {
    seq(|bins|, i requires 0 <= i < |bins| => Decision(bins[i], bits[i]))
  }

  /**
   Whatever the data, decoding reads decisions that the data codes: with
   DecodeInvertsCode, they are the only ones for these bins.
   */
  lemma {:induction false} DecodeReadsCode(t: Table, x: Context, d: seq<byte>, bins: seq<Bin>)
    requires Normal(x.iv) && Contains(x.iv, d)
    ensures var r := DecodeBits(t, x, d, bins);
            Codes(t, x, d, Decisions(bins, r.0)) && r.1 == CodeAll(t, x, Decisions(bins, r.0))
    decreases |bins|
  {
    hide Code, DecodeBit, Contains;
    if bins != [] {
      DecodeBitKeeps(t, x, d, bins[0]);
      var (bit, x1) := DecodeBit(t, x, d, bins[0]);
      DecodeReadsCode(t, x1, d, bins[1..]);
      var (bits, x2) := DecodeBits(t, x1, d, bins[1..]);
      var es := Decisions(bins, [bit] + bits);
      assert es[1..] == Decisions(bins[1..], bits);
      assert es[0] == Decision(bins[0], bit);
    }
  }
}
