/**
 The arithmetic encoder's registers and byte output: a 27-bit code register
 with three spacer bits, one buffered byte, a count of stacked 0xFF bytes that
 a carry may still turn over, and a count of zero bytes held back so that
 trailing ones can be dropped.
 */
module ArithEncoder {
  import opened Products
  import opened Bytes
  import opened ProbabilityTable
  import opened CodingInterval
  import opened Termination
  import opened DecisionStream

  /** The buffered byte, absent while `buffer` is -1. */
  function Held(buffer: int): (s: seq<byte>)
    requires -1 <= buffer < 0xFF
  {
    if buffer < 0 then [] else [buffer]
  }

  /** Bytes of the segment in order: written, zeros held back, buffered byte, stacked 0xFFs. */
  function SegmentBytes(settled: seq<byte>, zc: nat, buffer: int, sc: nat): seq<byte>
    requires -1 <= buffer < 0xFF
  {
    settled + Repeat(0, zc) + Held(buffer) + Repeat(0xFF, sc)
  }

  /** Register bounds: `k` bytes of value `v` precede the code register. */
  ghost predicate Bounded(v: nat, k: nat, c: nat, a: nat, ct: nat)
    requires ct <= 11
  {
    && 0 < a <= 0x10000
    && c + a <= 9 * Pow2(24 - ct)
    && v * Pow2(27 - ct) + c + a <= Pow2(27 - ct + 8 * k)
  }

  ghost function Exact(v: nat, k: nat, c: nat, a: nat, ct: nat): Interval
    requires ct <= 11
  {
    Interval(v * Pow2(27 - ct) + c, a, 8 * k + 11 - ct)
  }

  /** Taking the top byte off the code register leaves the interval and the bounds as they were. */
  lemma ByteOutExact(v: nat, k: nat, c: nat, a: nat, ct: nat)
    requires ct == 0 && Bounded(v, k, c, a, ct)
    ensures c / 0x80000 <= 0xFF + 32 && v * 0x8000000 + c < Pow2(27 + 8 * k)
    ensures var v' := v * 0x100 + c / 0x80000;
            && Bounded(v', k + 1, c % 0x80000, a, ct + 8)
            && Exact(v', k + 1, c % 0x80000, a, ct + 8) == Exact(v, k, c, a, ct)
  {
    Pow2Masks();
  }

  /** Narrowing the registers narrows the interval. */
  lemma NarrowExact(t: Table, v: nat, k: nat, c: nat, a: nat, ct: nat, st: byte, bit: nat)
    requires ct <= 11 && Bounded(v, k, c, a, ct) && 0x8000 <= a && ValidState(st)
    ensures var qe, iv := Qe(t, st), Exact(v, k, c, a, ct);
            var sub := Select(t, iv, st, bit);
            if TakesUpper(t, iv, st, bit)
            then Bounded(v, k, c + (a - qe), qe, ct) && sub == Exact(v, k, c + (a - qe), qe, ct)
            else Bounded(v, k, c, a - qe, ct) && sub == Exact(v, k, c, a - qe, ct)
  {
  }

  lemma ShiftExact(v: nat, k: nat, c: nat, a: nat, ct: nat)
    requires 1 <= ct <= 11 && Bounded(v, k, c, a, ct) && a < 0x8000
    ensures Bounded(v, k, 2 * c, 2 * a, ct - 1)
    ensures Exact(v, k, 2 * c, 2 * a, ct - 1) == Double(Exact(v, k, c, a, ct))
  {
    MulSwap(v, 2, Pow2(27 - ct));
  }

  /** The interval never extends past the first byte, so a carry always finds a byte to stop at. */
  lemma CarryStops(settled: seq<byte>, zc: nat, buffer: int, sc: nat, c: nat)
    requires -1 <= buffer < 0xFF && (buffer == -1 ==> settled == [] && zc == 0)
    requires var p := SegmentBytes(settled, zc, buffer, sc); Value(p) * 0x8000000 + c < Pow2(27 + 8 * |p|)
    requires c >= 0x8000000
    ensures buffer >= 0
  {
    if buffer == -1 {
      var p := SegmentBytes(settled, zc, buffer, sc);
      assert p == Repeat(0xFF, sc);
      ValueStacked(sc);
      Pow2Add(27, 8 * sc);
      Pow2Masks();
    }
  }

  lemma CarryBytes(settled: seq<byte>, zc: nat, buffer: int, sc: nat)
    requires 0 <= buffer < 0xFF
    ensures var p := SegmentBytes(settled, zc, buffer, sc);
            var q := settled + Repeat(0, zc) + [buffer + 1] + Repeat(0, sc);
            |p| == |q| && Value(q) == Value(p) + 1
  {
    ValueCarry(settled + Repeat(0, zc), buffer, sc);
  }

  /** The code register value chosen at the end: most trailing zero bits in the interval. */
  function FinalRegister(c: nat, a: nat): (c': nat)
    requires 0x8000 <= a <= 0x10000
    ensures c <= c' < c + a && c' % 0x8000 == 0
  {
    CutLow(a - 1 + c);
    var temp := (a - 1 + c) - (a - 1 + c) % 0x10000;
    if temp < c then temp + 0x8000 else temp
  }

  lemma FinalExact(v: nat, k: nat, c: nat, a: nat, ct: nat)
    requires 1 <= ct <= 11 && Bounded(v, k, c, a, ct) && 0x8000 <= a <= 0x10000
    ensures var c' := FinalRegister(c, a);
            && Terminator(Exact(v, k, c, a, ct)) == v * Pow2(27 - ct) + c'
            && v * 0x8000000 + c' * Pow2(ct) < Pow2(27 + 8 * k)
            && c' * Pow2(ct) < 9 * 0x1000000
            && (c' * Pow2(ct)) % 0x800 == 0
  {
    hide Pow2;
    var c' := FinalRegister(c, a);
    assert (v * Pow2(27 - ct)) % 0x10000 == 0 by {
      ModZero(v, 27 - ct, 16);
      Pow2Masks();
    }
    TerminatorShift(v * Pow2(27 - ct), c, a, 8 * k + 11 - ct);
    FinalScaled(v, k, c', ct);
    LowBitsClear(c', Pow2(ct));
  }

  lemma LowBitsClear(c: nat, p: nat)
    requires c % 0x8000 == 0
    ensures (c * p) % 0x800 == 0
  {
    var d := c / 0x8000 * 16;
    assert c == d * 0x800;
    MulSwap(d, 0x800, p);
    MulAssoc(d, 0x800, p);
    MultipleMod(d * p, 0x800);
  }

  /** The bounds of the chosen register value, with the pending shifts carried out. */
  lemma FinalScaled(v: nat, k: nat, c: nat, ct: nat)
    requires ct <= 11 && c < 9 * Pow2(24 - ct) && v * Pow2(27 - ct) + c < Pow2(27 - ct + 8 * k)
    ensures v * 0x8000000 + c * Pow2(ct) < Pow2(27 + 8 * k)
    ensures c * Pow2(ct) < 9 * 0x1000000
  {
    hide Pow2;
    Pow2Masks();
    Pow2Add(27 - ct, ct);
    Pow2Add(27 - ct + 8 * k, ct);
    Pow2Add(24 - ct, ct);
    ScaleBounds(v, Pow2(27 - ct), c, Pow2(27 - ct + 8 * k), Pow2(24 - ct), Pow2(ct));
  }

  lemma TerminatorShift(base: nat, c: nat, a: nat, shifts: nat)
    requires base % 0x10000 == 0 && 0x8000 <= a <= 0x10000
    ensures Terminator(Interval(base + c, a, shifts)) == base + FinalRegister(c, a)
  {
    var b, x := base / 0x10000, a - 1 + c;
    assert base + x == b * 0x10000 + x;
    assert (b * 0x10000 + x) % 0x10000 == x % 0x10000;
  }

  /** The final bytes carry the whole code register. */
  lemma FinalBytes(v: nat, k: nat, c: nat, ct: nat, w: nat, b1: byte, b2: byte)
    requires 1 <= ct <= 11
    requires v * 0x8000000 + c * Pow2(ct) == w * 0x8000000 + b1 * 0x80000 + b2 * 0x800
    ensures var s := 8 * k + 11 - ct;
            && BytesSeen(s) >= k + 2
            && (w * 0x10000 + b1 * 0x100 + b2) * Pow2(8 * (BytesSeen(s) - k - 2))
               == (v * Pow2(27 - ct) + c) * Pow2(Slack(s))
  {
    hide Pow2;
    var s := 8 * k + 11 - ct;
    var n := 8 * (BytesSeen(s) - k - 2);
    assert Slack(s) == n + ct - 11;
    var x, g, y := w * 0x10000 + b1 * 0x100 + b2, v * Pow2(27 - ct) + c, Pow2(Slack(s));
    assert Pow2(27) == 0x8000000 && Pow2(11) == 0x800 by { Pow2Masks(); }
    Pow2Add(27 - ct, ct);
    MulAssoc(v, Pow2(27 - ct), Pow2(ct));
    MulSum(v * Pow2(27 - ct), c, Pow2(ct));
    assert g * Pow2(ct) == x * 0x800;
    Pow2Add(n, ct);
    Pow2Add(Slack(s), 11);
    calc {
      (x * Pow2(n)) * 0x800;
      { MulSwap(x, Pow2(n), 0x800); MulAssoc(x, Pow2(n), 0x800); }
      (x * 0x800) * Pow2(n);
      { MulSwap(g, Pow2(n), Pow2(ct)); }
      g * (Pow2(n) * Pow2(ct));
      { MulAssoc(g, y, 0x800); }
      (g * y) * 0x800;
    }
    CancelRight(x * Pow2(n), g * y, 0x800);
  }

  lemma TwoBytes(q: seq<byte>, b1: byte, b2: byte)
    ensures Value(q + [b1, b2]) == Value(q) * 0x10000 + b1 * 0x100 + b2
  {
    assert q + [b1, b2] == q + [b1] + [b2];
    ValueAppend(q, b1);
    ValueAppend(q + [b1], b2);
  }

  lemma RegisterBytes(x: nat)
    requires x < 0x10000000 && x % 0x800 == 0
    ensures x == x / 0x8000000 * 0x8000000 + x / 0x80000 % 0x100 * 0x80000 + x / 0x800 % 0x100 * 0x800
  {
    var y := x / 0x800;
    assert x == y * 0x800;
    assert x / 0x80000 == y / 0x100 && x / 0x8000000 == y / 0x10000;
    assert y / 0x100 / 0x100 == y / 0x10000;
  }

  ghost predicate SameNumber(d: seq<byte>, e: seq<byte>) {
    forall k: nat :: Prefix(d, k) == Prefix(e, k)
  }

  lemma FinalNumber(v: nat, k: nat, c: nat, a: nat, ct: nat, x: nat, w: nat, b1: byte, b2: byte)
    requires 1 <= ct <= 11 && Bounded(v, k, c, a, ct) && 0x8000 <= a <= 0x10000
    requires x == FinalRegister(c, a) * Pow2(ct) && w == v + x / 0x8000000
    requires b1 == x / 0x80000 % 0x100 && b2 == x / 0x800 % 0x100
    ensures var iv := Exact(v, k, c, a, ct);
            && BytesSeen(iv.shifts) >= k + 2
            && (w * 0x10000 + b1 * 0x100 + b2) * Pow2(8 * (BytesSeen(iv.shifts) - k - 2))
               == Terminator(iv) * Pow2(Slack(iv.shifts))
  {
    hide Pow2, Terminator, Bounded;
    FinalExact(v, k, c, a, ct);
    RegisterBytes(x);
    FinalBytes(v, k, FinalRegister(c, a), ct, w, b1, b2);
  }

  /** What is written at the end denotes the chosen number of the final interval. */
  lemma FinalString(p: seq<byte>, q: seq<byte>, d: seq<byte>, c: nat, a: nat, ct: nat, x: nat)
    requires 1 <= ct <= 11 && Bounded(Value(p), |p|, c, a, ct) && 0x8000 <= a <= 0x10000
    requires x == FinalRegister(c, a) * Pow2(ct)
    requires |q| == |p| && Value(q) == Value(p) + x / 0x8000000
    requires |d| <= |q| + 2 && SameNumber(d, q + [x / 0x80000 % 0x100, x / 0x800 % 0x100])
    ensures var iv := Exact(Value(p), |p|, c, a, ct); Exactly(d, Terminator(iv), iv.shifts)
  {
    hide Pow2, Terminator, Bounded, Prefix;
    var b1: byte, b2: byte := x / 0x80000 % 0x100, x / 0x800 % 0x100;
    var iv := Exact(Value(p), |p|, c, a, ct);
    FinalNumber(Value(p), |p|, c, a, ct, x, Value(q), b1, b2);
    TwoBytes(q, b1, b2);
    PrefixBeyond(q + [b1, b2], |p| + 2, BytesSeen(iv.shifts));
    assert Prefix(d, BytesSeen(iv.shifts)) == Prefix(q + [b1, b2], BytesSeen(iv.shifts));
  }

  class Encoder {
    const table: Table
    var c: nat        // code register: low end of the interval
    var a: nat        // size of the interval
    var sc: nat       // stacked 0xFF bytes
    var zc: nat       // zero bytes held back
    var ct: nat       // shifts until the next byte is ready
    var buffer: int   // most recent byte other than 0xFF, or -1
    var stats: Statistics
    var out: seq<byte>

    ghost var before: seq<byte>    // what was in `out` when the current segment began
    ghost var settled: seq<byte>   // bytes of the segment in `out`, before stuffing
    ghost var begun: Statistics    // the statistics with which the current segment started
    ghost var coded: seq<Decision> // the decisions coded in it so far

    ghost predicate Written()
      reads this`before, this`out, this`settled
    {
      out == before + Stuff(settled)
    }

    ghost predicate HeldBack()
      reads this`buffer, this`settled, this`zc
    {
      -1 <= buffer < 0xFF && (buffer == -1 ==> settled == [] && zc == 0) && NoFinalZero(settled)
    }

    ghost function Pending(): seq<byte>
      requires HeldBack()
      reads this`buffer, this`settled, this`zc, this`sc
    {
      SegmentBytes(settled, zc, buffer, sc)
    }

    /** Holds throughout renormalization: register bounds, and no carry beyond the first byte. */
    ghost predicate Coherent()
      reads this`c, this`a, this`sc, this`zc, this`ct, this`buffer, this`out, this`before, this`settled
    {
      && Written() && HeldBack()
      && ct <= 11
      && Bounded(Value(Pending()), |Pending()|, c, a, ct)
    }

    ghost predicate Normalized()
      reads this`c, this`a, this`sc, this`zc, this`ct, this`buffer, this`out, this`before, this`settled
    {
      Coherent() && 0x8000 <= a && 1 <= ct
    }

    /** The registers, with all bytes held and written, are what the decisions coded call for. */
    ghost predicate Valid()
      reads this
    {
      && Normalized()
      && Binary(coded)
      && State() == Position()
    }

    /** Where the decisions coded lead from the start of the segment. */
    ghost function Position(): (x: Context)
      reads this`begun, this`coded
      ensures Normal(x.iv)
    {
      CodeAll(table, Context(UNIT, begun), coded)
    }

    /** The exact interval that registers, pending bytes and written bytes denote together. */
    ghost function View(): Interval
      requires Coherent()
      reads this`c, this`a, this`sc, this`zc, this`ct, this`buffer, this`out, this`before, this`settled
    {
      Exact(Value(Pending()), |Pending()|, c, a, ct)
    }

    ghost function State(): Context
      requires Normalized()
      reads this`c, this`a, this`sc, this`zc, this`ct, this`buffer, this`out, this`before, this`settled, this`stats
    {
      Context(View(), stats)
    }

    constructor (t: Table, stats: Statistics, out: seq<byte>)
      ensures Valid() && table == t && this.out == out && before == out
      ensures begun == stats && coded == []
    {
      table := t;
      this.stats, this.out := stats, out;
      before, settled := out, [];
      begun, coded := stats, [];
      c, a, sc, zc, ct, buffer := 0, 0x10000, 0, 0, 11, -1;
      new;
      hide Coherent, View;
      StartView();
    }

    /** Re-initializes the coding registers; a new segment begins after the bytes written so far. */
    method Reset(stats: Statistics)
      modifies this
      ensures Valid() && out == old(out) && before == out
      ensures begun == stats && coded == []
    {
      hide Coherent, View;
      this.stats := stats;
      before, settled := out, [];
      begun, coded := stats, [];
      c, a, sc, zc, ct, buffer := 0, 0x10000, 0, 0, 11, -1;
      StartView();
    }

    lemma StartView()
      requires out == before && settled == []
      requires c == 0 && a == 0x10000 && sc == 0 && zc == 0 && ct == 11 && buffer == -1
      ensures Coherent() && View() == UNIT
    {
      assert Pending() == [];
      Pow2Masks();
      Pow2Add(5, 8);
      assert Pow2(13) == 0x2000;
    }

    method EmitByte(b: byte)
      modifies this`out
      ensures out == old(out) + [b]
    {
      out := out + [b];
    }

    /** Writes a byte of the segment, stuffing a zero after 0xFF. */
    method EmitStuffed(b: byte)
      requires Written()
      modifies this`out, this`settled
      ensures Written() && settled == old(settled) + [b]
    {
      hide Stuff;
      StuffAppend(settled, b);
      ghost var written := Stuff(settled);
      EmitByte(b);
      if b == 0xFF {
        EmitByte(0x00);
        assert out == before + (written + [0xFF, 0x00]);
      } else {
        assert out == before + (written + [b]);
      }
      settled := settled + [b];
    }

    /** Writes the zero bytes held back. */
    method FlushZeros()
      requires Written()
      modifies this`out, this`settled, this`zc
      ensures Written()
      ensures zc == 0 && settled == old(settled + Repeat(0, zc))
    {
      hide Stuff;
      ghost var n := zc;
      while zc > 0
        invariant zc <= n && Written()
        invariant settled == old(settled) + Repeat(0, n - zc)
      {
        EmitStuffed(0x00);
        zc := zc - 1;
        assert Repeat(0, n - zc) == Repeat(0, n - zc - 1) + [0];
      }
    }

    /** A carry out of the code register: it ends at the buffered byte, and stacked 0xFFs become zeros. */
    method PropagateCarry()
      requires Written() && HeldBack() && buffer >= 0
      modifies this`out, this`settled, this`zc, this`sc
      ensures Written() && sc == 0
      ensures var p, q := old(Pending()), settled + Repeat(0, zc); |q| == |p| && Value(q) == Value(p) + 1
      ensures NoFinalZero(settled)
    {
      hide Stuff;
      CarryBytes(settled, zc, buffer, sc);
      FlushZeros();
      EmitStuffed(buffer + 1);
      zc := zc + sc;
      sc := 0;
    }

    /** No carry can reach the bytes held any more: they are written, except zeros that may be last. */
    method FlushStack()
      requires Written() && HeldBack()
      modifies this`out, this`settled, this`zc, this`sc
      ensures Written() && sc == 0
      ensures settled + Repeat(0, zc) == old(Pending())
      ensures NoFinalZero(settled)
    {
      hide Stuff;
      ghost var p := Pending();
      ghost var before := settled + Repeat(0, zc);
      if buffer == 0 {
        zc := zc + 1;
        assert settled + Repeat(0, zc) == before + [0];
      } else if buffer >= 0 {
        FlushZeros();
        EmitStuffed(buffer);
      }
      assert settled + Repeat(0, zc) == before + Held(buffer);
      if sc > 0 {
        FlushZeros();
        assert settled + Repeat(0, 0) == settled;
        EmitStacked();
        assert settled + Repeat(0, zc) == settled;
      }
    }

    /** Writes the stacked 0xFF bytes, each with its stuffed zero. */
    method EmitStacked()
      requires Written() && zc == 0
      modifies this`out, this`settled, this`sc
      ensures Written() && sc == 0
      ensures settled == old(settled + Repeat(0xFF, sc))
    {
      hide Stuff;
      ghost var n := sc;
      while sc > 0
        invariant sc <= n && Written()
        invariant settled == old(settled) + Repeat(0xFF, n - sc)
      {
        EmitStuffed(0xFF);
        sc := sc - 1;
        assert Repeat(0xFF, n - sc) == Repeat(0xFF, n - sc - 1) + [0xFF];
      }
    }

    /** Appends a completed byte, which may carry into the bytes before it. */
    method Append(temp: nat)
      requires Written() && HeldBack()
      requires temp < 0x1FF && (temp > 0xFF ==> buffer >= 0)
      modifies this`sc, this`zc, this`buffer, this`out, this`settled
      ensures Written() && HeldBack()
      ensures |Pending()| == |old(Pending())| + 1
      ensures Value(Pending()) == Value(old(Pending())) * 0x100 + temp
    {
      ghost var p := Pending();
      if temp > 0xFF {
        PropagateCarry();
        buffer := temp % 0x100;
        assert Pending() == settled + Repeat(0, zc) + [buffer];
        ValueAppend(settled + Repeat(0, zc), buffer);
      } else if temp == 0xFF {
        sc := sc + 1;
        assert Pending() == p + [0xFF];
        ValueAppend(p, 0xFF);
      } else {
        FlushStack();
        buffer := temp;
        assert Pending() == p + [buffer];
        ValueAppend(p, buffer);
      }
    }

    /** Moves the completed byte at the top of the code register out. */
    method ByteOut()
      requires Coherent() && ct == 0
      modifies this`c, this`sc, this`zc, this`ct, this`buffer, this`out, this`settled
      ensures Coherent() && ct == 8
      ensures View() == old(View())
    {
      ghost var p := Pending();
      var temp := c / 0x80000;
      ByteOutExact(Value(p), |p|, c, a, ct);
      if temp > 0xFF {
        CarryStops(settled, zc, buffer, sc, c);
      }
      Append(temp);
      ghost var q := Pending();
      c := c % 0x80000;
      ct := ct + 8;
      assert Pending() == q;
    }

    /** One renormalization shift of both registers. */
    method Shift()
      requires Coherent() && a < 0x8000 && ct >= 1
      modifies this`a, this`c, this`sc, this`zc, this`ct, this`buffer, this`out, this`settled
      ensures Coherent() && ct >= 1
      ensures View() == Double(old(View()))
    {
      ShiftExact(Value(Pending()), |Pending()|, c, a, ct);
      a := 2 * a;
      c := 2 * c;
      ct := ct - 1;
      if ct == 0 {
        ByteOut();
      }
    }

    /** Narrows the interval to the decision's part; tells whether to renormalize, and the new state then. */
    method Narrow(sv: byte, val: nat) returns (renormalize: bool, after: byte)
      requires Normalized() && ValidState(sv)
      modifies this`a, this`c
      ensures Coherent() && View() == Select(table, old(View()), sv, val)
      ensures renormalize == (a < 0x8000)
      ensures renormalize ==> after == if val != Mps(sv) then AfterLps(table, sv) else AfterMps(table, sv)
    {
      hide Select, SegmentBytes, Stuff, NoFinalZero, Estimated;
      var qe, nl, nm := Fetch(table, sv);
      after := sv;
      NarrowExact(table, Value(Pending()), |Pending()|, c, a, ct, sv, val);
      a := a - qe;
      if val != Mps(sv) {
        if a >= qe {
          c := c + a;
          a := qe;
        }
        after := Estimated(sv, nl);
      } else {
        if a >= 0x8000 {
          return false, after;
        }
        if a < qe {
          c := c + a;
          a := qe;
        }
        after := Estimated(sv, nm);
      }
      renormalize := true;
    }

    /** Codes one decision in the registers and re-estimates its statistics bin. */
    method CodeDecision(bin: Bin, val: nat)
      requires Normalized() && val <= 1
      modifies this`a, this`c, this`sc, this`zc, this`ct, this`buffer, this`out, this`settled, this`stats
      ensures Normalized()
      ensures State() == Code(table, old(State()), Decision(bin, val))
    {
      ghost var next := Code(table, State(), Decision(bin, val));
      var sv := StateOf(stats, bin);
      var renormalize, after := Narrow(sv, val);
      if renormalize {
        stats := Store(stats, bin, after);
        Shift();
        while a < 0x8000
          invariant Coherent() && ct >= 1
          invariant Renormalize(View()) == next.iv && stats == next.stats
          decreases 0x8000 - a
        {
          Shift();
        }
      }
    }

    /** Codes one decision. */
    method Encode(bin: Bin, val: nat)
      requires Valid() && val <= 1 && InArea(bin)
      modifies this
      ensures Valid() && before == old(before)
      ensures begun == old(begun) && coded == old(coded) + [Decision(bin, val)]
    {
      hide Coherent, View, Code;
      CodeAllOne(table, Context(UNIT, begun), coded, Decision(bin, val));
      CodeDecision(bin, val);
      coded := coded + [Decision(bin, val)];
    }

    /** Ends the segment: the shortest code string in the final interval has been written. */
    method Finish()
      requires Valid()
      modifies this`c, this`sc, this`zc, this`out, this`settled
      ensures out == before + Stuff(SegmentFor(Position().iv)) && stats == Position().stats
    {
      ghost var iv := View();
      FinishRegisters();
      UnitWithin();
      CodeAllWithin(table, Context(UNIT, begun), coded);
      SegmentUnique(iv, settled);
    }

    method FinishRegisters()
      requires Normalized()
      modifies this`c, this`sc, this`zc, this`out, this`settled
      ensures Written()
      ensures NoFinalZero(settled) && Exactly(settled, Terminator(old(View())), old(View()).shifts)
    {
      ghost var p, c0 := Pending(), c;
      ChooseFinal();
      Settle();
      ghost var q := settled + Repeat(0, zc);
      var b1: byte, b2: byte := c / 0x80000 % 0x100, c / 0x800 % 0x100;
      EmitFinal(b1, b2);
      FinalString(p, q, settled, c0, a, ct, c);
    }

    /** Finds the number in the interval with the most trailing zero bits and shifts it into place. */
    method ChooseFinal()
      requires Normalized()
      modifies this`c
      ensures c == FinalRegister(old(c), a) * Pow2(ct)
      ensures c < 9 * 0x1000000 && Value(Pending()) * 0x8000000 + c < Pow2(27 + 8 * |Pending()|)
    {
      FinalExact(Value(Pending()), |Pending()|, c, a, ct);
      var temp := (a - 1 + c) - (a - 1 + c) % 0x10000;
      var chosen := if temp < c then temp + 0x8000 else temp;
      assert chosen == FinalRegister(c, a);
      c := ShiftLeft(chosen, ct);
    }

    /** Handles the last possible carry; after this only zeros are still held back. */
    method Settle()
      requires Written() && HeldBack()
      requires c < 9 * 0x1000000 && Value(Pending()) * 0x8000000 + c < Pow2(27 + 8 * |Pending()|)
      modifies this`sc, this`zc, this`out, this`settled
      ensures Written() && NoFinalZero(settled)
      ensures var p, q := old(Pending()), settled + Repeat(0, zc);
              && |q| == |p|
              && Value(q) == Value(p) + c / 0x8000000
    {
      if c >= 0x8000000 {
        CarryStops(settled, zc, buffer, sc, c);
        PropagateCarry();
      } else {
        FlushStack();
      }
    }

    /** Writes the last two bytes unless they are zeros at the end. */
    method EmitFinal(b1: byte, b2: byte)
      requires Written() && NoFinalZero(settled)
      modifies this`zc, this`out, this`settled
      ensures Written()
      ensures NoFinalZero(settled) && |settled| <= old(|settled| + zc) + 2
      ensures SameNumber(settled, old(settled + Repeat(0, zc)) + [b1, b2])
    {
      hide Prefix, Stuff;
      ghost var q := settled + Repeat(0, zc) + [b1, b2];
      if b1 != 0 || b2 != 0 {
        FlushZeros();
        EmitStuffed(b1);
        if b2 != 0 {
          EmitStuffed(b2);
          assert settled == q;
        } else {
          assert settled + Repeat(0, 1) == q;
          forall k: nat ensures Prefix(settled, k) == Prefix(q, k) { PrefixZeros(settled, 1, k); }
        }
      } else {
        assert settled + Repeat(0, zc + 2) == q;
        forall k: nat ensures Prefix(settled, k) == Prefix(q, k) { PrefixZeros(settled, zc + 2, k); }
      }
    }
  }
}
