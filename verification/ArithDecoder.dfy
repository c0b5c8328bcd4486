/**
 The arithmetic decoder's registers: the code register holds the distance from
 the interval's base to the code string with `ct` bits read ahead, so that the
 cut between them floats and no renormalization of it is needed.
 */
module ArithDecoder {
  import opened Products
  import opened Bytes
  import opened ProbabilityTable
  import opened CodingInterval
  import opened SegmentSource
  import opened DecisionStream

  function Drop(d: seq<byte>, n: nat): seq<byte> {
    if n <= |d| then d[n..] else []
  }

  lemma DropNext(d: seq<byte>, n: nat)
    ensures Drop(Drop(d, n), 1) == Drop(d, n + 1)
    ensures ByteAt(Drop(d, n), 0) == ByteAt(d, n)
  {
  }

  /** The registers after `n` of the data bytes were read, for the interval `iv`. */
  ghost predicate Tracks(d: seq<byte>, n: nat, iv: Interval, c: int, a: nat, ct: int) {
    && Contains(iv, d)
    && n == BytesSeen(iv.shifts) && ct == Slack(iv.shifts) && a == iv.width
    && c == Prefix(d, n) - iv.base * Pow2(ct)
  }

  lemma TracksNoFetch(d: seq<byte>, n: nat, iv: Interval, c: int, a: nat, ct: int)
    requires Tracks(d, n, iv, c, a, ct) && ct > 0
    ensures Tracks(d, n, Double(iv), c, 2 * a, ct - 1)
  {
    NextScale(iv.shifts);
    DoubleContains(iv, d);
    DoubleMul(iv.base, ct);
  }

  lemma TracksFetch(d: seq<byte>, n: nat, iv: Interval, c: int, a: nat, ct: int)
    requires Tracks(d, n, iv, c, a, ct) && ct == 0
    ensures Tracks(d, n + 1, Double(iv), 0x100 * c + ByteAt(d, n), 2 * a, ct + 7)
  {
    NextScale(iv.shifts);
    DoubleContains(iv, d);
    Pow2Masks();
  }

  /** At a decision the code register lies within the scaled interval, whatever the data. */
  lemma TracksSafe(d: seq<byte>, n: nat, iv: Interval, c: int, a: nat, ct: int)
    requires Tracks(d, n, iv, c, a, ct)
    ensures 0 <= ct <= 7 && 0 <= c < a * Pow2(ct)
  {
    MulSum(iv.base, iv.width, Pow2(ct));
  }

  lemma TracksStart(d: seq<byte>)
    ensures Tracks(d, 2, UNIT, Prefix(d, 2), 0x10000, 0)
  {
    UnitContains(d);
  }

  /** One comparison tells which part of the interval the code string is in. */
  lemma TracksDecide(t: Table, d: seq<byte>, n: nat, iv: Interval, c: int, a: nat, ct: int, st: byte)
    requires Tracks(d, n, iv, c, a, ct) && Normal(iv) && ValidState(st)
    ensures var qe, bit := Qe(t, st), Decide(t, iv, st, d);
            var sub := Select(t, iv, st, bit);
            var upper := c >= (a - qe) * Pow2(ct);
            && upper == TakesUpper(t, iv, st, bit)
            && if upper then Tracks(d, n, sub, c - (a - qe) * Pow2(ct), qe, ct)
               else Tracks(d, n, sub, c, a - qe, ct)
  {
    var qe, u := Qe(t, st), Pow2(ct);
    DecideKeeps(t, iv, st, d);
    MulSum(iv.base, a - qe, u);
  }

  class Decoder {
    const table: Table
    const input: seq<byte>
    var pos: nat        // next byte of the input
    var unread: byte    // a marker met in the data, or 0
    var c: nat          // code register
    var a: nat          // size of the interval, possibly not yet renormalized
    var ct: int         // bits read ahead; -16 and -8 while the first two bytes are awaited
    var stats: Statistics

    ghost var data: seq<byte>   // all data bytes of the current segment
    ghost var seen: nat         // how many of them were read
    ghost var end: Cursor       // the marker ending the segment
    ghost var iv: Interval      // the exact interval, not renormalized

    ghost function Cursor_(): Cursor
      reads this`pos, this`unread
    {
      Cursor(pos, unread)
    }

    ghost predicate Reading()
      reads this`pos, this`unread, this`data, this`seen, this`end
    {
      && ValidCursor(input, Cursor_())
      && Remaining(input, Cursor_()) == Drop(data, seen)
      && EndMarker(input, Cursor_()) == end
      && (unread != 0 && unread != EOI ==> pos <= |input|)
    }

    ghost predicate Starting()
      reads this
    {
      a == 0 && (ct == -16 || ct == -8) && seen == (16 + ct) / 8 && c == Prefix(data, seen) && iv == UNIT
    }

    ghost predicate Valid()
      reads this
    {
      Reading() && (Starting() || (Tracks(data, seen, iv, c, a, ct) && 0 < a <= 0x10000))
    }

    /** What encoder and decoder keep in step. */
    ghost function State(): Context
      requires Valid()
      reads this
    {
      Context(Renormalize(iv), stats)
    }

    /** The decoder as a reader of decisions. */
    ghost function Reader(): Stream
      requires Valid()
      reads this
    {
      StreamState(table, data, State())
    }

    constructor (t: Table, input: seq<byte>, pos: nat, stats: Statistics)
      requires pos <= |input|
      ensures Valid() && table == t && this.input == input && Cursor_() == Cursor(pos, 0)
      ensures State() == Context(UNIT, stats) && data == DataBytes(input, pos)
      ensures end == EndMarker(input, Cursor(pos, 0))
    {
      table, this.input, this.stats := t, input, stats;
      this.pos, unread := pos, 0;
      c, a, ct := 0, 0, -16;
      data, seen, iv := DataBytes(input, pos), 0, UNIT;
      end := EndMarker(input, Cursor(pos, 0));
    }

    method GetByte() returns (b: byte)
      modifies this`pos
      ensures b == InputByte(input, old(pos)) && pos == old(pos) + 1
    {
      b := InputByte(input, pos);
      pos := pos + 1;
    }

    /** Reads a data byte, or a marker with fill bytes before it. */
    method ReadToken() returns (marker: bool, b: byte)
      requires pos <= |input|
      modifies this`pos
      ensures NextToken(input, old(pos)) == if marker then Marker(b, pos) else Data(b, pos)
    {
      ghost var p := pos;
      b := GetByte();
      if b != 0xFF {
        return false, b;
      }
      b := GetByte();
      while b == 0xFF
        invariant p + 2 <= pos <= |input| + 2 && b == InputByte(input, pos - 1)
        invariant SkipFill(input, p + 1) == SkipFill(input, pos - 1)
        decreases |input| + 2 - pos
      {
        b := GetByte();
      }
      if b == 0 {
        return false, 0xFF;
      }
      return true, b;
    }

    /** The next data byte; zeros once a marker was met. */
    method FetchByte() returns (b: byte)
      requires Reading()
      modifies this`pos, this`unread, this`seen
      ensures Reading() && seen == old(seen) + 1 && b == ByteAt(data, old(seen))
    {
      DropNext(data, seen);
      seen := seen + 1;
      if unread != 0 {
        return 0;
      }
      var marker;
      marker, b := ReadToken();
      if marker {
        unread := b;
        b := 0;
      }
    }

    /** Renormalization and data input, done just before a decision. */
    method RenormalizeRegisters()
      requires Valid()
      modifies this`pos, this`unread, this`seen, this`c, this`a, this`ct, this`iv
      ensures Valid() && State() == old(State())
      ensures Normal(iv) && Renormalize(iv) == iv && Tracks(data, seen, iv, c, a, ct)
      ensures 0x8000 <= a <= 0x10000 && 0 <= ct <= 7 && c < a * Pow2(ct)
    {
      while a < 0x8000
        invariant Valid() && State() == old(State())
        decreases Starting(), if Starting() then -ct else 0x8000 - a
      {
        Step();
      }
      assert Tracks(data, seen, iv, c, a, ct);
      TracksSafe(data, seen, iv, c, a, ct);
    }

    /** One shift of the interval, fetching a byte when no bits are left. */
    method Step()
      requires Valid() && a < 0x8000
      modifies this`pos, this`unread, this`seen, this`c, this`a, this`ct, this`iv
      ensures Valid() && Renormalize(iv) == old(Renormalize(iv))
      ensures Starting() ==> old(Starting()) && ct > old(ct)
      ensures !Starting() && !old(Starting()) ==> a == 2 * old(a)
    {
      hide Pow2, Contains;
      ghost var wasStarting, iv0, c0, a0, ct0, seen0 := Starting(), iv, c, a, ct, seen;
      ct := ct - 1;
      if ct < 0 {
        var b := FetchByte();
        c := c * 0x100 + b;
        ct := ct + 8;
        if ct < 0 {
          ct := ct + 1;
          if ct == 0 {
            a := 0x8000;
          }
        }
      }
      a := 2 * a;
      if wasStarting {
        if a > 0 {
          TracksStart(data);
        }
      } else {
        iv := Double(iv);
        if ct0 > 0 {
          TracksNoFetch(data, seen, iv0, c0, a0, ct0);
        } else {
          TracksFetch(data, seen0, iv0, c0, a0, ct0);
        }
      }
    }

    /** Compares against the cut point and moves into the part of the interval found. */
    method Narrow(sv: byte) returns (bit: nat, after: byte)
      requires ValidState(sv) && Normal(iv) && Tracks(data, seen, iv, c, a, ct)
      modifies this`c, this`a
      ensures bit == Decide(table, iv, sv, data) && after == Estimate(table, iv, sv, bit)
      ensures Tracks(data, seen, Select(table, iv, sv, bit), c, a, ct) && 0 < a <= 0x10000
    {
      var qe, nl, nm := Fetch(table, sv);
      TracksDecide(table, data, seen, iv, c, a, ct, sv);
      after := sv;
      bit := Mps(sv);
      a := a - qe;
      var temp := ShiftLeft(a, ct);
      if c >= temp {
        c := c - temp;
        if a < qe {
          after := Estimated(sv, nm);
        } else {
          after := Estimated(sv, nl);
          bit := 1 - bit;
        }
        a := qe;
      } else if a < 0x8000 {
        if a < qe {
          after := Estimated(sv, nl);
          bit := 1 - bit;
        } else {
          after := Estimated(sv, nm);
        }
      }
    }

    /** Returns the next decision in a statistics bin. */
    method Decode(bin: Bin) returns (bit: nat)
      requires Valid() && InArea(bin)
      modifies this`pos, this`unread, this`seen, this`c, this`a, this`ct, this`iv, this`stats
      ensures Valid() && bit <= 1
      ensures (bit, Reader()) == Next(old(Reader()), bin)
    {
      hide Decide, Estimate, Select, Tracks, Renormalize;
      RenormalizeRegisters();
      var sv := StateOf(stats, bin);
      var after;
      bit, after := Narrow(sv);
      stats := Store(stats, bin, after);
      iv := Select(table, iv, sv, bit);
    }

    lemma EndReady()
      requires Valid()
      ensures Normal(State().iv) && ValidCursor(input, end) && end.unread != 0
      ensures end.unread != EOI ==> end.pos <= |input|
    {
    }

    /** Passes the restart marker `n` and starts the next segment with the statistics given. */
    method NextSegment(n: nat, stats: Statistics)
      requires Valid() && n < 8
      modifies this
      ensures Valid() && State() == Context(UNIT, stats)
      ensures old(ValidCursor(input, end) && end.unread != 0 && (end.unread != EOI ==> end.pos <= |input|))
      ensures var r := ReadRestart(input, old(end), n); data == Remaining(input, r) && end == EndMarker(input, r)
    {
      hide ReadRestart, Remaining, EndMarker, Tracks, Starting, Renormalize;
      EndReady();
      ReadRestartMarker(n);
      Restart(stats);
    }

    /** Starts reading a fresh segment at the current position (or at a marker still unread). */
    method Restart(stats: Statistics)
      requires ValidCursor(input, Cursor_()) && (unread != 0 && unread != EOI ==> pos <= |input|)
      modifies this
      ensures Valid() && pos == old(pos) && unread == old(unread)
      ensures State() == Context(UNIT, stats)
      ensures data == Remaining(input, Cursor_()) && end == EndMarker(input, Cursor_())
    {
      this.stats := stats;
      c, a, ct := 0, 0, -16;
      data, seen, iv, end := Remaining(input, Cursor_()), 0, UNIT, EndMarker(input, Cursor_());
    }

    /** Finds the next marker, skipping data. */
    method FindMarker()
      requires ValidCursor(input, Cursor_()) && unread == 0
      modifies this`pos, this`unread
      ensures Cursor_() == EndMarker(input, old(Cursor_()))
    {
      ghost var p := pos;
      var marker, b := ReadToken();
      while !marker
        invariant marker ==> NextMarker(input, p) == Marker(b, pos)
        invariant !marker ==> pos <= |input| && NextMarker(input, p) == NextMarker(input, pos)
        decreases !marker, |input| - pos
      {
        marker, b := ReadToken();
      }
      unread := b;
    }

    /** Passes the restart marker `n`, or recovers as best it can. */
    method ReadRestartMarker(n: nat)
      requires Reading() && n < 8
      modifies this`pos, this`unread
      ensures Cursor_() == ReadRestart(input, old(end), n)
    {
      if unread == 0 {
        FindMarker();
      }
      if unread == RST0 + n {
        unread := 0;
      } else {
        ResyncToRestart(n);
      }
    }

    /** Default recovery: skip the marker, scan on, or leave it for later. */
    method ResyncToRestart(desired: nat)
      requires ValidCursor(input, Cursor_()) && unread != 0 && (unread != EOI ==> pos <= |input|) && desired < 8
      modifies this`pos, this`unread
      ensures Cursor_() == Resync(input, old(Cursor_()), desired)
    {
      ghost var s0 := Cursor_();
      while true
        invariant ValidCursor(input, Cursor_()) && unread != 0 && (unread != EOI ==> pos <= |input|)
        invariant Resync(input, Cursor_(), desired) == Resync(input, s0, desired)
        decreases if pos <= |input| then |input| + 1 - pos else 0
      {
        var action;
        if unread < 0xC0 {
          action := 2;
        } else if unread < RST0 || unread > 0xD7 {
          action := 3;
        } else if unread == RST0 + (desired + 1) % 8 || unread == RST0 + (desired + 2) % 8 {
          action := 3;
        } else if unread == RST0 + (desired + 7) % 8 || unread == RST0 + (desired + 6) % 8 {
          action := 2;
        } else {
          action := 1;
        }
        if action == 1 {
          unread := 0;
          return;
        } else if action == 2 {
          unread := 0;
          FindMarker();
        } else {
          return;
        }
      }
    }
  }
}
