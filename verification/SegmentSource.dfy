/**
 Entropy-coded segments as a data source delivers them: stuffed bytes up to a
 marker, where reading past the end of the file yields a fake EOI marker.
 */
module SegmentSource {
  import opened Bytes

  const EOI: byte := 0xD9
  const RST0: byte := 0xD0

  /** What is found at a position: a data byte or a marker, and where reading goes on. */
  datatype Token = Data(b: byte, next: nat) | Marker(m: byte, next: nat)

  /** Reading beyond the file delivers 0xFF, EOI over and over. */
  function InputByte(input: seq<byte>, pos: nat): byte {
    if pos < |input| then input[pos] else if (pos - |input|) % 2 == 0 then 0xFF else EOI
  }

  /** First position at or after `pos` not holding 0xFF. */
  function SkipFill(input: seq<byte>, pos: nat): (q: nat)
    requires pos <= |input| + 1
    ensures pos <= q <= |input| + 1 && InputByte(input, q) != 0xFF
    decreases |input| + 1 - pos
  {
    if InputByte(input, pos) != 0xFF then pos
    else SkipFill(input, pos + 1)
  }

  function NextToken(input: seq<byte>, pos: nat): (t: Token)
    requires pos <= |input|
    ensures t.Data? ==> pos < t.next <= |input|
    ensures t.Marker? ==> t.m != 0 && t.m != 0xFF && t.next > pos
  {
    if InputByte(input, pos) != 0xFF then Data(input[pos], pos + 1)
    else
      var q := SkipFill(input, pos + 1);
      var b := InputByte(input, q);
      if b == 0 then Data(0xFF, q + 1) else Marker(b, q + 1)
  }

  /** The data bytes from `pos` up to the next marker, stuffing removed. */
  function DataBytes(input: seq<byte>, pos: nat): seq<byte>
    requires pos <= |input|
    decreases |input| - pos
  {
    match NextToken(input, pos)
    case Data(b, next) => [b] + DataBytes(input, next)
    case Marker(_, _) => []
  }

  /** The next marker after `pos`. */
  function NextMarker(input: seq<byte>, pos: nat): (t: Token)
    requires pos <= |input|
    ensures t.Marker? && t.m != 0 && t.m != 0xFF && t.next > pos
    ensures t.m != EOI ==> t.next <= |input|
    decreases |input| - pos
  {
    match NextToken(input, pos)
    case Data(_, next) => NextMarker(input, next)
    case Marker(m, next) => Marker(m, next)
  }

  /** Stuffed data stands at `p`, and a marker right after it. */
  predicate SegmentAt(input: seq<byte>, p: nat, d: seq<byte>, m: byte) {
    var q := p + |Stuff(d)|;
    q + 2 <= |input| && input[p..q] == Stuff(d) && input[q] == 0xFF && input[q + 1] == m
  }

  lemma SegmentHead(input: seq<byte>, p: nat, d: seq<byte>, m: byte)
    requires d != [] && SegmentAt(input, p, d, m)
    ensures p + |StuffByte(d[0])| <= |input|
    ensures NextToken(input, p) == Data(d[0], p + |StuffByte(d[0])|)
    ensures SegmentAt(input, p + |StuffByte(d[0])|, d[1..], m)
  {
    StuffHead(d);
    var h, t := StuffByte(d[0]), Stuff(d[1..]);
    var q := p + |h| + |t|;
    assert input[p..q] == h + t;
    assert input[p..q][..|h|] == h && input[p..q][|h|..] == t;
    assert input[p + |h|..q] == input[p..q][|h|..];
    assert input[p] == input[p..q][0] == d[0];
    if d[0] == 0xFF {
      assert input[p + 1] == input[p..q][1] == 0;
    }
  }

  lemma SegmentEnd(input: seq<byte>, p: nat, m: byte)
    requires m != 0 && m != 0xFF && SegmentAt(input, p, [], m)
    ensures NextToken(input, p) == Marker(m, p + 2)
  {
    assert SkipFill(input, p + 1) == p + 1;
  }

  lemma TokenIsData(input: seq<byte>, p: nat, b: byte, next: nat)
    requires p <= |input| && NextToken(input, p) == Data(b, next)
    ensures p < next <= |input| && DataBytes(input, p) == [b] + DataBytes(input, next)
    ensures NextMarker(input, p) == NextMarker(input, next)
  {
    hide SkipFill, InputByte;
  }

  lemma TokenIsMarker(input: seq<byte>, p: nat, m: byte, next: nat)
    requires p <= |input| && NextToken(input, p) == Marker(m, next)
    ensures DataBytes(input, p) == [] && NextMarker(input, p) == Marker(m, next)
  {
    hide SkipFill, InputByte;
  }

  /** Data written by an encoder, followed by a marker, is read back exactly, up to that marker. */
  lemma {:induction false} DataBytesOfStuffed(input: seq<byte>, p: nat, d: seq<byte>, m: byte)
    requires m != 0 && m != 0xFF && SegmentAt(input, p, d, m)
    ensures DataBytes(input, p) == d
    ensures NextMarker(input, p) == Marker(m, p + |Stuff(d)| + 2)
    decreases |d|
  {
    hide NextToken, DataBytes, NextMarker;
    if d == [] {
      SegmentEnd(input, p, m);
      TokenIsMarker(input, p, m, p + 2);
    } else {
      var p' := p + |StuffByte(d[0])|;
      SegmentHead(input, p, d, m);
      TokenIsData(input, p, d[0], p');
      StuffHead(d);
      hide Stuff, SegmentAt;
      DataBytesOfStuffed(input, p', d[1..], m);
      assert d == [d[0]] + d[1..];
    }
  }

  // ----- restart markers (jdmarker.c)

  /** What is left to read: a position, with a marker just before it still unread unless 0. */
  datatype Cursor = Cursor(pos: nat, unread: byte)

  predicate ValidCursor(input: seq<byte>, s: Cursor) {
    s.unread != 0xFF && (s.unread == 0 ==> s.pos <= |input|)
  }

  function Remaining(input: seq<byte>, s: Cursor): seq<byte>
    requires ValidCursor(input, s)
  {
    if s.unread != 0 then [] else DataBytes(input, s.pos)
  }

  /** The marker that ends the current segment, read or not. */
  function EndMarker(input: seq<byte>, s: Cursor): (r: Cursor)
    requires ValidCursor(input, s)
    ensures ValidCursor(input, r) && r.unread != 0
  {
    if s.unread != 0 then s else
    var t := NextMarker(input, s.pos);
    Cursor(t.next, t.m)
  }

  /** The recovery taken when some other marker stands where RSTn is wanted. */
  function Resync(input: seq<byte>, s: Cursor, desired: nat): (r: Cursor)
    requires ValidCursor(input, s) && s.unread != 0 && desired < 8
    requires s.unread != EOI ==> s.pos <= |input|
    ensures ValidCursor(input, r)
    ensures r.unread != 0 && r.unread != EOI ==> r.pos <= |input|
    decreases if s.pos <= |input| then |input| + 1 - s.pos else 0, 2
  {
    var m := s.unread;
    if m < 0xC0 then ScanOn(input, s, desired)
    else if m < RST0 || m > 0xD7 then s
    else if m == RST0 + (desired + 1) % 8 || m == RST0 + (desired + 2) % 8 then s
    else if m == RST0 + (desired + 7) % 8 || m == RST0 + (desired + 6) % 8 then ScanOn(input, s, desired)
    else Cursor(s.pos, 0)
  }

  function ScanOn(input: seq<byte>, s: Cursor, desired: nat): (r: Cursor)
    requires ValidCursor(input, s) && s.unread != 0 && desired < 8 && s.pos <= |input|
    ensures ValidCursor(input, r)
    ensures r.unread != 0 && r.unread != EOI ==> r.pos <= |input|
    decreases |input| + 1 - s.pos, 1
  {
    var t := NextMarker(input, s.pos);
    Resync(input, Cursor(t.next, t.m), desired)
  }

  /** How far ahead of the restart wanted another one is, in the cycle of eight. */
  function Lead(m: byte, desired: nat): (d: nat)
    requires RST0 <= m <= 0xD7 && desired < 8
    ensures d < 8
  {
    (m - RST0 + 8 - desired) % 8
  }

  predicate IsRestart(m: byte) {
    RST0 <= m <= 0xD7
  }

  /** The first marker, from the one in hand on, that recovery does not pass over. */
  function Stopper(input: seq<byte>, s: Cursor, desired: nat): (r: Cursor)
    requires ValidCursor(input, s) && s.unread != 0 && desired < 8
    requires s.unread != EOI ==> s.pos <= |input|
    ensures ValidCursor(input, r) && r.unread != 0
    decreases if s.pos <= |input| then |input| + 1 - s.pos else 0
  {
    if (s.unread < 0xC0 || (IsRestart(s.unread) && Lead(s.unread, desired) >= 6)) && s.pos <= |input| then
      var t := NextMarker(input, s.pos);
      Stopper(input, Cursor(t.next, t.m), desired)
    else s
  }

  lemma LeadIs(m: byte, desired: nat, k: nat)
    requires IsRestart(m) && desired < 8 && k < 8
    ensures m == RST0 + (desired + k) % 8 <==> Lead(m, desired) == k
  {
  }

  /** What recovery does with the marker in hand. */
  lemma ResyncStep(input: seq<byte>, s: Cursor, desired: nat)
    requires ValidCursor(input, s) && s.unread != 0 && desired < 8
    requires s.unread != EOI ==> s.pos <= |input|
    ensures var m := s.unread;
            Resync(input, s, desired)
            == if m < 0xC0 || (IsRestart(m) && Lead(m, desired) >= 6) then ScanOn(input, s, desired)
               else if IsRestart(m) && (Lead(m, desired) == 0 || Lead(m, desired) >= 3) then Cursor(s.pos, 0)
               else s
  {
    hide Lead, ScanOn;
    if IsRestart(s.unread) {
      LeadIs(s.unread, desired, 1);
      LeadIs(s.unread, desired, 2);
      LeadIs(s.unread, desired, 6);
      LeadIs(s.unread, desired, 7);
    }
  }

  /**
   Recovery passes over invalid markers and over the last two restarts; it keeps the
   next two, and any other marker, for later; and it takes any other restart for the
   one wanted.
   */
  lemma {:induction false} ResyncIs(input: seq<byte>, s: Cursor, desired: nat)
    requires ValidCursor(input, s) && s.unread != 0 && desired < 8
    requires s.unread != EOI ==> s.pos <= |input|
    ensures var e := Stopper(input, s, desired);
            && e.unread >= 0xC0 && (IsRestart(e.unread) ==> Lead(e.unread, desired) <= 5)
            && Resync(input, s, desired)
               == if IsRestart(e.unread) && (Lead(e.unread, desired) == 0 || Lead(e.unread, desired) >= 3)
                  then Cursor(e.pos, 0) else e
    decreases if s.pos <= |input| then |input| + 1 - s.pos else 0
  {
    hide Lead, Resync, NextMarker;
    ResyncStep(input, s, desired);
    if s.unread < 0xC0 || (IsRestart(s.unread) && Lead(s.unread, desired) >= 6) {
      var t := NextMarker(input, s.pos);
      ResyncIs(input, Cursor(t.next, t.m), desired);
    }
  }

  /** Passes the marker RSTn if it comes next. */
  function ReadRestart(input: seq<byte>, s: Cursor, n: nat): (r: Cursor)
    requires ValidCursor(input, s) && n < 8
    requires s.unread != 0 && s.unread != EOI ==> s.pos <= |input|
    ensures ValidCursor(input, r)
    ensures r.unread != 0 && r.unread != EOI ==> r.pos <= |input|
  {
    var e := EndMarker(input, s);
    if e.unread == RST0 + n then Cursor(e.pos, 0) else Resync(input, e, n)
  }
}
