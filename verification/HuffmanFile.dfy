/**
 From bytes: the segments of a Huffman-coded scan, found between their markers, and
 read back.
 */
module HuffmanFile {
  import opened Bytes
  import opened SegmentSource
  import opened ScanModel
  import opened HuffmanWords
  import opened HuffmanBits
  import opened HuffmanItems
  import opened HuffmanStream
  import opened HuffmanEncoder
  import opened HuffmanReading
  import opened HuffmanTape
  import opened HuffmanRoundTrip

  /** The data of a segment and of `count` more, each after the restart marker that is due. */
  function DataSegments(input: seq<byte>, pos: nat, count: nat, num: nat): seq<seq<byte>>
    requires pos <= |input|
    decreases count
  {
    [DataBytes(input, pos)]
    + if count == 0 then [] else
      var next := SegmentSource.ReadRestart(input, Cursor(pos, 0), num % 8);
      if next.unread != 0 then [] else DataSegments(input, next.pos, count - 1, num + 1)
  }

  /** Finished segments and their markers, the first one with the number given. */
  function WrittenFrom(segs: seq<seq<byte>>, num: nat): seq<byte>
    decreases |segs|
  {
    if segs == [] then [] else WithMarker(segs[0], num) + WrittenFrom(segs[1..], num + 1)
  }

  lemma {:induction false} WrittenLast(segs: seq<seq<byte>>, d: seq<byte>, num: nat)
    ensures WrittenFrom(segs + [d], num) == WrittenFrom(segs, num) + WithMarker(d, num + |segs|)
    decreases |segs|
  {
    hide WithMarker;
    if segs == [] {
      assert segs + [d] == [d] && [d][1..] == [];
      assert WithMarker(d, num) + [] == [] + WithMarker(d, num);
    } else {
      assert (segs + [d])[1..] == segs[1..] + [d] && (segs + [d])[0] == segs[0];
      WrittenLast(segs[1..], d, num + 1);
      SeqAssoc(WithMarker(segs[0], num), WrittenFrom(segs[1..], num + 1), WithMarker(d, num + |segs|));
    }
  }

  lemma {:induction false} WrittenForward(segs: seq<seq<byte>>)
    ensures Written(segs) == WrittenFrom(segs, 0)
    decreases |segs|
  {
    hide WithMarker;
    if segs != [] {
      var n := |segs| - 1;
      WrittenForward(segs[..n]);
      assert segs == segs[..n] + [segs[n]];
      WrittenLast(segs[..n], segs[n], 0);
    }
  }

  /** The bytes at a position. */
  predicate BytesAt(input: seq<byte>, pos: nat, d: seq<byte>) {
    pos + |d| <= |input| && input[pos..pos + |d|] == d
  }

  lemma BytesBoth(input: seq<byte>, pos: nat, a: seq<byte>, b: seq<byte>)
    requires BytesAt(input, pos, a + b)
    ensures BytesAt(input, pos, a) && BytesAt(input, pos + |a|, b)
  {
    assert input[pos..pos + |a|] == input[pos..pos + |a + b|][..|a|];
    assert input[pos + |a|..pos + |a + b|] == input[pos..pos + |a + b|][|a|..];
  }

  lemma MarkedSegment(input: seq<byte>, pos: nat, d: seq<byte>, m: byte)
    requires BytesAt(input, pos, Stuff(d) + [0xFF, m])
    ensures SegmentAt(input, pos, d, m)
  {
    hide Stuff;
    BytesBoth(input, pos, Stuff(d), [0xFF, m]);
    var q := pos + |Stuff(d)|;
    assert input[q] == input[q..q + 2][0] && input[q + 1] == input[q..q + 2][1];
  }

  lemma PassMarker(input: seq<byte>, pos: nat, d: seq<byte>, num: nat)
    requires BytesAt(input, pos, WithMarker(d, num))
    ensures pos + |WithMarker(d, num)| <= |input| && DataBytes(input, pos) == d
    ensures SegmentSource.ReadRestart(input, Cursor(pos, 0), num % 8) == Cursor(pos + |WithMarker(d, num)|, 0)
  {
    MarkedSegment(input, pos, d, 0xD0 + num % 8);
    DataBytesOfStuffed(input, pos, d, 0xD0 + num % 8);
    hide Stuff, DataBytes, NextMarker;
  }

  lemma LastFound(input: seq<byte>, pos: nat, data: seq<byte>, num: nat, m: byte)
    requires m != 0 && m != 0xFF && BytesAt(input, pos, Stuff(data) + [0xFF, m])
    ensures pos <= |input| && DataSegments(input, pos, 0, num) == [data]
  {
    hide Stuff, DataBytes;
    MarkedSegment(input, pos, data, m);
    DataBytesOfStuffed(input, pos, data, m);
  }

  lemma NextFound(input: seq<byte>, pos: nat, count: nat, num: nat, d: seq<byte>)
    requires count > 0 && BytesAt(input, pos, WithMarker(d, num))
    ensures pos + |WithMarker(d, num)| <= |input|
    ensures DataSegments(input, pos, count, num)
            == [d] + DataSegments(input, pos + |WithMarker(d, num)|, count - 1, num + 1)
  {
    hide Stuff, WithMarker, DataBytes, NextMarker, BytesAt, SegmentSource.ReadRestart;
    PassMarker(input, pos, d, num);
  }

  /** Segments written with their markers are found again, whatever follows the marker after the last. */
  lemma {:induction false} SegmentsFound(input: seq<byte>, pos: nat, segs: seq<seq<byte>>, data: seq<byte>, num: nat, m: byte)
    requires m != 0 && m != 0xFF && BytesAt(input, pos, WrittenFrom(segs, num) + (Stuff(data) + [0xFF, m]))
    ensures pos <= |input| && DataSegments(input, pos, |segs|, num) == segs + [data]
    decreases |segs|
  {
    hide Stuff, WithMarker, BytesAt, DataSegments;
    var last := Stuff(data) + [0xFF, m];
    if segs == [] {
      assert WrittenFrom(segs, num) + last == last;
      LastFound(input, pos, data, num, m);
    } else {
      var w, rest := WithMarker(segs[0], num), WrittenFrom(segs[1..], num + 1);
      SeqAssoc(w, rest, last);
      BytesBoth(input, pos, w, rest + last);
      NextFound(input, pos, |segs|, num, segs[0]);
      SegmentsFound(input, pos + |w|, segs[1..], data, num + 1, m);
      assert [segs[0]] + (segs[1..] + [data]) == segs + [data];
    }
  }

  function Padding(dc: seq<Table>, ac: seq<Table>, items: seq<Item>): seq<bit>
    requires TablesOk(dc, ac) && Covered(dc, ac, items)
  {
    Ones((8 - |SpellItems(dc, ac, items)| % 8) % 8)
  }

  predicate PrefixCodes(dc: seq<Table>, ac: seq<Table>) {
    && |dc| == NUM_HUFF_TBLS && |ac| == NUM_HUFF_TBLS
    && forall i :: 0 <= i < NUM_HUFF_TBLS ==> PrefixCode(dc[i]) && PrefixCode(ac[i])
  }

  function BitsOfAll(ds: seq<seq<byte>>): (r: seq<seq<bit>>)
    ensures |r| == |ds|
  {
    seq(|ds|, i requires 0 <= i < |ds| => BitsOf(ds[i]))
  }

  /** What is stored is a scan as its reader takes it. */
  lemma StoredScan(dc: seq<Table>, ac: seq<Table>, out: seq<byte>, done: seq<seq<Item>>, last: seq<Item>,
                   segs: seq<seq<byte>>, data: seq<byte>) returns (sc: Scan)
    requires Stored(dc, ac, out, done, last, segs, data) && PrefixCodes(dc, ac)
    ensures ValidScan(sc) && ValidCodes(sc.codes) && sc.codes == Codes(dc, ac) && sc.segments == done + [last]
    ensures BitsFrom(sc, 0) == BitsOfAll(segs + [data])
    ensures exists n :: sc.pads[|sc.pads| - 1] == Ones(n)
  {
    hide SpellItems, PrefixCode, BitsOf, Written, Stuff, Writable, TableOk;
    var segments, ds := done + [last], segs + [data];
    forall j | 0 <= j < |segments| ensures Covered(dc, ac, segments[j]) && Packed(ds[j], SpellItems(dc, ac, segments[j])) {
      if j < |done| {
        assert segments[j] == done[j] && ds[j] == segs[j];
      }
    }
    var pads := seq(|segments|, j requires 0 <= j < |segments| => Padding(dc, ac, segments[j]));
    sc := Scan(Codes(dc, ac), segments, pads);
    forall j | 0 <= j < |segments| ensures ValidTape(TapeOf(sc, j)) && Left(TapeOf(sc, j), 0) == BitsOf(ds[j]) {
      assert segments[j][0..] == segments[j];
    }
    assert BitsFrom(sc, 0) == BitsOfAll(ds);
    assert exists n :: sc.pads[|sc.pads| - 1] == Ones(n);
  }

  /** A scan read from a file, from a position on. */
  function DecodeFile(c: Config, t: Codes, input: seq<byte>, pos: nat, restarts: nat, zs: seq<seq<McuBlock>>)
    : Result<seq<seq<McuBlock>>>
    requires ValidConfig(c) && ValidCodes(t) && ValidMcus(c, zs) && pos <= |input|
  {
    DecodeScan(c, t, BitsOfAll(DataSegments(input, pos, restarts, 0)), zs)
  }

  /**
   The bytes of a scan, wherever they stand in a file, followed by any marker: the
   decoder finds the segments and gives every block back, down to the bit position
   sent. This holds for all five procedures, any tables and any restart interval.
   */
  lemma FileReads(c: Config, dc: seq<Table>, ac: seq<Table>, out: seq<byte>, done: seq<seq<Item>>, last: seq<Item>,
                  segs: seq<seq<byte>>, data: seq<byte>, input: seq<byte>, pos: nat, m: byte,
                  ms: seq<seq<McuBlock>>, zs: seq<seq<McuBlock>>)
    requires ValidConfig(c) && ValidMcus(c, ms) && ScanInRange(c, Start(c), ms) && McusReady(c.kind, zs, ms)
    requires Stored(dc, ac, out, done, last, segs, data) && PrefixCodes(dc, ac) && done + [last] == Segments(c, ms)
    requires m != 0 && m != 0xFF && BytesAt(input, pos, out + [0xFF, m])
    ensures ValidCodes(Codes(dc, ac)) && ValidMcus(c, zs) && pos <= |input|
    ensures var r := DecodeFile(c, Codes(dc, ac), input, pos, |segs|, zs);
            && r.Ok? && r.v == McusAfter(c.kind, zs, ms) && r.rd.eobrun == 0 && r.rd.more == []
            && exists n :: r.rd.bits == Ones(n)
  {
    var sc := StoredScan(dc, ac, out, done, last, segs, data);
    hide ScanInRange, McusReady, McusAfter, ValidScan, PrefixCodes, Segments, DecodeScan, DataSegments, DataBytes, ValidMcus,
      Written, Stuff, BitsFrom;
    ScanReads(c, sc, ms, zs);
    WrittenForward(segs);
    assert out == Written(segs) + Stuff(data);
    SeqAssoc(Written(segs), Stuff(data), [0xFF, m]);
    SegmentsFound(input, pos, segs, data, 0, m);
  }
}
