/**
 The preprocessing buffer that gives the downsampler context rows (jcprepct.c):
 three row groups with wraparound pointers, refilled from input split anyhow.
 */
module ContextRing {
  import opened Products

  type Row = seq<int>

  /** Row `t` of the image, continued above and below by its first and last rows. */
  function Clamped(image: seq<Row>, t: int): Row
    requires image != []
  {
    if t < 0 then image[0] else if t >= |image| then image[|image| - 1] else image[t]
  }

  /** The rows a row group is downsampled from: its own, and a group's worth above and below. */
  function Window(image: seq<Row>, v: nat, first: int): (w: seq<Row>)
    requires image != []
    ensures |w| == 3 * v
  {
    seq(3 * v, j requires 0 <= j < 3 * v => Clamped(image, first - v + j))
  }

  /** The windows of the first `g` row groups. */
  function Windows(image: seq<Row>, v: nat, g: nat): (ws: seq<seq<Row>>)
    requires image != []
    ensures |ws| == g
    decreases g
  {
    if g == 0 then [] else Windows(image, v, g - 1) + [Window(image, v, GroupStart(g - 1, v))]
  }

  /** First image row of a row group. */
  function GroupStart(g: nat, v: nat): nat {
    g * v
  }

  lemma NextGroup(g: nat, v: nat)
    ensures GroupStart(g + 1, v) == GroupStart(g, v) + v && GroupStart(0, v) == 0
  {
    MulSum(g, 1, v);
  }

  /** Physical row a pointer leads to; pointers run from one group above the buffer to one below. */
  function Physical(v: nat, i: int): int {
    if i < 0 then i + 3 * v else if i >= 3 * v then i - 3 * v else i
  }

  /** The pointer array: five row groups of pointers to three row groups of rows. */
  predicate Wrapped(v: nat, fake: seq<nat>) {
    |fake| == 5 * v && forall q :: 0 <= q < 5 * v ==> fake[q] == Physical(v, q - v)
  }

  method CreateContextBuffer(v: nat) returns (fake: array<nat>)
    ensures fresh(fake) && Wrapped(v, fake[..])
  {
    fake := new nat[5 * v](_ => 0);
    for i := 0 to 3 * v
      invariant forall q :: v <= q < v + i ==> fake[q] == q - v
    {
      fake[v + i] := i;
    }
    for i := 0 to v
      invariant forall q :: v <= q < 4 * v ==> fake[q] == q - v
      invariant forall q :: 0 <= q < i ==> fake[q] == 2 * v + q
      invariant forall q :: 4 * v <= q < 4 * v + i ==> fake[q] == q - 4 * v
    {
      fake[i] := 2 * v + i;
      fake[4 * v + i] := i;
    }
  }

  /** Buffer rows below `n` were stored on this lap, from image row `lap` on; the others on the last. */
  predicate Filled(image: seq<Row>, v: nat, buf: seq<Row>, lap: int, n: nat)
    requires image != []
  {
    && |buf| == 3 * v && n <= 3 * v
    && (forall p :: 0 <= p < n ==> buf[p] == Clamped(image, lap + p))
    && (lap + n > 0 ==>
          forall p :: n <= p < 3 * v && lap - 3 * v + p >= 0 - v ==> buf[p] == Clamped(image, lap - 3 * v + p))
  }

  /** Which group comes next, where it is in the ring, and when there is enough to process it. */
  predicate Phase(v: nat, first: int, lap: int, thisRowGroup: nat, nextBufStop: nat) {
    || (thisRowGroup == 0 && nextBufStop == 2 * v && first == lap)
    || (thisRowGroup == v && nextBufStop == 3 * v && first == lap + v)
    || (thisRowGroup == 2 * v && nextBufStop == v && first == lap - v)
  }

  /** When the buffer is filled up to the stop, the pointers around the group lead to its context. */
  lemma HeldRow(image: seq<Row>, v: nat, buf: seq<Row>, lap: int, first: int, this_: nat, stop: nat, j: nat)
    requires v > 0 && image != [] && lap >= 0 && first >= 0 && j < 3 * v
    requires Filled(image, v, buf, lap, stop) && Phase(v, first, lap, this_, stop)
    ensures var p := Physical(v, this_ + j - v); 0 <= p < 3 * v && buf[p] == Clamped(image, first - v + j)
  {
  }

  /** Storing rows one after the other. */
  lemma StoredMore(image: seq<Row>, v: nat, was: seq<Row>, buf: seq<Row>, lap: int, n: nat, m: nat)
    requires image != [] && Filled(image, v, was, lap, n) && n <= m <= 3 * v && |buf| == 3 * v && lap + n > 0
    requires forall p :: n <= p < m ==> buf[p] == Clamped(image, lap + p)
    requires forall p :: 0 <= p < 3 * v && !(n <= p < m) ==> buf[p] == was[p]
    ensures Filled(image, v, buf, lap, m)
  {
  }

  /** The row stored last, at the end of the buffer if the ring has just wrapped. */
  lemma LastRow(image: seq<Row>, v: nat, buf: seq<Row>, lap: int, n: nat)
    requires v > 0 && image != [] && Filled(image, v, buf, lap, n) && lap + n >= |image| && (n == 0 ==> lap >= 3 * v)
    ensures var p := Physical(v, n - 1); 0 <= p < 3 * v && buf[p] == image[|image| - 1]
  {
  }

  /** Moving on to the next group, with both indices wrapping around. */
  lemma NextPhase(image: seq<Row>, v: nat, buf: seq<Row>, lap: int, first: int, this_: nat, stop: nat)
    requires v > 0 && image != [] && lap >= 0 && first >= 0 && (lap > 0 ==> lap >= 3 * v)
    requires Filled(image, v, buf, lap, stop) && Phase(v, first, lap, this_, stop)
    ensures var next, lap' := if stop >= 3 * v then 0 else stop, if stop >= 3 * v then lap + 3 * v else lap;
            && Filled(image, v, buf, lap', next) && lap' + next == lap + stop && (lap' > 0 ==> lap' >= 3 * v)
            && Phase(v, first + v, lap', if this_ + v >= 3 * v then 0 else this_ + v, next + v)
            && lap + stop > 0
  {
  }

  class Prep {
    const v: nat                // rows in a row group
    const height: nat           // rows in the image
    ghost const image: seq<Row>
    const buf: array<Row>
    const fake: array<nat>

    var rowsToGo: nat
    var nextBufRow: nat
    var thisRowGroup: nat
    var nextBufStop: nat

    // What the downsampler has been given.
    var seen: seq<seq<Row>>

    // Image row stored in buffer row 0 on this lap, and first row of the next group.
    ghost var lap: int
    ghost var first: int

    /** Image rows stored so far, with any repeated at the bottom. */
    ghost function Stored(): int
      reads this`lap, this`nextBufRow
    {
      lap + nextBufRow
    }

    ghost predicate Ring()
      reads this`rowsToGo, this`nextBufRow, this`thisRowGroup, this`nextBufStop, this`lap, this`first, this`seen, buf, fake
    {
      && v > 0 && image != [] && height == |image| && lap >= 0 && first >= 0 && (lap > 0 ==> lap >= 3 * v)
      && buf.Length == 3 * v && fake.Length == 5 * v && Wrapped(v, fake[..])
      && Filled(image, v, buf[..], lap, nextBufRow) && Phase(v, first, lap, thisRowGroup, nextBufStop)
      && (first > 0 ==> Stored() > 0)
      && nextBufRow <= nextBufStop && first == GroupStart(|seen|, v) && seen == Windows(image, v, |seen|)
      && (if rowsToGo > 0 then Stored() == |image| - rowsToGo else Stored() >= |image|)
    }

    ghost predicate Valid()
      reads this`rowsToGo, this`nextBufRow, this`thisRowGroup, this`nextBufStop, this`lap, this`first, this`seen, buf, fake
    {
      Ring() && nextBufRow < nextBufStop
    }

    constructor (v: nat, ghost image: seq<Row>, height: nat)
      requires v > 0 && image != [] && height == |image|
      ensures Valid() && this.v == v && this.image == image && rowsToGo == height && seen == []
      ensures fresh(buf) && fresh(fake)
    {
      this.v, this.height, this.image := v, height, image;
      buf := new Row[3 * v](_ => []);
      var pointers := CreateContextBuffer(v);
      fake := pointers;
      rowsToGo, nextBufRow, thisRowGroup, nextBufStop := height, 0, 0, 2 * v;
      seen, lap, first := [], 0, 0;
      NextGroup(0, v);
    }

    /** Repeats the first row above the image, through the pointers above the buffer. */
    method PadTop(n: nat)
      requires v > 0 && image != [] && buf.Length == 3 * v && fake.Length == 5 * v && Wrapped(v, fake[..])
      requires 0 < n <= 2 * v && forall p :: 0 <= p < n ==> buf[p] == Clamped(image, p)
      modifies buf
      ensures Filled(image, v, buf[..], 0, n)
    {
      var row := 1;
      while row <= v
        invariant 1 <= row <= v + 1
        invariant forall p :: 0 <= p < n ==> buf[p] == Clamped(image, p)
        invariant forall p :: 3 * v - row < p < 3 * v ==> buf[p] == image[0]
      {
        assert fake[..][v - row] == 3 * v - row && fake[..][v] == 0;
        assert buf[0] == image[0];
        buf[fake[v - row]] := buf[fake[v]];
        row := row + 1;
      }
    }

    /** Converts input rows into the buffer. */
    method ConvertRows(rows: seq<Row>)
      requires image != [] && buf.Length == 3 * v && nextBufRow + |rows| <= 3 * v
      requires 0 <= lap && Stored() + |rows| <= |image| && rows == image[Stored()..Stored() + |rows|]
      modifies buf
      ensures forall p :: 0 <= p < 3 * v && !(nextBufRow <= p < nextBufRow + |rows|) ==> buf[p] == old(buf[p])
      ensures forall p :: nextBufRow <= p < nextBufRow + |rows| ==> buf[p] == Clamped(image, lap + p)
    {
      for k := 0 to |rows|
        invariant forall p :: 0 <= p < 3 * v && !(nextBufRow <= p < nextBufRow + k) ==> buf[p] == old(buf[p])
        invariant forall p :: nextBufRow <= p < nextBufRow + k ==> buf[p] == Clamped(image, lap + p)
      {
        assert rows[k] == Clamped(image, lap + nextBufRow + k);
        buf[nextBufRow + k] := rows[k];
      }
    }

    /** Stores input rows, and rows above the image if they are the first. */
    method StoreRows(rows: seq<Row>)
      requires v > 0 && image != [] && height == |image| && buf.Length == 3 * v && fake.Length == 5 * v && Wrapped(v, fake[..])
      requires Filled(image, v, buf[..], lap, nextBufRow) && lap >= 0 && nextBufRow + |rows| <= 3 * v && 0 < |rows|
      requires rowsToGo == height ==> Stored() == 0 && |rows| <= 2 * v
      requires rowsToGo != height ==> Stored() > 0
      requires Stored() + |rows| <= |image| && rows == image[Stored()..Stored() + |rows|]
      modifies buf
      ensures Filled(image, v, buf[..], lap, nextBufRow + |rows|)
    {
      hide Filled, Wrapped, Clamped;
      ghost var was := buf[..];
      ConvertRows(rows);
      if rowsToGo == height {
        PadTop(|rows|);
      } else {
        StoredMore(image, v, was, buf[..], lap, nextBufRow, nextBufRow + |rows|);
      }
    }

    /** Takes input rows into the ring. */
    method ReadRows(rows: seq<Row>)
      requires Valid() && 0 < |rows| <= rowsToGo && nextBufRow + |rows| <= nextBufStop
      requires Stored() + |rows| <= |image| && rows == image[Stored()..Stored() + |rows|]
      modifies this`rowsToGo, this`nextBufRow, buf
      ensures Ring() && nextBufRow == old(nextBufRow) + |rows| && rowsToGo == old(rowsToGo) - |rows|
    {
      hide Phase, Windows, Filled, Wrapped, GroupStart, Clamped;
      GroupInRing(v, first, lap, thisRowGroup, nextBufStop);
      StoreRows(rows);
      rowsToGo := rowsToGo - |rows|;
      nextBufRow := nextBufRow + |rows|;
    }

    /** Copies the row before `from` down to row `to`, exclusive. */
    method CopyDown(from: nat, to: nat)
      requires v > 0 && image != [] && buf.Length == 3 * v && fake.Length == 5 * v && Wrapped(v, fake[..])
      requires from <= to <= 3 * v && lap + from >= |image| && lap >= 0
      requires from < to ==> buf[Physical(v, from - 1)] == image[|image| - 1]
      modifies buf
      ensures forall q :: 0 <= q < 3 * v && !(from <= q < to) ==> buf[q] == old(buf[q])
      ensures forall q :: from <= q < to ==> buf[q] == Clamped(image, lap + q)
    {
      ghost var p := Physical(v, from - 1);
      var row := from;
      while row < to
        invariant from <= row <= to && (row < to ==> buf[p] == image[|image| - 1])
        invariant forall q :: 0 <= q < 3 * v && !(from <= q < row) ==> buf[q] == old(buf[q])
        invariant forall q :: from <= q < row ==> buf[q] == Clamped(image, lap + q)
      {
        assert fake[..][v + row] == row && fake[..][v + from - 1] == p;
        buf[fake[v + row]] := buf[fake[v + from - 1]];
        row := row + 1;
      }
    }

    /** Below the image, repeats the row stored last. */
    method ExpandBottom()
      requires Valid() && rowsToGo == 0
      modifies this`nextBufRow, buf
      ensures Ring() && nextBufRow == nextBufStop
    {
      hide Phase, Windows, Filled, Wrapped, GroupStart, Clamped;
      ghost var was := buf[..];
      GroupInRing(v, first, lap, thisRowGroup, nextBufStop);
      LastRow(image, v, was, lap, nextBufRow);
      CopyDown(nextBufRow, nextBufStop);
      StoredMore(image, v, was, buf[..], lap, nextBufRow, nextBufStop);
      nextBufRow := nextBufStop;
    }

    /** What the downsampler sees through the pointers around the current group. */
    method ContextRows() returns (rows: seq<Row>)
      requires Ring() && nextBufRow == nextBufStop
      ensures rows == Window(image, v, first)
    {
      hide Filled, Phase, Windows, GroupStart;
      rows := [];
      ghost var window := Window(image, v, first);
      var j := 0;
      while j < 3 * v
        invariant 0 <= j <= 3 * v && rows == window[..j]
      {
        HeldRow(image, v, buf[..], lap, first, thisRowGroup, nextBufStop, j);
        GroupInRing(v, first, lap, thisRowGroup, nextBufStop);
        assert fake[..][thisRowGroup + j] == Physical(v, thisRowGroup + j - v);
        rows := rows + [buf[fake[thisRowGroup + j]]];
        j := j + 1;
      }
    }

    lemma GroupInRing(v: nat, first: int, lap: int, this_: nat, stop: nat)
      requires Phase(v, first, lap, this_, stop)
      ensures this_ <= 2 * v && stop <= 3 * v && (first == 0 && lap == 0 && v > 0 ==> stop == 2 * v)
    {
    }

    /** Hands the downsampler the current group with its context, and moves on. */
    method Downsample()
      requires Ring() && nextBufRow == nextBufStop
      modifies this`nextBufRow, this`thisRowGroup, this`nextBufStop, this`seen, this`lap, this`first
      ensures Valid() && |seen| == |old(seen)| + 1 && Stored() == old(Stored())
    {
      hide Wrapped, GroupStart, Filled, Phase;
      var rows := ContextRows();
      NextPhase(image, v, buf[..], lap, first, thisRowGroup, nextBufStop);
      NextGroup(|seen|, v);
      seen := seen + [rows];
      assert seen[..|seen| - 1] == old(seen);
      first := first + v;
      thisRowGroup := thisRowGroup + v;
      if thisRowGroup >= 3 * v {
        thisRowGroup := 0;
      }
      if nextBufRow >= 3 * v {
        nextBufRow := 0;
        lap := lap + 3 * v;
      }
      nextBufStop := nextBufRow + v;
    }

    /**
     Processes what input there is, as far as the output has room. Whatever the
     split of the input, each row group is downsampled from the image rows around it.
     */
    method PreProcess(input: seq<Row>, inRowCtr: nat, inRowsAvail: nat, outCtr: nat, outAvail: nat)
      returns (inRow: nat, out: nat)
      requires Valid() && inRowCtr <= inRowsAvail <= |input| && inRowsAvail - inRowCtr <= rowsToGo && outCtr <= outAvail
      requires forall k :: inRowCtr <= k < inRowsAvail ==> input[k] == image[|image| - rowsToGo + (k - inRowCtr)]
      modifies this`rowsToGo, this`nextBufRow, this`thisRowGroup, this`nextBufStop, this`seen, this`lap, this`first, buf
      ensures Valid() && inRowCtr <= inRow <= inRowsAvail && outCtr <= out <= outAvail
      ensures rowsToGo == old(rowsToGo) - (inRow - inRowCtr)
      ensures |seen| == |old(seen)| + (out - outCtr) && seen == Windows(image, v, |seen|)
      ensures out < outAvail ==> inRow == inRowsAvail && rowsToGo > 0
    {
      hide Filled, Phase, Wrapped, Windows, GroupStart;
      inRow, out := inRowCtr, outCtr;
      while out < outAvail
        invariant Valid() && inRowCtr <= inRow <= inRowsAvail && outCtr <= out <= outAvail
        invariant rowsToGo == old(rowsToGo) - (inRow - inRowCtr)
        invariant |seen| == |old(seen)| + (out - outCtr)
        decreases outAvail - out, inRowsAvail - inRow
      {
        if inRow < inRowsAvail {
          var inrows := inRowsAvail - inRow;
          var numrows := if nextBufStop - nextBufRow < inrows then nextBufStop - nextBufRow else inrows;
          ghost var at := Stored();
          assert forall k :: inRow <= k < inRow + numrows ==> input[k] == image[at + (k - inRow)];
          assert input[inRow..inRow + numrows] == image[at..at + numrows];
          ReadRows(input[inRow..inRow + numrows]);
          inRow := inRow + numrows;
        } else {
          if rowsToGo != 0 {
            break;
          }
          if nextBufRow < nextBufStop {
            ExpandBottom();
          }
        }
        if nextBufRow == nextBufStop {
          Downsample();
          out := out + 1;
        }
      }
    }
  }
}
