/**
 The probability estimation state machine shared by the arithmetic encoder
 and decoder (Table D.3 of ITU-T T.81). The coders are stated over any table
 of this shape; `ARITAB` is the one libjpeg uses.
 */
module ProbabilityTable {
  import opened Bytes

  const LAST_INDEX := 113

  /** Qe_Value, Next_Index_LPS, Next_Index_MPS, Switch_MPS. */
  datatype Row = Row(qe: nat, nextLps: nat, nextMps: nat, switchMps: nat)

  type Entry = e: Row |
      1 <= e.qe < 0x8000 && e.nextLps <= LAST_INDEX && e.nextMps <= LAST_INDEX && e.switchMps <= 1
    witness Row(1, 0, 0, 0)

  type Table = t: seq<Entry> | |t| == LAST_INDEX + 1
    witness seq(114, i => Row(1, 0, 0, 0))

  /** One packed word of the table: Qe, then Next_Index_MPS, then Switch_MPS with Next_Index_LPS. */
  function V(e: Entry): int {
    e.qe * 0x10000 + e.nextMps * 0x100 + e.switchMps * 0x80 + e.nextLps
  }

  /** The low byte, second byte and upper part of a packed word are the fields the coders use. */
  lemma Unpack(e: Entry)
    ensures V(e) % 0x100 == e.switchMps * 0x80 + e.nextLps
    ensures V(e) / 0x100 % 0x100 == e.nextMps
    ensures V(e) / 0x100 / 0x100 == e.qe
  {
    var low := e.switchMps * 0x80 + e.nextLps;
    var rest := e.qe * 0x100 + e.nextMps;
    assert V(e) == rest * 0x100 + low;
    assert V(e) / 0x100 == rest;
  }

  /** A statistics bin: the more probable symbol in the top bit, a table index below. */
  predicate ValidState(st: byte) {
    st % 128 <= LAST_INDEX
  }

  function Mps(st: byte): (bit: nat)
    ensures bit <= 1
  {
    st / 128
  }

  /** Width of the less probable sub-interval. */
  function Qe(t: Table, st: byte): (qe: nat)
    requires ValidState(st)
    ensures 1 <= qe < 0x8000
  {
    t[st % 128].qe
  }

  /** Estimate_after_LPS: the next index, exchanging the symbols' roles where the table says so. */
  function AfterLps(t: Table, st: byte): (st': byte)
    requires ValidState(st)
    ensures ValidState(st')
  {
    (st / 128 + t[st % 128].switchMps) % 2 * 128 + t[st % 128].nextLps
  }

  /** Estimate_after_MPS. */
  function AfterMps(t: Table, st: byte): (st': byte)
    requires ValidState(st)
    ensures ValidState(st') && Mps(st') == Mps(st)
  {
    st / 128 * 128 + t[st % 128].nextMps
  }

  /** `(sv & 0x80) ^ n`: the new state, where the top bit of `n` switches the symbols' roles. */
  function Estimated(sv: byte, n: byte): byte {
    (sv / 128 + n / 128) % 2 * 128 + n % 128
  }

  /** Takes a bin's fields out of its packed word. */
  method Fetch(t: Table, sv: byte) returns (qe: nat, nl: byte, nm: byte)
    requires ValidState(sv)
    ensures qe == Qe(t, sv) && Estimated(sv, nl) == AfterLps(t, sv) && Estimated(sv, nm) == AfterMps(t, sv)
  {
    Unpack(t[sv % 128]);
    qe := V(t[sv % 128]);
    nl := qe % 0x100;
    qe := qe / 0x100;
    nm := qe % 0x100;
    qe := qe / 0x100;
  }

  function E(qe: nat, nextLps: nat, nextMps: nat, switchMps: nat): Entry
    requires 1 <= qe < 0x8000 && nextLps <= LAST_INDEX && nextMps <= LAST_INDEX && switchMps <= 1
  {
    Row(qe, nextLps, nextMps, switchMps)
  }

  /** Nineteen consecutive rows; the table is six such pieces. */
  type Piece = p: seq<Entry> | |p| == 19
    witness seq(19, i => Row(1, 0, 0, 0))

  const ROWS_0_TO_18: Piece := [
    E(0x5a1d, 1, 1, 1), E(0x2586, 14, 2, 0), E(0x1114, 16, 3, 0),
    E(0x080b, 18, 4, 0), E(0x03d8, 20, 5, 0), E(0x01da, 23, 6, 0),
    E(0x00e5, 25, 7, 0), E(0x006f, 28, 8, 0), E(0x0036, 30, 9, 0),
    E(0x001a, 33, 10, 0), E(0x000d, 35, 11, 0), E(0x0006, 9, 12, 0),
    E(0x0003, 10, 13, 0), E(0x0001, 12, 13, 0), E(0x5a7f, 15, 15, 1),
    E(0x3f25, 36, 16, 0), E(0x2cf2, 38, 17, 0), E(0x207c, 39, 18, 0),
    E(0x17b9, 40, 19, 0)
  ]

  const ROWS_19_TO_37: Piece := [
    E(0x1182, 42, 20, 0), E(0x0cef, 43, 21, 0), E(0x09a1, 45, 22, 0),
    E(0x072f, 46, 23, 0), E(0x055c, 48, 24, 0), E(0x0406, 49, 25, 0),
    E(0x0303, 51, 26, 0), E(0x0240, 52, 27, 0), E(0x01b1, 54, 28, 0),
    E(0x0144, 56, 29, 0), E(0x00f5, 57, 30, 0), E(0x00b7, 59, 31, 0),
    E(0x008a, 60, 32, 0), E(0x0068, 62, 33, 0), E(0x004e, 63, 34, 0),
    E(0x003b, 32, 35, 0), E(0x002c, 33, 9, 0), E(0x5ae1, 37, 37, 1),
    E(0x484c, 64, 38, 0)
  ]

  const ROWS_38_TO_56: Piece := [
    E(0x3a0d, 65, 39, 0), E(0x2ef1, 67, 40, 0), E(0x261f, 68, 41, 0),
    E(0x1f33, 69, 42, 0), E(0x19a8, 70, 43, 0), E(0x1518, 72, 44, 0),
    E(0x1177, 73, 45, 0), E(0x0e74, 74, 46, 0), E(0x0bfb, 75, 47, 0),
    E(0x09f8, 77, 48, 0), E(0x0861, 78, 49, 0), E(0x0706, 79, 50, 0),
    E(0x05cd, 48, 51, 0), E(0x04de, 50, 52, 0), E(0x040f, 50, 53, 0),
    E(0x0363, 51, 54, 0), E(0x02d4, 52, 55, 0), E(0x025c, 53, 56, 0),
    E(0x01f8, 54, 57, 0)
  ]

  const ROWS_57_TO_75: Piece := [
    E(0x01a4, 55, 58, 0), E(0x0160, 56, 59, 0), E(0x0125, 57, 60, 0),
    E(0x00f6, 58, 61, 0), E(0x00cb, 59, 62, 0), E(0x00ab, 61, 63, 0),
    E(0x008f, 61, 32, 0), E(0x5b12, 65, 65, 1), E(0x4d04, 80, 66, 0),
    E(0x412c, 81, 67, 0), E(0x37d8, 82, 68, 0), E(0x2fe8, 83, 69, 0),
    E(0x293c, 84, 70, 0), E(0x2379, 86, 71, 0), E(0x1edf, 87, 72, 0),
    E(0x1aa9, 87, 73, 0), E(0x174e, 72, 74, 0), E(0x1424, 72, 75, 0),
    E(0x119c, 74, 76, 0)
  ]

  const ROWS_76_TO_94: Piece := [
    E(0x0f6b, 74, 77, 0), E(0x0d51, 75, 78, 0), E(0x0bb6, 77, 79, 0),
    E(0x0a40, 77, 48, 0), E(0x5832, 80, 81, 1), E(0x4d1c, 88, 82, 0),
    E(0x438e, 89, 83, 0), E(0x3bdd, 90, 84, 0), E(0x34ee, 91, 85, 0),
    E(0x2eae, 92, 86, 0), E(0x299a, 93, 87, 0), E(0x2516, 86, 71, 0),
    E(0x5570, 88, 89, 1), E(0x4ca9, 95, 90, 0), E(0x44d9, 96, 91, 0),
    E(0x3e22, 97, 92, 0), E(0x3824, 99, 93, 0), E(0x32b4, 99, 94, 0),
    E(0x2e17, 93, 86, 0)
  ]

  const ROWS_95_TO_113: Piece := [
    E(0x56a8, 95, 96, 1), E(0x4f46, 101, 97, 0), E(0x47e5, 102, 98, 0),
    E(0x41cf, 103, 99, 0), E(0x3c3d, 104, 100, 0), E(0x375e, 99, 93, 0),
    E(0x5231, 105, 102, 0), E(0x4c0f, 106, 103, 0), E(0x4639, 107, 104, 0),
    E(0x415e, 103, 99, 0), E(0x5627, 105, 106, 1), E(0x50e7, 108, 107, 0),
    E(0x4b85, 109, 103, 0), E(0x5597, 110, 109, 0), E(0x504f, 111, 107, 0),
    E(0x5a10, 110, 111, 1), E(0x5522, 112, 109, 0), E(0x59eb, 112, 111, 1),
    E(0x5a1d, 113, 113, 0)
  ]

  const ARITAB: Table :=
    ROWS_0_TO_18 + ROWS_19_TO_37 + ROWS_38_TO_56
    + ROWS_57_TO_75 + ROWS_76_TO_94 + ROWS_95_TO_113
}
