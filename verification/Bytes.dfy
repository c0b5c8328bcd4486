/**
 Byte strings read as big-endian numbers, powers of two, and the 0xFF byte
 stuffing that keeps entropy-coded data apart from markers.
 */
module Bytes {

  type byte = x: int | 0 <= x < 256

  function Pow2(n: nat): (p: nat)
    ensures p > 0
  {
    if n == 0 then 1 else 2 * Pow2(n - 1)
  }

  /** `x << n` without loss of high bits. */
  function ShiftLeft(x: nat, n: nat): nat {
    x * Pow2(n)
  }

  lemma {:induction false} Pow2Add(m: nat, n: nat)
    ensures Pow2(m + n) == Pow2(m) * Pow2(n)
  {
    if m == 0 {
    } else {
      Pow2Add(m - 1, n);
      assert Pow2(m + n) == 2 * Pow2(m - 1 + n);
      assert 2 * (Pow2(m - 1) * Pow2(n)) == (2 * Pow2(m - 1)) * Pow2(n);
    }
  }

  /** The powers that occur as register masks. */
  lemma Pow2Masks()
    ensures Pow2(0) == 1 && Pow2(1) == 2 && Pow2(5) == 32 && Pow2(7) == 128 && Pow2(8) == 0x100 && Pow2(11) == 0x800
    ensures Pow2(14) == 0x4000 && Pow2(15) == 0x8000
    ensures Pow2(16) == 0x10000 && Pow2(19) == 0x80000 && Pow2(24) == 0x1000000 && Pow2(27) == 0x8000000
    ensures Pow2(32) == 0x1_0000_0000
  {
    assert Pow2(5) == 32 && Pow2(8) == 256;
    Pow2Add(3, 8);
    Pow2Add(8, 8);
    Pow2Add(8, 11);
    Pow2Add(8, 16);
    Pow2Add(8, 19);
    Pow2Add(5, 27);
  }

  lemma {:induction false} Pow2Monotone(m: nat, n: nat)
    requires m <= n
    ensures Pow2(m) <= Pow2(n)
    decreases n
  {
    if m < n {
      Pow2Monotone(m, n - 1);
    }
  }

  /** The `i`-th byte of `d`, where `d` is continued by zero bytes for ever. */
  function ByteAt(d: seq<byte>, i: nat): byte {
    if i < |d| then d[i] else 0
  }

  /** The first `k` bytes of `d` (continued by zeros) as a big-endian number. */
  function Prefix(d: seq<byte>, k: nat): nat {
    if k == 0 then 0 else Prefix(d, k - 1) * 256 + ByteAt(d, k - 1)
  }

  function Value(d: seq<byte>): nat {
    Prefix(d, |d|)
  }

  function Repeat(b: byte, n: nat): (s: seq<byte>)
    ensures |s| == n
    ensures forall i :: 0 <= i < n ==> s[i] == b
  {
    seq(n, i => b)
  }

  lemma {:induction false} PrefixAgrees(d: seq<byte>, e: seq<byte>, k: nat)
    requires forall i :: 0 <= i < k ==> ByteAt(d, i) == ByteAt(e, i)
    ensures Prefix(d, k) == Prefix(e, k)
  {
    if k > 0 {
      PrefixAgrees(d, e, k - 1);
    }
  }

  /** Trailing zero bytes do not change the number a byte string stands for. */
  lemma PrefixZeros(d: seq<byte>, n: nat, k: nat)
    ensures Prefix(d + Repeat(0, n), k) == Prefix(d, k)
  {
    PrefixAgrees(d + Repeat(0, n), d, k);
  }

  lemma {:induction false} PrefixBound(d: seq<byte>, k: nat)
    ensures Prefix(d, k) < Pow2(8 * k)
  {
    if k > 0 {
      PrefixBound(d, k - 1);
      Pow2Add(8, 8 * (k - 1));
      assert Pow2(8) == 256;
    }
  }

  lemma ValueAppend(d: seq<byte>, b: byte)
    ensures Value(d + [b]) == Value(d) * 256 + b
  {
    PrefixAgrees(d + [b], d, |d|);
  }

  /** A run of 0xFF bytes is one short of the next power of 256. */
  lemma {:induction false} ValueStacked(n: nat)
    ensures Value(Repeat(0xFF, n)) == Pow2(8 * n) - 1
  {
    if n > 0 {
      ValueStacked(n - 1);
      assert Repeat(0xFF, n) == Repeat(0xFF, n - 1) + [0xFF];
      ValueAppend(Repeat(0xFF, n - 1), 0xFF);
      Pow2Add(8, 8 * (n - 1));
      assert Pow2(8) == 256;
    }
  }

  /** Adding one ripples over stacked 0xFF bytes and stops at the byte before them. */
  lemma {:induction false} ValueCarry(d: seq<byte>, b: byte, n: nat)
    requires b < 0xFF
    ensures Value(d + [b] + Repeat(0xFF, n)) + 1 == Value(d + [b + 1] + Repeat(0, n))
  {
    if n == 0 {
      assert d + [b] + Repeat(0xFF, 0) == d + [b];
      assert d + [b + 1] + Repeat(0, 0) == d + [b + 1];
      ValueAppend(d, b);
      ValueAppend(d, b + 1);
    } else {
      ValueCarry(d, b, n - 1);
      assert d + [b] + Repeat(0xFF, n) == (d + [b] + Repeat(0xFF, n - 1)) + [0xFF];
      assert d + [b + 1] + Repeat(0, n) == (d + [b + 1] + Repeat(0, n - 1)) + [0];
      ValueAppend(d + [b] + Repeat(0xFF, n - 1), 0xFF);
      ValueAppend(d + [b + 1] + Repeat(0, n - 1), 0);
    }
  }

  // ----- byte stuffing (section B.1.1.5 of ITU-T T.81)

  function StuffByte(b: byte): seq<byte> {
    if b == 0xFF then [0xFF, 0] else [b]
  }

  function Stuff(d: seq<byte>): seq<byte> {
    if d == [] then [] else Stuff(d[..|d| - 1]) + StuffByte(d[|d| - 1])
  }

  lemma StuffAppend(d: seq<byte>, b: byte)
    ensures Stuff(d + [b]) == Stuff(d) + StuffByte(b)
  {
    assert (d + [b])[..|d|] == d;
  }

  lemma SeqAssoc<T>(a: seq<T>, b: seq<T>, c: seq<T>)
    ensures a + b + c == a + (b + c)
  {
  }

  lemma {:induction false} StuffConcat(d: seq<byte>, e: seq<byte>)
    ensures Stuff(d + e) == Stuff(d) + Stuff(e)
  {
    if e == [] {
      assert d + e == d;
    } else {
      var e' := e[..|e| - 1];
      StuffConcat(d, e');
      assert d + e == (d + e') + [e[|e| - 1]];
      StuffAppend(d + e', e[|e| - 1]);
      assert Stuff(e) == Stuff(e') + StuffByte(e[|e| - 1]);
      SeqAssoc(Stuff(d), Stuff(e'), StuffByte(e[|e| - 1]));
    }
  }

  lemma StuffHead(d: seq<byte>)
    requires d != []
    ensures Stuff(d) == StuffByte(d[0]) + Stuff(d[1..])
  {
    assert d == [d[0]] + d[1..];
    StuffConcat([d[0]], d[1..]);
    assert [d[0]][..0] == [];
  }

  /** In stuffed data every 0xFF is followed by 0x00, so no marker can appear. */
  lemma {:induction false} StuffedHasNoMarker(d: seq<byte>, i: nat)
    requires i < |Stuff(d)| && Stuff(d)[i] == 0xFF
    ensures i + 1 < |Stuff(d)| && Stuff(d)[i + 1] == 0
  {
    var d' := d[..|d| - 1];
    if i < |Stuff(d')| {
      StuffedHasNoMarker(d', i);
    }
  }
}
