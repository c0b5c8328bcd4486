/**
 Termination of encoding (section D.1.8 of ITU-T T.81): the number in the final
 interval with the most trailing zero bits is sent, without final zero bytes.
 That is the shortest byte string the interval contains.
 */
module Termination {
  import opened Products
  import opened Bytes
  import opened CodingInterval

  predicate NoFinalZero(s: seq<byte>) {
    s == [] || s[|s| - 1] != 0
  }

  lemma CutLow(t: nat)
    ensures var e := t - t % 0x10000; e <= t < e + 0x10000 && e % 0x8000 == 0 && (e + 0x8000) % 0x8000 == 0
  {
    var q := t / 0x10000;
    assert t - t % 0x10000 == 0x8000 * (2 * q);
    MultipleMod(2 * q, 0x8000);
    MultipleMod(2 * q + 1, 0x8000);
  }

  /** The largest multiple of 2^16 in the interval, or else a multiple of 2^15. */
  function Terminator(iv: Interval): (g: nat)
    requires Normal(iv)
    ensures iv.base <= g < iv.base + iv.width
    ensures g % 0x8000 == 0
  {
    var top := iv.base + iv.width - 1;
    CutLow(top);
    var even := top - top % 0x10000;
    if even < iv.base then even + 0x8000 else even
  }

  /** `d` denotes exactly `g` / 2^(16 + shifts). */
  predicate Exactly(d: seq<byte>, g: nat, shifts: nat) {
    |d| <= BytesSeen(shifts) && Prefix(d, BytesSeen(shifts)) == g * Pow2(Slack(shifts))
  }

  lemma ExactlyContained(iv: Interval, d: seq<byte>)
    requires Normal(iv) && Exactly(d, Terminator(iv), iv.shifts)
    ensures Contains(iv, d)
  {
    var g, unit := Terminator(iv), Pow2(Slack(iv.shifts));
    MulMonotone(iv.base, g, unit);
    MulMonotone(g + 1, iv.base + iv.width, unit);
    assert (g + 1) * unit == g * unit + unit;
  }

  /** Bytes beyond the end of a string only scale its value. */
  lemma {:induction false} PrefixBeyond(d: seq<byte>, m: nat, k: nat)
    requires |d| <= m <= k
    ensures Prefix(d, k) == Prefix(d, m) * Pow2(8 * (k - m))
    decreases k
  {
    hide Pow2;
    Pow2Masks();
    if m < k {
      PrefixBeyond(d, m, k - 1);
      Pow2Add(8, 8 * (k - 1 - m));
      MulSwap(Prefix(d, m), 256, Pow2(8 * (k - 1 - m)));
      assert ByteAt(d, k - 1) == 0;
    }
  }

  /** A multiple of 2^16 inside the interval is the number sent. */
  lemma TerminatorUnique(iv: Interval, g: nat)
    requires Normal(iv) && iv.base <= g < iv.base + iv.width && g % 0x10000 == 0
    ensures Terminator(iv) == g
  {
  }

  lemma ModZero(y: nat, n: nat, m: nat)
    requires m <= n
    ensures (y * Pow2(n)) % Pow2(m) == 0
  {
    Pow2Add(n - m, m);
    MulAssoc(y, Pow2(n - m), Pow2(m));
    MultipleMod(y * Pow2(n - m), Pow2(m));
  }

  /** The last byte, being nonzero, limits how many trailing zero bits the number has. */
  lemma LastByteLimits(d: seq<byte>, k: nat, y: nat, n: nat)
    requires 0 < |d| <= k && d[|d| - 1] != 0
    requires Prefix(d, k) == y * Pow2(n)
    ensures n < 8 * (k - |d| + 1)
  {
    hide Pow2;
    var j := k - |d|;
    if n >= 8 * (j + 1) {
      PrefixBeyond(d, |d|, k);
      var w := Prefix(d, |d|);
      Pow2Split(y, n, 8 * j);
      CancelRight(w, y * Pow2(n - 8 * j), Pow2(8 * j));
      ModZero(y, n - 8 * j, 8);
      assert w % Pow2(8) == 0;
      assert w == Prefix(d, |d| - 1) * 256 + d[|d| - 1];
      Pow2Masks();
    }
  }

  lemma Pow2Split(y: nat, n: nat, m: nat)
    requires m <= n
    ensures y * Pow2(n) == (y * Pow2(n - m)) * Pow2(m)
  {
    Pow2Add(n - m, m);
    MulAssoc(y, Pow2(n - m), Pow2(m));
  }

  /** Among all byte strings the interval contains, the one sent is shortest. */
  lemma Shortest(iv: Interval, d: seq<byte>, d': seq<byte>)
    requires Normal(iv) && Exactly(d, Terminator(iv), iv.shifts) && NoFinalZero(d)
    requires Contains(iv, d')
    ensures |d| <= |d'|
  {
    hide Pow2;
    var k, e, g := BytesSeen(iv.shifts), Slack(iv.shifts), Terminator(iv);
    if |d'| < |d| {
      var m := |d'|;
      // the number sent has at least e + 15 trailing zero bits, so its last byte is not far down
      var y := g / 0x8000;
      Pow2Split(y, 15 + e, e);
      assert Pow2(15) == 0x8000 by { Pow2Masks(); }
      assert y * 0x8000 == g;
      LastByteLimits(d, k, y, 15 + e);
      // hence the shorter string denotes a multiple of 2^16 in the interval
      var u := 8 * (k - m) - e;
      assert u >= 16;
      PrefixBeyond(d', m, k);
      var g' := Prefix(d', m) * Pow2(u);
      Pow2Split(Prefix(d', m), u + e, e);
      InsideScaled(iv, g', e);
      assert g' % 0x10000 == 0 by {
        ModZero(Prefix(d', m), u, 16);
        Pow2Masks();
      }
      TerminatorUnique(iv, g');
      // and then it is the same number, whose last byte the shorter string does not reach
      assert Prefix(d, k) == Prefix(d', m) * Pow2(8 * (k - m));
      LastByteLimits(d, k, Prefix(d', m), 8 * (k - m));
    }
  }

  lemma InsideScaled(iv: Interval, g: nat, e: nat)
    requires iv.base * Pow2(e) <= g * Pow2(e) < (iv.base + iv.width) * Pow2(e)
    ensures iv.base <= g < iv.base + iv.width
  {
    CancelOrder(g, iv.base + iv.width, Pow2(e));
    if g < iv.base {
      MulSum(iv.base - g, g, Pow2(e));
      MulMonotone(1, iv.base - g, Pow2(e));
    }
  }

  // ----- the string sent, as a function of the interval

  function Digits(n: nat, k: nat): (d: seq<byte>)
    ensures |d| == k
  {
    if k == 0 then [] else Digits(n / 0x100, k - 1) + [n % 0x100]
  }

  function Trim(d: seq<byte>): (r: seq<byte>)
    ensures NoFinalZero(r) && |r| <= |d|
    decreases |d|
  {
    if NoFinalZero(d) then d else Trim(d[..|d| - 1])
  }

  function SegmentFor(iv: Interval): (d: seq<byte>)
    requires Normal(iv)
    ensures NoFinalZero(d)
  {
    Trim(Digits(Terminator(iv) * Pow2(Slack(iv.shifts)), BytesSeen(iv.shifts)))
  }

  predicate WithinUnit(iv: Interval) {
    iv.base + iv.width <= Pow2(16 + iv.shifts)
  }

  lemma {:induction false} DigitsValue(n: nat, k: nat)
    requires n < Pow2(8 * k)
    ensures Prefix(Digits(n, k), k) == n
  {
    Pow2Masks();
    if k > 0 {
      Pow2Add(8 * (k - 1), 8);
      DigitsValue(n / 0x100, k - 1);
      PrefixAgrees(Digits(n, k), Digits(n / 0x100, k - 1), k - 1);
    }
  }

  lemma {:induction false} TrimValue(d: seq<byte>, k: nat)
    ensures Prefix(Trim(d), k) == Prefix(d, k)
    decreases |d|
  {
    if !NoFinalZero(d) {
      TrimValue(d[..|d| - 1], k);
      PrefixAgrees(d[..|d| - 1], d, k);
    }
  }

  lemma SegmentForExact(iv: Interval)
    requires Normal(iv) && WithinUnit(iv)
    ensures Exactly(SegmentFor(iv), Terminator(iv), iv.shifts)
  {
    hide Pow2, Terminator, Prefix;
    var k, e, g := BytesSeen(iv.shifts), Slack(iv.shifts), Terminator(iv);
    Pow2Add(16 + iv.shifts, e);
    MulMonotone(g + 1, Pow2(16 + iv.shifts), Pow2(e));
    MulSum(g, 1, Pow2(e));
    DigitsValue(g * Pow2(e), k);
    TrimValue(Digits(g * Pow2(e), k), k);
  }

  lemma {:induction false} PrefixDetermines(d: seq<byte>, e: seq<byte>, k: nat, i: nat)
    requires Prefix(d, k) == Prefix(e, k) && i < k
    ensures ByteAt(d, i) == ByteAt(e, i)
  {
    if i < k - 1 {
      PrefixDetermines(d, e, k - 1, i);
    }
  }

  /** Only one string without final zero bytes denotes the number sent. */
  lemma SegmentUnique(iv: Interval, d: seq<byte>)
    requires Normal(iv) && WithinUnit(iv)
    requires NoFinalZero(d) && Exactly(d, Terminator(iv), iv.shifts)
    ensures d == SegmentFor(iv)
  {
    hide Pow2, Terminator, Prefix, SegmentFor;
    var e, k := SegmentFor(iv), BytesSeen(iv.shifts);
    SegmentForExact(iv);
    forall i: nat | i < k ensures ByteAt(d, i) == ByteAt(e, i) { PrefixDetermines(d, e, k, i); }
    assert e == [] || ByteAt(e, |e| - 1) != 0;
    assert d == [] || ByteAt(d, |d| - 1) != 0;
    assert forall i :: 0 <= i < |d| ==> d[i] == ByteAt(d, i);
  }
}
