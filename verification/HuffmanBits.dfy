/**
 The bit buffer of the Huffman encoder (emit_bits, flush_bits in jchuff.c): bytes
 written and pending bits together are the concatenated code words.
 */
module HuffmanBits {
  import opened Products
  import opened Bytes
  import opened HuffmanWords

  function BitsOf(data: seq<byte>): seq<bit>
    decreases |data|
  {
    if data == [] then [] else BitsOf(data[..|data| - 1]) + Bits(data[|data| - 1], 8)
  }

  lemma BitsAppend(data: seq<byte>, b: byte)
    ensures BitsOf(data + [b]) == BitsOf(data) + Bits(b, 8)
  {
    assert (data + [b])[..|data|] == data;
  }

  /** Only the low bits count. */
  lemma {:induction false} BitsMasked(code: nat, n: nat)
    ensures Bits(code % Pow2(n), n) == Bits(code, n)
    decreases n
  {
    if n > 0 {
      var p := Pow2(n - 1);
      assert Pow2(n) == 2 * p;
      HalfMod(code, p);
      BitsMasked(code / 2, n - 1);
    }
  }

  lemma HalfMod(code: nat, p: nat)
    requires p > 0
    ensures code % (2 * p) / 2 == code / 2 % p && code % (2 * p) % 2 == code % 2
  {
    var h, b := code / 2, code % 2;
    var q, r := h / p, h % p;
    assert h == q * p + r && code == 2 * h + b;
    MulSwap(2, q, p);
    MulAssoc(q, 2, p);
    assert code == q * (2 * p) + (2 * r + b);
    DivModUnique(code, 2 * p, q, 2 * r + b);
  }

  lemma NumberOfBits(code: nat, n: nat)
    ensures Number(Bits(code, n)) == code % Pow2(n)
  {
    BitsMasked(code, n);
    NumberBits(code % Pow2(n), n);
  }

  lemma {:induction false} BitsOfNumber(s: seq<bit>)
    ensures Bits(Number(s), |s|) == s
    decreases |s|
  {
    if s != [] {
      var t, b := s[..|s| - 1], s[|s| - 1];
      BitsOfNumber(t);
      assert Number(s) == 2 * Number(t) + b;
    }
  }

  /** Bitwise or of numbers whose bits do not overlap. */
  function OrBelow(a: nat, b: nat, m: nat): nat
    requires a % Pow2(m) == 0 && b < Pow2(m)
  {
    a + b
  }

  const LOW := 0x100_0000
  const WORD := 0x1_0000_0000

  /** Pending bits lie left-justified in the low 24 bits of the buffer. */
  predicate Holds(buffer: nat, s: seq<bit>) {
    |s| <= 24 && buffer < WORD && buffer % LOW == Number(s) * Pow2(24 - |s|)
  }

  /** `2^n` as a product that fills the low 24 bits. */
  lemma LowSplit(n: nat)
    requires n <= 24
    ensures Pow2(n) * Pow2(24 - n) == LOW
  {
    Pow2Add(n, 24 - n);
    Pow2Masks();
  }

  lemma AlignedMod(buffer: nat, x: nat, q: nat, p: nat)
    requires p > 0 && q > 0 && buffer % (q * p) == x * p
    ensures buffer % p == 0
  {
    var h := Quotient(buffer, q * p);
    DivisionIs(buffer, q * p);
    MulAssoc(h, q, p);
    MulSum(h * q, x, p);
    MultipleMod(h * q + x, p);
  }

  lemma DivisionIs(w: nat, m: nat)
    requires m > 0
    ensures w == Quotient(w, m) * m + w % m
  {
    DivModUnique(w, m, Quotient(w, m), w - Quotient(w, m) * m);
  }

  lemma HoldsAligned(buffer: nat, s: seq<bit>)
    requires Holds(buffer, s)
    ensures buffer % Pow2(24 - |s|) == 0
  {
    hide Pow2, Number;
    LowSplit(|s|);
    AlignedMod(buffer, Number(s), Pow2(|s|), Pow2(24 - |s|));
  }

  lemma MergeNumbers(buffer: nat, low: nat, word: nat, x: nat, q: nat, c: nat, p: nat, t: nat)
    requires t * p == low && low > 0 && x * q + c < t && buffer % low == x * (q * p)
    requires buffer < word && exists high: nat :: word == high * low
    ensures (buffer + c * p) % low == (x * q + c) * p && buffer + c * p < word
  {
    var high: nat :| word == high * low;
    MulAssoc(x, q, p);
    MulSum(x * q, c, p);
    MulMonotone(x * q + c + 1, t, p);
    MulSum(x * q + c, 1, p);
    if p == 0 {
      MulAssoc(t, 0, 1);
    }
    var h := Quotient(buffer, low);
    DivisionIs(buffer, low);
    CancelOrder(h, high, low);
    MulMonotone(h + 1, high, low);
    MulSum(h, 1, low);
    DivModUnique(buffer + c * p, low, h, (x * q + c) * p);
  }

  /** Bits shifted up to where the pending ones end. */
  lemma AlignedBelow(code: nat, k: nat, size: nat)
    requires code < Pow2(size) && k + size <= 24
    ensures code * Pow2(24 - (k + size)) < Pow2(24 - k)
  {
    var p := Pow2(24 - (k + size));
    Pow2Add(size, 24 - (k + size));
    hide Pow2;
    MulMonotone(code + 1, Pow2(size), p);
    MulSum(code, 1, p);
  }

  /** Merging new bits into the buffer appends them to the pending ones. */
  lemma Merge(buffer: nat, s: seq<bit>, code: nat, size: nat)
    requires Holds(buffer, s) && |s| + size <= 24
    ensures var c := code % Pow2(size);
            && c * Pow2(24 - (|s| + size)) < Pow2(24 - |s|)
            && Holds(buffer + c * Pow2(24 - (|s| + size)), s + Bits(code, size))
  {
    hide Pow2, Number, Bits;
    var c, n := code % Pow2(size), |s| + size;
    var all := s + Bits(code, size);
    NumberOfBits(code, size);
    NumberConcat(s, Bits(code, size));
    NumberBound(all);
    AlignedBelow(c, |s|, size);
    Pow2Add(size, 24 - n);
    LowSplit(n);
    assert WORD == 256 * LOW;
    MergeNumbers(buffer, LOW, WORD, Number(s), Pow2(size), c, Pow2(24 - n), Pow2(n));
  }

  lemma TakeNumbers(x: nat, q: nat, y: nat, p: nat)
    requires q * p == 0x10000 && y < q
    ensures (x * q + y) * p == x * 0x10000 + y * p && y * p < 0x10000
  {
    MulSum(x * q, y, p);
    MulAssoc(x, q, p);
    MulMonotone(y + 1, q, p);
    MulSum(y, 1, p);
    if p == 0 {
      MulAssoc(q, 0, 1);
    }
  }

  lemma ShiftOut(buffer: nat, x: nat, low: nat)
    requires buffer < WORD && x < 256 && low < 0x10000 && buffer % LOW == x * 0x10000 + low
    ensures buffer / 0x10000 % 256 == x
    ensures buffer * 256 % WORD % LOW == low * 256
  {
    var h := Quotient(buffer, LOW);
    DivisionIs(buffer, LOW);
    DivModUnique(buffer, 0x10000, h * 256 + x, low);
    DivModUnique(h * 256 + x, 256, h, x);
    DivModUnique(buffer * 256, WORD, h, x * LOW + low * 256);
    DivModUnique(x * LOW + low * 256, LOW, x, low * 256);
  }

  /** The byte taken from the buffer is the first eight pending bits. */
  lemma TakeByte(buffer: nat, s: seq<bit>)
    requires Holds(buffer, s) && |s| >= 8
    ensures var c := buffer / 0x10000 % 256;
            Bits(c, 8) == s[..8] && Holds(buffer * 256 % WORD, s[8..])
  {
    hide Pow2, Number, Bits;
    var n := |s|;
    var a, r := s[..8], s[8..];
    assert s == a + r;
    NumberConcat(a, r);
    NumberBound(a);
    NumberBound(r);
    BitsOfNumber(a);
    Pow2Masks();
    Pow2Add(n - 8, 24 - n);
    Pow2Add(24 - n, 8);
    var p := Pow2(24 - n);
    TakeNumbers(Number(a), Pow2(n - 8), Number(r), p);
    ShiftOut(buffer, Number(a), Number(r) * p);
    MulAssoc(Number(r), p, 256);
  }

  class BitWriter {
    // Bytes written so far, stuffed.
    var out: seq<byte>
    var putBuffer: nat
    var putBits: nat

    // What was written before this segment, its bytes before stuffing, and the bits pending.
    ghost var before: seq<byte>
    ghost var data: seq<byte>
    ghost var pending: seq<bit>

    ghost predicate Valid()
      reads this
    {
      && out == before + Stuff(data)
      && putBits == |pending| <= 7
      && Holds(putBuffer, pending)
    }

    /** All bits emitted in this segment. */
    ghost function Sent(): seq<bit>
      reads this`data, this`pending
    {
      BitsOf(data) + pending
    }

    constructor ()
      ensures Valid() && Sent() == [] && out == [] && before == []
    {
      out, putBuffer, putBits := [], 0, 0;
      before, data, pending := [], [], [];
      new;
      NothingHeld();
    }

    method EmitByte(c: byte)
      modifies this`out, this`data
      requires out == before + Stuff(data)
      ensures data == old(data) + [c] && out == before + Stuff(data)
    {
      out := out + [c];
      if c == 0xFF {
        out := out + [0];
      }
      StuffAppend(data, c);
      SeqAssoc(before, Stuff(data), StuffByte(c));
      data := data + [c];
    }

    /** Appends the low `size` bits of `code`; a size of 0 means the symbol has no code. */
    method EmitBits(code: nat, size: nat) returns (ok: bool)
      requires Valid() && size <= 16
      modifies this`out, this`putBuffer, this`putBits, this`data, this`pending
      ensures Valid() && (ok <==> size > 0)
      ensures ok ==> Sent() == old(Sent()) + Bits(code, size)
      ensures !ok ==> Sent() == old(Sent()) && out == old(out)
      ensures old(data) <= data
    {
      hide Holds, Bits, Pow2, BitsOf, Stuff;
      if size == 0 {
        return false;
      }
      var buffer: nat := code % Pow2(size);
      var bits := size + putBits;
      HoldsAligned(putBuffer, pending);
      Merge(putBuffer, pending, code, size);
      buffer := buffer * Pow2(24 - bits);
      buffer := OrBelow(putBuffer, buffer, 24 - putBits);
      ghost var s := pending + Bits(code, size);
      SeqAssoc(BitsOf(data), pending, Bits(code, size));
      while bits >= 8
        invariant bits == |s| && Holds(buffer, s) && out == before + Stuff(data)
        invariant BitsOf(data) + s == old(Sent()) + Bits(code, size) && old(data) <= data
      {
        var c: byte := buffer / 0x10000 % 256;
        TakeByte(buffer, s);
        BitsAppend(data, c);
        SeqAssoc(BitsOf(data), s[..8], s[8..]);
        assert s == s[..8] + s[8..];
        EmitByte(c);
        s := s[8..];
        buffer := buffer * 256 % WORD;
        bits := bits - 8;
      }
      putBuffer, putBits := buffer, bits;
      pending := s;
      ok := true;
    }

    /** Fills a partial byte with ones, and adds nothing to a whole number of bytes. */
    method FlushBits()
      requires Valid()
      modifies this`out, this`putBuffer, this`putBits, this`data, this`pending
      ensures Valid() && pending == [] && before == old(before)
      ensures Packed(data, old(Sent()))
    {
      hide Holds, Bits, BitsOf, Stuff;
      ghost var k := |pending|;
      ghost var sent := Sent();
      var ok := EmitBits(0x7F, 7);
      assert Bits(0x7F, 7) == Ones(7) by { SevenOnes(); }
      assert BitsOf(data) + pending == sent + Ones(7);
      BitsOfLength(data);
      BitsOfLength(old(data));
      Padding(BitsOf(data), pending, sent, |old(data)|, |data|, k);
      putBuffer, putBits := 0, 0;
      pending := [];
      assert Holds(0, []) by { NothingHeld(); }
    }

    /** Writes a marker after whole bytes and starts a new segment. */
    method EmitMarker(m: byte)
      requires Valid() && pending == []
      modifies this`out, this`before, this`data
      ensures Valid() && Sent() == [] && before == old(before) + Stuff(old(data)) + [0xFF, m]
    {
      out := out + [0xFF];
      out := out + [m];
      before, data := out, [];
    }
  }

  /** The bytes that hold a string of bits, filled up with ones. */
  predicate Packed(data: seq<byte>, bits: seq<bit>) {
    BitsOf(data) == bits + Ones((8 - |bits| % 8) % 8)
  }

  lemma {:induction false} BitsOfLength(data: seq<byte>)
    ensures |BitsOf(data)| == 8 * |data|
    decreases |data|
  {
    hide Bits;
    if data != [] {
      BitsOfLength(data[..|data| - 1]);
    }
  }

  lemma Padding(a: seq<bit>, p: seq<bit>, sent: seq<bit>, d0: nat, d: nat, k: nat)
    requires a + p == sent + Ones(7) && |a| == 8 * d && |sent| == 8 * d0 + k && |p| <= 7 && k <= 7
    ensures a == sent + Ones((8 - k) % 8)
  {
    var n := 7 - |p|;
    assert a == (a + p)[..|a|] == (sent + Ones(7))[..|sent| + n];
    assert (sent + Ones(7))[..|sent| + n] == sent + Ones(7)[..n];
    assert Ones(7)[..n] == Ones(n);
    assert n == (8 - k) % 8;
  }

  lemma SevenOnes()
    ensures Bits(0x7F, 7) == Ones(7)
  {
    NumberOnes(7);
    Pow2Masks();
    BitsOfNumber(Ones(7));
  }

  lemma NothingHeld()
    ensures Holds(0, [])
  {
    hide Pow2;
  }
}
