/**
 What the Huffman coder sends for a block (sections F.1.2 and G.1.2 of ITU-T T.81;
 jchuff.c): symbols that have code words, and plain bits. The same list is counted
 in a gathering pass and written in an output pass.
 */
module HuffmanItems {
  import opened Bytes
  import opened BlockModel
  import opened HuffmanWords

  const MAX_COEF_BITS := 10
  const MAX_CORR_BITS := 1000
  const MAX_EOBRUN := 0x7FFF
  const BE_LIMIT := 937  // MAX_CORR_BITS - DCTSIZE2 + 1

  datatype Item =
    | Symbol(dc: bool, tbl: nat, s: byte)
    | Plain(code: nat, size: nat)

  /** Number of bits needed for a magnitude. */
  function Width(m: nat): (n: nat)
    ensures m < Pow2(n) && (n > 0 ==> Pow2(n - 1) <= m)
    decreases m
  {
    if m == 0 then 0 else
    var n := 1 + Width(m / 2);
    n
  }

  lemma {:induction false} WidthBelow(m: nat, n: nat)
    requires m < Pow2(n)
    ensures Width(m) <= n
  {
    if Width(m) > n {
      Pow2Monotone(n, Width(m) - 1);
    }
  }

  method FindWidth(m: nat) returns (n: nat)
    ensures n == Width(m)
  {
    n := 0;
    var temp := m;
    while temp != 0
      invariant n + Width(temp) == Width(m)
      decreases temp
    {
      n := n + 1;
      temp := temp / 2;
    }
  }

  /** The low bits of a positive value, or of the complement of a negative one's magnitude. */
  function ValueBits(v: int, n: nat): (c: nat)
    ensures c < Pow2(n)
  {
    var w: int := if v < 0 then v - 1 else v;
    w % Pow2(n)
  }

  /** The value a magnitude category and its bits stand for. */
  function ValueOf(c: nat, n: nat): int {
    if n == 0 then 0 else if c >= Pow2(n - 1) then c else c - (Pow2(n) - 1)
  }

  /** The category and the bits determine the value. */
  lemma ValueRoundTrip(v: int)
    ensures ValueOf(ValueBits(v, Width(Abs(v))), Width(Abs(v))) == v
  {
    var n, m := Width(Abs(v)), Abs(v);
    if n > 0 {
      var p := Pow2(n - 1);
      assert Pow2(n) == 2 * p && p <= m < 2 * p;
      hide Pow2, Width;
      EuclidMod(if v < 0 then v - 1 else v, 2 * p, if v < 0 then 2 * p - 1 - m else m);
    }
  }

  lemma EuclidMod(w: int, p: nat, c: nat)
    requires p > 0 && c < p && (w == c || w == c - p)
    ensures w % p == c
  {
  }

  // ----- sequential blocks (section F.1.2)

  predicate DcFits(diff: int) {
    Width(Abs(diff)) <= MAX_COEF_BITS + 1
  }

  predicate AcFits(v: int) {
    Width(Abs(v)) <= MAX_COEF_BITS
  }

  function DcItems(tbl: nat, diff: int): seq<Item>
    requires DcFits(diff)
  {
    var n := Width(Abs(diff));
    [Symbol(true, tbl, n)] + if n > 0 then [Plain(ValueBits(diff, n), n)] else []
  }

  /** Runs of sixteen zeros. */
  function Zrls(tbl: nat, n: nat): (r: seq<Item>)
    ensures |r| == n
  {
    seq(n, i => Symbol(false, tbl, 0xF0))
  }

  /** A nonzero value after `r` zeros. */
  function RunValue(tbl: nat, r: nat, v: int): seq<Item>
    requires AcFits(v)
  {
    var n := Width(Abs(v));
    Zrls(tbl, r / 16) + [Symbol(false, tbl, r % 16 * 16 + n), Plain(ValueBits(v, n), n)]
  }

  predicate CoefsFit(z: Block, k: nat, se: nat, al: nat) {
    forall i :: k <= i <= se && i < 64 ==> AcFits(Shifted(z[i], al))
  }

  /** The coefficient after the point transform: division rounding toward zero. */
  function Shifted(v: int, al: nat): (w: int)
    ensures Abs(w) == Mag(v, al)
    ensures v < 0 ==> w <= 0
  {
    Signed(SignBit(v), Mag(v, al))
  }

  function AcItems(tbl: nat, z: Block, k: nat, se: nat, r: nat): seq<Item>
    requires se < 64 && CoefsFit(z, k, se, 0)
    decreases se + 1 - k
  {
    if k > se then (if r > 0 then [Symbol(false, tbl, 0)] else [])
    else if Shifted(z[k], 0) == 0 then AcItems(tbl, z, k + 1, se, r + 1)
    else RunValue(tbl, r, Shifted(z[k], 0)) + AcItems(tbl, z, k + 1, se, 0)
  }

  // ----- progressive AC scans (section G.1.2)

  /** What has been sent of the segment, the pending end-of-block run, and its correction bits. */
  datatype Ac = Ac(items: seq<Item>, eobrun: nat, pend: seq<bit>)

  function PlainBits(bits: seq<bit>): (r: seq<Item>)
    ensures |r| == |bits|
  {
    seq(|bits|, i requires 0 <= i < |bits| => Plain(bits[i], 1))
  }

  /** Sends the pending run and its correction bits. */
  function EmitEob(tbl: nat, a: Ac): (r: Ac)
    requires a.eobrun <= MAX_EOBRUN
    ensures a.eobrun > 0 ==> r.eobrun == 0 && r.pend == []
    ensures a.eobrun == 0 ==> r == a
  {
    if a.eobrun == 0 then a else
    EobWidth(a.eobrun);
    var n := Width(a.eobrun) - 1;
    Ac(a.items + [Symbol(false, tbl, n * 16)] + (if n > 0 then [Plain(a.eobrun, n)] else []) + PlainBits(a.pend), 0, [])
  }

  lemma EobWidth(e: nat)
    requires 0 < e <= MAX_EOBRUN
    ensures 1 <= Width(e) <= 15
  {
    Pow2Masks();
    WidthBelow(e, 15);
  }

  /** Between blocks: the run is below its limit, correction bits belong to a run and leave room for another block. */
  predicate Settled(a: Ac) {
    a.eobrun < MAX_EOBRUN && |a.pend| <= BE_LIMIT && (a.pend != [] ==> a.eobrun > 0)
  }

  /** Counts a block that ends in zeros, with its correction bits. */
  function EndBlock(tbl: nat, a: Ac, br: seq<bit>): Ac
    requires a.eobrun < MAX_EOBRUN
  {
    var b := Ac(a.items, a.eobrun + 1, a.pend + br);
    if b.eobrun == MAX_EOBRUN || |b.pend| > BE_LIMIT then EmitEob(tbl, b) else b
  }

  function FirstItems(tbl: nat, z: Block, k: nat, se: nat, al: nat, r: nat, a: Ac): Ac
    requires se < 64 && CoefsFit(z, k, se, al) && a.eobrun < MAX_EOBRUN
    decreases se + 1 - k
  {
    if k > se then (if r > 0 then EndBlock(tbl, a, []) else a)
    else if Shifted(z[k], al) == 0 then FirstItems(tbl, z, k + 1, se, al, r + 1, a)
    else
      var b := EmitEob(tbl, a);
      FirstItems(tbl, z, k + 1, se, al, 0, b.(items := b.items + RunValue(tbl, r, Shifted(z[k], al))))
  }

  /** Index of the last coefficient that becomes nonzero in this scan, or 0. */
  function LastNew(z: Block, k: nat, al: nat): (e: nat)
    requires k <= 64
    ensures e < k || e == 0
    decreases k
  {
    if k == 0 then 0 else if Mag(z[k - 1], al) == 1 then k - 1 else LastNew(z, k - 1, al)
  }

  datatype Run = Run(r: nat, br: seq<bit>, a: Ac)

  /** Sends the runs of sixteen that cannot be folded into an end of block. */
  function Runs(tbl: nat, r: nat, br: seq<bit>, a: Ac): (x: Run)
    requires a.eobrun < MAX_EOBRUN
    ensures x.r < 16 && x.a.eobrun < MAX_EOBRUN
    ensures r < 16 ==> x == Run(r, br, a)
    decreases r
  {
    if r <= 15 then Run(r, br, a) else
    var b := EmitEob(tbl, a);
    Runs(tbl, r - 16, [], b.(items := b.items + [Symbol(false, tbl, 0xF0)] + PlainBits(br)))
  }

  function RefineItems(tbl: nat, z: Block, k: nat, se: nat, al: nat, eob: nat, r: nat, br: seq<bit>, a: Ac): Ac
    requires se < 64 && a.eobrun < MAX_EOBRUN
    requires forall i :: k <= i <= se && Mag(z[i], al) == 1 ==> i <= eob
    decreases se + 1 - k
  {
    if k > se then (if r > 0 || br != [] then EndBlock(tbl, a, br) else a)
    else
      var m := Mag(z[k], al);
      if m == 0 then RefineItems(tbl, z, k + 1, se, al, eob, r + 1, br, a)
      else
        var x := if k <= eob then Runs(tbl, r, br, a) else Run(r, br, a);
        if m > 1 then RefineItems(tbl, z, k + 1, se, al, eob, x.r, x.br + [m % 2], x.a)
        else
          var b := EmitEob(tbl, x.a);
          RefineItems(tbl, z, k + 1, se, al, eob, 0, [], b.(items := b.items + NewCoef(tbl, x.r, z[k], x.br)))
  }

  /** A coefficient that becomes nonzero: its run, its sign, and the bits passed over. */
  function NewCoef(tbl: nat, r: nat, v: int, br: seq<bit>): seq<Item>
    requires r < 16
  {
    [Symbol(false, tbl, r * 16 + 1), Plain(if v < 0 then 0 else 1, 1)] + PlainBits(br)
  }

  // ----- the correction bit buffer never overflows

  lemma EobSettled(tbl: nat, a: Ac)
    requires a.eobrun <= MAX_EOBRUN && (a.pend != [] ==> a.eobrun > 0)
    ensures Settled(EmitEob(tbl, a)) && EmitEob(tbl, a).pend == [] && a.items <= EmitEob(tbl, a).items
  {
  }

  lemma EndSettled(tbl: nat, a: Ac, br: seq<bit>)
    requires Settled(a) && |br| <= 63
    ensures Settled(EndBlock(tbl, a, br)) && a.items <= EndBlock(tbl, a, br).items
    ensures |a.pend + br| <= MAX_CORR_BITS
  {
    var b := Ac(a.items, a.eobrun + 1, a.pend + br);
    EobSettled(tbl, b);
  }

  lemma PrefixTrans(a: seq<Item>, b: seq<Item>, c: seq<Item>)
    requires a <= b <= c
    ensures a <= c
  {
  }

  /** A first pass keeps the pending run within its limit, and only ever appends. */
  lemma {:induction false} FirstSettled(tbl: nat, z: Block, k: nat, se: nat, al: nat, r: nat, a: Ac)
    requires se < 64 && CoefsFit(z, k, se, al) && Settled(a) && a.pend == []
    ensures var b := FirstItems(tbl, z, k, se, al, r, a); Settled(b) && b.pend == [] && a.items <= b.items
    decreases se + 1 - k
  {
    hide EmitEob, EndBlock, RunValue, Shifted, Settled;
    if k > se {
      EndSettledNone(tbl, a);
    } else if Shifted(z[k], al) == 0 {
      FirstSettled(tbl, z, k + 1, se, al, r + 1, a);
    } else {
      SettledParts(a);
      EobSettled(tbl, a);
      var b := EmitEob(tbl, a);
      var c := b.(items := b.items + RunValue(tbl, r, Shifted(z[k], al)));
      SettledItems(b, c);
      FirstSettled(tbl, z, k + 1, se, al, 0, c);
      PrefixTrans(a.items, b.items, c.items);
      PrefixTrans(a.items, c.items, FirstItems(tbl, z, k + 1, se, al, 0, c).items);
    }
  }

  lemma SettledParts(a: Ac)
    requires Settled(a)
    ensures a.eobrun < MAX_EOBRUN && |a.pend| <= BE_LIMIT && (a.pend != [] ==> a.eobrun > 0)
  {
  }

  lemma SettledItems(a: Ac, b: Ac)
    requires Settled(a) && b.eobrun == a.eobrun && b.pend == a.pend
    ensures Settled(b)
  {
  }

  lemma EndSettledNone(tbl: nat, a: Ac)
    requires Settled(a) && a.pend == []
    ensures a.eobrun < MAX_EOBRUN
    ensures var b := EndBlock(tbl, a, []); Settled(b) && b.pend == [] && a.items <= b.items
  {
    EndSettled(tbl, a, []);
    assert a.pend + [] == [];
  }

  lemma {:induction false} RunsSettled(tbl: nat, r: nat, br: seq<bit>, a: Ac)
    requires Settled(a)
    ensures var x := Runs(tbl, r, br, a);
            Settled(x.a) && a.items <= x.a.items && |x.br| <= |br| && |x.a.pend| + |x.br| <= |a.pend| + |br|
    decreases r
  {
    hide EmitEob, Settled;
    if r > 15 {
      SettledParts(a);
      EobSettled(tbl, a);
      var b := EmitEob(tbl, a);
      var c := b.(items := b.items + [Symbol(false, tbl, 0xF0)] + PlainBits(br));
      SettledItems(b, c);
      RunsSettled(tbl, r - 16, [], c);
      PrefixTrans(a.items, b.items, c.items);
      PrefixTrans(a.items, c.items, Runs(tbl, r - 16, [], c).a.items);
    }
  }

  /**
   Through a refinement block the buffered and the new correction bits together
   stay within the buffer, and the state after it is settled again.
   */
  lemma {:induction false} RefineSettled(tbl: nat, z: Block, k: nat, se: nat, al: nat, eob: nat, r: nat, br: seq<bit>, a: Ac)
    requires 1 <= k <= 64 && se < 64 && Settled(a) && |br| < k
    requires forall i :: k <= i <= se && Mag(z[i], al) == 1 ==> i <= eob
    ensures |a.pend| + |br| <= MAX_CORR_BITS
    ensures var b := RefineItems(tbl, z, k, se, al, eob, r, br, a); Settled(b) && a.items <= b.items
    decreases se + 1 - k
  {
    hide EmitEob, EndBlock, Settled, Mag, Runs;
    SettledParts(a);
    if k > se {
      EndSettled(tbl, a, br);
    } else {
      var m := Mag(z[k], al);
      if m == 0 {
        RefineSettled(tbl, z, k + 1, se, al, eob, r + 1, br, a);
      } else {
        var x := if k <= eob then Runs(tbl, r, br, a) else Run(r, br, a);
        RunsSettled(tbl, r, br, a);
        if m > 1 {
          RefineSettled(tbl, z, k + 1, se, al, eob, x.r, x.br + [m % 2], x.a);
          PrefixTrans(a.items, x.a.items, RefineItems(tbl, z, k, se, al, eob, r, br, a).items);
        } else {
          SettledParts(x.a);
          EobSettled(tbl, x.a);
          var b := EmitEob(tbl, x.a);
          var c := b.(items := b.items + NewCoef(tbl, x.r, z[k], x.br));
          SettledItems(b, c);
          RefineSettled(tbl, z, k + 1, se, al, eob, 0, [], c);
          PrefixTrans(a.items, x.a.items, b.items);
          PrefixTrans(a.items, b.items, c.items);
          PrefixTrans(a.items, c.items, RefineItems(tbl, z, k + 1, se, al, eob, 0, [], c).items);
        }
      }
    }
  }

  // ----- the bound is reached

  /** A block whose first `n` AC coefficients were already nonzero, and the others zero. */
  function Corrections(n: nat): Block {
    seq(64, k => if 1 <= k <= n then 2 else 0)
  }

  function ZeroBits(n: nat): (r: seq<bit>)
    ensures |r| == n
  {
    seq(n, i => 0)
  }

  lemma {:induction false} CorrectionsOnly(tbl: nat, n: nat, k: nat, r: nat, a: Ac)
    requires 1 <= k <= 64 && 0 < n <= 63 && a.eobrun < MAX_EOBRUN && (k <= n ==> r == 0)
    ensures forall i :: 0 <= i < 64 ==> Mag(Corrections(n)[i], 0) != 1
    ensures RefineItems(tbl, Corrections(n), k, 63, 0, 0, r, ZeroBits(if k <= n then k - 1 else n), a)
            == EndBlock(tbl, a, ZeroBits(n))
    decreases 64 - k
  {
    hide EndBlock;
    Pow2Masks();
    assert forall i :: 0 <= i < 64 ==> Mag(Corrections(n)[i], 0) == if 1 <= i <= n then 2 else 0;
    if k <= 63 {
      if k <= n {
        assert ZeroBits(k - 1) + [0] == ZeroBits(k);
        CorrectionsOnly(tbl, n, k + 1, r, a);
      } else {
        CorrectionsOnly(tbl, n, k + 1, r + 1, a);
      }
    }
  }

  /** Blocks of corrections alone, one after the other. */
  function AfterCorrections(tbl: nat, ns: seq<nat>, a: Ac): (r: Ac)
    requires Settled(a) && forall i :: 0 <= i < |ns| ==> 0 < ns[i] <= 63
    ensures Settled(r)
    decreases |ns|
  {
    if ns == [] then a else
    Pow2Masks();
    assert forall i :: 0 <= i < 64 ==> Mag(Corrections(ns[0])[i], 0) != 1;
    RefineSettled(tbl, Corrections(ns[0]), 1, 63, 0, 0, 0, [], a);
    AfterCorrections(tbl, ns[1..], RefineItems(tbl, Corrections(ns[0]), 1, 63, 0, 0, 0, [], a))
  }

  lemma {:induction false} CorrectionsPile(tbl: nat, n: nat, a: Ac)
    requires Settled(a) && a.eobrun <= 14 - n && n <= 14 && |a.pend| == 63 * a.eobrun
    ensures forall i :: 0 <= i < n ==> 0 < Full(n)[i] <= 63
    ensures var b := AfterCorrections(tbl, Full(n), a); b.eobrun == a.eobrun + n && |b.pend| == |a.pend| + 63 * n
    decreases n
  {
    if n > 0 {
      CorrectionsOnly(tbl, 63, 1, 0, a);
      assert Full(n)[1..] == Full(n - 1);
      assert ZeroBits(0) == [];
      var b := RefineItems(tbl, Corrections(63), 1, 63, 0, 0, 0, [], a);
      RefineSettled(tbl, Corrections(63), 1, 63, 0, 0, 0, [], a);
      CorrectionsPile(tbl, n - 1, b);
    }
  }

  function Full(n: nat): (r: seq<nat>)
    ensures |r| == n && forall i :: 0 <= i < n ==> r[i] == 63
  {
    seq(n, i => 63)
  }

  /** Fifteen blocks leave 937 bits in the buffer, and a block of 63 more fills it to the last place. */
  lemma BufferFills(tbl: nat)
    ensures var a := AfterCorrections(tbl, Full(14), Ac([], 0, []));
            var b := RefineItems(tbl, Corrections(55), 1, 63, 0, 0, 0, [], a);
            && Settled(b) && |b.pend| + 63 == MAX_CORR_BITS
            && RefineItems(tbl, Corrections(63), 1, 63, 0, 0, 0, [], b) == EndBlock(tbl, b, ZeroBits(63))
  {
    CorrectionsPile(tbl, 14, Ac([], 0, []));
    var a := AfterCorrections(tbl, Full(14), Ac([], 0, []));
    assert ZeroBits(0) == [];
    CorrectionsOnly(tbl, 55, 1, 0, a);
    var b := RefineItems(tbl, Corrections(55), 1, 63, 0, 0, 0, [], a);
    RefineSettled(tbl, Corrections(55), 1, 63, 0, 0, 0, [], a);
    CorrectionsOnly(tbl, 63, 1, 0, b);
  }
}
