/**
 The Huffman entropy encoder (jchuff.c). The progressive procedures count symbols in a
 gathering pass and write code words in an output pass through the same code; the
 sequential one only writes, and HuffmanGather has its trial encoding.
 */
module HuffmanEncoder {
  import opened Bytes
  import opened BlockModel
  import opened ScanModel
  import opened HuffmanWords
  import opened HuffmanBits
  import opened HuffmanItems
  import opened HuffmanStream

  datatype Outcome = Done | BadCoef | MissingCode

  /** Occurrences of an item. */
  function Count(items: seq<Item>, x: Item): nat
    decreases |items|
  {
    if items == [] then 0 else Count(items[..|items| - 1], x) + if items[|items| - 1] == x then 1 else 0
  }

  lemma CountMore(items: seq<Item>, y: Item)
    ensures forall x :: Count(items + [y], x) == Count(items, x) + if x == y then 1 else 0
  {
    assert (items + [y])[..|items|] == items;
  }

  /** The derived tables, with code words of at most 16 bits. */
  predicate TablesOk(dc: seq<Table>, ac: seq<Table>) {
    && |dc| == NUM_HUFF_TBLS && |ac| == NUM_HUFF_TBLS
    && (forall i :: 0 <= i < NUM_HUFF_TBLS ==> TableOk(dc[i]) && TableOk(ac[i]))
  }

  predicate TableOk(t: Table) {
    |t.co| == 256 && |t.si| == 256 && forall s :: 0 <= s < 256 ==> t.si[s] <= 16
  }

  /** An item that can be written: a symbol with a code word, or some plain bits. */
  predicate Writable(dc: seq<Table>, ac: seq<Table>, x: Item)
    requires TablesOk(dc, ac)
  {
    match x
    case Symbol(isDc, tbl, s) => tbl < NUM_HUFF_TBLS && (if isDc then dc else ac)[tbl].si[s] > 0
    case Plain(_, size) => 1 <= size <= 16
  }

  predicate Covered(dc: seq<Table>, ac: seq<Table>, items: seq<Item>)
    requires TablesOk(dc, ac)
  {
    forall i :: 0 <= i < |items| ==> Writable(dc, ac, items[i])
  }

  function SpellItem(dc: seq<Table>, ac: seq<Table>, x: Item): seq<bit>
    requires TablesOk(dc, ac) && Writable(dc, ac, x)
  {
    match x
    case Symbol(isDc, tbl, s) => Word((if isDc then dc else ac)[tbl], s)
    case Plain(code, size) => Bits(code, size)
  }

  /** The bits of a list of items. */
  function SpellItems(dc: seq<Table>, ac: seq<Table>, items: seq<Item>): seq<bit>
    requires TablesOk(dc, ac) && Covered(dc, ac, items)
    decreases |items|
  {
    if items == [] then [] else
    SpellItems(dc, ac, items[..|items| - 1]) + SpellItem(dc, ac, items[|items| - 1])
  }

  lemma SpellMore(dc: seq<Table>, ac: seq<Table>, items: seq<Item>, x: Item)
    requires TablesOk(dc, ac) && Covered(dc, ac, items) && Writable(dc, ac, x)
    ensures Covered(dc, ac, items + [x])
    ensures SpellItems(dc, ac, items + [x]) == SpellItems(dc, ac, items) + SpellItem(dc, ac, x)
  {
    assert (items + [x])[..|items|] == items;
  }

  lemma CoveredNext(dc: seq<Table>, ac: seq<Table>, a: seq<Item>, x: Item, b: seq<Item>)
    requires TablesOk(dc, ac) && a + [x] <= b && Covered(dc, ac, b)
    ensures Writable(dc, ac, x)
  {
    assert b[|a|] == x;
  }

  /** Finished segments, each followed by its restart marker. */
  function Written(segs: seq<seq<byte>>): seq<byte>
    decreases |segs|
  {
    if segs == [] then [] else
    var n := |segs| - 1;
    Written(segs[..n]) + WithMarker(segs[n], n)
  }

  function WithMarker(d: seq<byte>, n: nat): seq<byte> {
    Stuff(d) + [0xFF, 0xD0 + n % 8]
  }

  lemma WrittenMore(segs: seq<seq<byte>>, d: seq<byte>)
    ensures Written(segs + [d]) == Written(segs) + WithMarker(d, |segs|)
  {
    hide WithMarker;
    assert (segs + [d])[..|segs|] == segs;
  }

  /** The bytes of a scan: one stuffed segment for each list of items, padded with ones, and markers between. */
  predicate Stored(dc: seq<Table>, ac: seq<Table>, out: seq<byte>, done: seq<seq<Item>>, last: seq<Item>,
                   segs: seq<seq<byte>>, data: seq<byte>)
  {
    && TablesOk(dc, ac) && |segs| == |done| && out == Written(segs) + Stuff(data)
    && (forall i :: 0 <= i < |done| ==> Covered(dc, ac, done[i]) && Packed(segs[i], SpellItems(dc, ac, done[i])))
    && Covered(dc, ac, last) && Packed(data, SpellItems(dc, ac, last))
  }

  /** Items as the coder makes them, whatever the tables. */
  predicate WellFormed(x: Item) {
    match x
    case Symbol(dc, tbl, s) => tbl < NUM_HUFF_TBLS && (if dc then s <= MAX_COEF_BITS + 1 else s % 16 <= MAX_COEF_BITS)
    case Plain(_, size) => 1 <= size <= 16
  }

  predicate AllWellFormed(items: seq<Item>) {
    forall i :: 0 <= i < |items| ==> WellFormed(items[i])
  }

  /** One count for each table and symbol, as the gathering pass keeps them. */
  predicate CountsAre(counts: seq<seq<nat>>, dc: bool, items: seq<Item>) {
    && |counts| == NUM_HUFF_TBLS
    && (forall t :: 0 <= t < NUM_HUFF_TBLS ==> |counts[t]| == 257)
    && (forall t, s :: 0 <= t < NUM_HUFF_TBLS && 0 <= s < 256 ==> counts[t][s] == Count(items, Symbol(dc, t, s)))
  }

  lemma CountsMore(counts: seq<seq<nat>>, dc: bool, items: seq<Item>, x: Item)
    requires CountsAre(counts, dc, items)
    ensures x.Symbol? && x.dc == dc && x.tbl < NUM_HUFF_TBLS ==>
              CountsAre(counts[x.tbl := counts[x.tbl][x.s as int := counts[x.tbl][x.s] + 1]], dc, items + [x])
    ensures !x.Symbol? || x.dc != dc ==> CountsAre(counts, dc, items + [x])
  {
    hide Count;
    CountMore(items, x);
  }

  class Encoder {
    const c: Config
    const gather: bool
    const dcTables: seq<Table>
    const acTables: seq<Table>
    const w: BitWriter

    // Symbol counts of a gathering pass.
    var dcCounts: seq<seq<nat>>
    var acCounts: seq<seq<nat>>

    // Pending end-of-block run and buffered correction bits.
    var eobrun: nat
    var be: nat
    const bitBuffer: array<bit>

    var lastDc: seq<int>
    var restartsToGo: nat
    var nextRestart: nat

    // Items of the current segment, of the finished ones, and of all together.
    ghost var items: seq<Item>
    ghost var done: seq<seq<Item>>
    ghost var segs: seq<seq<byte>>

    ghost predicate Valid()
      reads this`dcCounts, this`acCounts, this`items, this`done, this`segs, w
    {
      && TablesOk(dcTables, acTables) && ValidConfig(c) && bitBuffer.Length == MAX_CORR_BITS
      && (gather ==> !c.kind.Sequential?)
      && w.Valid() && AllWellFormed(Joined(done) + items)
      && (gather ==> CountsAre(dcCounts, true, Joined(done) + items) && CountsAre(acCounts, false, Joined(done) + items))
      && (!gather ==>
            && Covered(dcTables, acTables, items) && w.Sent() == SpellItems(dcTables, acTables, items)
            && w.before == Written(segs) && |segs| == |done|
            && (forall i :: 0 <= i < |done| ==>
                  Covered(dcTables, acTables, done[i]) && Packed(segs[i], SpellItems(dcTables, acTables, done[i]))))
    }

    constructor (conf: Config, gathering: bool, dc: seq<Table>, ac: seq<Table>)
      requires ValidConfig(conf) && TablesOk(dc, ac) && (gathering ==> !conf.kind.Sequential?)
      ensures Valid() && At(Start(conf)) && c == conf && gather == gathering && dcTables == dc && acTables == ac
      ensures fresh(w) && fresh(bitBuffer) && w.out == []
    {
      c, gather, dcTables, acTables := conf, gathering, dc, ac;
      w := new BitWriter();
      bitBuffer := new bit[MAX_CORR_BITS](_ => 0);
      dcCounts := seq(NUM_HUFF_TBLS, t => seq(257, s => 0));
      acCounts := seq(NUM_HUFF_TBLS, t => seq(257, s => 0));
      eobrun, be, restartsToGo, nextRestart := 0, 0, conf.interval, 0;
      lastDc := seq(|conf.tbls|, i => 0);
      items, done, segs := [], [], [];
    }

    /** The coder's fields hold the pending run and its correction bits. */
    ghost predicate AtAc(a: Ac)
      reads this`items, this`eobrun, this`be, bitBuffer
    {
      && items == a.items && eobrun == a.eobrun && be == |a.pend| <= bitBuffer.Length
      && bitBuffer[..be] == a.pend
    }

    ghost predicate At(st: State)
      reads this`items, this`done, this`eobrun, this`be, this`lastDc, this`restartsToGo, this`nextRestart, bitBuffer
    {
      && AtAc(st.ac) && done == st.done && lastDc == st.lastDc && restartsToGo == st.toGo
      && (!gather ==> nextRestart == |done| % 8)
    }

    // ----- items

    /** Counts or writes a symbol. */
    method EmitSymbol(dc: bool, tbl: nat, s: byte) returns (ok: bool)
      requires Valid() && WellFormed(Symbol(dc, tbl, s))
      modifies this`dcCounts, this`acCounts, this`items, w
      ensures Valid() && (ok <==> gather || Writable(dcTables, acTables, Symbol(dc, tbl, s)))
      ensures ok ==> items == old(items) + [Symbol(dc, tbl, s)]
    {
      hide CountsAre, Covered, SpellItems, Joined, Packed, Written;
      ghost var x := Symbol(dc, tbl, s);
      SeqAppend(Joined(done), items, x);
      if gather {
        CountsMore(dcCounts, true, Joined(done) + items, x);
        CountsMore(acCounts, false, Joined(done) + items, x);
        CountsSize(dcCounts, true, Joined(done) + items);
        CountsSize(acCounts, false, Joined(done) + items);
        if dc {
          dcCounts := dcCounts[tbl := dcCounts[tbl][s as int := dcCounts[tbl][s] + 1]];
        } else {
          acCounts := acCounts[tbl := acCounts[tbl][s as int := acCounts[tbl][s] + 1]];
        }
        items := items + [x];
        return true;
      }
      var t := (if dc then dcTables else acTables)[tbl];
      assert TableOk(t);
      ok := w.EmitBits(t.co[s], t.si[s]);
      if ok {
        SpellMore(dcTables, acTables, items, x);
        items := items + [x];
      }
    }

    /** Writes some bits, unless gathering. */
    method EmitPlain(code: nat, size: nat)
      requires Valid() && 1 <= size <= 16
      modifies this`items, w
      ensures Valid() && items == old(items) + [Plain(code, size)]
    {
      hide CountsAre, Covered, SpellItems, Joined, Packed, Written;
      ghost var x := Plain(code, size);
      SeqAppend(Joined(done), items, x);
      if gather {
        CountsMore(dcCounts, true, Joined(done) + items, x);
        CountsMore(acCounts, false, Joined(done) + items, x);
      } else {
        SpellMore(dcTables, acTables, items, x);
        var ok := w.EmitBits(code, size);
      }
      items := items + [x];
    }

    /** Writes buffered correction bits. */
    method EmitBuffered(start: nat, n: nat)
      requires Valid() && start + n <= bitBuffer.Length
      modifies this`items, w
      ensures Valid() && items == old(items) + PlainBits(bitBuffer[start..start + n])
    {
      hide Valid;
      ghost var bits := bitBuffer[start..start + n];
      var i := 0;
      while i < n
        invariant 0 <= i <= n && Valid() && items == old(items) + PlainBits(bits[..i])
        invariant bitBuffer[start..start + n] == bits
      {
        EmitPlain(bitBuffer[start + i], 1);
        assert bits[i] == bitBuffer[start + i];
        assert bits[..i + 1] == bits[..i] + [bits[i]];
        assert PlainBits(bits[..i + 1]) == PlainBits(bits[..i]) + [Plain(bits[i], 1)];
        i := i + 1;
      }
      assert bits[..n] == bits;
    }

    /** Everything listed can be coded: in a gathering pass anything can. */
    ghost predicate Sure(list: seq<Item>) {
      gather || (TablesOk(dcTables, acTables) && Covered(dcTables, acTables, list))
    }

    lemma SurePrefix(a: seq<Item>, b: seq<Item>)
      requires Sure(b) && a <= b
      ensures Sure(a)
    {
    }

    /** Whether the tables have a word for a symbol, if one is needed. */
    ghost predicate CanSend(x: Item) {
      gather || (TablesOk(dcTables, acTables) && Writable(dcTables, acTables, x))
    }

    lemma SureCan(a: seq<Item>, x: Item, b: seq<Item>)
      requires Sure(b) && a + [x] <= b
      ensures CanSend(x)
    {
      if !gather {
        CoveredNext(dcTables, acTables, a, x, b);
      }
    }

    lemma ValidTables()
      requires Valid()
      ensures TablesOk(dcTables, acTables) && ValidConfig(c) && bitBuffer.Length == MAX_CORR_BITS
    {
    }

    // ----- end-of-block runs

    /** Sends any pending run of end-of-blocks, with its correction bits. */
    method EmitEobrun(tbl: nat, ghost a: Ac) returns (ok: bool)
      requires Valid() && AtAc(a) && a.eobrun <= MAX_EOBRUN && tbl < NUM_HUFF_TBLS
      modifies this`dcCounts, this`acCounts, this`items, this`eobrun, this`be, w
      ensures Valid() && (ok ==> AtAc(EmitEob(tbl, a)))
      ensures Sure(EmitEob(tbl, a).items) ==> ok
    {
      hide Valid, Sure, CanSend, Width, PlainBits;
      if eobrun == 0 {
        return true;
      }
      hide EmitEob;
      ghost var r := EmitEob(tbl, a);
      ValidTables();
      EobFirst(tbl, a);
      var nbits := RunBits(eobrun);
      if nbits > 14 {
        return false;
      }
      ghost var x := Symbol(false, tbl, nbits * 16);
      if Sure(r.items) {
        SureCan(a.items, x, r.items);
      }
      ok := EmitSymbol(false, tbl, nbits * 16);
      if !ok {
        CannotSend(x);
        return;
      }
      if nbits != 0 {
        EmitPlain(eobrun, nbits);
      }
      eobrun := 0;
      EmitBuffered(0, be);
      be := 0;
    }

    lemma CannotSend(x: Item)
      requires Valid() && !(gather || (TablesOk(dcTables, acTables) && Writable(dcTables, acTables, x)))
      ensures !CanSend(x)
    {
    }

    // ----- sequential coding

    /** Runs of sixteen zeros; `r` counts down by sixteen. */
    method EmitZrls(tbl: nat, run: nat, ghost all: seq<Item>) returns (ok: bool, r: nat)
      requires Valid() && tbl < NUM_HUFF_TBLS
      modifies this`dcCounts, this`acCounts, this`items, w
      ensures Valid() && (ok ==> items == old(items) + Zrls(tbl, run / 16) && r == run % 16)
      ensures Sure(all) && old(items) + Zrls(tbl, run / 16) <= all ==> ok
    {
      hide Valid, Sure, CanSend;
      ghost var was, sure := items, Sure(all) && items + Zrls(tbl, run / 16) <= all;
      r := run;
      ghost var k := 0;
      assert Zrls(tbl, 0) == [];
      while r > 15
        invariant run == r + 16 * k && items == was + Zrls(tbl, k) && Valid()
      {
        ghost var x := Symbol(false, tbl, 0xF0);
        assert Zrls(tbl, k + 1) == Zrls(tbl, k) + [x];
        if sure {
          ZrlPrefix(tbl, k, run / 16, was, all);
          SureCan(items, x, all);
        }
        ok := EmitSymbol(false, tbl, 0xF0);
        if !ok {
          CannotSend(x);
          return;
        }
        SeqAppend(was, Zrls(tbl, k), x);
        r := r - 16;
        k := k + 1;
      }
      ok := true;
    }

    /** A value after a run of zeros. */
    method EmitRun(tbl: nat, run: nat, v: int, ghost all: seq<Item>) returns (o: Outcome)
      requires Valid() && tbl < NUM_HUFF_TBLS && v != 0
      requires AcFits(v) ==> items + RunValue(tbl, run, v) <= all
      modifies this`dcCounts, this`acCounts, this`items, w
      ensures Valid() && (o.Done? ==> AcFits(v) && items == old(items) + RunValue(tbl, run, v))
      ensures AcFits(v) && Sure(all) ==> o.Done?
    {
      hide Valid, Sure, CanSend, Width, Zrls, WellFormed;
      ghost var was := items;
      ZrlWellFormed(tbl);
      if AcFits(v) {
        RunParts(tbl, run, v, was, all);
      }
      var ok, r := EmitZrls(tbl, run, all);
      if !ok {
        return MissingCode;
      }
      var nbits := FindWidth(Abs(v));
      WidthPositive(Abs(v));
      if nbits > MAX_COEF_BITS {
        return BadCoef;
      }
      ghost var x := Symbol(false, tbl, r * 16 + nbits);
      RunWellFormed(tbl, r, nbits);
      if Sure(all) {
        SureCan(items, x, all);
      }
      ok := EmitSymbol(false, tbl, r * 16 + nbits);
      if !ok {
        CannotSend(x);
        return MissingCode;
      }
      EmitPlain(ValueBits(v, nbits), nbits);
      o := Done;
    }

    /** A DC difference. */
    method EncodeDc(tbl: nat, diff: int, ghost all: seq<Item>) returns (o: Outcome)
      requires Valid() && tbl < NUM_HUFF_TBLS
      requires DcFits(diff) ==> items + DcItems(tbl, diff) <= all
      modifies this`dcCounts, this`acCounts, this`items, w
      ensures Valid() && (o.Done? ==> DcFits(diff) && items == old(items) + DcItems(tbl, diff))
      ensures DcFits(diff) && Sure(all) ==> o.Done?
    {
      hide Valid, Sure, CanSend, Width;
      var nbits := FindWidth(Abs(diff));
      if nbits > MAX_COEF_BITS + 1 {
        return BadCoef;
      }
      ghost var x := Symbol(true, tbl, nbits);
      ghost var more := if nbits > 0 then [Plain(ValueBits(diff, nbits), nbits)] else [];
      SeqGroup(items, x, more);
      assert items + [x] <= items + DcItems(tbl, diff) <= all;
      if Sure(all) {
        SureCan(items, x, all);
      }
      var ok := EmitSymbol(true, tbl, nbits);
      if !ok {
        CannotSend(x);
        return MissingCode;
      }
      if nbits > 0 {
        EmitPlain(ValueBits(diff, nbits), nbits);
      }
      o := Done;
    }

    /** The AC coefficients of a sequential block. */
    method EncodeAc(tbl: nat, z: Block, se: nat, ghost all: seq<Item>) returns (o: Outcome)
      requires Valid() && !gather && tbl < NUM_HUFF_TBLS && se < 64
      requires CoefsFit(z, 1, se, 0) ==> items + AcItems(tbl, z, 1, se, 0) <= all
      modifies this`dcCounts, this`acCounts, this`items, w
      ensures Valid() && (o.Done? ==> CoefsFit(z, 1, se, 0) && items == old(items) + AcItems(tbl, z, 1, se, 0))
      ensures CoefsFit(z, 1, se, 0) && Sure(all) ==> o.Done?
    {
      hide Valid, Sure, CanSend, AcFits, RunValue;
      ghost var fits, was := CoefsFit(z, 1, se, 0), items;
      var r, k := 0, 1;
      while k <= se
        invariant 1 <= k <= se + 1 && Valid() && CoefsFit(z, 1, k - 1, 0)
        invariant fits ==> items + AcItems(tbl, z, k, se, r) == was + AcItems(tbl, z, 1, se, 0)
      {
        ShiftedWhole(z[k]);
        if z[k] == 0 {
          AcFitsZero();
          r := r + 1;
        } else {
          if fits {
            SeqGroupAll(items, RunValue(tbl, r, z[k]), AcItems(tbl, z, k + 1, se, 0));
          }
          ghost var target := if fits then all else items + if AcFits(z[k]) then RunValue(tbl, r, z[k]) else [];
          o := EmitRun(tbl, r, z[k], target);
          if !o.Done? {
            return;
          }
          r := 0;
        }
        k := k + 1;
      }
      if r > 0 {
        ghost var x := Symbol(false, tbl, 0);
        if Sure(all) && fits {
          SureCan(items, x, all);
        }
        var ok := EmitSymbol(false, tbl, 0);
        if !ok {
          CannotSend(x);
          return MissingCode;
        }
      }
      o := Done;
    }

    // ----- progressive AC scans

    method EndOfBlock(tbl: nat, ghost a: Ac, ghost br: seq<bit>, n: nat) returns (ok: bool)
      requires Valid() && AtAc(a) && Settled(a) && tbl < NUM_HUFF_TBLS && n == |br| <= 63
      requires be + n <= bitBuffer.Length && bitBuffer[be..be + n] == br
      modifies this`dcCounts, this`acCounts, this`items, this`eobrun, this`be, w
      ensures Valid() && (ok ==> AtAc(EndBlock(tbl, a, br)))
      ensures Sure(EndBlock(tbl, a, br).items) ==> ok
    {
      hide Valid, Sure, EmitEob;
      assert bitBuffer[..be + n] == bitBuffer[..be] + bitBuffer[be..be + n];
      eobrun := eobrun + 1;
      be := be + n;
      ok := true;
      if eobrun == MAX_EOBRUN || be > MAX_CORR_BITS - 64 + 1 {
        ok := EmitEobrun(tbl, Ac(a.items, a.eobrun + 1, a.pend + br));
      }
    }

    method EncodeAcFirst(tbl: nat, z: Block, ss: nat, se: nat, al: nat, ghost a: Ac) returns (o: Outcome)
      requires Valid() && AtAc(a) && Settled(a) && a.pend == [] && tbl < NUM_HUFF_TBLS && 1 <= ss && se < 64
      modifies this`dcCounts, this`acCounts, this`items, this`eobrun, this`be, w
      ensures Valid() && (o.Done? ==> CoefsFit(z, ss, se, al) && AtAc(FirstItems(tbl, z, ss, se, al, 0, a)))
      ensures CoefsFit(z, ss, se, al) && Sure(FirstItems(tbl, z, ss, se, al, 0, a).items) ==> o.Done?
    {
      hide Valid, Sure, AcFits, RunValue, Shifted, EmitEob, EndBlock, Settled;
      SettledParts(a);
      ghost var fits := CoefsFit(z, ss, se, al);
      ghost var cur := a;
      ghost var all := if fits then FirstItems(tbl, z, ss, se, al, 0, a) else a;
      var r, k := 0, ss;
      while k <= se
        invariant ss <= k && (k <= se + 1 || k == ss) && Valid() && CoefsFit(z, ss, k - 1, al)
        invariant AtAc(cur) && Settled(cur) && cur.pend == [] && cur.eobrun < MAX_EOBRUN
        invariant fits ==> FirstItems(tbl, z, k, se, al, r, cur) == all
      {
        var v := Shifted(z[k], al);
        if v == 0 {
          AcFitsZero();
          r := r + 1;
        } else {
          ghost var b := EmitEob(tbl, cur);
          EobSettled(tbl, cur);
          if fits {
            FirstStep(tbl, z, k, se, al, r, cur);
            if Sure(all.items) {
              SurePrefix(b.items, all.items);
            }
          }
          var ok := EmitEobrun(tbl, cur);
          if !ok {
            return MissingCode;
          }
          ghost var target := if fits then all.items else items + if AcFits(v) then RunValue(tbl, r, v) else [];
          o := EmitRun(tbl, r, v, target);
          if !o.Done? {
            return;
          }
          cur := b.(items := b.items + RunValue(tbl, r, v));
          SettledItems(b, cur);
          SettledParts(cur);
          r := 0;
        }
        k := k + 1;
      }
      if r > 0 {
        assert bitBuffer[be..be + 0] == [];
        var ok := EndOfBlock(tbl, cur, [], 0);
        if !ok {
          return MissingCode;
        }
      }
      o := Done;
    }

    /** Magnitudes after the point transform, and the position of the last new coefficient. */
    method FindNew(z: Block, ss: nat, se: nat, al: nat) returns (absvalues: array<nat>, eob: nat)
      requires 1 <= ss < 64 && se < 64
      ensures fresh(absvalues) && absvalues.Length == 64
      ensures forall i :: ss <= i <= se ==> absvalues[i] == Mag(z[i], al)
      ensures eob == EobOf(z, ss, se, al)
    {
      hide Mag;
      absvalues := new nat[64](_ => 0);
      eob := 0;
      var k := ss;
      while k <= se
        invariant ss <= k && (k <= se + 1 || k == ss)
        invariant forall i :: ss <= i < k ==> absvalues[i] == Mag(z[i], al)
        invariant eob == EobOf(z, ss, k - 1, al)
      {
        var temp := AbsShift(z[k], al);
        absvalues[k] := temp;
        if temp == 1 {
          eob := k;
        }
        k := k + 1;
      }
    }

    /** The correction bits buffered in this block follow the ones that are pending. */
    ghost predicate Buffered(start: nat, br: seq<bit>)
      reads bitBuffer
    {
      start + |br| <= bitBuffer.Length && bitBuffer[start..start + |br|] == br
    }

    /** Runs of sixteen with the bits buffered so far; the buffer is then used from its start. */
    method EmitRuns(tbl: nat, run: nat, start: nat, n: nat, ghost br: seq<bit>, ghost a: Ac)
      returns (ok: bool, r: nat, start': nat, n': nat)
      requires Valid() && AtAc(a) && Settled(a) && tbl < NUM_HUFF_TBLS
      requires start == be && n == |br| && Buffered(start, br)
      modifies this`dcCounts, this`acCounts, this`items, this`eobrun, this`be, w
      ensures Valid()
      ensures ok ==> var x := Runs(tbl, run, br, a);
                     AtAc(x.a) && r == x.r && start' == be && n' == |x.br| && Buffered(start', x.br)
      ensures Sure(Runs(tbl, run, br, a).a.items) ==> ok
    {
      hide Valid, Sure, EmitEob, Settled, PlainBits, CanSend;
      SettledParts(a);
      ghost var cur, now, x := a, br, Runs(tbl, run, br, a);
      r, start', n' := run, start, n;
      while r > 15
        invariant Valid() && AtAc(cur) && Settled(cur) && cur.eobrun < MAX_EOBRUN
        invariant start' == be && n' == |now| && Buffered(start', now)
        invariant Runs(tbl, r, now, cur) == x
      {
        ghost var b := EmitEob(tbl, cur);
        ghost var zrl := Symbol(false, tbl, 0xF0);
        RunsStep(tbl, r, now, cur);
        SettledParts(cur);
        EobSettled(tbl, cur);
        if Sure(x.a.items) {
          SurePrefix(b.items, x.a.items);
          SureCan(b.items, zrl, x.a.items);
        }
        ok := EmitEobrun(tbl, cur);
        if !ok {
          return;
        }
        ok := EmitSymbol(false, tbl, 0xF0);
        if !ok {
          CannotSend(zrl);
          return;
        }
        r := r - 16;
        EmitBuffered(start', n');
        start', n' := 0, 0;
        cur := b.(items := b.items + [zrl] + PlainBits(now));
        SettledItems(b, cur);
        SettledParts(cur);
        now := [];
      }
      ok := true;
    }

    /** A coefficient that becomes nonzero. */
    method EmitNew(tbl: nat, r: nat, v: int, start: nat, n: nat, ghost br: seq<bit>, ghost a: Ac, ghost all: seq<Item>)
      returns (ok: bool)
      requires Valid() && AtAc(a) && a.eobrun <= MAX_EOBRUN && (a.pend != [] ==> a.eobrun > 0) && tbl < NUM_HUFF_TBLS
      requires r < 16 && n == |br| && Buffered(start, br)
      requires EmitEob(tbl, a).items + NewCoef(tbl, r, v, br) <= all
      modifies this`dcCounts, this`acCounts, this`items, this`eobrun, this`be, w
      ensures Valid()
      ensures ok ==> var b := EmitEob(tbl, a); AtAc(b.(items := b.items + NewCoef(tbl, r, v, br))) && be == 0
      ensures Sure(all) ==> ok
    {
      hide Valid, Sure, EmitEob, PlainBits, CanSend;
      ghost var b, x := EmitEob(tbl, a), Symbol(false, tbl, r * 16 + 1);
      ghost var sign := Plain(if v < 0 then 0 else 1, 1);
      NewParts(b.items, x, sign, PlainBits(br), all);
      assert NewCoef(tbl, r, v, br) == [x, sign] + PlainBits(br);
      if Sure(all) {
        SurePrefix(b.items, all);
        SureCan(b.items, x, all);
      }
      ok := EmitEobrun(tbl, a);
      if !ok {
        return;
      }
      NothingPending(tbl, a);
      ok := EmitSymbol(false, tbl, r * 16 + 1);
      if !ok {
        CannotSend(x);
        return;
      }
      EmitPlain(if v < 0 then 0 else 1, 1);
      EmitBuffered(start, n);
    }

    /** Buffers one more correction bit. There is always room. */
    method BufferBit(start: nat, n: nat, b: bit, ghost br: seq<bit>, ghost a: Ac)
      requires Valid() && AtAc(a) && n == |br| && start == be && Buffered(start, br) && start + n < MAX_CORR_BITS
      modifies bitBuffer
      ensures Valid() && AtAc(a) && Buffered(start, br + [b])
    {
      hide Covered, SpellItems, CountsAre, Joined, Packed, Written;
      ghost var was := bitBuffer[..];
      bitBuffer[start + n] := b;
      assert bitBuffer[..be] == was[..be] == a.pend;
      assert bitBuffer[start..start + n] == was[start..start + n] == br;
      assert bitBuffer[start..start + n + 1] == bitBuffer[start..start + n] + [b];
    }

    /** One nonzero coefficient of a refinement block. */
    method RefineCoef(tbl: nat, z: Block, k: nat, se: nat, al: nat, eob: nat, temp: nat, run: nat, from: nat, count: nat,
                      ghost br: seq<bit>, ghost a: Ac, ghost all: Ac)
      returns (ok: bool, r: nat, start: nat, n: nat, ghost next: seq<bit>, ghost cur: Ac)
      requires Valid() && AtAc(a) && Settled(a) && a.eobrun < MAX_EOBRUN && tbl < NUM_HUFF_TBLS
      requires 1 <= k <= se < 64 && temp == Mag(z[k], al) > 0
      requires forall i :: k <= i <= se && Mag(z[i], al) == 1 ==> i <= eob
      requires |br| < k && count == |br| && from == be && Buffered(from, br)
      requires all == RefineItems(tbl, z, k, se, al, eob, run, br, a)
      modifies this`dcCounts, this`acCounts, this`items, this`eobrun, this`be, w, bitBuffer
      ensures Valid() && (Sure(all.items) ==> ok)
      ensures ok ==>
                && AtAc(cur) && Settled(cur) && cur.eobrun < MAX_EOBRUN
                && |next| < k + 1 && n == |next| && start == be && Buffered(start, next)
                && RefineItems(tbl, z, k + 1, se, al, eob, r, next, cur) == all
    {
      hide Valid, Sure, EmitEob, EndBlock, Settled, Mag, NewCoef, Runs, RefineItems;
      RefineStep(tbl, z, k, se, al, eob, run, br, a);
      ghost var x := if k <= eob then Runs(tbl, run, br, a) else Run(run, br, a);
      if Sure(all.items) {
        SurePrefix(x.a.items, all.items);
      }
      r, start, n, next, cur := run, from, count, br, a;
      if k <= eob {
        ok, r, start, n := EmitRuns(tbl, r, start, n, br, a);
        if !ok {
          return;
        }
      }
      cur, next := x.a, x.br;
      SettledParts(cur);
      ok := true;
      if temp > 1 {
        BufferBit(start, n, temp % 2, next, cur);
        next := next + [temp % 2];
        n := n + 1;
      } else {
        ghost var b := EmitEob(tbl, cur);
        EobSettled(tbl, cur);
        ok := EmitNew(tbl, r, z[k], start, n, next, cur, all.items);
        if !ok {
          return;
        }
        cur := b.(items := b.items + NewCoef(tbl, r, z[k], next));
        SettledItems(b, cur);
        SettledParts(cur);
        next, r, start, n := [], 0, 0, 0;
        assert bitBuffer[0..0] == [];
      }
    }

    /** A refinement block: new coefficients, correction bits, and the end of the block. */
    method EncodeAcRefine(tbl: nat, z: Block, ss: nat, se: nat, al: nat, ghost a: Ac) returns (ok: bool)
      requires Valid() && AtAc(a) && Settled(a) && tbl < NUM_HUFF_TBLS && 1 <= ss < 64 && se < 64
      modifies this`dcCounts, this`acCounts, this`items, this`eobrun, this`be, w, bitBuffer
      ensures Valid() && a.eobrun < MAX_EOBRUN
      ensures ok ==> AtAc(RefineItems(tbl, z, ss, se, al, EobOf(z, ss, se, al), 0, [], a))
      ensures Sure(RefineItems(tbl, z, ss, se, al, EobOf(z, ss, se, al), 0, [], a).items) ==> ok
    {
      hide Valid, Sure, EmitEob, EndBlock, Settled, Mag, RefineItems, EobOf;
      SettledParts(a);
      ValidTables();
      var absvalues, eob := FindNew(z, ss, se, al);
      ghost var cur: Ac, br: seq<bit> := a, [];
      ghost var all := RefineItems(tbl, z, ss, se, al, eob, 0, [], a);
      var r, k, start, n := 0, ss, be, 0;
      assert bitBuffer[start..start + 0] == [];
      while k <= se
        invariant ss <= k && (k <= se + 1 || k == ss) && Valid()
        invariant forall i :: ss <= i <= se ==> absvalues[i] == Mag(z[i], al)
        invariant AtAc(cur) && Settled(cur) && cur.eobrun < MAX_EOBRUN
        invariant |br| < k && n == |br| && start == be && Buffered(start, br)
        invariant RefineItems(tbl, z, k, se, al, eob, r, br, cur) == all
      {
        if absvalues[k] == 0 {
          RefineSkip(tbl, z, k, se, al, eob, r, br, cur);
          r := r + 1;
        } else {
          ok, r, start, n, br, cur := RefineCoef(tbl, z, k, se, al, eob, absvalues[k], r, start, n, br, cur, all);
          if !ok {
            return;
          }
        }
        k := k + 1;
      }
      RefineEnd(tbl, z, k, se, al, eob, r, br, cur);
      ok := true;
      if r > 0 || n > 0 {
        ok := EndOfBlock(tbl, cur, br, n);
      }
    }

    // ----- MCUs

    /** The state apart from the restart counters, which are brought up to date after the blocks. */
    ghost predicate AtBlocks(st: State)
      reads this`items, this`done, this`eobrun, this`be, this`lastDc, bitBuffer
    {
      AtAc(st.ac) && done == st.done && lastDc == st.lastDc
    }

    /** One block, by the procedure of the scan. */
    method EncodeBlock(b: McuBlock, ghost st: State) returns (o: Outcome)
      requires Valid() && ValidConfig(c) && ValidState(c, st) && AtBlocks(st) && b.ci < |c.tbls|
      modifies this`dcCounts, this`acCounts, this`items, this`eobrun, this`be, this`lastDc, w, bitBuffer
      ensures Valid() && (o.Done? ==> InRange(c, st, b) && AtBlocks(SendBlock(c, st, b)))
      ensures InRange(c, st, b) && Sure(SendBlock(c, st, b).ac.items) ==> o.Done?
    {
      hide Valid, Sure, DcFits, CoefsFit, DcItems, AcItems, FirstItems, RefineItems, Settled, Mag, DcShift, BitAt, WellFormed;
      var t := c.tbls[b.ci];
      ghost var fits := InRange(c, st, b);
      ghost var all := if fits then SendBlock(c, st, b).ac.items else [];
      match c.kind
      case Sequential(limSe) =>
        SequentialWrites();
        var diff := b.z[0] - lastDc[b.ci];
        ghost var first := if DcFits(diff) then items + DcItems(t.dc, diff) else items;
        if fits {
          SeqGroupAll(items, DcItems(t.dc, diff), AcItems(t.ac, b.z, 1, limSe, 0));
          assert first <= all;
        }
        o := EncodeDc(t.dc, diff, if fits then all else first);
        if !o.Done? {
          return;
        }
        ghost var second := if CoefsFit(b.z, 1, limSe, 0) then items + AcItems(t.ac, b.z, 1, limSe, 0) else items;
        o := EncodeAc(t.ac, b.z, limSe, second);
        if o.Done? {
          lastDc := lastDc[b.ci := b.z[0]];
        }
      case DcFirst(al) =>
        var v := DcShift(b.z[0], al);
        var diff := v - lastDc[b.ci];
        o := EncodeDc(t.dc, diff, if fits then all else items);
        if o.Done? {
          lastDc := lastDc[b.ci := v];
        }
      case AcFirst(ss, se, al) =>
        o := EncodeAcFirst(c.tbls[0].ac, b.z, ss, se, al, st.ac);
      case DcRefine(al) =>
        EmitPlain(BitAt(b.z[0], al), 1);
        o := Done;
      case AcRefine(ss, se, al) =>
        var ok := EncodeAcRefine(c.tbls[0].ac, b.z, ss, se, al, st.ac);
        o := if ok then Done else MissingCode;
    }

    /** Sequential scans are not counted here. */
    lemma SequentialWrites()
      requires Valid() && c.kind.Sequential?
      ensures !gather
    {
    }

    method EncodeBlocks(bs: seq<McuBlock>, ghost st: State) returns (o: Outcome)
      requires Valid() && ValidConfig(c) && ValidState(c, st) && AtBlocks(st) && ValidMcu(bs, |c.tbls|)
      modifies this`dcCounts, this`acCounts, this`items, this`eobrun, this`be, this`lastDc, w, bitBuffer
      ensures Valid() && (o.Done? ==> McuInRange(c, st, bs) && AtBlocks(SendBlocks(c, st, bs)))
      ensures McuInRange(c, st, bs) && Sure(SendBlocks(c, st, bs).ac.items) ==> o.Done?
    {
      hide Valid, Sure, InRange, SendBlock, ValidState, AtBlocks;
      ghost var fits, cur := McuInRange(c, st, bs), st;
      ghost var all := if fits then SendBlocks(c, st, bs) else st;
      var blkn := 0;
      assert bs[0..] == bs;
      while blkn < |bs|
        invariant 0 <= blkn <= |bs| && Valid() && ValidState(c, cur) && AtBlocks(cur)
        invariant McuInRange(c, cur, bs[blkn..]) <==> fits
        invariant fits ==> SendBlocks(c, cur, bs[blkn..]) == all
      {
        BlocksStep(c, cur, bs[blkn..]);
        assert bs[blkn..][0] == bs[blkn] && bs[blkn..][1..] == bs[blkn + 1..];
        if fits && Sure(all.ac.items) {
          SurePrefix(SendBlock(c, cur, bs[blkn]).ac.items, all.ac.items);
        }
        o := EncodeBlock(bs[blkn], cur);
        if !o.Done? {
          return;
        }
        cur := SendBlock(c, cur, bs[blkn]);
        blkn := blkn + 1;
      }
      BlocksEnd(c, cur);
      o := Done;
    }

    /** Ends the current segment: pending runs, padding, and the restart marker. */
    method EmitRestart(ghost st: State) returns (ok: bool)
      requires Valid() && ValidConfig(c) && ValidState(c, st) && AtBlocks(st) && (!gather ==> nextRestart == |done| % 8)
      modifies this`dcCounts, this`acCounts, this`items, this`done, this`segs, this`eobrun, this`be, this`lastDc, w
      ensures Valid() && (ok ==> AtBlocks(Restarted(c, st)))
      ensures Sure(Flushed(c, st).ac.items) ==> ok
    {
      hide Valid, Sure, EmitEob, Settled;
      SettledParts(st.ac);
      ok := true;
      if !c.kind.Sequential? {
        ok := EmitEobrun(c.tbls[0].ac, st.ac);
        if !ok {
          return;
        }
      }
      CloseSegment();
      if DcScan(c.kind) {
        lastDc := seq(|c.tbls|, i => 0);
      } else {
        eobrun, be := 0, 0;
      }
      assert lastDc == if DcScan(c.kind) then Zeros(|c.tbls|) else st.lastDc;
    }

    /** Writes the end of a segment, unless gathering, and starts the next. */
    method CloseSegment()
      requires Valid() && (!gather ==> nextRestart == |done| % 8)
      modifies this`items, this`done, this`segs, w
      ensures Valid() && items == [] && done == old(done) + [old(items)]
    {
      hide CountsAre, Covered, SpellItems, Packed, Stuff, WithMarker, Holds, AllWellFormed, Written, Joined;
      JoinedMore(done, items);
      AppendNothing(Joined(done) + items);
      if !gather {
        w.FlushBits();
        ghost var data := w.data;
        w.EmitMarker(0xD0 + nextRestart);
        WrittenMore(segs, data);
        MarkerAfter(Written(segs), data, |segs|);
        segs := segs + [data];
        NothingSpelled(dcTables, acTables);
      }
      done, items := done + [items], [];
    }

    /** A restart marker if one is due. */
    method RestartIfDue(ghost st: State) returns (ok: bool)
      requires Valid() && ValidConfig(c) && ValidState(c, st) && At(st)
      modifies this`dcCounts, this`acCounts, this`items, this`done, this`segs, this`eobrun, this`be, this`lastDc, w
      ensures Valid() && (ok ==> AtBlocks(BeforeMcu(c, st)))
      ensures (c.interval > 0 && st.toGo == 0 ==> Sure(Flushed(c, st).ac.items)) ==> ok
    {
      hide Valid, Sure, ValidState, Flushed;
      ok := true;
      if c.interval > 0 && restartsToGo == 0 {
        ok := EmitRestart(st);
      }
    }

    /** Counts the MCU; after a restart the counter starts again and the marker number moves on. */
    method CountMcu()
      modifies this`restartsToGo, this`nextRestart
      ensures c.interval == 0 ==> restartsToGo == old(restartsToGo) && nextRestart == old(nextRestart)
      ensures c.interval > 0 ==>
                && restartsToGo == (if old(restartsToGo) == 0 then c.interval else old(restartsToGo)) - 1
                && nextRestart == if old(restartsToGo) == 0 then (old(nextRestart) + 1) % 8 else old(nextRestart)
    {
      if c.interval > 0 {
        if restartsToGo == 0 {
          restartsToGo := c.interval;
          nextRestart := (nextRestart + 1) % 8;
        }
        restartsToGo := restartsToGo - 1;
      }
    }

    /** Codes one MCU, after a restart if one is due. */
    method EncodeMcu(bs: seq<McuBlock>, ghost st: State) returns (o: Outcome)
      requires Valid() && ValidConfig(c) && ValidState(c, st) && At(st) && ValidMcu(bs, |c.tbls|)
      modifies this, w, bitBuffer
      ensures Valid()
      ensures o.Done? ==> McuInRange(c, BeforeMcu(c, st), bs) && At(SendBlocks(c, BeforeMcu(c, st), bs))
      ensures McuInRange(c, BeforeMcu(c, st), bs) && Sure(Total(SendBlocks(c, BeforeMcu(c, st), bs))) ==> o.Done?
    {
      hide Valid, Sure, ValidState, McuInRange, Joined, SendBlocks, BeforeMcu, Flushed;
      ghost var s0 := BeforeMcu(c, st);
      BeforeCounters(c, st);
      if McuInRange(c, s0, bs) {
        BlocksCounters(c, s0, bs);
        if Sure(Total(SendBlocks(c, s0, bs))) {
          SureParts(st, s0, SendBlocks(c, s0, bs));
        }
      }
      var ok := RestartIfDue(st);
      if !ok {
        return MissingCode;
      }
      o := EncodeBlocks(bs, s0);
      if !o.Done? {
        return;
      }
      CountMcu();
    }

    /** What is sure to be codable in the end was so before the restart and before the blocks. */
    lemma SureParts(st: State, s0: State, s1: State)
      requires ValidConfig(c) && ValidState(c, st) && s0 == BeforeMcu(c, st)
      requires s1.done == s0.done && s0.ac.items <= s1.ac.items && Sure(Total(s1))
      ensures Sure(s1.ac.items)
      ensures c.interval > 0 && st.toGo == 0 ==> Sure(Flushed(c, st).ac.items)
    {
      hide EmitEob, Settled;
      if !gather {
        CoveredTail(dcTables, acTables, Joined(s1.done), s1.ac.items);
        if c.interval > 0 && st.toGo == 0 {
          JoinedMore(st.done, Flushed(c, st).ac.items);
          CoveredTail(dcTables, acTables, Joined(s1.done), s1.ac.items);
          CoveredTail(dcTables, acTables, Joined(st.done), Flushed(c, st).ac.items);
        }
      }
    }

    /** Ends the scan: what is pending is sent, and the last byte filled up. */
    method FinishPass(ghost st: State) returns (ok: bool)
      requires Valid() && ValidConfig(c) && ValidState(c, st) && At(st)
      modifies this, w
      ensures (gather ==> Valid()) && (Sure(Flushed(c, st).ac.items) ==> ok)
      ensures ok ==> items == Flushed(c, st).ac.items && done == st.done
      ensures ok && !gather ==> Stored(dcTables, acTables, w.out, done, items, segs, w.data)
    {
      hide Sure, EmitEob, Settled, CountsAre, Covered, SpellItems, Packed, Stuff, Written, Holds, AllWellFormed, Joined;
      SettledParts(st.ac);
      ok := true;
      if !c.kind.Sequential? {
        ok := EmitEobrun(c.tbls[0].ac, st.ac);
        if !ok {
          return;
        }
      }
      if !gather {
        w.FlushBits();
      }
    }
  }

  lemma BeforeCounters(c: Config, st: State)
    requires ValidConfig(c) && ValidState(c, st)
    ensures var s0 := BeforeMcu(c, st);
            && (c.interval == 0 ==> s0 == st)
            && (c.interval > 0 ==> s0.toGo == (if st.toGo == 0 then c.interval else st.toGo) - 1)
            && |s0.done| == |st.done| + if c.interval > 0 && st.toGo == 0 then 1 else 0
  {
  }

  lemma BlocksCounters(c: Config, st: State, bs: seq<McuBlock>)
    requires ValidConfig(c) && ValidState(c, st) && ValidMcu(bs, |c.tbls|) && McuInRange(c, st, bs)
    ensures var r := SendBlocks(c, st, bs); r.done == st.done && r.toGo == st.toGo && st.ac.items <= r.ac.items
  {
  }

  lemma MarkerAfter(a: seq<byte>, d: seq<byte>, n: nat)
    ensures a + WithMarker(d, n) == a + Stuff(d) + [0xFF, 0xD0 + n % 8]
  {
    hide Stuff;
  }

  lemma AppendNothing(a: seq<Item>)
    ensures a + [] == a
  {
  }

  lemma NothingSpelled(dc: seq<Table>, ac: seq<Table>)
    requires TablesOk(dc, ac)
    ensures Covered(dc, ac, []) && SpellItems(dc, ac, []) == []
  {
  }

  lemma CoveredTail(dc: seq<Table>, ac: seq<Table>, a: seq<Item>, b: seq<Item>)
    requires TablesOk(dc, ac) && Covered(dc, ac, a + b)
    ensures Covered(dc, ac, a) && Covered(dc, ac, b)
  {
    forall i | 0 <= i < |a| ensures Writable(dc, ac, a[i]) {
      assert (a + b)[i] == a[i];
    }
    forall i | 0 <= i < |b| ensures Writable(dc, ac, b[i]) {
      assert (a + b)[|a| + i] == b[i];
    }
  }

  lemma BlocksStep(c: Config, st: State, bs: seq<McuBlock>)
    requires ValidConfig(c) && ValidState(c, st) && ValidMcu(bs, |c.tbls|) && bs != []
    ensures InRange(c, st, bs[0]) ==>
              && ValidState(c, SendBlock(c, st, bs[0]))
              && (McuInRange(c, st, bs) <==> McuInRange(c, SendBlock(c, st, bs[0]), bs[1..]))
    ensures McuInRange(c, st, bs) ==>
              && InRange(c, st, bs[0])
              && SendBlocks(c, st, bs) == SendBlocks(c, SendBlock(c, st, bs[0]), bs[1..])
              && SendBlock(c, st, bs[0]).ac.items <= SendBlocks(c, st, bs).ac.items
  {
    hide InRange, SendBlock, ValidState;
    if InRange(c, st, bs[0]) {
      BlockValid(c, st, bs[0]);
    }
  }

  lemma BlocksEnd(c: Config, st: State)
    requires ValidConfig(c) && ValidState(c, st)
    ensures McuInRange(c, st, []) && SendBlocks(c, st, []) == st
  {
  }

  lemma RefineSkip(tbl: nat, z: Block, k: nat, se: nat, al: nat, eob: nat, r: nat, br: seq<bit>, a: Ac)
    requires k <= se < 64 && a.eobrun < MAX_EOBRUN && Mag(z[k], al) == 0
    requires forall i :: k <= i <= se && Mag(z[i], al) == 1 ==> i <= eob
    ensures RefineItems(tbl, z, k, se, al, eob, r, br, a) == RefineItems(tbl, z, k + 1, se, al, eob, r + 1, br, a)
  {
  }

  lemma RefineEnd(tbl: nat, z: Block, k: nat, se: nat, al: nat, eob: nat, r: nat, br: seq<bit>, a: Ac)
    requires se < k && se < 64 && a.eobrun < MAX_EOBRUN
    ensures RefineItems(tbl, z, k, se, al, eob, r, br, a) == if r > 0 || br != [] then EndBlock(tbl, a, br) else a
  {
  }

  /** What a nonzero coefficient does, and that the correction bits fit in the buffer. */
  lemma RefineStep(tbl: nat, z: Block, k: nat, se: nat, al: nat, eob: nat, r: nat, br: seq<bit>, a: Ac)
    requires 1 <= k <= se < 64 && Settled(a) && |br| < k && Mag(z[k], al) > 0 && a.eobrun < MAX_EOBRUN
    requires forall i :: k <= i <= se && Mag(z[i], al) == 1 ==> i <= eob
    ensures var x := if k <= eob then Runs(tbl, r, br, a) else Run(r, br, a);
            var all := RefineItems(tbl, z, k, se, al, eob, r, br, a);
            && Settled(x.a) && x.a.eobrun < MAX_EOBRUN && |x.br| <= |br| && x.a.items <= all.items
            && (Mag(z[k], al) > 1 ==>
                  && all == RefineItems(tbl, z, k + 1, se, al, eob, x.r, x.br + [Mag(z[k], al) % 2], x.a)
                  && |x.a.pend| + |x.br| < MAX_CORR_BITS)
            && (Mag(z[k], al) == 1 ==>
                  && x.r < 16
                  && var b := EmitEob(tbl, x.a);
                     var c := b.(items := b.items + NewCoef(tbl, x.r, z[k], x.br));
                     && all == RefineItems(tbl, z, k + 1, se, al, eob, 0, [], c)
                     && c.items <= all.items)
  {
    hide EmitEob, EndBlock, Settled, Mag, Runs, NewCoef;
    var x := if k <= eob then Runs(tbl, r, br, a) else Run(r, br, a);
    RunsSettled(tbl, r, br, a);
    SettledParts(x.a);
    if Mag(z[k], al) > 1 {
      RefineSettled(tbl, z, k + 1, se, al, eob, x.r, x.br + [Mag(z[k], al) % 2], x.a);
      PrefixTrans(a.items, x.a.items, RefineItems(tbl, z, k, se, al, eob, r, br, a).items);
    } else {
      EobSettled(tbl, x.a);
      var b := EmitEob(tbl, x.a);
      var c := b.(items := b.items + NewCoef(tbl, x.r, z[k], x.br));
      SettledItems(b, c);
      RefineSettled(tbl, z, k + 1, se, al, eob, 0, [], c);
      PrefixTrans(x.a.items, b.items, c.items);
      PrefixTrans(x.a.items, c.items, RefineItems(tbl, z, k + 1, se, al, eob, 0, [], c).items);
    }
  }

  lemma NothingPending(tbl: nat, a: Ac)
    requires a.eobrun <= MAX_EOBRUN && (a.pend != [] ==> a.eobrun > 0)
    ensures EmitEob(tbl, a).pend == []
  {
  }

  lemma NewParts(a: seq<Item>, x: Item, y: Item, d: seq<Item>, all: seq<Item>)
    requires a + ([x, y] + d) <= all
    ensures a <= all && a + [x] <= all && a + [x] + [y] + d == a + ([x, y] + d)
  {
    assert a + [x] + [y] + d == a + ([x, y] + d);
    assert a + [x] == (a + ([x, y] + d))[..|a| + 1];
    assert a == (a + ([x, y] + d))[..|a|];
  }

  lemma RunsStep(tbl: nat, r: nat, br: seq<bit>, a: Ac)
    requires r > 15 && Settled(a) && a.eobrun < MAX_EOBRUN
    ensures var b := EmitEob(tbl, a);
            var c := b.(items := b.items + [Symbol(false, tbl, 0xF0)] + PlainBits(br));
            var x := Runs(tbl, r, br, a);
            && x == Runs(tbl, r - 16, [], c)
            && b.items <= x.a.items && b.items + [Symbol(false, tbl, 0xF0)] <= x.a.items
  {
    hide EmitEob, Settled, PlainBits;
    SettledParts(a);
    EobSettled(tbl, a);
    var b := EmitEob(tbl, a);
    var c := b.(items := b.items + [Symbol(false, tbl, 0xF0)] + PlainBits(br));
    SettledItems(b, c);
    RunsSettled(tbl, r - 16, [], c);
    PrefixTrans(b.items + [Symbol(false, tbl, 0xF0)], c.items, Runs(tbl, r - 16, [], c).a.items);
    PrefixTrans(b.items, c.items, Runs(tbl, r - 16, [], c).a.items);
  }

  lemma SeqGroup(a: seq<Item>, x: Item, b: seq<Item>)
    ensures a + ([x] + b) == a + [x] + b
  {
  }

  lemma SeqGroupAll(a: seq<Item>, b: seq<Item>, d: seq<Item>)
    ensures a + (b + d) == a + b + d
  {
  }

  lemma ShiftedWhole(v: int)
    ensures Shifted(v, 0) == v
  {
    NonzeroMag(v);
  }

  lemma AcFitsZero()
    ensures AcFits(0)
  {
  }

  /** Coding a value sends the pending run, then the value, then the rest. */
  lemma FirstStep(tbl: nat, z: Block, k: nat, se: nat, al: nat, r: nat, a: Ac)
    requires k <= se < 64 && CoefsFit(z, k, se, al) && Settled(a) && a.pend == [] && Shifted(z[k], al) != 0
    requires a.eobrun < MAX_EOBRUN
    ensures var b := EmitEob(tbl, a);
            var c := b.(items := b.items + RunValue(tbl, r, Shifted(z[k], al)));
            && FirstItems(tbl, z, k, se, al, r, a) == FirstItems(tbl, z, k + 1, se, al, 0, c)
            && b.items <= c.items <= FirstItems(tbl, z, k, se, al, r, a).items
            && b.items <= FirstItems(tbl, z, k, se, al, r, a).items
  {
    hide RunValue, Shifted, EmitEob, EndBlock, Settled;
    SettledParts(a);
    EobSettled(tbl, a);
    var b := EmitEob(tbl, a);
    var c := b.(items := b.items + RunValue(tbl, r, Shifted(z[k], al)));
    SettledItems(b, c);
    FirstSettled(tbl, z, k + 1, se, al, 0, c);
    PrefixTrans(b.items, c.items, FirstItems(tbl, z, k + 1, se, al, 0, c).items);
  }

  lemma ZrlWellFormed(tbl: nat)
    requires tbl < NUM_HUFF_TBLS
    ensures WellFormed(Symbol(false, tbl, 0xF0))
  {
  }

  lemma RunWellFormed(tbl: nat, r: nat, n: nat)
    requires tbl < NUM_HUFF_TBLS && r < 16 && n <= MAX_COEF_BITS
    ensures WellFormed(Symbol(false, tbl, r * 16 + n))
  {
  }

  /** Number of bits that follow the symbol of a run. */
  method RunBits(m: nat) returns (n: nat)
    requires m > 0
    ensures n + 1 == Width(m)
  {
    var temp: nat := m / 2;
    n := 0;
    while temp != 0
      invariant n + 1 + Width(temp) == Width(m)
      decreases temp
    {
      n := n + 1;
      temp := temp / 2;
    }
  }

  lemma WidthPositive(m: nat)
    ensures m > 0 ==> Width(m) > 0
  {
  }

  lemma ZrlPrefix(tbl: nat, k: nat, n: nat, was: seq<Item>, all: seq<Item>)
    requires k < n && was + Zrls(tbl, n) <= all
    ensures was + Zrls(tbl, k) + [Symbol(false, tbl, 0xF0)] <= all
  {
    var p := was + Zrls(tbl, k) + [Symbol(false, tbl, 0xF0)];
    assert p == (was + Zrls(tbl, n))[..|p|];
  }

  /** The runs of sixteen, then the symbol, then the value. */
  lemma RunParts(tbl: nat, run: nat, v: int, was: seq<Item>, all: seq<Item>)
    requires AcFits(v) && was + RunValue(tbl, run, v) <= all
    ensures was + Zrls(tbl, run / 16) <= all
    ensures var n := Width(Abs(v));
            var x := Symbol(false, tbl, run % 16 * 16 + n);
            && was + Zrls(tbl, run / 16) + [x] <= all
            && was + Zrls(tbl, run / 16) + [x] + [Plain(ValueBits(v, n), n)] == was + RunValue(tbl, run, v)
  {
    var z, n := Zrls(tbl, run / 16), Width(Abs(v));
    var x, y := Symbol(false, tbl, run % 16 * 16 + n), Plain(ValueBits(v, n), n);
    assert z + [x, y] == z + [x] + [y];
    assert was + (z + [x, y]) == was + z + [x] + [y];
    assert was + z + [x] == (was + (z + [x, y]))[..|was + z + [x]|];
  }

  /** The symbol of a run is the first thing sent. */
  lemma EobFirst(tbl: nat, a: Ac)
    requires 0 < a.eobrun <= MAX_EOBRUN
    ensures 1 <= Width(a.eobrun) <= 15
    ensures var n := Width(a.eobrun) - 1;
            var r := EmitEob(tbl, a);
            && a.items + [Symbol(false, tbl, n * 16)] <= r.items
            && r.items == a.items + [Symbol(false, tbl, n * 16)] + (if n > 0 then [Plain(a.eobrun, n)] else [])
                          + PlainBits(a.pend)
  {
    EobWidth(a.eobrun);
  }

  lemma SeqAppend(a: seq<Item>, b: seq<Item>, x: Item)
    ensures a + (b + [x]) == a + b + [x]
  {
  }

  lemma CountsSize(counts: seq<seq<nat>>, dc: bool, items: seq<Item>)
    requires CountsAre(counts, dc, items)
    ensures |counts| == NUM_HUFF_TBLS && forall t :: 0 <= t < NUM_HUFF_TBLS ==> |counts[t]| == 257
  {
  }
}
