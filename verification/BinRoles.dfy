/**
 What the statistics bins are for (section F.1.4.4 and tables F.4 and F.5 of ITU-T
 T.81): every decision has a role, and two decisions share a bin exactly if they
 have the same role. Both coders figure their bins with the same arithmetic, so
 this is what tells one arithmetic from another.
 */
module BinRoles {
  import opened Bytes
  import opened CodingInterval
  import opened MagnitudeModel
  import opened BlockModel
  import opened ScanModel

  /** Conditioning category of a DC difference (figure F.8 and section F.1.4.4.1.2). */
  datatype Class = Zero | SmallPositive | SmallNegative | LargePositive | LargeNegative

  function ClassOf(q: Conditioning, d: int): Class {
    if d == 0 || (q.dcL > 0 && Abs(d) <= Pow2(q.dcL - 1)) then Zero
    else if Abs(d) > Pow2(q.dcU) then (if d > 0 then LargePositive else LargeNegative)
    else if d > 0 then SmallPositive else SmallNegative
  }

  /** What a decision asks, and what is known when it is asked. */
  datatype Role =
    | DcNonzero(tbl: nat, c: Class)
    | DcSign(tbl: nat, c: Class)
    | DcMore(tbl: nat, c: Class, negative: bool)
    | DcCategory(tbl: nat, n: nat)
    | DcBits(tbl: nat, n: nat)
    | AcEnd(tbl: nat, k: nat)
    | AcNonzero(tbl: nat, k: nat)
    | AcMore(tbl: nat, k: nat)
    | AcCategory(tbl: nat, above: bool, n: nat)
    | AcBits(tbl: nat, above: bool, n: nat)
    | Even

  predicate ValidRole(r: Role) {
    match r
    case DcCategory(_, n) => n <= 14
    case DcBits(_, n) => 1 <= n <= 14
    case AcEnd(_, k) => 1 <= k < 64
    case AcNonzero(_, k) => 1 <= k < 64
    case AcMore(_, k) => 1 <= k < 64
    case AcCategory(_, _, n) => 1 <= n <= 14
    case AcBits(_, _, n) => 1 <= n <= 14
    case _ => true
  }

  /** A decision by its role: the question and the answer. */
  datatype Fact = Fact(role: Role, bit: nat)

  function Answer(b: bool): nat {
    if b then 1 else 0
  }

  // ----- the questions, in the order of figures F.4 to F.9 and G.10

  /** The lower bits of `w`, whose highest is bit `n`. */
  function BitFacts(role: Role, w: nat, n: nat): (fs: seq<Fact>)
    ensures |fs| == n
  {
    seq(n, j requires 0 <= j < n => Fact(role, w / Pow2(n - 1 - j) % 2))
  }

  function DcMagnitudeFacts(tbl: nat, w: nat): seq<Fact>
    requires w > 0
  {
    var n := Log2(w);
    seq(n + 1, j requires 0 <= j => Fact(DcCategory(tbl, j), Answer(w >= Pow2(j + 1)))) + BitFacts(DcBits(tbl, n), w, n)
  }

  /** A DC difference `v`, when the one before was `u`. */
  function DcFacts(q: Conditioning, u: int, v: int): seq<Fact> {
    var t, c := q.dcTbl, ClassOf(q, u);
    if v == 0 then [Fact(DcNonzero(t, c), 0)]
    else
      [Fact(DcNonzero(t, c), 1)]
      + ([Fact(DcSign(t, c), Answer(v < 0))]
         + ([Fact(DcMore(t, c, v < 0), Answer(Abs(v) > 1))]
            + if Abs(v) > 1 then DcMagnitudeFacts(t, Abs(v) - 1) else []))
  }

  function AcMagnitudeFacts(tbl: nat, above: bool, w: nat): seq<Fact>
    requires w > 1
  {
    var n := Log2(w);
    seq(n, j requires 0 <= j => Fact(AcCategory(tbl, above, j + 1), Answer(w >= Pow2(j + 2))))
    + BitFacts(AcBits(tbl, above, n), w, n)
  }

  /** The magnitude `m` of coefficient `k`. */
  function AcFacts(q: Conditioning, k: nat, m: nat): seq<Fact> {
    var more := AcMore(q.acTbl, k);
    [Fact(more, Answer(m > 1))]
    + if m <= 1 then [] else [Fact(more, Answer(m > 2))] + if m == 2 then [] else AcMagnitudeFacts(q.acTbl, k > q.acK, m - 1)
  }

  predicate NoneLeft(z: Block, k: nat, se: nat, al: nat) {
    forall i :: k <= i <= se && i < 64 ==> Mag(z[i], al) == 0
  }

  /** A band from coefficient `k` on, where an end of block is asked for. */
  function BandFacts(q: Conditioning, z: Block, k: nat, se: nat, al: nat): seq<Fact>
    requires 1 <= k && se < 64
    decreases se + 1 - k, 1
  {
    if k > se then []
    else if NoneLeft(z, k, se, al) then [Fact(AcEnd(q.acTbl, k), 1)]
    else [Fact(AcEnd(q.acTbl, k), 0)] + SeekFacts(q, z, k, se, al)
  }

  function SeekFacts(q: Conditioning, z: Block, k: nat, se: nat, al: nat): seq<Fact>
    requires 1 <= k && se < 64
    decreases se + 1 - k, 0
  {
    if k > se then [] else
    var m := Mag(z[k], al);
    [Fact(AcNonzero(q.acTbl, k), Answer(m > 0))]
    + if m == 0 then SeekFacts(q, z, k + 1, se, al)
      else [Fact(Even, Answer(z[k] < 0))] + (AcFacts(q, k, m) + BandFacts(q, z, k + 1, se, al))
  }

  /** A refinement from coefficient `k` on; its end is asked for once past what was already nonzero. */
  function RefineFacts(q: Conditioning, z: Block, k: nat, se: nat, al: nat): seq<Fact>
    requires 1 <= k && se < 64
    decreases se + 1 - k, 1
  {
    if k > se then []
    else if !NoneLeft(z, k, se, al + 1) then RefineSeekFacts(q, z, k, se, al)
    else if NoneLeft(z, k, se, al) then [Fact(AcEnd(q.acTbl, k), 1)]
    else [Fact(AcEnd(q.acTbl, k), 0)] + RefineSeekFacts(q, z, k, se, al)
  }

  function RefineSeekFacts(q: Conditioning, z: Block, k: nat, se: nat, al: nat): seq<Fact>
    requires 1 <= k && se < 64
    decreases se + 1 - k, 0
  {
    if k > se then [] else
    var m := Mag(z[k], al);
    if m > 1 then [Fact(AcMore(q.acTbl, k), m % 2)] + RefineFacts(q, z, k + 1, se, al)
    else
      [Fact(AcNonzero(q.acTbl, k), m)]
      + if m == 0 then RefineSeekFacts(q, z, k + 1, se, al)
        else [Fact(Even, Answer(z[k] < 0))] + RefineFacts(q, z, k + 1, se, al)
  }

  /** Per component: the last DC value, and the last difference. */
  datatype History = History(lastDc: seq<int>, diff: seq<int>)

  predicate ValidHistory(h: History, n: nat) {
    |h.lastDc| == n && |h.diff| == n
  }

  function NoHistory(n: nat): (h: History)
    ensures ValidHistory(h, n)
  {
    History(seq(n, i => 0), seq(n, i => 0))
  }

  function DcBlockFacts(qs: seq<Conditioning>, h: History, ci: nat, m: int): (r: (seq<Fact>, History))
    requires ValidHistory(h, |qs|) && ci < |qs|
    ensures ValidHistory(r.1, |qs|)
  {
    var v := m - h.lastDc[ci];
    (DcFacts(qs[ci], h.diff[ci], v), History(h.lastDc[ci := m], h.diff[ci := v]))
  }

  function BlockFacts(kind: Kind, qs: seq<Conditioning>, h: History, b: McuBlock): (r: (seq<Fact>, History))
    requires ValidKind(kind) && ValidHistory(h, |qs|) && b.ci < |qs|
    ensures ValidHistory(r.1, |qs|)
  {
    var q, z := qs[b.ci], b.z;
    match kind
    case Sequential(limSe) =>
      var (fs, h') := DcBlockFacts(qs, h, b.ci, z[0]);
      (fs + BandFacts(q, z, 1, limSe, 0), h')
    case DcFirst(al) => DcBlockFacts(qs, h, b.ci, DcShift(z[0], al))
    case AcFirst(ss, se, al) => (BandFacts(q, z, ss, se, al), h)
    case DcRefine(al) => ([Fact(Even, BitAt(z[0], al))], h)
    case AcRefine(ss, se, al) => (RefineFacts(q, z, ss, se, al), h)
  }

  function BlocksFacts(kind: Kind, qs: seq<Conditioning>, h: History, bs: seq<McuBlock>): (r: (seq<Fact>, History))
    requires ValidKind(kind) && ValidHistory(h, |qs|) && ValidMcu(bs, |qs|)
    ensures ValidHistory(r.1, |qs|)
    decreases |bs|
  {
    if bs == [] then ([], h) else
    var (fs, h1) := BlockFacts(kind, qs, h, bs[0]);
    var (gs, h2) := BlocksFacts(kind, qs, h1, bs[1..]);
    (fs + gs, h2)
  }

  // ----- the bins of the code

  function ClassBin(c: Class): nat {
    match c
    case Zero => 0
    case SmallPositive => 4
    case SmallNegative => 8
    case LargePositive => 12
    case LargeNegative => 16
  }

  function Upper(above: bool): nat {
    if above then 217 else 189
  }

  function BinOf(r: Role): Bin
    requires ValidRole(r)
  {
    match r
    case DcNonzero(t, c) => DcBin(t, ClassBin(c))
    case DcSign(t, c) => DcBin(t, ClassBin(c) + 1)
    case DcMore(t, c, negative) => DcBin(t, ClassBin(c) + 2 + Answer(negative))
    case DcCategory(t, n) => DcBin(t, X1 + n)
    case DcBits(t, n) => DcBin(t, X1 + n + 14)
    case AcEnd(t, k) => AcBin(t, 3 * (k - 1))
    case AcNonzero(t, k) => AcBin(t, 3 * (k - 1) + 1)
    case AcMore(t, k) => AcBin(t, 3 * (k - 1) + 2)
    case AcCategory(t, above, n) => AcBin(t, Upper(above) + n - 1)
    case AcBits(t, above, n) => AcBin(t, Upper(above) + n + 13)
    case Even => FixedBin
  }

  lemma BinsApart(r: Role, s: Role)
    requires ValidRole(r) && ValidRole(s)
    ensures BinOf(r) == BinOf(s) <==> r == s
    ensures InArea(BinOf(r))
  {
  }

  /** The decisions are the answers, each in the bin of its question. */
  predicate Says(es: seq<Decision>, fs: seq<Fact>) {
    && |es| == |fs|
    && forall i :: 0 <= i < |es| ==> ValidRole(fs[i].role) && es[i] == Decision(BinOf(fs[i].role), fs[i].bit)
  }

  lemma SaysJoin(es: seq<Decision>, fs: seq<Fact>, es': seq<Decision>, fs': seq<Fact>)
    requires Says(es, fs) && Says(es', fs')
    ensures Says(es + es', fs + fs')
  {
    hide ValidRole, BinOf;
  }

  lemma SaysOne(e: Decision, f: Fact)
    requires ValidRole(f.role) && e == Decision(BinOf(f.role), f.bit)
    ensures Says([e], [f])
  {
  }

  lemma SaysNone()
    ensures Says([], [])
  {
  }

  lemma {:induction false} OnesAre(dc: bool, tbl: nat, i: nat, n: nat)
    ensures var es := Ones(dc, tbl, i, n);
            |es| == n + 1 && forall j :: 0 <= j <= n ==> es[j] == Decision(Area(dc, tbl, i + j), Answer(j < n))
    decreases n
  {
    hide Area;
    if n > 0 {
      OnesAre(dc, tbl, i + 1, n - 1);
    }
  }

  lemma {:induction false} PatternIs(bin: Bin, w: nat, n: nat)
    ensures var es := Pattern(bin, w, n);
            |es| == n && forall j :: 0 <= j < n ==> es[j] == Decision(bin, w / Pow2(n - 1 - j) % 2)
    decreases n
  {
    hide Pow2;
    if n > 0 {
      PatternIs(bin, w, n - 1);
    }
  }

  /** The category goes up exactly as often as the value reaches the next power of two. */
  lemma StepBit(w: nat, j: nat)
    requires w > 0
    ensures w >= Pow2(j + 1) <==> j < Log2(w)
  {
    if j < Log2(w) {
      Pow2Monotone(j + 1, Log2(w));
    } else {
      Pow2Monotone(Log2(w) + 1, j + 1);
    }
  }

  lemma BitsSaid(role: Role, w: nat, n: nat)
    requires ValidRole(role)
    ensures Says(Pattern(BinOf(role), w, n), BitFacts(role, w, n))
  {
    hide Pow2, BinOf;
    PatternIs(BinOf(role), w, n);
  }

  lemma DcMagnitudeSaid(tbl: nat, w: nat)
    requires 0 < w < 0x8000
    ensures var n := Log2(w);
            Says(Ones(true, tbl, X1, n) + Pattern(DcBin(tbl, X1 + n + 14), w, n), DcMagnitudeFacts(tbl, w))
  {
    hide Pow2, Pattern, Log2, Ones, BitFacts;
    var n := Log2(w);
    CategoryRange(w);
    OnesAre(true, tbl, X1, n);
    var steps := seq(n + 1, j requires 0 <= j => Fact(DcCategory(tbl, j), Answer(w >= Pow2(j + 1))));
    forall j | 0 <= j <= n ensures steps[j] == Fact(DcCategory(tbl, j), Answer(j < n)) { StepBit(w, j); }
    assert Says(Ones(true, tbl, X1, n), steps);
    if n > 0 {
      BitsSaid(DcBits(tbl, n), w, n);
    } else {
      assert Pattern(DcBin(tbl, X1 + n + 14), w, 0) == [] by { PatternIs(DcBin(tbl, X1 + n + 14), w, 0); }
      assert BitFacts(DcBits(tbl, n), w, n) == [];
      SaysNone();
    }
    SaysJoin(Ones(true, tbl, X1, n), steps, Pattern(DcBin(tbl, X1 + n + 14), w, n), BitFacts(DcBits(tbl, n), w, n));
  }

  /** The category compared with L and U is the comparison of the difference itself. */
  lemma ContextIs(q: Conditioning, d: int)
    ensures DcContextAfter(q, d) == ClassBin(ClassOf(q, d))
  {
    if d != 0 {
      ThresholdIs(Abs(d) - 1, q.dcL);
      ThresholdIs(Abs(d) - 1, q.dcU);
      hide Pow2, Category;
    }
  }

  /** Two differences condition the next one alike exactly if they are of the same class. */
  lemma SameContext(q: Conditioning, u: int, v: int)
    ensures DcContextAfter(q, u) == DcContextAfter(q, v) <==> ClassOf(q, u) == ClassOf(q, v)
  {
    ContextIs(q, u);
    ContextIs(q, v);
    hide DcContextAfter, ClassOf;
  }

  lemma ThresholdIs(w: nat, e: nat)
    ensures Category(w) < Pow2(e) / 2 <==> e > 0 && w + 1 <= Pow2(e - 1)
    ensures Category(w) > Pow2(e) / 2 <==> w + 1 > Pow2(e)
  {
    if w > 0 {
      var n := Log2(w);
      if e > 0 {
        if n < e - 1 {
          Pow2Monotone(n + 1, e - 1);
        } else {
          Pow2Monotone(e - 1, n);
        }
        if n < e {
          Pow2Monotone(n, e - 1);
          Pow2Monotone(n + 1, e);
        } else {
          Pow2Monotone(e, n);
        }
      }
    }
  }

  lemma DcSaid(q: Conditioning, u: int, v: int)
    requires Abs(v) <= 0x8000
    ensures Says(DcDecisions(q, DcContextAfter(q, u), v), DcFacts(q, u, v))
  {
    hide Pow2, Log2, Ones, Pattern, DcMagnitudeFacts, ClassOf, Says;
    ContextIs(q, u);
    hide DcContextAfter;
    var t, c := q.dcTbl, ClassOf(q, u);
    var ctx := ClassBin(c);
    if v == 0 {
      SaysOne(Decision(DcBin(t, ctx), 0), Fact(DcNonzero(t, c), 0));
    } else {
      var w := Abs(v) - 1;
      var e1, f1 := Decision(DcBin(t, ctx), 1), Fact(DcNonzero(t, c), 1);
      var e2, f2 := Decision(DcBin(t, ctx + 1), SignBit(v)), Fact(DcSign(t, c), Answer(v < 0));
      var e3, f3 := Decision(DcBin(t, ctx + 2 + SignBit(v)), Answer(w > 0)), Fact(DcMore(t, c, v < 0), Answer(w > 0));
      SaysOne(e1, f1);
      SaysOne(e2, f2);
      SaysOne(e3, f3);
      if w == 0 {
        assert [f3] + [] == [f3];
        SaysJoin([e2], [f2], [e3], [f3]);
        SaysJoin([e1], [f1], [e2] + [e3], [f2] + [f3]);
      } else {
        var n := Log2(w);
        DcMagnitudeSaid(t, w);
        var es := Ones(true, t, X1, n) + Pattern(DcBin(t, X1 + n + 14), w, n);
        var fs := DcMagnitudeFacts(t, w);
        SaysJoin([e3], [f3], es, fs);
        SaysJoin([e2], [f2], [e3] + es, [f3] + fs);
        SaysJoin([e1], [f1], [e2] + ([e3] + es), [f2] + ([f3] + fs));
      }
    }
  }

  lemma AcMagnitudeSaid(tbl: nat, above: bool, w: nat)
    requires 1 < w < 0x8000
    ensures var n, x2 := Log2(w), Upper(above);
            && n > 0
            && Says(Ones(false, tbl, x2, n - 1) + Pattern(AcBin(tbl, x2 + n - 1 + 14), w, n), AcMagnitudeFacts(tbl, above, w))
  {
    hide Pow2, Pattern, Ones, BitFacts;
    var n, x2 := Log2(w), Upper(above);
    CategoryRange(w);
    OnesAre(false, tbl, x2, n - 1);
    var steps := seq(n, j requires 0 <= j => Fact(AcCategory(tbl, above, j + 1), Answer(w >= Pow2(j + 2))));
    forall j | 0 <= j < n ensures steps[j] == Fact(AcCategory(tbl, above, j + 1), Answer(j < n - 1)) { StepBit(w, j + 1); }
    hide Log2;
    assert Says(Ones(false, tbl, x2, n - 1), steps);
    BitsSaid(AcBits(tbl, above, n), w, n);
    SaysJoin(Ones(false, tbl, x2, n - 1), steps, Pattern(AcBin(tbl, x2 + n - 1 + 14), w, n), BitFacts(AcBits(tbl, above, n), w, n));
  }

  lemma AcSaid(q: Conditioning, k: nat, m: nat)
    requires 1 <= k < 64 && 0 < m <= 0x8000
    ensures Says(AcMagnitude(q.acTbl, 3 * (k - 1) + 2, X2(q, k), m - 1), AcFacts(q, k, m))
  {
    hide Pow2, Log2, Ones, Pattern, AcMagnitudeFacts, Says;
    var t, w := q.acTbl, m - 1;
    var more := AcMore(t, k);
    var bin := AcBin(t, 3 * (k - 1) + 2);
    assert BinOf(more) == bin;
    SaysOne(Decision(bin, Answer(w > 0)), Fact(more, Answer(w > 0)));
    if w == 0 {
      assert [Fact(more, 0)] + [] == [Fact(more, 0)];
    } else {
      SaysOne(Decision(bin, Answer(w > 1)), Fact(more, Answer(w > 1)));
      if w == 1 {
        assert [Fact(more, 0)] + [] == [Fact(more, 0)];
        SaysJoin([Decision(bin, 1)], [Fact(more, 1)], [Decision(bin, 0)], [Fact(more, 0)]);
      } else {
        AcMagnitudeSaid(t, k > q.acK, w);
        var n, x2 := Log2(w), X2(q, k);
        var es := Ones(false, t, x2, n - 1) + Pattern(AcBin(t, x2 + n - 1 + 14), w, n);
        var fs := AcMagnitudeFacts(t, k > q.acK, w);
        SaysJoin([Decision(bin, 1)], [Fact(more, 1)], es, fs);
        SaysJoin([Decision(bin, 1)], [Fact(more, 1)], [Decision(bin, 1)] + es, [Fact(more, 1)] + fs);
      }
    }
  }

  lemma CoefMag(z: Block, k: nat, al: nat)
    requires Coefs(z) && k < 64
    ensures Mag(z[k], al) <= 0x8000
    ensures Mag(z[k], al) > 0 ==> Answer(z[k] < 0) == SignBit(z[k])
  {
    ApproxIsCoef(z[k], al);
  }

  /** `k` is the coefficient before the ones left. */
  lemma {:induction false} BandSaid(q: Conditioning, z: Block, k: nat, ke: nat, se: nat, al: nat)
    requires Coefs(z) && ke <= se < 64 && (k < ke ==> Mag(z[ke], al) > 0)
    requires forall i :: ke < i <= se ==> Mag(z[i], al) == 0
    ensures Says(AcFrom(q, z, k, ke, se, al), BandFacts(q, z, k + 1, se, al))
    decreases se - k, 1
  {
    hide Mag, Says, AcSeek, SeekFacts;
    if k < ke {
      assert !NoneLeft(z, k + 1, se, al);
      SeekSaid(q, z, k, ke, se, al);
      var e, f := Ac(q, 3 * k, 0), Fact(AcEnd(q.acTbl, k + 1), 0);
      SaysOne(e, f);
      SaysJoin([e], [f], AcSeek(q, z, k, ke, se, al), SeekFacts(q, z, k + 1, se, al));
    } else if k < se {
      SaysOne(Ac(q, 3 * k, 1), Fact(AcEnd(q.acTbl, k + 1), 1));
    } else {
      SaysNone();
    }
  }

  lemma {:induction false} SeekSaid(q: Conditioning, z: Block, k: nat, ke: nat, se: nat, al: nat)
    requires Coefs(z) && k < ke <= se < 64 && Mag(z[ke], al) > 0
    requires forall i :: ke < i <= se ==> Mag(z[i], al) == 0
    ensures Says(AcSeek(q, z, k, ke, se, al), SeekFacts(q, z, k + 1, se, al))
    decreases se - k, 0
  {
    hide Mag, Says, AcFrom, BandFacts, AcMagnitude, AcFacts;
    var m := Mag(z[k + 1], al);
    CoefMag(z, k + 1, al);
    var e, f := Ac(q, 3 * k + 1, Answer(m > 0)), Fact(AcNonzero(q.acTbl, k + 1), Answer(m > 0));
    SaysOne(e, f);
    if m == 0 {
      SeekSaid(q, z, k + 1, ke, se, al);
      SaysJoin([e], [f], AcSeek(q, z, k + 1, ke, se, al), SeekFacts(q, z, k + 2, se, al));
    } else {
      var e', f' := Decision(FixedBin, SignBit(z[k + 1])), Fact(Even, Answer(z[k + 1] < 0));
      var es, fs := AcMagnitude(q.acTbl, 3 * k + 2, X2(q, k + 1), m - 1), AcFacts(q, k + 1, m);
      var es', fs' := AcFrom(q, z, k + 1, ke, se, al), BandFacts(q, z, k + 2, se, al);
      SaysOne(e', f');
      AcSaid(q, k + 1, m);
      BandSaid(q, z, k + 1, ke, se, al);
      SaysJoin(es, fs, es', fs');
      SaysJoin([e'], [f'], es + es', fs + fs');
      SaysJoin([e], [f], [e'] + (es + es'), [f'] + (fs + fs'));
    }
  }

  /** `kex` is the last coefficient nonzero before the refinement. */
  predicate LastBefore(z: Block, k: nat, kex: nat, se: nat, al: nat) {
    se < 64 && kex <= se && (k < kex ==> Mag(z[kex], al + 1) > 0)
    && forall i :: kex < i <= se ==> Mag(z[i], al + 1) == 0
  }

  lemma {:induction false} RefineSaid(q: Conditioning, z: Block, k: nat, ke: nat, kex: nat, se: nat, al: nat)
    requires Coefs(z) && ke <= se < 64 && (k < ke ==> Mag(z[ke], al) > 0) && kex <= ke && LastBefore(z, k, kex, se, al)
    requires forall i :: ke < i <= se ==> Mag(z[i], al) == 0
    ensures Says(RefineFrom(q, z, k, ke, kex, se, al), RefineFacts(q, z, k + 1, se, al))
    decreases se - k, 1
  {
    hide Mag, Says, RefineSeek, RefineSeekFacts;
    if k < ke {
      assert !NoneLeft(z, k + 1, se, al);
      RefineSeekSaid(q, z, k, ke, kex, se, al);
      var es, fs := RefineSeek(q, z, k, ke, kex, se, al), RefineSeekFacts(q, z, k + 1, se, al);
      if k >= kex {
        var e, f := Ac(q, 3 * k, 0), Fact(AcEnd(q.acTbl, k + 1), 0);
        SaysOne(e, f);
        SaysJoin([e], [f], es, fs);
      } else {
        assert [] + es == es;
      }
    } else if k < se {
      SaysOne(Ac(q, 3 * k, 1), Fact(AcEnd(q.acTbl, k + 1), 1));
    } else {
      SaysNone();
    }
  }

  lemma {:induction false} RefineSeekSaid(q: Conditioning, z: Block, k: nat, ke: nat, kex: nat, se: nat, al: nat)
    requires Coefs(z) && k < ke <= se < 64 && Mag(z[ke], al) > 0 && kex <= ke && LastBefore(z, k, kex, se, al)
    requires forall i :: ke < i <= se ==> Mag(z[i], al) == 0
    ensures Says(RefineSeek(q, z, k, ke, kex, se, al), RefineSeekFacts(q, z, k + 1, se, al))
    decreases se - k, 0
  {
    hide Mag, Says, RefineFrom, RefineFacts;
    var m := Mag(z[k + 1], al);
    CoefMag(z, k + 1, al);
    if m > 1 {
      var e, f := Ac(q, 3 * k + 2, m % 2), Fact(AcMore(q.acTbl, k + 1), m % 2);
      SaysOne(e, f);
      RefineSaid(q, z, k + 1, ke, kex, se, al);
      SaysJoin([e], [f], RefineFrom(q, z, k + 1, ke, kex, se, al), RefineFacts(q, z, k + 2, se, al));
    } else {
      var e, f := Ac(q, 3 * k + 1, m), Fact(AcNonzero(q.acTbl, k + 1), m);
      SaysOne(e, f);
      if m == 0 {
        RefineSeekSaid(q, z, k + 1, ke, kex, se, al);
        SaysJoin([e], [f], RefineSeek(q, z, k + 1, ke, kex, se, al), RefineSeekFacts(q, z, k + 2, se, al));
      } else {
        var e', f' := Decision(FixedBin, SignBit(z[k + 1])), Fact(Even, Answer(z[k + 1] < 0));
        var es, fs := RefineFrom(q, z, k + 1, ke, kex, se, al), RefineFacts(q, z, k + 2, se, al);
        SaysOne(e', f');
        RefineSaid(q, z, k + 1, ke, kex, se, al);
        SaysJoin([e'], [f'], es, fs);
        SaysJoin([e], [f], [e'] + es, [f'] + fs);
      }
    }
  }

  // ----- blocks

  /** The coder's contexts are those of the last differences. */
  predicate Follows(qs: seq<Conditioning>, dc: Prediction, h: History) {
    && ValidPrediction(dc, |qs|) && ValidHistory(h, |qs|) && dc.lastDc == h.lastDc
    && forall i :: 0 <= i < |qs| ==> dc.ctx[i] == DcContextAfter(qs[i], h.diff[i])
  }

  lemma StartFollows(qs: seq<Conditioning>)
    ensures Follows(qs, NoPrediction(|qs|), NoHistory(|qs|))
  {
  }

  lemma DcStepSaid(qs: seq<Conditioning>, dc: Prediction, h: History, ci: nat, m: int)
    requires Follows(qs, dc, h) && ci < |qs| && DiffFits(dc, ci, m)
    ensures var (es, dc') := DcStep(qs, dc, ci, m);
            var (fs, h') := DcBlockFacts(qs, h, ci, m);
            Says(es, fs) && Follows(qs, dc', h')
  {
    hide DcDecisions, DcFacts, DcContextAfter, Says;
    DcSaid(qs[ci], h.diff[ci], m - h.lastDc[ci]);
  }

  lemma EobLast(z: Block, k: nat, se: nat, al: nat)
    requires se < 64
    ensures var ke := EobIndex(z, se, al); k < ke ==> Mag(z[ke], al) > 0
    ensures forall i :: EobIndex(z, se, al) < i <= se ==> Mag(z[i], al) == 0
  {
  }

  lemma BlockSaid(kind: Kind, qs: seq<Conditioning>, dc: Prediction, h: History, b: McuBlock)
    requires ValidKind(kind) && Follows(qs, dc, h) && b.ci < |qs| && Coefs(b.z) && BlockFits(kind, dc, b)
    ensures var (es, dc') := BlockDecisions(kind, qs, dc, b);
            var (fs, h') := BlockFacts(kind, qs, h, b);
            Says(es, fs) && Follows(qs, dc', h')
  {
    hide Says, Follows, DcStep, DcBlockFacts, DiffFits, AcFrom, BandFacts, RefineFrom, RefineFacts, Mag, EobIndex, DcShift,
      BitAt;
    assert ValidPrediction(dc, |qs|) && ValidHistory(h, |qs|) by { FollowsParts(qs, dc, h); }
    var q, z := qs[b.ci], b.z;
    match kind
    case Sequential(limSe) =>
      DcStepSaid(qs, dc, h, b.ci, z[0]);
      EobLast(z, 0, limSe, 0);
      BandSaid(q, z, 0, EobIndex(z, limSe, 0), limSe, 0);
      SaysJoin(DcStep(qs, dc, b.ci, z[0]).0, DcBlockFacts(qs, h, b.ci, z[0]).0,
               BandDecisions(q, z, 1, limSe, 0), BandFacts(q, z, 1, limSe, 0));
    case DcFirst(al) => DcStepSaid(qs, dc, h, b.ci, DcShift(z[0], al));
    case AcFirst(ss, se, al) =>
      EobLast(z, ss - 1, se, al);
      BandSaid(q, z, ss - 1, EobIndex(z, se, al), se, al);
    case DcRefine(al) =>
      SaysOne(Decision(FixedBin, BitAt(z[0], al)), Fact(Even, BitAt(z[0], al)));
    case AcRefine(ss, se, al) =>
      RefineStart(z, ss - 1, se, al);
      var ke := EobIndex(z, se, al);
      RefineSaid(q, z, ss - 1, ke, EobIndex(z, ke, al + 1), se, al);
  }

  lemma FollowsParts(qs: seq<Conditioning>, dc: Prediction, h: History)
    requires Follows(qs, dc, h)
    ensures ValidPrediction(dc, |qs|) && ValidHistory(h, |qs|)
  {
  }

  /** What is zero at one bit position is zero at the one above. */
  lemma RefineStart(z: Block, k: nat, se: nat, al: nat)
    requires se < 64 && Coefs(z)
    ensures var ke := EobIndex(z, se, al);
            && (k < ke ==> Mag(z[ke], al) > 0) && (forall i :: ke < i <= se ==> Mag(z[i], al) == 0)
            && LastBefore(z, k, EobIndex(z, ke, al + 1), se, al)
  {
    hide Mag;
    var ke := EobIndex(z, se, al);
    forall i | ke < i <= se ensures Mag(z[i], al + 1) == 0 { NextBit(z[i], al); }
  }

  lemma {:induction false} BlocksSaid(kind: Kind, qs: seq<Conditioning>, dc: Prediction, h: History, bs: seq<McuBlock>)
    requires ValidKind(kind) && Follows(qs, dc, h) && ValidMcu(bs, |qs|)
    requires ValidPrediction(dc, |qs|) && BlocksFit(kind, qs, dc, bs)
    requires forall i :: 0 <= i < |bs| ==> Coefs(bs[i].z)
    ensures var (es, dc') := BlocksDecisions(kind, qs, dc, bs);
            var (fs, h') := BlocksFacts(kind, qs, h, bs);
            Says(es, fs) && Follows(qs, dc', h')
    decreases |bs|
  {
    hide Says, Follows, BlockDecisions, BlockFacts, BlockFits, Coefs;
    FollowsParts(qs, dc, h);
    if bs == [] {
      SaysNone();
    } else {
      BlockSaid(kind, qs, dc, h, bs[0]);
      var (es, dc1) := BlockDecisions(kind, qs, dc, bs[0]);
      var (fs, h1) := BlockFacts(kind, qs, h, bs[0]);
      BlocksSaid(kind, qs, dc1, h1, bs[1..]);
      SaysJoin(es, fs, BlocksDecisions(kind, qs, dc1, bs[1..]).0, BlocksFacts(kind, qs, h1, bs[1..]).0);
    }
  }

  /**
   All decisions of a segment, whatever its blocks: they answer the questions of the
   standard in order, stay inside their areas, and share a bin exactly if they ask
   the same question.
   */
  lemma BinsShared(kind: Kind, qs: seq<Conditioning>, bs: seq<McuBlock>)
    requires ValidKind(kind) && ValidMcu(bs, |qs|) && BlocksFit(kind, qs, NoPrediction(|qs|), bs)
    requires forall i :: 0 <= i < |bs| ==> Coefs(bs[i].z)
    ensures var es, fs := BlocksDecisions(kind, qs, NoPrediction(|qs|), bs).0, BlocksFacts(kind, qs, NoHistory(|qs|), bs).0;
            && |es| == |fs|
            && (forall i :: 0 <= i < |es| ==> es[i].bit == fs[i].bit && InArea(es[i].bin))
            && (forall i, j :: 0 <= i < |es| && 0 <= j < |es| ==> (es[i].bin == es[j].bin <==> fs[i].role == fs[j].role))
  {
    hide Follows, BlocksDecisions, BlocksFacts, BlocksFit, Coefs, BinOf, ValidRole, InArea;
    StartFollows(qs);
    BlocksSaid(kind, qs, NoPrediction(|qs|), NoHistory(|qs|), bs);
    var es, fs := BlocksDecisions(kind, qs, NoPrediction(|qs|), bs).0, BlocksFacts(kind, qs, NoHistory(|qs|), bs).0;
    forall i, j | 0 <= i < |es| && 0 <= j < |es|
      ensures es[i].bin == es[j].bin <==> fs[i].role == fs[j].role
      ensures InArea(es[i].bin)
    {
      BinsApart(fs[i].role, fs[j].role);
    }
  }

  /** One beyond the range, the category reaches the bin of the lower bits of a difference of 3. */
  lemma RangeNeeded(q: Conditioning, ctx: nat)
    ensures var es, fs := DcDecisions(q, ctx, 0x8001), DcDecisions(q, ctx, 3);
            |es| > 18 && |fs| > 5 && es[18].bin == fs[5].bin
  {
    hide Pow2, Pattern, Ones, Log2;
    Pow2Masks();
    Log2Is(0x8000, 15);
    Log2Is(2, 1);
    OnesAre(true, q.dcTbl, X1, 15);
    OnesAre(true, q.dcTbl, X1, 1);
    PatternIs(DcBin(q.dcTbl, X1 + 29), 0x8000, 15);
    PatternIs(DcBin(q.dcTbl, X1 + 15), 2, 1);
  }

  lemma Log2Is(w: nat, n: nat)
    requires w > 0 && Pow2(n) <= w < 2 * Pow2(n)
    ensures Log2(w) == n
  {
    if n < Log2(w) {
      Pow2Monotone(n + 1, Log2(w));
    } else if Log2(w) < n {
      Pow2Monotone(Log2(w) + 1, n);
    }
  }
}
