/**
 The recommended progressive script (jpeg_simple_progression in jcparam.c):
 the array fillers, and that the script they write is accepted and complete.
 */
module SimpleProgression {
  import opened ScanScript

  datatype Phase = Phase(ss: int, se: int, ah: int, al: int)

  function Scan(comps: seq<int>, p: Phase): ScanInfo {
    ScanInfo(comps, p.ss, p.se, p.ah, p.al)
  }

  /** One scan for each component from `ci` on. */
  function EachFrom(ci: nat, n: nat, p: Phase): (r: seq<ScanInfo>)
    requires ci <= n
    ensures |r| == n - ci
    decreases n - ci
  {
    if ci == n then [] else [Scan([ci], p)] + EachFrom(ci + 1, n, p)
  }

  function AllComps(n: nat): (r: seq<int>)
    ensures |r| == n && forall i :: 0 <= i < n ==> r[i] == i
  {
    seq(n, i => i)
  }

  /** An interleaved scan of all components if they fit in one, else a scan each. */
  function DcScans(n: nat, ah: int, al: int): seq<ScanInfo> {
    if n <= MAX_COMPS_IN_SCAN then [Scan(AllComps(n), Phase(0, 0, ah, al))] else EachFrom(0, n, Phase(0, 0, ah, al))
  }

  function One(ci: int, ss: int, se: int, ah: int, al: int): seq<ScanInfo> {
    [Scan([ci], Phase(ss, se, ah, al))]
  }

  /** Custom script for three-component luminance-chrominance images. */
  function YccScript(): seq<ScanInfo> {
    DcScans(3, 0, 1) +
    One(0, 1, 5, 0, 2) + One(2, 1, 63, 0, 1) + One(1, 1, 63, 0, 1) + One(0, 6, 63, 0, 2) + One(0, 1, 63, 2, 1) +
    DcScans(3, 1, 0) +
    One(2, 1, 63, 1, 0) + One(1, 1, 63, 1, 0) + One(0, 1, 63, 1, 0)
  }

  /** All-purpose script. */
  function GeneralScript(n: nat): seq<ScanInfo> {
    DcScans(n, 0, 1) +
    EachFrom(0, n, Phase(1, 5, 0, 2)) + EachFrom(0, n, Phase(6, 63, 0, 2)) + EachFrom(0, n, Phase(1, 63, 2, 1)) +
    DcScans(n, 1, 0) +
    EachFrom(0, n, Phase(1, 63, 1, 0))
  }

  function Recommended(n: nat, ycc: bool): seq<ScanInfo> {
    if n == 3 && ycc then YccScript() else GeneralScript(n)
  }

  // ----- the fillers

  method FillAScan(a: array<ScanInfo>, at: nat, ci: int, ss: int, se: int, ah: int, al: int) returns (next: nat)
    requires at < a.Length
    modifies a
    ensures next == at + 1 && a[..next] == old(a[..at]) + One(ci, ss, se, ah, al)
  {
    a[at] := ScanInfo([ci], ss, se, ah, al);
    next := at + 1;
  }

  lemma {:induction false} EachAppend(ci: nat, n: nat, p: Phase)
    requires ci <= n
    ensures EachFrom(ci, n + 1, p) == EachFrom(ci, n, p) + [Scan([n], p)]
    decreases n - ci
  {
    if ci == n {
      assert EachFrom(n + 1, n + 1, p) == [];
    } else {
      EachAppend(ci + 1, n, p);
    }
  }

  method FillScans(a: array<ScanInfo>, at: nat, n: nat, ss: int, se: int, ah: int, al: int) returns (next: nat)
    requires at + n <= a.Length
    modifies a
    ensures next == at + n && a[..next] == old(a[..at]) + EachFrom(0, n, Phase(ss, se, ah, al))
  {
    next := at;
    var ci := 0;
    while ci < n
      invariant 0 <= ci <= n && next == at + ci
      invariant a[..next] == old(a[..at]) + EachFrom(0, ci, Phase(ss, se, ah, al))
    {
      EachAppend(0, ci, Phase(ss, se, ah, al));
      a[next] := ScanInfo([ci], ss, se, ah, al);
      next := next + 1;
      assert a[..next] == a[..next - 1] + [a[next - 1]];
      ci := ci + 1;
    }
  }

  method FillDcScans(a: array<ScanInfo>, at: nat, n: nat, ah: int, al: int) returns (next: nat)
    requires at + |DcScans(n, ah, al)| <= a.Length
    modifies a
    ensures next == at + |DcScans(n, ah, al)| && a[..next] == old(a[..at]) + DcScans(n, ah, al)
  {
    if n <= MAX_COMPS_IN_SCAN {
      var comps: seq<int> := [];
      var ci := 0;
      while ci < n
        invariant 0 <= ci <= n && |comps| == ci && forall i :: 0 <= i < ci ==> comps[i] == i
      {
        comps := comps + [ci];
        ci := ci + 1;
      }
      assert comps == AllComps(n);
      a[at] := ScanInfo(comps, 0, 0, ah, al);
      next := at + 1;
    } else {
      next := FillScans(a, at, n, 0, 0, ah, al);
    }
  }

  lemma ScriptSizes(n: nat)
    ensures |YccScript()| == 10
    ensures |GeneralScript(n)| == if n > MAX_COMPS_IN_SCAN then 6 * n else 2 + 4 * n
  {
  }

  method FillYcc(a: array<ScanInfo>)
    requires a.Length >= 10
    modifies a
    ensures a[..10] == YccScript()
  {
    hide EachFrom, One;
    var at := FillDcScans(a, 0, 3, 0, 1);
    assert a[..at] == DcScans(3, 0, 1);
    at := FillAScan(a, at, 0, 1, 5, 0, 2);
    at := FillAScan(a, at, 2, 1, 63, 0, 1);
    at := FillAScan(a, at, 1, 1, 63, 0, 1);
    at := FillAScan(a, at, 0, 6, 63, 0, 2);
    at := FillAScan(a, at, 0, 1, 63, 2, 1);
    at := FillDcScans(a, at, 3, 1, 0);
    at := FillAScan(a, at, 2, 1, 63, 1, 0);
    at := FillAScan(a, at, 1, 1, 63, 1, 0);
    at := FillAScan(a, at, 0, 1, 63, 1, 0);
  }

  method FillGeneral(a: array<ScanInfo>, n: nat)
    requires a.Length >= |GeneralScript(n)|
    modifies a
    ensures a[..|GeneralScript(n)|] == GeneralScript(n)
  {
    hide EachFrom, DcScans;
    var at := FillDcScans(a, 0, n, 0, 1);
    assert a[..at] == DcScans(n, 0, 1);
    at := FillScans(a, at, n, 1, 5, 0, 2);
    at := FillScans(a, at, n, 6, 63, 0, 2);
    at := FillScans(a, at, n, 1, 63, 2, 1);
    at := FillDcScans(a, at, n, 1, 0);
    at := FillScans(a, at, n, 1, 63, 1, 0);
  }

  /**
   Writes the recommended script, in the space of an earlier one when that is
   large enough. The space figured beforehand is exactly what the fillers use.
   */
  method SimpleProgression(space: array?<ScanInfo>, n: nat, ycc: bool) returns (script: array<ScanInfo>, nscans: nat)
    modifies space
    ensures nscans == |Recommended(n, ycc)| <= script.Length && script[..nscans] == Recommended(n, ycc)
    ensures script == space || fresh(script)
  {
    ScriptSizes(n);
    if n == 3 && ycc {
      nscans := 10;
    } else if n > MAX_COMPS_IN_SCAN {
      nscans := 6 * n;
    } else {
      nscans := 2 + 4 * n;
    }
    if space == null || space.Length < nscans {
      script := new ScanInfo[if nscans > 10 then nscans else 10](_ => ScanInfo([], 0, 0, 0, 0));
    } else {
      script := space;
    }
    if n == 3 && ycc {
      FillYcc(script);
    } else {
      FillGeneral(script, n);
    }
  }

  // ----- the recommended script is accepted, and sends everything

  lemma ScansConcat(h: History, a: seq<ScanInfo>, b: seq<ScanInfo>, maxAl: int)
    requires ScansOk(h, a, maxAl) && ScansOk(After(h, a), b, maxAl)
    ensures ScansOk(h, a + b, maxAl) && After(h, a + b) == After(After(h, a), b)
  {
    assert (a + b)[..|a|] == a && (a + b)[|a|..] == b;
    OkAppend(h, a + b, |a|, maxAl);
  }

  predicate PhaseOk(p: Phase, maxAl: int) {
    0 <= p.ss <= p.se < DCTSIZE2 && 0 <= p.ah <= maxAl && 0 <= p.al <= maxAl && (p.ss == 0 ==> p.se == 0)
  }

  /** Component `c` is ready for phase `p`. */
  predicate Prepared(h: History, c: int, p: Phase)
    requires 0 <= c < |h|
  {
    CompHistoryOk(h, Scan([c], p), c)
  }

  function Sent(row: seq<int>, p: Phase): seq<int>
    requires |row| == DCTSIZE2
  {
    UpdateRow(row, Scan([], p))
  }

  lemma {:induction false} EachOk(h: History, ci: nat, p: Phase, maxAl: int)
    requires ci <= |h| && PhaseOk(p, maxAl)
    requires forall c :: ci <= c < |h| ==> Prepared(h, c, p)
    ensures ScansOk(h, EachFrom(ci, |h|, p), maxAl)
    ensures var g := After(h, EachFrom(ci, |h|, p));
            forall c :: 0 <= c < |h| ==> g[c] == if c < ci then h[c] else Sent(h[c], p)
    decreases |h| - ci
  {
    if ci < |h| {
      var s, rest := Scan([ci], p), EachFrom(ci + 1, |h|, p);
      assert ([s] + rest)[1..] == rest;
      assert Prepared(h, ci, p);
      assert s.comps[0] == ci;
      assert ScanOk(h, s, maxAl);
      var h' := Update(h, s);
      forall c | ci + 1 <= c < |h| ensures Prepared(h', c, p) {
        assert Prepared(h, c, p) && h'[c] == h[c];
      }
      assert h'[ci] == Sent(h[ci], p);
      EachOk(h', ci + 1, p, maxAl);
    } else {
      assert EachFrom(ci, |h|, p) == [];
    }
  }

  function AllSentIn(h: History, p: Phase): (g: History)
    ensures |g| == |h|
  {
    seq(|h|, c requires 0 <= c < |h| => Sent(h[c], p))
  }

  lemma EachPhase(h: History, p: Phase, maxAl: int)
    requires PhaseOk(p, maxAl) && forall c :: 0 <= c < |h| ==> Prepared(h, c, p)
    ensures ScansOk(h, EachFrom(0, |h|, p), maxAl) && After(h, EachFrom(0, |h|, p)) == AllSentIn(h, p)
  {
    EachOk(h, 0, p, maxAl);
  }

  lemma DcPhase(h: History, ah: int, al: int, maxAl: int)
    requires var p := Phase(0, 0, ah, al); PhaseOk(p, maxAl) && |h| > 0 && forall c :: 0 <= c < |h| ==> Prepared(h, c, p)
    ensures ScansOk(h, DcScans(|h|, ah, al), maxAl)
    ensures After(h, DcScans(|h|, ah, al)) == AllSentIn(h, Phase(0, 0, ah, al))
  {
    var p := Phase(0, 0, ah, al);
    if |h| <= MAX_COMPS_IN_SCAN {
      var s := Scan(AllComps(|h|), p);
      forall i | 0 <= i < |s.comps| ensures CompHistoryOk(h, s, s.comps[i]) {
        assert Prepared(h, i, p);
      }
      forall c | 0 <= c < |h| ensures Update(h, s)[c] == Sent(h[c], p) {
        assert AllComps(|h|)[c] == c;
      }
      assert Update(h, s) == AllSentIn(h, p);
      assert [s][1..] == [] && After(Update(h, s), []) == Update(h, s);
    } else {
      EachPhase(h, p, maxAl);
    }
  }

  /** Bit positions of DC, of coefficients 1 to 5, and of the rest. */
  datatype Levels = Levels(dc: int, low: int, high: int)

  function Row(l: Levels): (r: seq<int>)
    ensures |r| == DCTSIZE2
  {
    seq(DCTSIZE2, k => if k == 0 then l.dc else if k <= 5 then l.low else l.high)
  }

  /** The four bands of the recommended scripts. */
  predicate Banded(p: Phase) {
    (p.ss, p.se) == (0, 0) || (p.ss, p.se) == (1, 5) || (p.ss, p.se) == (6, 63) || (p.ss, p.se) == (1, 63)
  }

  function Raised(l: Levels, p: Phase): Levels {
    Levels(if p.ss == 0 then p.al else l.dc,
           if p.ss == 1 then p.al else l.low,
           if p.se == 63 then p.al else l.high)
  }

  predicate NextBit(p: Phase, last: int) {
    if last < 0 then p.ah == 0 else p.ah == last && p.al == p.ah - 1
  }

  predicate Fits(l: Levels, p: Phase, maxAl: int) {
    && Banded(p) && 0 <= p.ah <= maxAl && 0 <= p.al <= maxAl
    && (if p.ss == 0 then NextBit(p, l.dc) else l.dc >= 0)
    && (p.ss == 1 ==> NextBit(p, l.low))
    && (p.se == 63 ==> NextBit(p, l.high))
  }

  lemma RowRaised(l: Levels, p: Phase)
    requires Banded(p)
    ensures Sent(Row(l), p) == Row(Raised(l, p))
  {
  }

  lemma RowPrepared(h: History, c: nat, l: Levels, p: Phase, maxAl: int)
    requires c < |h| && h[c] == Row(l) && Fits(l, p, maxAl)
    ensures Prepared(h, c, p) && PhaseOk(p, maxAl)
  {
    assert h[c][0] == l.dc;
  }

  function Level(n: nat, l: Levels): (h: History)
    ensures |h| == n
  {
    seq(n, c => Row(l))
  }

  /** Adding a phase of scans of every component to a script under way. */
  lemma LevelStep(n: nat, done: seq<ScanInfo>, l: Levels, p: Phase, maxAl: int)
    requires n > 0 && Fits(l, p, maxAl)
    requires ScansOk(NothingSent(n), done, maxAl) && After(NothingSent(n), done) == Level(n, l)
    ensures var phase := if p.ss == 0 then DcScans(n, p.ah, p.al) else EachFrom(0, n, p);
            && ScansOk(NothingSent(n), done + phase, maxAl)
            && After(NothingSent(n), done + phase) == Level(n, Raised(l, p))
  {
    assert Banded(p);
    hide EachFrom, DcScans, ScansOk, After, Row, Sent, Raised, Fits, Prepared, PhaseOk;
    var h := Level(n, l);
    forall c | 0 <= c < n ensures Prepared(h, c, p) {
      RowPrepared(h, c, l, p, maxAl);
    }
    RowPrepared(h, 0, l, p, maxAl);
    RowRaised(l, p);
    assert AllSentIn(h, p) == Level(n, Raised(l, p));
    if p.ss == 0 {
      assert p == Phase(0, 0, p.ah, p.al);
      DcPhase(h, p.ah, p.al, maxAl);
      ScansConcat(NothingSent(n), done, DcScans(n, p.ah, p.al), maxAl);
    } else {
      EachPhase(h, p, maxAl);
      ScansConcat(NothingSent(n), done, EachFrom(0, n, p), maxAl);
    }
  }

  lemma GeneralOk(n: nat, maxAl: int)
    requires n > 0 && maxAl >= 2
    ensures ScansOk(NothingSent(n), GeneralScript(n), maxAl)
    ensures After(NothingSent(n), GeneralScript(n)) == Level(n, Levels(0, 0, 0))
  {
    hide EachFrom, DcScans, ScansOk, Level, After;
    var a, b := DcScans(n, 0, 1), EachFrom(0, n, Phase(1, 5, 0, 2));
    var c, d := EachFrom(0, n, Phase(6, 63, 0, 2)), EachFrom(0, n, Phase(1, 63, 2, 1));
    var e := DcScans(n, 1, 0);
    Start(n, maxAl);
    LevelStep(n, [], Levels(-1, -1, -1), Phase(0, 0, 0, 1), maxAl);
    assert [] + a == a;
    LevelStep(n, a, Levels(1, -1, -1), Phase(1, 5, 0, 2), maxAl);
    LevelStep(n, a + b, Levels(1, 2, -1), Phase(6, 63, 0, 2), maxAl);
    LevelStep(n, a + b + c, Levels(1, 2, 2), Phase(1, 63, 2, 1), maxAl);
    LevelStep(n, a + b + c + d, Levels(1, 1, 1), Phase(0, 0, 1, 0), maxAl);
    LevelStep(n, a + b + c + d + e, Levels(0, 1, 1), Phase(1, 63, 1, 0), maxAl);
  }

  lemma Start(n: nat, maxAl: int)
    ensures ScansOk(NothingSent(n), [], maxAl) && After(NothingSent(n), []) == Level(n, Levels(-1, -1, -1))
  {
    assert Row(Levels(-1, -1, -1)) == seq(DCTSIZE2, k => -1);
    assert NothingSent(n) == Level(n, Levels(-1, -1, -1));
  }

  function Rows(y: Levels, cb: Levels, cr: Levels): (h: History)
    ensures |h| == 3
  {
    [Row(y), Row(cb), Row(cr)]
  }

  /** Adding a scan of one component to a script of three. */
  lemma RowsStep(done: seq<ScanInfo>, y: Levels, cb: Levels, cr: Levels, ci: nat, p: Phase, maxAl: int)
    requires ci < 3 && Fits([y, cb, cr][ci], p, maxAl)
    requires ScansOk(NothingSent(3), done, maxAl) && After(NothingSent(3), done) == Rows(y, cb, cr)
    ensures var next, phase := [y, cb, cr][ci := Raised([y, cb, cr][ci], p)], One(ci, p.ss, p.se, p.ah, p.al);
            && ScansOk(NothingSent(3), done + phase, maxAl)
            && After(NothingSent(3), done + phase) == Rows(next[0], next[1], next[2])
  {
    assert Banded(p);
    hide ScansOk, After, Row, Sent, Raised, Fits, Prepared, PhaseOk;
    var h, l := Rows(y, cb, cr), [y, cb, cr][ci];
    assert h[ci] == Row(l);
    RowPrepared(h, ci, l, p, maxAl);
    RowRaised(l, p);
    OneOk(h, ci, p, maxAl);
    ScansConcat(NothingSent(3), done, One(ci, p.ss, p.se, p.ah, p.al), maxAl);
  }

  lemma OneOk(h: History, ci: nat, p: Phase, maxAl: int)
    requires ci < |h| && PhaseOk(p, maxAl) && Prepared(h, ci, p)
    ensures ScansOk(h, One(ci, p.ss, p.se, p.ah, p.al), maxAl)
    ensures After(h, One(ci, p.ss, p.se, p.ah, p.al)) == h[ci := Sent(h[ci], p)]
  {
    var s := Scan([ci], p);
    assert s.comps[0] == ci;
    assert [s][1..] == [];
    assert Update(h, s) == h[ci := Sent(h[ci], p)];
  }

  lemma YccOk(maxAl: int)
    requires maxAl >= 2
    ensures ScansOk(NothingSent(3), YccScript(), maxAl)
    ensures After(NothingSent(3), YccScript()) == Level(3, Levels(0, 0, 0))
  {
    hide One, EachFrom, ScansOk, After, Row, DcScans;
    var none, l1, l2 := Levels(-1, -1, -1), Levels(1, -1, -1), Levels(1, 2, -1);
    var m, z := Levels(1, 1, 1), Levels(0, 1, 1);
    var zero := Levels(0, 0, 0);
    Start(3, maxAl);
    LevelStep(3, [], none, Phase(0, 0, 0, 1), maxAl);
    var s := DcScans(3, 0, 1);
    assert [] + s == s;
    assert Level(3, l1) == Rows(l1, l1, l1);
    RowsStep(s, l1, l1, l1, 0, Phase(1, 5, 0, 2), maxAl);
    s := s + One(0, 1, 5, 0, 2);
    RowsStep(s, l2, l1, l1, 2, Phase(1, 63, 0, 1), maxAl);
    s := s + One(2, 1, 63, 0, 1);
    RowsStep(s, l2, l1, m, 1, Phase(1, 63, 0, 1), maxAl);
    s := s + One(1, 1, 63, 0, 1);
    RowsStep(s, l2, m, m, 0, Phase(6, 63, 0, 2), maxAl);
    s := s + One(0, 6, 63, 0, 2);
    RowsStep(s, Levels(1, 2, 2), m, m, 0, Phase(1, 63, 2, 1), maxAl);
    s := s + One(0, 1, 63, 2, 1);
    assert Rows(m, m, m) == Level(3, m);
    LevelStep(3, s, m, Phase(0, 0, 1, 0), maxAl);
    s := s + DcScans(3, 1, 0);
    assert Level(3, z) == Rows(z, z, z);
    RowsStep(s, z, z, z, 2, Phase(1, 63, 1, 0), maxAl);
    s := s + One(2, 1, 63, 1, 0);
    RowsStep(s, z, z, zero, 1, Phase(1, 63, 1, 0), maxAl);
    s := s + One(1, 1, 63, 1, 0);
    RowsStep(s, z, zero, zero, 0, Phase(1, 63, 1, 0), maxAl);
    s := s + One(0, 1, 63, 1, 0);
    assert Rows(zero, zero, zero) == Level(3, zero);
    assert s == YccScript();
  }

  /**
   The recommended script is accepted for any number of components and any data
   precision, and sends every bit of every coefficient exactly once.
   */
  lemma RecommendedComplete(n: nat, ycc: bool, precision: int)
    requires n > 0
    ensures var script := Recommended(n, ycc);
            && Accepted(script, n, precision) && IsProgressive(script)
            && (forall c, k :: 0 <= c < n && 0 <= k < DCTSIZE2 ==> After(NothingSent(n), script)[c][k] == 0)
            && (forall c: nat, k: nat, b: nat :: c < n && k < DCTSIZE2 ==> TimesSent(script, c, k, b) == 1)
  {
    hide ScansOk, After, TimesSent, EachFrom;
    var script, m := Recommended(n, ycc), MaxAl(precision);
    if n == 3 && ycc {
      YccOk(m);
    } else {
      GeneralOk(n, m);
    }
    FirstScanDc(n, ycc);
    assert Accepted(script, n, precision);
    forall c: nat, k: nat, b: nat | c < n && k < DCTSIZE2 ensures TimesSent(script, c, k, b) == 1 {
      EachBitOnce(NothingSent(n), script, m, c, k, b);
    }
  }

  lemma FirstScanDc(n: nat, ycc: bool)
    requires n > 0
    ensures var script := Recommended(n, ycc); script != [] && script[0].ss == 0 && script[0].se == 0
  {
    assert DcScans(n, 0, 1) != [] && DcScans(n, 0, 1)[0].se == 0;
  }
}
